/** Strongly connected components (src/cfg/sccs.cc): Tarjan's algorithm with the twist that a
    block on no cycle gets the number -1, and its correctness for every graph. */
module Sccs {
  import opened Graph

  /** The bookkeeping of the search as a value. */
  datatype Search = Search(index: map<nat, nat>, stack: seq<nat>, next: nat)

  // ----- Invariants of the search -----

  /** Indices are distinct and grow along the stack; a visited block is either on the stack or done. */
  ghost predicate Shape(g: Cfg, s: Search, done: set<nat>) {
    && (forall b :: b in s.index ==> b < g.Size() && s.index[b] < s.next)
    && (forall i :: 0 <= i < |s.stack| ==> s.stack[i] in s.index && s.stack[i] !in done)
    && (forall i, j :: 0 <= i < j < |s.stack| ==> s.index[s.stack[i]] < s.index[s.stack[j]])
    && (forall b :: b in s.index <==> b in s.stack || b in done)
  }

  /** Blocks whose visit is over (visited, not gray) lead to visited blocks only. */
  ghost predicate NoWhiteSuccessors(g: Cfg, s: Search, gray: set<nat>) {
    forall a, b :: a in s.index && a !in gray && g.Edge(a, b) ==> b in s.index
  }

  /** Each block on the stack reaches the blocks above it. */
  ghost predicate Ordered(g: Cfg, s: Search) {
    forall i, j :: 0 <= i <= j < |s.stack| ==> Reach(g, s.stack[i], s.stack[j])
  }

  /** Some gray block at or below position j is reached from there. */
  ghost predicate Anchored(g: Cfg, s: Search, gray: set<nat>, j: nat)
    requires j < |s.stack|
  {
    exists i :: 0 <= i <= j && s.stack[i] in gray && Reach(g, s.stack[j], s.stack[i])
  }

  ghost predicate AllAnchored(g: Cfg, s: Search, gray: set<nat>) {
    forall j :: 0 <= j < |s.stack| ==> Anchored(g, s, gray, j)
  }

  ghost predicate Inv(g: Cfg, s: Search, done: set<nat>, gray: set<nat>) {
    && Shape(g, s, done)
    && (forall b :: b in gray ==> b in s.stack)
    && NoWhiteSuccessors(g, s, gray)
    && Closed(g, done)
    && Ordered(g, s)
    && AllAnchored(g, s, gray)
  }

  /** The numbering is right for the blocks that have one: -1 exactly off cycles, and equal
      non-negative numbers exactly for blocks that reach each other. */
  ghost predicate Labels(g: Cfg, sccs: map<nat, int>, count: nat) {
    && (forall b :: b in sccs ==> -1 <= sccs[b] < count && (sccs[b] == -1 <==> !OnCycle(g, b)))
    && (forall a, b :: a in sccs && b in sccs && sccs[a] >= 0 ==>
          (sccs[a] == sccs[b] <==> Reach(g, a, b) && Reach(g, b, a)))
  }

  ghost predicate NoDuplicates(s: seq<nat>) {
    forall i, j :: 0 <= i < j < |s| ==> s[i] != s[j]
  }

  /** The block lists partition the numbered blocks. */
  ghost predicate Lists(sccs: map<nat, int>, blocks: map<nat, seq<nat>>, count: nat) {
    && (forall k: nat :: k in blocks <==> k < count)
    && (forall k :: k in blocks ==> |blocks[k]| > 0 && NoDuplicates(blocks[k]))
    && (forall k, b :: k in blocks ==> (b in blocks[k] <==> b in sccs && sccs[b] == k))
  }

  /** The recorded low link is the index of a stack block that `node` reaches. */
  ghost predicate LowLink(g: Cfg, s: Search, node: nat, low: nat) {
    exists j :: 0 <= j < |s.stack| && s.stack[j] in s.index && s.index[s.stack[j]] == low && Reach(g, node, s.stack[j])
  }

  /** Edges from the stack above `base` into `base` are accounted for by `low`. */
  ghost predicate Crossing(g: Cfg, s: Search, base: seq<nat>, from: nat, low: nat) {
    forall i, b :: from <= i < |s.stack| && g.Edge(s.stack[i], b) && b in base && b in s.index ==> low <= s.index[b]
  }

  // ----- Visiting a block -----

  function Push(s: Search, node: nat): Search {
    Search(s.index[node := s.next], s.stack + [node], s.next + 1)
  }

  lemma Anchor(g: Cfg, s: Search, gray: set<nat>, j: nat) returns (i: nat)
    requires AllAnchored(g, s, gray) && j < |s.stack|
    ensures i <= j && s.stack[i] in gray && Reach(g, s.stack[j], s.stack[i])
  {
    assert Anchored(g, s, gray, j);
    i :| 0 <= i <= j && s.stack[i] in gray && Reach(g, s.stack[j], s.stack[i]);
  }

  lemma VisitStart(g: Cfg, s: Search, done: set<nat>, gray: set<nat>, node: nat)
    requires Inv(g, s, done, gray) && node < g.Size() && node !in s.index
    requires forall x :: x in gray ==> Reach(g, x, node)
    ensures Inv(g, Push(s, node), done, gray + {node})
    ensures LowLink(g, Push(s, node), node, s.next)
  {
    hide Reach;
    var t := Push(s, node);
    ReachSelf(g, node);
    assert t.stack[|s.stack|] == node;
    PushShape(g, s, done, node);
    forall j | 0 <= j < |s.stack|
      ensures Reach(g, s.stack[j], node)
    {
      var i := Anchor(g, s, gray, j);
      ReachTrans(g, s.stack[j], s.stack[i], node);
    }
    PushOrdered(g, s, node);
    PushAnchored(g, s, gray, node);
  }

  lemma PushShape(g: Cfg, s: Search, done: set<nat>, node: nat)
    requires Shape(g, s, done) && node < g.Size() && node !in s.index
    ensures Shape(g, Push(s, node), done)
  {
  }

  lemma PushOrdered(g: Cfg, s: Search, node: nat)
    requires Ordered(g, s) && Reach(g, node, node) && forall j :: 0 <= j < |s.stack| ==> Reach(g, s.stack[j], node)
    ensures Ordered(g, Push(s, node))
  {
    hide Reach;
    var t := Push(s, node);
    forall i, j | 0 <= i <= j < |t.stack|
      ensures Reach(g, t.stack[i], t.stack[j])
    {
      if j < |s.stack| {
        assert Reach(g, s.stack[i], s.stack[j]);
      }
    }
  }

  lemma PushAnchored(g: Cfg, s: Search, gray: set<nat>, node: nat)
    requires AllAnchored(g, s, gray) && Reach(g, node, node)
    ensures AllAnchored(g, Push(s, node), gray + {node})
  {
    hide Reach;
    var t := Push(s, node);
    forall j | 0 <= j < |t.stack|
      ensures Anchored(g, t, gray + {node}, j)
    {
      if j < |s.stack| {
        var i := Anchor(g, s, gray, j);
        assert t.stack[i] == s.stack[i] && t.stack[j] == s.stack[j];
      } else {
        assert t.stack[j] == node;
      }
    }
  }

  /** Leaving a block whose low link is smaller than its index: it stays on the stack. */
  lemma VisitKeep(g: Cfg, s: Search, done: set<nat>, gray: set<nat>, node: nat, m: nat, low: nat)
    requires Inv(g, s, done, gray + {node})
    requires forall b :: b in gray ==> b in s.stack
    requires m < |s.stack| && s.stack[m] == node && low < s.index[node]
    requires LowLink(g, s, node, low)
    requires forall b :: g.Edge(node, b) ==> b in s.index
    ensures Inv(g, s, done, gray)
  {
    KeepAnchored(g, s, done, gray, node, m, low);
  }

  lemma KeepAnchored(g: Cfg, s: Search, done: set<nat>, gray: set<nat>, node: nat, m: nat, low: nat)
    requires Shape(g, s, done) && AllAnchored(g, s, gray + {node})
    requires m < |s.stack| && s.stack[m] == node && low < s.index[node]
    requires LowLink(g, s, node, low)
    ensures AllAnchored(g, s, gray)
  {
    var j :| 0 <= j < |s.stack| && s.stack[j] in s.index && s.index[s.stack[j]] == low && Reach(g, node, s.stack[j]);
    var i := Anchor(g, s, gray + {node}, j);
    Below(g, s, done, j, m);
    Below(g, s, done, i, m);
    ReachTrans(g, node, s.stack[j], s.stack[i]);
    hide Shape, Reach, LowLink;
    forall k | 0 <= k < |s.stack|
      ensures Anchored(g, s, gray, k)
    {
      var h := Anchor(g, s, gray + {node}, k);
      if s.stack[h] == node {
        Below(g, s, done, h, m);
        ReachTrans(g, s.stack[k], node, s.stack[i]);
        assert i <= k;
      }
    }
  }

  /** Positions on the stack are ordered as indices are. */
  lemma Below(g: Cfg, s: Search, done: set<nat>, i: nat, m: nat)
    requires Shape(g, s, done) && i < |s.stack| && m < |s.stack|
    ensures s.index[s.stack[i]] < s.index[s.stack[m]] <==> i < m
    ensures s.stack[i] == s.stack[m] <==> i == m
  {
  }

  /** The blocks from position m up form one component with `node`. */
  lemma ComponentMutual(g: Cfg, s: Search, gray: set<nat>, node: nat, m: nat, y: nat)
    requires Ordered(g, s) && AllAnchored(g, s, gray + {node})
    requires forall x :: x in gray ==> Reach(g, x, node)
    requires m < |s.stack| && s.stack[m] == node
    requires y in s.stack[m..]
    ensures Reach(g, node, y) && Reach(g, y, node)
  {
    var j :| m <= j < |s.stack| && s.stack[j] == y;
    assert Reach(g, s.stack[m], s.stack[j]);
    var i := Anchor(g, s, gray + {node}, j);
    if s.stack[i] != node {
      ReachTrans(g, y, s.stack[i], node);
    }
  }

  function Elements(s: seq<nat>): set<nat> { set b | b in s }

  /** The component is closed up to blocks that are already done. */
  lemma ComponentClosed(g: Cfg, s: Search, done: set<nat>, gray: set<nat>, node: nat, m: nat)
    requires Inv(g, s, done, gray + {node})
    requires m < |s.stack| && s.stack[m] == node
    requires forall b :: b in gray ==> b in s.stack[..m]
    requires forall b :: g.Edge(node, b) ==> b in s.index
    requires Crossing(g, s, s.stack[..m], m, s.index[node])
    ensures Closed(g, done + Elements(s.stack[m..]))
  {
    forall a, b | a in done + Elements(s.stack[m..]) && g.Edge(a, b)
      ensures b in done + Elements(s.stack[m..])
    {
      if a !in done {
        var i :| m <= i < |s.stack| && s.stack[i] == a;
        hide Inv, Crossing;
        StaysInside(g, s, done, gray, node, m, i, b);
      }
    }
  }

  lemma StaysInside(g: Cfg, s: Search, done: set<nat>, gray: set<nat>, node: nat, m: nat, i: nat, b: nat)
    requires Inv(g, s, done, gray + {node})
    requires m <= i < |s.stack| && s.stack[m] == node && g.Edge(s.stack[i], b)
    requires forall b :: b in gray ==> b in s.stack[..m]
    requires forall b :: g.Edge(node, b) ==> b in s.index
    requires Crossing(g, s, s.stack[..m], m, s.index[node])
    ensures b in done || b in s.stack[m..]
  {
    hide AllAnchored, Ordered, Closed;
    NotBelow(g, s, done, i, m);
    assert b in s.index;
    if b !in done {
      var j :| 0 <= j < |s.stack| && s.stack[j] == b;
      Below(g, s, done, j, m);
      InPrefix(s.stack, j, m);
      hide Shape, NoWhiteSuccessors;
      assert j >= m;
      assert s.stack[m..][j - m] == b;
    }
  }

  lemma InPrefix(s: seq<nat>, j: nat, m: nat)
    ensures j < m <= |s| ==> s[j] in s[..m]
  {
    if j < m <= |s| {
      assert s[..m][j] == s[j];
    }
  }

  lemma NotBelow(g: Cfg, s: Search, done: set<nat>, i: nat, m: nat)
    requires Shape(g, s, done) && m <= i < |s.stack|
    ensures s.stack[i] !in s.stack[..m]
  {
    forall k | 0 <= k < m
      ensures s.stack[..m][k] != s.stack[i]
    {
      Below(g, s, done, k, i);
    }
  }

  /** Everything the removal of a component needs, gathered once the successors are scanned and
      the low link equals the index. */
  lemma ReadyToPop(g: Cfg, s: Search, done: set<nat>, gray: set<nat>, base: seq<nat>, node: nat, low: nat)
    requires node < g.Size() && Inv(g, s, done, gray + {node})
    requires forall x :: x in gray ==> Reach(g, x, node) && x in base
    requires Scanning(g, s, base, node, low, g.succs[node], |g.succs[node]|) && low == s.index[node]
    ensures Inv(g, Popped(s, |base|), done + Elements(s.stack[|base|..]), gray)
    ensures Closed(g, done + Elements(s.stack[|base|..]))
    ensures forall y :: y in Elements(s.stack[|base|..]) ==> Reach(g, node, y) && Reach(g, y, node) && y !in done
    ensures node in Elements(s.stack[|base|..])
  {
    hide Reach, LowLink;
    var m := |base|;
    assert s.stack[m..][0] == node;
    AllSuccessorsSeen(g, s, base, node, low);
    WholeCrossing(g, s, base, node, low);
    ComponentClosed(g, s, done, gray, node, m);
    VisitPop(g, s, done, gray, node, m);
    forall y | y in Elements(s.stack[m..])
      ensures Reach(g, node, y) && Reach(g, y, node) && y !in done
    {
      ComponentMutual(g, s, gray, node, m, y);
    }
  }

  lemma AllSuccessorsSeen(g: Cfg, s: Search, base: seq<nat>, node: nat, low: nat)
    requires node < g.Size() && Scanning(g, s, base, node, low, g.succs[node], |g.succs[node]|)
    ensures forall b :: g.Edge(node, b) ==> b in s.index
  {
  }

  lemma WholeCrossing(g: Cfg, s: Search, base: seq<nat>, node: nat, low: nat)
    requires node < g.Size() && Scanning(g, s, base, node, low, g.succs[node], |g.succs[node]|)
    ensures Crossing(g, s, base, |base|, low)
  {
    forall i, b | |base| <= i < |s.stack| && g.Edge(s.stack[i], b) && b in base && b in s.index
      ensures low <= s.index[b]
    {
      if i == |base| {
        var k :| 0 <= k < |g.succs[node]| && g.succs[node][k] == b;
      }
    }
  }

  /** The component is the block alone exactly when the block is on top of the stack. */
  lemma LoneComponent(g: Cfg, s: Search, done: set<nat>, node: nat, m: nat, selfLoop: bool)
    requires Shape(g, s, done) && m < |s.stack| && s.stack[m] == node && s.stack[|s.stack| - 1] == node
    requires Closed(g, done) && Closed(g, done + Elements(s.stack[m..])) && (selfLoop <==> g.Edge(node, node))
    requires g.Valid()
    ensures m == |s.stack| - 1 && Elements(s.stack[m..]) == {node}
    ensures selfLoop <==> OnCycle(g, node)
  {
    Below(g, s, done, m, |s.stack| - 1);
    assert s.stack[m..] == [node];
    if selfLoop {
      ReachSelf(g, node);
      CycleFromEdge(g, node, node);
    } else {
      LoneBlock(g, done, node);
    }
  }

  /** The number the code picks fits the component: -1 only off cycles. */
  lemma ComponentNumber(g: Cfg, s: Search, done: set<nat>, node: nat, m: nat, selfLoop: bool)
    requires g.Valid() && Shape(g, s, done) && m < |s.stack| && s.stack[m] == node
    requires Closed(g, done) && Closed(g, done + Elements(s.stack[m..])) && (selfLoop <==> g.Edge(node, node))
    requires forall y :: y in Elements(s.stack[m..]) ==> Reach(g, node, y) && Reach(g, y, node)
    ensures if s.stack[|s.stack| - 1] == node && !selfLoop
            then Elements(s.stack[m..]) == {node} && !OnCycle(g, node)
            else forall y :: y in Elements(s.stack[m..]) ==> OnCycle(g, y)
  {
    hide Reach, OnCycle;
    var top := s.stack[|s.stack| - 1];
    if top == node {
      LoneComponent(g, s, done, node, m, selfLoop);
    } else {
      assert s.stack[m..][|s.stack| - 1 - m] == top;
      forall y | y in Elements(s.stack[m..])
        ensures OnCycle(g, y)
      {
        SharedCycle(g, node, top, y);
      }
    }
  }

  function Popped(s: Search, m: nat): Search
    requires m <= |s.stack|
  {
    Search(s.index, s.stack[..m], s.next)
  }

  /** Removing a finished component keeps the invariants of the search. */
  lemma VisitPop(g: Cfg, s: Search, done: set<nat>, gray: set<nat>, node: nat, m: nat)
    requires Inv(g, s, done, gray + {node})
    requires m < |s.stack| && s.stack[m] == node
    requires forall b :: b in gray ==> b in s.stack[..m]
    requires forall b :: g.Edge(node, b) ==> b in s.index
    requires Closed(g, done + Elements(s.stack[m..]))
    ensures Inv(g, Popped(s, m), done + Elements(s.stack[m..]), gray)
  {
    PopShape(g, s, done, m);
    PopAnchored(g, s, done, gray, node, m);
    var t := Popped(s, m);
    forall i, j | 0 <= i <= j < |t.stack|
      ensures Reach(g, t.stack[i], t.stack[j])
    {
      assert Reach(g, s.stack[i], s.stack[j]);
    }
  }

  lemma PopShape(g: Cfg, s: Search, done: set<nat>, m: nat)
    requires Shape(g, s, done) && m < |s.stack|
    ensures Shape(g, Popped(s, m), done + Elements(s.stack[m..]))
  {
    var t, d := Popped(s, m), done + Elements(s.stack[m..]);
    assert s.stack == s.stack[..m] + s.stack[m..];
    forall i | 0 <= i < |t.stack|
      ensures t.stack[i] !in d
    {
      assert t.stack[i] == s.stack[i];
      forall k | 0 <= k < |s.stack[m..]|
        ensures s.stack[m..][k] != t.stack[i]
      {
        Below(g, s, done, i, m + k);
      }
    }
  }

  lemma PopAnchored(g: Cfg, s: Search, done: set<nat>, gray: set<nat>, node: nat, m: nat)
    requires Shape(g, s, done) && AllAnchored(g, s, gray + {node})
    requires m < |s.stack| && s.stack[m] == node
    ensures AllAnchored(g, Popped(s, m), gray)
  {
    var t := Popped(s, m);
    forall j | 0 <= j < |t.stack|
      ensures Anchored(g, t, gray, j)
    {
      var i := Anchor(g, s, gray + {node}, j);
      Below(g, s, done, i, m);
      assert t.stack[i] == s.stack[i] && t.stack[j] == s.stack[j];
    }
  }

  // ----- Numbering a component -----

  function Numbered(sccs: map<nat, int>, c: set<nat>, number: int): map<nat, int> {
    sccs + (map b | b in c :: number)
  }

  /** Giving a whole component one number keeps the numbering right. */
  lemma LabelComponent(g: Cfg, sccs: map<nat, int>, count: nat, c: set<nat>, node: nat, number: int, count': nat)
    requires Labels(g, sccs, count) && Closed(g, sccs.Keys) && sccs.Keys !! c && node in c
    requires forall y :: y in c ==> Reach(g, node, y) && Reach(g, y, node)
    requires (number == count && count' == count + 1 && forall y :: y in c ==> OnCycle(g, y))
          || (number == -1 && count' == count && c == {node} && !OnCycle(g, node))
    ensures Labels(g, Numbered(sccs, c, number), count')
  {
    var t := Numbered(sccs, c, number);
    forall a, b | a in t && b in t && t[a] >= 0
      ensures t[a] == t[b] <==> Reach(g, a, b) && Reach(g, b, a)
    {
      if a in c && b in c {
        ReachTrans(g, a, node, b);
        ReachTrans(g, b, node, a);
      } else if a in sccs && b in c && Reach(g, a, b) {
        ClosedReach(g, sccs.Keys, a, b);
        assert false;
      } else if b in sccs && a in c && Reach(g, b, a) {
        ClosedReach(g, sccs.Keys, b, a);
        assert false;
      }
    }
  }

  /** A component of one block without a self-loop lies on no cycle. */
  lemma LoneBlock(g: Cfg, done: set<nat>, node: nat)
    requires Closed(g, done) && Closed(g, done + {node}) && node !in done && !g.Edge(node, node)
    ensures !OnCycle(g, node)
  {
    if OnCycle(g, node) {
      var b := CycleFirstEdge(g, node);
      assert b in done + {node};
      ClosedReach(g, done, b, node);
      assert false;
    }
  }

  /** In a component of several blocks every block lies on a cycle. */
  lemma SharedCycle(g: Cfg, node: nat, other: nat, y: nat)
    requires other != node && Reach(g, node, other) && Reach(g, other, node)
    requires Reach(g, node, y) && Reach(g, y, node)
    ensures OnCycle(g, y)
  {
    if y == node {
      CycleFromPair(g, node, other);
    } else {
      CycleFromPair(g, y, node);
    }
  }

  // ----- Scanning the successors of a block -----

  /** What a visit leaves behind: nothing visited before is forgotten and the stack only grew. */
  ghost predicate Grown(s: Search, t: Search) {
    && (forall b :: b in s.index ==> b in t.index && t.index[b] == s.index[b])
    && |s.stack| <= |t.stack| && t.stack[..|s.stack|] == s.stack
    && s.next <= t.next
  }

  /** The low link a finished visit of `child` reports, relative to the stack it started from. */
  ghost predicate Reported(g: Cfg, t: Search, base: seq<nat>, child: nat, low: nat) {
    && child in t.index && low <= t.index[child]
    && (child in t.stack ==> LowLink(g, t, child, low))
    && (child !in t.stack ==> low == t.index[child])
    && Crossing(g, t, base, |base|, low)
  }

  /** The first k successors of `node`, which sits on top of `base`, are dealt with. */
  ghost predicate Scanning(g: Cfg, s: Search, base: seq<nat>, node: nat, low: nat, succs: seq<nat>, k: nat)
    requires k <= |succs|
  {
    && node in s.index && low <= s.index[node]
    && |base| < |s.stack| && s.stack[..|base|] == base && s.stack[|base|] == node
    && LowLink(g, s, node, low)
    && Crossing(g, s, base, |base| + 1, low)
    && (forall i :: 0 <= i < k ==> succs[i] in s.index && (succs[i] in base ==> low <= s.index[succs[i]]))
  }

  /** Low links other than that of `node` and of newly visited blocks stay. */
  ghost predicate LinksKept(before: map<nat, nat>, after: map<nat, nat>, node: nat) {
    forall b :: b in before && b != node ==> b in after && after[b] == before[b]
  }

  lemma LinkOf(before: map<nat, nat>, after: map<nat, nat>, child: nat, node: nat)
    requires LinksKept(before, after, child) && node in before && node != child
    ensures node in after && after[node] == before[node]
  {
  }

  lemma LinksSet(before: map<nat, nat>, after: map<nat, nat>, child: nat, node: nat, low: nat)
    requires before == after || (LinksKept(before, after, child) && child !in before)
    ensures LinksKept(before, after[node := low], node) && LinksKept(before, after, node)
  {
  }

  lemma LinksEntered(before: map<nat, nat>, node: nat, low: nat)
    ensures LinksKept(before, before[node := low], node)
  {
  }

  lemma LinksTrans(a: map<nat, nat>, b: map<nat, nat>, c: map<nat, nat>, node: nat)
    requires LinksKept(a, b, node) && LinksKept(b, c, node)
    ensures LinksKept(a, c, node)
  {
  }

  lemma GrownSelf(s: Search)
    ensures Grown(s, s)
  {
  }

  lemma GrownPush(s: Search, node: nat)
    requires node !in s.index
    ensures Grown(s, Push(s, node))
  {
  }

  lemma GrownIndex(s: Search, t: Search, b: nat)
    requires Grown(s, t) && b in s.index
    ensures b in t.index && t.index[b] == s.index[b]
  {
  }

  lemma GrownPop(s: Search, t: Search, u: Search)
    requires Grown(s, t) && u.index == t.index && u.next == t.next && u.stack == s.stack
    ensures Grown(s, u)
  {
  }

  function Min(a: nat, b: nat): nat { if a < b then a else b }

  lemma ScanStart(g: Cfg, s: Search, node: nat, succs: seq<nat>)
    requires node < g.Size()
    ensures Scanning(g, Push(s, node), s.stack, node, s.next, succs, 0)
  {
    ReachSelf(g, node);
    assert Push(s, node).stack[|s.stack|] == node;
  }

  /** A successor that is already on the stack. */
  lemma ScanBack(g: Cfg, s: Search, base: seq<nat>, node: nat, low: nat, succs: seq<nat>, k: nat)
    requires g.Valid() && k < |succs| && Scanning(g, s, base, node, low, succs, k)
    requires g.Edge(node, succs[k]) && succs[k] in s.stack && succs[k] in s.index
    ensures Scanning(g, s, base, node, Min(low, s.index[succs[k]]), succs, k + 1)
  {
    if s.index[succs[k]] < low {
      var j :| 0 <= j < |s.stack| && s.stack[j] == succs[k];
      ReachEdge(g, node, succs[k]);
      assert LowLink(g, s, node, s.index[succs[k]]);
    }
  }

  /** A successor that has just been visited from here. */
  lemma ScanChild(g: Cfg, s: Search, t: Search, done: set<nat>, base: seq<nat>,
                  node: nat, low: nat, succs: seq<nat>, k: nat, childLow: nat)
    requires g.Valid() && k < |succs| && Scanning(g, s, base, node, low, succs, k)
    requires Shape(g, s, done)
    requires g.Edge(node, succs[k]) && succs[k] !in s.index
    requires Grown(s, t) && Reported(g, t, s.stack, succs[k], childLow) && t.index[succs[k]] >= s.next
    ensures Scanning(g, t, base, node, Min(low, childLow), succs, k + 1)
  {
    hide LowLink, Crossing;
    var child := succs[k];
    assert t.stack[..|base|] == base && t.stack[|base|] == node by {
      assert t.stack[..|s.stack|][..|base|] == t.stack[..|base|];
      assert t.stack[..|s.stack|][|base|] == t.stack[|base|];
    }
    ChildLowLink(g, s, t, done, node, low, child, childLow);
    ChildCrossing(g, s, t, base, low, childLow);
    NotOnOldStack(g, s, done, child);
    assert child !in base by {
      forall i | 0 <= i < |base|
        ensures base[i] != child
      {
        assert base[i] == s.stack[..|base|][i] == s.stack[i];
      }
    }
  }

  /** A successor whose component is complete. */
  lemma ScanDone(g: Cfg, s: Search, base: seq<nat>, node: nat, low: nat, succs: seq<nat>, k: nat)
    requires k < |succs| && Scanning(g, s, base, node, low, succs, k)
    requires succs[k] in s.index && succs[k] !in s.stack
    ensures Scanning(g, s, base, node, low, succs, k + 1)
  {
    assert forall i :: 0 <= i < |base| ==> base[i] == s.stack[..|base|][i];
  }

  lemma GrownTrans(s: Search, t: Search, u: Search)
    requires Grown(s, t) && Grown(t, u)
    ensures Grown(s, u)
  {
    assert u.stack[..|t.stack|][..|s.stack|] == u.stack[..|s.stack|];
  }

  lemma InvShape(g: Cfg, s: Search, done: set<nat>, gray: set<nat>)
    requires Inv(g, s, done, gray)
    ensures Shape(g, s, done)
    ensures forall b :: b in gray ==> b in s.stack
  {
  }

  lemma GrayReachesChild(g: Cfg, gray: set<nat>, node: nat, child: nat)
    requires g.Valid() && g.Edge(node, child) && forall x :: x in gray ==> Reach(g, x, node)
    ensures forall x :: x in gray + {node} ==> Reach(g, x, child)
  {
    ReachEdge(g, node, child);
    forall x | x in gray
      ensures Reach(g, x, child)
    {
      ReachTrans(g, x, node, child);
    }
  }

  lemma NotOnOldStack(g: Cfg, s: Search, done: set<nat>, b: nat)
    requires Shape(g, s, done) && b !in s.index
    ensures b !in s.stack
  {
  }

  lemma ChildLowLink(g: Cfg, s: Search, t: Search, done: set<nat>, node: nat, low: nat, child: nat, childLow: nat)
    requires g.Valid() && Shape(g, s, done) && Grown(s, t)
    requires node in s.index && low <= s.index[node] && LowLink(g, s, node, low)
    requires g.Edge(node, child) && child in t.index && t.index[child] >= s.next
    requires child in t.stack ==> LowLink(g, t, child, childLow)
    requires child !in t.stack ==> childLow == t.index[child]
    ensures LowLink(g, t, node, Min(low, childLow))
  {
    if childLow < low {
      assert child in t.stack;
      var j :| 0 <= j < |t.stack| && t.stack[j] in t.index && t.index[t.stack[j]] == childLow &&
        Reach(g, child, t.stack[j]);
      ReachEdge(g, node, child);
      ReachTrans(g, node, child, t.stack[j]);
    } else {
      var j :| 0 <= j < |s.stack| && s.stack[j] in s.index && s.index[s.stack[j]] == low && Reach(g, node, s.stack[j]);
      assert t.stack[..|s.stack|][j] == t.stack[j];
    }
  }

  lemma ChildCrossing(g: Cfg, s: Search, t: Search, base: seq<nat>, low: nat, childLow: nat)
    requires Grown(s, t) && |base| < |s.stack| && s.stack[..|base|] == base
    requires forall i :: 0 <= i < |s.stack| ==> s.stack[i] in s.index
    requires Crossing(g, s, base, |base| + 1, low)
    requires Crossing(g, t, s.stack, |s.stack|, childLow)
    ensures Crossing(g, t, base, |base| + 1, Min(low, childLow))
  {
    forall i, b | |base| + 1 <= i < |t.stack| && g.Edge(t.stack[i], b) && b in base && b in t.index
      ensures Min(low, childLow) <= t.index[b]
    {
      var j :| 0 <= j < |base| && base[j] == b;
      assert s.stack[..|base|][j] == s.stack[j];
      if i < |s.stack| {
        assert t.stack[..|s.stack|][i] == s.stack[i];
      }
    }
  }

  // ----- The algorithm -----

  /** Appends to the list of component k, creating it on first use. */
  function Append(blocks: map<nat, seq<nat>>, k: nat, b: nat): map<nat, seq<nat>> {
    blocks[k := (if k in blocks then blocks[k] else []) + [b]]
  }

  /** A list for component k was added that holds exactly c, unless the number is -1. */
  ghost predicate ListAdded(before: map<nat, seq<nat>>, after: map<nat, seq<nat>>, k: nat, c: set<nat>, number: int) {
    if number == -1 then after == before
    else k in after && after == before[k := after[k]] && NoDuplicates(after[k]) && Elements(after[k]) == c
  }

  /** Popping the top of full[..t + 1]. */
  lemma PopStep(full: seq<nat>, t: nat)
    requires t < |full| && NoDuplicates(full)
    ensures Elements(full[t..]) == Elements(full[t + 1..]) + {full[t]} && full[t] !in full[t + 1..]
    ensures full[..t + 1] == full[..t] + [full[t]] && full[t] !in full[..t]
  {
    assert full[t..] == [full[t]] + full[t + 1..];
  }

  lemma SamePlace(full: seq<nat>, i: nat, m: nat)
    requires i < |full| && m < |full| && NoDuplicates(full) && full[i] == full[m]
    ensures i == m
  {
  }

  lemma NumberedNone(full: seq<nat>, sccs: map<nat, int>, number: int)
    ensures Numbered(sccs, Elements(full[|full|..]), number) == sccs
  {
  }

  lemma NumberedStep(sccs: map<nat, int>, full: seq<nat>, t: nat, number: int)
    requires t < |full|
    ensures Numbered(sccs, Elements(full[t..]), number) ==
            Numbered(sccs, Elements(full[t + 1..]), number)[full[t] := number]
  {
    assert full[t..] == [full[t]] + full[t + 1..];
  }

  lemma AppendStep(before: map<nat, seq<nat>>, blocks: map<nat, seq<nat>>, k: nat, full: seq<nat>, t: nat)
    requires t < |full| && NoDuplicates(full) && k !in before
    requires t + 1 == |full| ==> blocks == before
    requires t + 1 < |full| ==> ListAdded(before, blocks, k, Elements(full[t + 1..]), k)
    ensures ListAdded(before, Append(blocks, k, full[t]), k, Elements(full[t..]), k)
  {
    PopStep(full, t);
    var after := Append(blocks, k, full[t]);
    if t + 1 < |full| {
      assert full[t] !in Elements(blocks[k]);
      assert after[k] == blocks[k] + [full[t]];
    } else {
      assert after[k] == [full[t]];
    }
  }

  /** The table entries of a component of one block. */
  lemma LoneEntry(sccs: map<nat, int>, blocks: map<nat, seq<nat>>, count: nat, node: nat)
    requires count !in blocks
    ensures Numbered(sccs, {node}, count) == sccs[node := count] && Numbered(sccs, {node}, -1) == sccs[node := -1]
    ensures ListAdded(blocks, Append(blocks, count, node), count, {node}, count)
    ensures ListAdded(blocks, blocks, count, {node}, -1)
  {
    assert [node][0..] == [node] && Elements([node]) == {node};
    assert NoDuplicates([node]);
    AppendStep(blocks, blocks, count, [node], 0);
    hide Append, ListAdded, NoDuplicates;
  }

  lemma ListsGrow(sccs: map<nat, int>, before: map<nat, seq<nat>>,
                  after: map<nat, seq<nat>>, count: nat, c: set<nat>, number: int)
    requires Lists(sccs, before, count) && sccs.Keys !! c && c != {}
    requires forall b :: b in sccs ==> sccs[b] < count
    requires number == -1 || number == count
    requires ListAdded(before, after, count, c, number)
    ensures Lists(Numbered(sccs, c, number), after, if number == -1 then count else count + 1)
  {
    if number == count {
      assert |after[count]| > 0 by {
        var b :| b in c;
        assert b in Elements(after[count]);
      }
      assert forall b :: b in after[count] <==> b in c by {
        assert forall b :: b in after[count] <==> b in Elements(after[count]);
      }
    }
  }

  /** A visit that committed its block reports the block's own index. */
  lemma ReportCommitted(g: Cfg, s: Search, done: set<nat>, node: nat)
    requires Shape(g, s, done) && node in s.index && node in done
    ensures Reported(g, s, s.stack, node, s.index[node])
  {
  }

  /** The number a component gets. */
  function NumberFor(stack: seq<nat>, node: nat, selfLoop: bool, count: nat): int
    requires stack != []
  {
    if stack[|stack| - 1] == node && !selfLoop then -1 else count
  }

  lemma BeforePop(g: Cfg, s: Search, sccs: map<nat, int>, blocks: map<nat, seq<nat>>,
                  count: nat, gray: set<nat>, base: seq<nat>, node: nat, selfLoop: bool)
    requires node < g.Size() && Inv(g, s, sccs.Keys, gray + {node}) && Lists(sccs, blocks, count)
    requires node in s.index && Scanning(g, s, base, node, s.index[node], g.succs[node], |g.succs[node]|)
    ensures NoDuplicates(s.stack) && count !in blocks
    ensures |base| < |s.stack| && s.stack[|base|] == node && s.stack[..|base|] == base
    ensures s.stack[|s.stack| - 1] == node ==> |base| == |s.stack| - 1 && Elements(s.stack[|base|..]) == {node}
  {
    hide Reach, LowLink, Crossing, Ordered, AllAnchored, NoWhiteSuccessors, Closed;
    Below(g, s, sccs.Keys, |base|, |s.stack| - 1);
    if s.stack[|s.stack| - 1] == node {
      assert s.stack[|base|..] == [node];
    }
  }

  /** Committing a component keeps the invariants, the numbering and the lists. */
  lemma AfterPop(g: Cfg, s: Search, sccs: map<nat, int>, blocks: map<nat, seq<nat>>, count: nat, gray: set<nat>,
                 base: seq<nat>, node: nat, selfLoop: bool, sccs': map<nat, int>, blocks': map<nat, seq<nat>>)
    requires g.Valid() && node < g.Size() && Inv(g, s, sccs.Keys, gray + {node})
    requires Labels(g, sccs, count) && Lists(sccs, blocks, count)
    requires forall x :: x in gray ==> Reach(g, x, node) && x in base
    requires node in s.index && Scanning(g, s, base, node, s.index[node], g.succs[node], |g.succs[node]|)
    requires (selfLoop <==> g.Edge(node, node)) && s.stack != [] && |base| <= |s.stack|
    requires sccs' == Numbered(sccs, Elements(s.stack[|base|..]), NumberFor(s.stack, node, selfLoop, count))
    requires ListAdded(blocks, blocks', count, Elements(s.stack[|base|..]), NumberFor(s.stack, node, selfLoop, count))
    ensures var count' := if NumberFor(s.stack, node, selfLoop, count) == -1 then count else count + 1;
            Inv(g, Popped(s, |base|), sccs'.Keys, gray) && Labels(g, sccs', count') && Lists(sccs', blocks', count')
    ensures node in sccs'
  {
    hide Labels, Lists, ListAdded, Scanning, Reach, OnCycle, Elements, Inv, Shape, Closed;
    var c := Elements(s.stack[|base|..]);
    ScanningPlace(g, s, base, node);
    ReadyToPop(g, s, sccs.Keys, gray, base, node, s.index[node]);
    assert sccs'.Keys == sccs.Keys + c;
    InvParts(g, s, sccs.Keys, gray + {node});
    NumberComponent(g, s, sccs, blocks, count, |base|, node, selfLoop, blocks');
  }

  lemma NumberComponent(g: Cfg, s: Search, sccs: map<nat, int>, blocks: map<nat, seq<nat>>,
                        count: nat, m: nat, node: nat, selfLoop: bool, blocks': map<nat, seq<nat>>)
    requires g.Valid() && Labels(g, sccs, count) && Lists(sccs, blocks, count)
    requires Shape(g, s, sccs.Keys) && m < |s.stack| && s.stack[m] == node && (selfLoop <==> g.Edge(node, node))
    requires Closed(g, sccs.Keys) && Closed(g, sccs.Keys + Elements(s.stack[m..]))
    requires forall y :: y in Elements(s.stack[m..]) ==> Reach(g, node, y) && Reach(g, y, node) && y !in sccs
    requires node in Elements(s.stack[m..])
    requires ListAdded(blocks, blocks', count, Elements(s.stack[m..]), NumberFor(s.stack, node, selfLoop, count))
    ensures var number := NumberFor(s.stack, node, selfLoop, count);
            var sccs' := Numbered(sccs, Elements(s.stack[m..]), number);
            var count' := if number == -1 then count else count + 1;
            Labels(g, sccs', count') && Lists(sccs', blocks', count')
  {
    hide Labels, Lists, ListAdded, Reach, OnCycle, Elements, Shape, Closed, Numbered;
    var c, number := Elements(s.stack[m..]), NumberFor(s.stack, node, selfLoop, count);
    ComponentNumber(g, s, sccs.Keys, node, m, selfLoop);
    LabelComponent(g, sccs, count, c, node, number, if number == -1 then count else count + 1);
    LabelRange(g, sccs, count);
    ListsGrow(sccs, blocks, blocks', count, c, number);
  }

  lemma ScanningPlace(g: Cfg, s: Search, base: seq<nat>, node: nat)
    requires node < g.Size() && node in s.index
    requires Scanning(g, s, base, node, s.index[node], g.succs[node], |g.succs[node]|)
    ensures |base| < |s.stack| && s.stack[|base|] == node
  {
  }

  lemma InvParts(g: Cfg, s: Search, done: set<nat>, gray: set<nat>)
    requires Inv(g, s, done, gray)
    ensures Shape(g, s, done) && Closed(g, done)
  {
  }

  lemma LabelRange(g: Cfg, sccs: map<nat, int>, count: nat)
    requires Labels(g, sccs, count)
    ensures forall b :: b in sccs ==> sccs[b] < count
  {
  }

  lemma GrayBelow(g: Cfg, s: Search, done: set<nat>, gray: set<nat>)
    requires Inv(g, s, done, gray)
    ensures forall x :: x in gray ==> x in s.stack
  {
  }

  lemma GrayOnStack(base: seq<nat>, stack: seq<nat>, gray: set<nat>)
    requires |base| <= |stack| && stack[..|base|] == base && forall x :: x in gray ==> x in base
    ensures forall x :: x in gray ==> x in stack
  {
    assert stack == stack[..|base|] + stack[|base|..];
  }

  ghost predicate FlagsOf(onStack: map<nat, bool>, stack: seq<nat>) {
    forall b :: (b in onStack && onStack[b]) <==> b in stack
  }

  lemma FlagsPushed(onStack: map<nat, bool>, stack: seq<nat>, node: nat)
    requires FlagsOf(onStack, stack)
    ensures FlagsOf(onStack[node := true], stack + [node])
  {
  }

  lemma FlagsPopped(onStack: map<nat, bool>, stack: seq<nat>)
    requires FlagsOf(onStack, stack) && stack != [] && NoDuplicates(stack)
    ensures FlagsOf(onStack[stack[|stack| - 1] := false], stack[..|stack| - 1])
  {
    PopStep(stack, |stack| - 1);
    assert stack[..|stack|] == stack;
  }

  lemma Shorter(full: seq<nat>, n: nat)
    requires 0 < n <= |full|
    ensures full[..n][..n - 1] == full[..n - 1] && full[..n][n - 1] == full[n - 1]
    ensures NoDuplicates(full) ==> NoDuplicates(full[..n])
  {
  }

  lemma NothingVisited(g: Cfg)
    ensures Inv(g, Search(map[], [], 0), {}, {})
    ensures Labels(g, map[], 0) && Lists(map[], map[], 0)
  {
  }

  lemma GrownIndices(s: Search, t: Search)
    requires Grown(s, t)
    ensures forall b :: b in s.index ==> b in t.index
  {
  }

  /** With no visit under way the stack is empty and every visited block is numbered. */
  lemma NothingGray(g: Cfg, s: Search, done: set<nat>)
    requires Inv(g, s, done, {})
    ensures s.stack == [] && s.index.Keys == done
  {
    if s.stack != [] {
      var i := Anchor(g, s, {}, 0);
      assert false;
    }
  }

  class CfgSccs {
    const g: Cfg
    const reachable: seq<nat>
    var index: map<nat, nat>
    var lowlink: map<nat, nat>
    var stack: seq<nat>
    var onStack: map<nat, bool>
    var nextIndex: nat
    var sccs: map<nat, int>
    var sccToBlocks: map<nat, seq<nat>>
    var count: nat

    /** A view over a graph and its list of reachable blocks; the fields start empty. */
    constructor (g: Cfg, reachable: seq<nat>)
      ensures this.g == g && this.reachable == reachable
    {
      this.g, this.reachable := g, reachable;
      index, lowlink, stack, onStack, nextIndex := map[], map[], [], map[], 0;
      sccs, sccToBlocks, count := map[], map[], 0;
    }

    /** The reachable blocks are blocks of the graph and closed under successors. */
    ghost predicate Input() {
      && g.Valid()
      && (forall b :: b in reachable ==> b < g.Size())
      && Closed(g, Elements(reachable))
    }

    ghost function State(): Search
      reads this
    {
      Search(index, stack, nextIndex)
    }

    ghost predicate Valid(gray: set<nat>)
      reads this
    {
      && Input() && (forall b :: b in index ==> b in reachable)
      && Inv(g, State(), sccs.Keys, gray)
      && Labels(g, sccs, count) && Lists(sccs, sccToBlocks, count)
      && FlagsOf(onStack, stack) && lowlink.Keys == index.Keys
    }

    ghost function Unvisited(): set<nat>
      reads this
    {
      set b | 0 <= b < g.Size() && b !in index
    }

    /** Visits `node`; `gray` holds the blocks whose visits are under way. */
    method Tarjan(node: nat, ghost gray: set<nat>)
      requires Valid(gray) && node in reachable && node < g.Size() && node !in index
      requires forall x :: x in gray ==> Reach(g, x, node)
      modifies this
      ensures Valid(gray)
      ensures Grown(old(State()), State()) && node in index && index[node] >= old(nextIndex)
      ensures LinksKept(old(lowlink), lowlink, node)
      ensures Reported(g, State(), old(stack), node, lowlink[node])
      decreases Unvisited(), 0
    {
      hide Inv, Labels, Lists, Scanning, Reported, Grown, Reach, FlagsOf, LinksKept, Valid;
      ghost var s0, l0 := State(), lowlink;
      Enter(node, gray);
      LinksEntered(l0, node, lowlink[node]);
      var selfLoop := ScanSuccessors(node, gray, s0.stack);
      LinksTrans(l0, l0[node := s0.next], lowlink, node);
      GrownTrans(s0, Push(s0, node), State());
      GrownIndex(Push(s0, node), State(), node);
      Finish(node, selfLoop, gray, s0);
    }

    /** Number a new block and push it. */
    method Enter(node: nat, ghost gray: set<nat>)
      requires Valid(gray) && node in reachable && node < g.Size() && node !in index
      requires forall x :: x in gray ==> Reach(g, x, node)
      modifies `index, `lowlink, `nextIndex, `stack, `onStack
      ensures Valid(gray + {node}) && State() == Push(old(State()), node) && Grown(old(State()), State())
      ensures lowlink == old(lowlink)[node := old(nextIndex)] && Unvisited() < old(Unvisited())
      ensures Scanning(g, State(), old(stack), node, lowlink[node], g.succs[node], 0)
      ensures forall x :: x in gray ==> x in old(stack)
    {
      hide Inv, Labels, Lists, Scanning, Grown, Reach, FlagsOf;
      VisitStart(g, State(), sccs.Keys, gray, node);
      ScanStart(g, State(), node, g.succs[node]);
      GrownPush(State(), node);
      GrayBelow(g, State(), sccs.Keys, gray);
      ghost var s0 := State();
      index := index[node := nextIndex];
      lowlink := lowlink[node := nextIndex];
      nextIndex := nextIndex + 1;
      stack := stack + [node];
      onStack := onStack[node := true];
      FlagsPushed(old(onStack), old(stack), node);
      assert State() == Push(s0, node);
      assert node in old(Unvisited()) && node !in Unvisited();
    }

    /** After the successors: commit the component of `node` if the low link says so. */
    method Finish(node: nat, selfLoop: bool, ghost gray: set<nat>, ghost s0: Search)
      requires node < g.Size() && Valid(gray + {node}) && Grown(s0, State())
      requires forall x :: x in gray ==> Reach(g, x, node) && x in s0.stack
      requires node in index && Scanning(g, State(), s0.stack, node, lowlink[node], g.succs[node], |g.succs[node]|)
      requires selfLoop <==> g.Edge(node, node)
      modifies `stack, `onStack, `sccs, `sccToBlocks, `count
      ensures Valid(gray) && Grown(s0, State())
      ensures Reported(g, State(), s0.stack, node, lowlink[node])
    {
      hide Inv, Labels, Lists, Grown, Reach, FlagsOf, LowLink, Crossing;
      ghost var s1 := State();
      if lowlink[node] == index[node] {
        Commit(node, selfLoop, gray, s0.stack);
        GrownPop(s0, s1, State());
        InvParts(g, State(), sccs.Keys, gray);
        ReportCommitted(g, State(), sccs.Keys, node);
      } else {
        AllSuccessorsSeen(g, s1, s0.stack, node, lowlink[node]);
        WholeCrossing(g, s1, s0.stack, node, lowlink[node]);
        GrayOnStack(s0.stack, s1.stack, gray);
        VisitKeep(g, s1, sccs.Keys, gray, node, |s0.stack|, lowlink[node]);
      }
    }

    /** The loop over the successors; tells whether the block jumps to itself. */
    method ScanSuccessors(node: nat, ghost gray: set<nat>, ghost base: seq<nat>) returns (selfLoop: bool)
      requires node < g.Size() && Valid(gray + {node})
      requires forall x :: x in gray ==> Reach(g, x, node)
      requires node in index && node in lowlink && Scanning(g, State(), base, node, lowlink[node], g.succs[node], 0)
      modifies this
      ensures Valid(gray + {node}) && Grown(old(State()), State()) && LinksKept(old(lowlink), lowlink, node)
      ensures node in index && Scanning(g, State(), base, node, lowlink[node], g.succs[node], |g.succs[node]|)
      ensures selfLoop <==> g.Edge(node, node)
      decreases Unvisited(), 3
    {
      hide Inv, Labels, Lists, LowLink, Crossing, Scanning, Valid, Reach;
      selfLoop := false;
      var succs := g.succs[node];
      var k := 0;
      while k < |succs|
        invariant 0 <= k <= |succs|
        invariant Valid(gray + {node}) && Grown(old(State()), State()) && LinksKept(old(lowlink), lowlink, node)
        invariant node in index && node in lowlink && Scanning(g, State(), base, node, lowlink[node], succs, k)
        invariant selfLoop <==> node in succs[..k]
        decreases |succs| - k
      {
        if succs[k] == node {
          selfLoop := true;
        }
        assert succs[..k + 1] == succs[..k] + [succs[k]];
        assert Unvisited() <= old(Unvisited());
        ghost var s1 := State();
        ScanEdge(node, k, gray, base);
        GrownTrans(old(State()), s1, State());
        k := k + 1;
      }
      assert succs[..k] == succs;
    }

    /** The body of that loop: visit a new successor, or note one that is still on the stack. */
    method ScanEdge(node: nat, k: nat, ghost gray: set<nat>, ghost base: seq<nat>)
      requires node < g.Size() && Valid(gray + {node}) && k < |g.succs[node]|
      requires forall x :: x in gray ==> Reach(g, x, node)
      requires node in index && Scanning(g, State(), base, node, lowlink[node], g.succs[node], k)
      modifies this
      ensures Valid(gray + {node}) && Grown(old(State()), State()) && LinksKept(old(lowlink), lowlink, node)
      ensures node in index && node in lowlink && Scanning(g, State(), base, node, lowlink[node], g.succs[node], k + 1)
      decreases Unvisited(), 2
    {
      hide Inv, Labels, Lists, Grown, Scanning, Reported, Reach, LinksKept;
      GrownSelf(State());
      var succs := g.succs[node];
      var succ := succs[k];
      assert g.Edge(node, succ) && succ in reachable;
      ghost var s0 := State();
      if succ !in index {
        VisitChild(node, k, gray, base);
      } else if succ in onStack && onStack[succ] {
        ScanBack(g, s0, base, node, lowlink[node], succs, k);
        LinksSet(lowlink, lowlink, node, node, Min(lowlink[node], index[succ]));
        lowlink := lowlink[node := Min(lowlink[node], index[succ])];
      } else {
        ScanDone(g, s0, base, node, lowlink[node], succs, k);
        LinksSet(lowlink, lowlink, node, node, lowlink[node]);
      }
    }

    /** Visit a successor that is new and take over its low link. */
    method VisitChild(node: nat, k: nat, ghost gray: set<nat>, ghost base: seq<nat>)
      requires node < g.Size() && Valid(gray + {node}) && k < |g.succs[node]| && g.succs[node][k] !in index
      requires forall x :: x in gray ==> Reach(g, x, node)
      requires node in index && Scanning(g, State(), base, node, lowlink[node], g.succs[node], k)
      modifies this
      ensures Valid(gray + {node}) && Grown(old(State()), State()) && LinksKept(old(lowlink), lowlink, node)
      ensures node in index && node in lowlink && Scanning(g, State(), base, node, lowlink[node], g.succs[node], k + 1)
      decreases Unvisited(), 1
    {
      hide Inv, Labels, Lists, Grown, Scanning, Reported, Reach, LinksKept, FlagsOf;
      var succs := g.succs[node];
      var succ := succs[k];
      assert g.Edge(node, succ) && succ in reachable;
      ghost var s0, done := State(), sccs.Keys;
      GrayReachesChild(g, gray, node, succ);
      InvShape(g, s0, done, gray + {node});
      Tarjan(succ, gray + {node});
      LinkOf(old(lowlink), lowlink, succ, node);
      LinksSet(old(lowlink), lowlink, succ, node, Min(lowlink[node], lowlink[succ]));
      ScanChild(g, s0, State(), done, base, node, lowlink[node], succs, k, lowlink[succ]);
      lowlink := lowlink[node := Min(lowlink[node], lowlink[succ])];
    }

    /** Pops the component of `node` off the stack and numbers it; a lone block without a
        self-loop gets -1. */
    method Commit(node: nat, selfLoop: bool, ghost gray: set<nat>, ghost base: seq<nat>)
      requires node < g.Size() && Valid(gray + {node})
      requires forall x :: x in gray ==> Reach(g, x, node) && x in base
      requires node in index && Scanning(g, State(), base, node, lowlink[node], g.succs[node], |g.succs[node]|)
      requires lowlink[node] == index[node] && (selfLoop <==> g.Edge(node, node))
      modifies `stack, `onStack, `sccs, `sccToBlocks, `count
      ensures Valid(gray) && stack == base && node in sccs
    {
      hide Inv, Labels, Lists, Scanning, Reach, ListAdded, Numbered, Elements, NoDuplicates;
      ghost var s0, m := State(), |base|;
      BeforePop(g, s0, sccs, sccToBlocks, count, gray, base, node, selfLoop);
      if stack[|stack| - 1] == node {
        PopLone(node, selfLoop);
      } else {
        PopMany(node, m);
      }
      AfterPop(g, s0, old(sccs), old(sccToBlocks), old(count), gray, base, node, selfLoop, sccs, sccToBlocks);
      assert State() == Popped(s0, m);
    }

    /** A component of one block. */
    method PopLone(node: nat, selfLoop: bool)
      requires stack != [] && stack[|stack| - 1] == node && FlagsOf(onStack, stack) && NoDuplicates(stack)
      requires count !in sccToBlocks
      modifies `stack, `onStack, `sccs, `sccToBlocks, `count
      ensures stack == old(stack)[..|old(stack)| - 1] && FlagsOf(onStack, stack)
      ensures sccs == Numbered(old(sccs), {node}, if selfLoop then old(count) else -1)
      ensures ListAdded(old(sccToBlocks), sccToBlocks, old(count), {node}, if selfLoop then old(count) else -1)
      ensures count == if selfLoop then old(count) + 1 else old(count)
    {
      hide ListAdded, Numbered, Append, Elements, NoDuplicates, FlagsOf;
      LoneEntry(sccs, sccToBlocks, count, node);
      FlagsPopped(onStack, stack);
      if selfLoop {
        sccs := sccs[node := count];
        sccToBlocks := Append(sccToBlocks, count, node);
        count := count + 1;
      } else {
        sccs := sccs[node := -1];
      }
      onStack := onStack[stack[|stack| - 1] := false];
      stack := stack[..|stack| - 1];
    }

    /** Pop the top of the stack into the component being numbered. */
    method PopTop(ghost full: seq<nat>)
      requires 0 < |stack| <= |full| && stack == full[..|stack|] && FlagsOf(onStack, stack) && NoDuplicates(full)
      modifies `stack, `onStack, `sccs, `sccToBlocks
      ensures |stack| == |old(stack)| - 1 && stack == full[..|stack|] && FlagsOf(onStack, stack)
      ensures sccs == old(sccs)[full[|stack|] := count] && sccToBlocks == Append(old(sccToBlocks), count, full[|stack|])
    {
      hide NoDuplicates, Append, FlagsOf;
      var top := stack[|stack| - 1];
      Shorter(full, |stack|);
      FlagsPopped(onStack, stack);
      sccs := sccs[top := count];
      sccToBlocks := Append(sccToBlocks, count, top);
      onStack := onStack[top := false];
      stack := stack[..|stack| - 1];
    }

    /** A component of several blocks: everything above `node`, then `node` itself. */
    method PopMany(node: nat, ghost m: nat)
      requires m < |stack| && stack[m] == node && FlagsOf(onStack, stack) && NoDuplicates(stack)
      requires count !in sccToBlocks
      modifies `stack, `onStack, `sccs, `sccToBlocks, `count
      ensures stack == old(stack)[..m] && FlagsOf(onStack, stack)
      ensures sccs == Numbered(old(sccs), Elements(old(stack)[m..]), old(count))
      ensures ListAdded(old(sccToBlocks), sccToBlocks, old(count), Elements(old(stack)[m..]), old(count))
      ensures count == old(count) + 1
    {
      hide ListAdded, Append, NoDuplicates, Numbered, Elements, FlagsOf;
      ghost var full := stack;
      NumberedNone(full, sccs, count);
      while stack[|stack| - 1] != node
        invariant m < |stack| <= |full| && stack == full[..|stack|] && count == old(count)
        invariant FlagsOf(onStack, stack)
        invariant sccs == Numbered(old(sccs), Elements(full[|stack|..]), count)
        invariant |stack| == |full| ==> sccToBlocks == old(sccToBlocks)
        invariant |stack| < |full| ==> ListAdded(old(sccToBlocks), sccToBlocks, count, Elements(full[|stack|..]), count)
        decreases |stack|
      {
        NumberedStep(old(sccs), full, |stack| - 1, count);
        AppendStep(old(sccToBlocks), sccToBlocks, count, full, |stack| - 1);
        PopTop(full);
      }
      SamePlace(full, |stack| - 1, m);
      NumberedStep(old(sccs), full, m, count);
      AppendStep(old(sccToBlocks), sccToBlocks, count, full, m);
      Shorter(full, |stack|);
      FlagsPopped(onStack, stack);
      onStack := onStack[stack[|stack| - 1] := false];
      stack := stack[..|stack| - 1];
      sccs := sccs[node := count];
      sccToBlocks := Append(sccToBlocks, count, node);
      count := count + 1;
    }

    /** Resets results and bookkeeping. */
    method Clear()
      requires Input()
      modifies this
      ensures Valid({})
    {
      hide Inv, Labels, Lists;
      count, sccs, sccToBlocks := 0, map[], map[];
      index, lowlink, stack, onStack, nextIndex := map[], map[], [], map[], 0;
      NothingVisited(g);
      assert sccs.Keys == {} && State() == Search(map[], [], 0);
    }

    lemma AllNumbered()
      requires Valid({}) && forall b :: b in reachable ==> b in index
      ensures sccs.Keys == Elements(reachable)
      ensures Labels(g, sccs, count) && Lists(sccs, sccToBlocks, count)
    {
      hide Inv, Labels, Lists;
      NothingGray(g, State(), sccs.Keys);
    }

    /** A block without a number counts as lying on no cycle. */
    predicate InScc(b: nat)
      reads this
    {
      b in sccs && sccs[b] != -1
    }

    function GetScc(b: nat): int
      reads this
    {
      if b in sccs then sccs[b] else -1
    }

    /** What the numbers say about any two blocks. */
    lemma NumbersRight(a: nat, b: nat)
      requires Input() && sccs.Keys == Elements(reachable) && Labels(g, sccs, count)
      ensures InScc(a) <==> a in reachable && OnCycle(g, a)
      ensures InScc(a) ==> (GetScc(b) == GetScc(a) <==> Reach(g, a, b) && Reach(g, b, a))
    {
      hide OnCycle, Reach;
      assert a in sccs <==> a in reachable;
      assert b in sccs <==> b in reachable;
      if InScc(a) && Reach(g, a, b) {
        ClosedReach(g, Elements(reachable), a, b);
      }
    }

    /** Numbers every reachable block, in the order of the list: in a component are exactly the
        reachable blocks on cycles, and two blocks have the same number exactly if they reach each
        other. */
    method Recompute()
      requires Input()
      modifies this
      ensures sccs.Keys == Elements(reachable)
      ensures Labels(g, sccs, count) && Lists(sccs, sccToBlocks, count)
      ensures forall b: nat :: InScc(b) <==> b in reachable && OnCycle(g, b)
      ensures forall a: nat, b: nat :: InScc(a) ==> (GetScc(b) == GetScc(a) <==> Reach(g, a, b) && Reach(g, b, a))
    {
      hide Valid, Labels, Lists, Grown, Reported, Reach;
      Clear();
      var i := 0;
      while i < |reachable|
        invariant 0 <= i <= |reachable| && Valid({})
        invariant forall k :: 0 <= k < i ==> reachable[k] in index
      {
        if reachable[i] !in index {
          ghost var s0 := State();
          Tarjan(reachable[i], {});
          GrownIndices(s0, State());
        }
        i := i + 1;
      }
      AllNumbered();
      hide InScc, GetScc, OnCycle, Elements;
      forall a: nat, b: nat | InScc(a)
        ensures GetScc(b) == GetScc(a) <==> Reach(g, a, b) && Reach(g, b, a)
      {
        NumbersRight(a, b);
      }
      forall b: nat
        ensures InScc(b) <==> b in reachable && OnCycle(g, b)
      {
        NumbersRight(b, b);
      }
    }
  }
}
