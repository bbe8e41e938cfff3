/** The block structure of code (src/cfg/cfg.cc: recompute_blocks, recompute_labels, recompute_succs,
    recompute_reachable, get_loc) and how it mirrors control flow between instructions. */
module Blocks {
  import opened Graph
  import opened Programs

  /** Block boundaries: the ends of the code, label definitions, and what follows a jump or return. */
  predicate Boundary(code: Code, i: nat)
    requires i <= |code|
  {
    || i == 0 || i == |code|
    || code[i].kind.LabelDefn?
    || code[i - 1].EndsBlock()
  }

  /** Start indices of the blocks: an empty entry, one block per boundary, an empty exit at the end,
      and a sentinel. */
  ghost predicate BlocksOf(code: Code, blocks: seq<nat>) {
    && |blocks| >= 3 && blocks[0] == blocks[1] == 0
    && blocks[|blocks| - 2] == blocks[|blocks| - 1] == |code|
    && (forall i, j :: 1 <= i < j <= |blocks| - 2 ==> blocks[i] < blocks[j])
    && (forall i :: 1 <= i <= |blocks| - 2 ==> blocks[i] <= |code| && Boundary(code, blocks[i]))
    && (forall x :: 0 <= x <= |code| && Boundary(code, x) ==> exists i :: 1 <= i <= |blocks| - 2 && blocks[i] == x)
  }

  function ExitOf(blocks: seq<nat>): nat
    requires |blocks| >= 3
  {
    |blocks| - 2
  }

  /** Instruction i belongs to block b; the end of the code belongs to the exit. */
  ghost predicate At(code: Code, blocks: seq<nat>, b: nat, i: nat)
    requires |blocks| >= 3
  {
    (1 <= b < ExitOf(blocks) && blocks[b] <= i < blocks[b + 1]) || (b == ExitOf(blocks) && i == |code|)
  }

  /** Index x is marked once the first i instructions have been seen. */
  predicate Marked(code: Code, i: nat, x: nat)
    requires i <= |code| && x <= |code|
  {
    x == 0 || x == |code| || (x < i && code[x].kind.LabelDefn?) || (x <= i && code[x - 1].EndsBlock())
  }

  method MarkBoundaries(code: Code) returns (boundaries: seq<bool>)
    ensures |boundaries| == |code| + 1 && forall x: nat :: x <= |code| ==> (boundaries[x] <==> Boundary(code, x))
  {
    boundaries := seq(|code| + 1, i => i == 0 || i == |code|);
    for i := 0 to |code|
      invariant |boundaries| == |code| + 1
      invariant forall x: nat :: x <= |code| ==> (boundaries[x] <==> Marked(code, i, x))
    {
      if code[i].kind.LabelDefn? {
        boundaries := boundaries[i := true];
      } else if code[i].EndsBlock() {
        boundaries := boundaries[i + 1 := true];
      }
    }
  }

  /** After the entry, `blocks` lists the boundaries below x in order. */
  ghost predicate Listed(code: Code, blocks: seq<nat>, x: nat) {
    && blocks != [] && blocks[0] == 0
    && (forall i :: 1 <= i < |blocks| ==> blocks[i] < x && blocks[i] <= |code| && Boundary(code, blocks[i]))
    && (forall i, j :: 1 <= i < j < |blocks| ==> blocks[i] < blocks[j])
    && (forall y: nat :: y < x && y <= |code| && Boundary(code, y) ==> ListedAt(blocks, y))
  }

  ghost predicate ListedAt(blocks: seq<nat>, y: nat) { exists i :: 1 <= i < |blocks| && blocks[i] == y }

  lemma ListedFirst(code: Code)
    ensures Listed(code, [0], 0)
  {
  }

  lemma ListNext(code: Code, blocks: seq<nat>, x: nat)
    requires Listed(code, blocks, x) && x <= |code|
    ensures Listed(code, if Boundary(code, x) then blocks + [x] else blocks, x + 1)
  {
    hide Boundary;
    var more := if Boundary(code, x) then blocks + [x] else blocks;
    forall y: nat | y <= x && Boundary(code, y)
      ensures ListedAt(more, y)
    {
      if y < x {
        var i :| 1 <= i < |blocks| && blocks[i] == y;
        assert more[i] == y;
      } else {
        assert more[|blocks|] == y;
      }
    }
  }

  lemma ListedOrder(code: Code, blocks: seq<nat>, i: nat, j: nat)
    requires Listed(code, blocks, |code| + 1) && 1 <= i <= j < |blocks|
    ensures blocks[i] <= blocks[j]
  {
  }

  /** The list of all boundaries starts at 0 and ends at the end of the code. */
  lemma ListedAll(code: Code, blocks: seq<nat>)
    requires Listed(code, blocks, |code| + 1)
    ensures BlocksOf(code, blocks + [|code|])
  {
    assert Boundary(code, 0) && Boundary(code, |code|);
    hide Boundary;
    assert ListedAt(blocks, 0) && ListedAt(blocks, |code|);
    var first :| 1 <= first < |blocks| && blocks[first] == 0;
    var last :| 1 <= last < |blocks| && blocks[last] == |code|;
    ListedOrder(code, blocks, 1, first);
    ListedOrder(code, blocks, last, |blocks| - 1);
    var all := blocks + [|code|];
    forall x | 0 <= x <= |code| && Boundary(code, x)
      ensures exists i :: 1 <= i <= |all| - 2 && all[i] == x
    {
      assert ListedAt(blocks, x);
      var i :| 1 <= i < |blocks| && blocks[i] == x;
      assert all[i] == x;
    }
  }

  /** A block inside the code starts at a label definition or right after a jump or return. */
  ghost predicate StartsBlock(code: Code, x: nat)
    requires 0 < x < |code|
  {
    || code[x].kind.LabelDefn?
    || code[x - 1].kind.Jump? || code[x - 1].kind.CondJump? || code[x - 1].kind.Return?
  }

  lemma StartsInside(code: Code, blocks: seq<nat>)
    requires BlocksOf(code, blocks)
    ensures forall x: nat :: 0 < x < |code| ==> (ListedAt(blocks[..|blocks| - 1], x) <==> StartsBlock(code, x))
  {
    var listed := blocks[..|blocks| - 1];
    forall x: nat | 0 < x < |code|
      ensures ListedAt(listed, x) <==> StartsBlock(code, x)
    {
      assert Boundary(code, x) <==> StartsBlock(code, x);
      hide Boundary, StartsBlock;
      if ListedAt(listed, x) {
        var i :| 1 <= i < |listed| && listed[i] == x;
        assert blocks[i] == x;
      }
      if Boundary(code, x) {
        var i :| 1 <= i <= |blocks| - 2 && blocks[i] == x;
        assert listed[i] == x;
      }
    }
  }

  method RecomputeBlocks(code: Code) returns (blocks: seq<nat>)
    ensures BlocksOf(code, blocks)
    ensures forall x: nat :: 0 < x < |code| ==> (ListedAt(blocks[..|blocks| - 1], x) <==> StartsBlock(code, x))
  {
    var boundaries := MarkBoundaries(code);
    ListedFirst(code);
    hide Boundary, BlocksOf, Listed, ListedAt, StartsBlock;
    blocks := [0];
    for x := 0 to |code| + 1
      invariant Listed(code, blocks, x)
    {
      ListNext(code, blocks, x);
      if boundaries[x] {
        blocks := blocks + [x];
      }
    }
    ListedAll(code, blocks);
    blocks := blocks + [|code|];
    StartsInside(code, blocks);
  }

  /** The block and offset of an instruction, searched from the last block down. */
  method GetLoc(code: Code, blocks: seq<nat>, idx: nat) returns (b: nat, offset: nat)
    requires BlocksOf(code, blocks) && idx < |code|
    ensures At(code, blocks, b, idx) && b < ExitOf(blocks) && blocks[b] + offset == idx
  {
    b := ExitOf(blocks) - 1;
    while b > 0 && idx < blocks[b]
      invariant 0 <= b < ExitOf(blocks) && idx < blocks[b + 1]
    {
      b := b - 1;
    }
    offset := idx - blocks[b];
  }

  lemma BlockExists(code: Code, blocks: seq<nat>, i: nat) returns (b: nat)
    requires BlocksOf(code, blocks) && i <= |code|
    ensures 1 <= b <= ExitOf(blocks) && At(code, blocks, b, i)
  {
    b := ExitOf(blocks);
    while i < blocks[b]
      invariant 1 <= b <= ExitOf(blocks) && (b < ExitOf(blocks) ==> i < blocks[b + 1])
    {
      b := b - 1;
    }
  }

  lemma BlockStart(code: Code, blocks: seq<nat>, b: nat)
    requires BlocksOf(code, blocks) && 1 <= b <= ExitOf(blocks)
    ensures At(code, blocks, b, blocks[b]) && blocks[b] <= |code|
    ensures b < ExitOf(blocks) ==> blocks[b] < blocks[b + 1] <= |code|
  {
  }

  lemma AtUnique(code: Code, blocks: seq<nat>, b: nat, c: nat, i: nat)
    requires BlocksOf(code, blocks) && At(code, blocks, b, i) && At(code, blocks, c, i)
    ensures b == c
  {
    assert forall i, j :: 1 <= i <= j <= ExitOf(blocks) ==> blocks[i] <= blocks[j];
  }

  // ----- Labels and successors -----

  /** The label map agrees with the destinations of jumps. */
  ghost predicate LabelsOf(code: Code, blocks: seq<nat>, labels: map<nat, nat>)
    requires |blocks| >= 3
  {
    forall l: nat :: LabelRight(code, blocks, labels, l)
  }

  ghost predicate LabelRight(code: Code, blocks: seq<nat>, labels: map<nat, nat>, l: nat)
    requires |blocks| >= 3
  {
    && (l in labels <==> Dest(code, l) < |code|)
    && (l in labels ==> 1 <= labels[l] < ExitOf(blocks) && blocks[labels[l]] == Dest(code, l))
  }

  /** Every label definition starts a block. */
  lemma LabelStarts(code: Code, blocks: seq<nat>, i: nat) returns (b: nat)
    requires BlocksOf(code, blocks) && i < |code| && code[i].kind.LabelDefn?
    ensures 1 <= b < ExitOf(blocks) && blocks[b] == i
  {
    assert Boundary(code, i);
    b :| 1 <= b <= ExitOf(blocks) && blocks[b] == i;
  }

  /** Of the blocks below n, labels[l] is the last that starts with label l. */
  ghost predicate LastLabel(code: Code, blocks: seq<nat>, labels: map<nat, nat>, n: nat, l: nat)
    requires BlocksOf(code, blocks) && n <= ExitOf(blocks)
  {
    if l in labels then
      && 1 <= labels[l] < n && StartsWith(code, blocks, labels[l], l)
      && forall c :: labels[l] < c < n ==> !StartsWith(code, blocks, c, l)
    else forall c :: 1 <= c < n ==> !StartsWith(code, blocks, c, l)
  }

  ghost predicate StartsWith(code: Code, blocks: seq<nat>, b: nat, l: nat)
    requires BlocksOf(code, blocks) && 1 <= b < ExitOf(blocks)
  {
    BlockStart(code, blocks, b);
    code[blocks[b]].kind == LabelDefn(l)
  }

  lemma LastLabelStep(code: Code, blocks: seq<nat>, before: map<nat, nat>, i: nat, seen: nat, l: nat)
    requires BlocksOf(code, blocks) && 1 <= i < ExitOf(blocks) && seen == i + 1 && LastLabel(code, blocks, before, i, l)
    ensures blocks[i] < |code|
    ensures var kind := code[blocks[i]].kind;
            LastLabel(code, blocks, if kind.LabelDefn? then before[kind.name := i] else before, seen, l)
  {
    BlockStart(code, blocks, i);
    assert StartsWith(code, blocks, i, l) <==> code[blocks[i]].kind == LabelDefn(l);
    hide BlocksOf;
  }

  /** Later definitions of a label replace earlier ones. */
  method RecomputeLabels(code: Code, blocks: seq<nat>) returns (labels: map<nat, nat>)
    requires BlocksOf(code, blocks)
    ensures LabelsOf(code, blocks, labels)
  {
    labels := map[];
    for i := 1 to ExitOf(blocks)
      invariant forall l: nat :: LastLabel(code, blocks, labels, i, l)
    {
      BlockStart(code, blocks, i);
      var instr := code[blocks[i]];
      ghost var before := labels;
      if instr.kind.LabelDefn? {
        labels := labels[instr.kind.name := i];
      }
      ghost var seen: nat := i + 1;
      hide LastLabel;
      forall l: nat
        ensures LastLabel(code, blocks, labels, seen, l)
      {
        LastLabelStep(code, blocks, before, i, seen, l);
      }
    }
    hide LastLabel;
    forall l: nat
      ensures LabelRight(code, blocks, labels, l)
    {
      LabelIsDest(code, blocks, labels, l);
    }
  }

  lemma LabelIsDest(code: Code, blocks: seq<nat>, labels: map<nat, nat>, l: nat)
    requires BlocksOf(code, blocks)
    requires LastLabel(code, blocks, labels, ExitOf(blocks), l)
    ensures LabelRight(code, blocks, labels, l)
  {
    var d := if l in labels then blocks[labels[l]] else |code|;
    forall i | (if d < |code| then d else -1) < i < |code|
      ensures code[i].kind != LabelDefn(l)
    {
      if code[i].kind == LabelDefn(l) {
        var b := LabelStarts(code, blocks, i);
        assert StartsWith(code, blocks, b, l);
        assert false;
      }
    }
    DestUnique(code, l, d);
  }

  /** The last instruction of a block. */
  function LastOf(blocks: seq<nat>, b: nat): nat
    requires b + 1 < |blocks|
  {
    if blocks[b + 1] == 0 then 0 else blocks[b + 1] - 1
  }

  ghost predicate GraphOf(code: Code, blocks: seq<nat>, g: Cfg) {
    && BlocksOf(code, blocks) && g.Valid() && g.Size() == |blocks| - 1
    && g.succs[0] == [1] && g.succs[g.Size() - 1] == []
    && SuccsUpTo(code, blocks, g.succs, ExitOf(blocks))
    && (forall b :: 0 <= b < g.Size() ==> g.instrs[b] == blocks[b + 1] - blocks[b])
  }

  method BlockSuccs(code: Code, blocks: seq<nat>, labels: map<nat, nat>, i: nat) returns (succs: seq<nat>)
    requires BlocksOf(code, blocks) && LabelsOf(code, blocks, labels) && 1 <= i < ExitOf(blocks)
    ensures ListedSuccs(code, blocks, succs, i)
  {
    BlockStart(code, blocks, i);
    var instr := code[LastOf(blocks, i)];
    if instr.kind.Return? {
      return [ExitOf(blocks)];
    }
    var dest := ExitOf(blocks);
    if instr.kind.Jump? || instr.kind.CondJump? {
      dest := Resolve(code, blocks, labels, instr.kind.name);
    }
    hide Dest, Boundary, LabelsOf;
    if instr.kind.Jump? {
      succs := [dest];
    } else {
      succs := [i + 1];
      if instr.kind.CondJump? {
        succs := succs + [dest];
      }
    }
  }

  /** The block of a label; a jump to an undefined label leads to the exit. */
  function Resolve(code: Code, blocks: seq<nat>, labels: map<nat, nat>, name: nat): (b: nat)
    requires BlocksOf(code, blocks) && LabelsOf(code, blocks, labels)
    ensures 1 <= b <= ExitOf(blocks) && blocks[b] == Dest(code, name)
  {
    assert LabelRight(code, blocks, labels, name);
    if name in labels then labels[name] else ExitOf(blocks)
  }

  /** succs lists the successors of the blocks before n. */
  ghost predicate SuccsUpTo(code: Code, blocks: seq<nat>, succs: seq<seq<nat>>, n: nat)
    requires BlocksOf(code, blocks) && n <= |succs| && n <= ExitOf(blocks)
  {
    forall b :: 1 <= b < n ==> ListedSuccs(code, blocks, succs[b], b)
  }

  /** The successors of a block are those of its last instruction. */
  ghost predicate ListedSuccs(code: Code, blocks: seq<nat>, succs: seq<nat>, b: nat)
    requires BlocksOf(code, blocks) && 1 <= b < ExitOf(blocks)
  {
    BlockStart(code, blocks, b);
    var next := Next(code, LastOf(blocks, b));
    && |succs| == |next|
    && forall k :: 0 <= k < |next| ==> 1 <= succs[k] <= ExitOf(blocks) && blocks[succs[k]] == next[k]
  }

  method RecomputeSuccs(code: Code, blocks: seq<nat>, labels: map<nat, nat>) returns (g: Cfg)
    requires BlocksOf(code, blocks) && LabelsOf(code, blocks, labels)
    ensures GraphOf(code, blocks, g)
    ensures forall b: nat :: 1 <= b < ExitOf(blocks) ==> AsWritten(code, blocks, g.succs[b], b)
  {
    hide ListedSuccs, LabelsOf, Boundary, AsWritten;
    var succs: seq<seq<nat>> := [[1]];
    for i := 1 to ExitOf(blocks)
      invariant |succs| == i && succs[0] == [1] && SuccsUpTo(code, blocks, succs, i)
    {
      var next := BlockSuccs(code, blocks, labels, i);
      ghost var before := succs;
      succs := succs + [next];
      assert forall b :: 0 <= b < i ==> succs[b] == before[b];
    }
    ghost var before := succs;
    succs := succs + [[]];
    assert forall b :: 0 <= b < ExitOf(blocks) ==> succs[b] == before[b];
    g := Cfg(succs,
      seq(|blocks| - 1, b requires 0 <= b < |blocks| - 1 => if blocks[b + 1] >= blocks[b] then blocks[b + 1] - blocks[b]
      else 0));
    MakeGraph(code, blocks, g);
    forall b: nat | 1 <= b < ExitOf(blocks)
      ensures AsWritten(code, blocks, g.succs[b], b)
    {
      SuccsAsWritten(code, blocks, g.succs[b], b);
    }
  }

  /** Block t starts with the last definition of label l, or is the exit if there is none. */
  ghost predicate LabelBlock(code: Code, blocks: seq<nat>, l: nat, t: nat)
    requires |blocks| >= 3
  {
    if t == |blocks| - 2 then forall i :: 0 <= i < |code| ==> code[i].kind != LabelDefn(l)
    else
      && 1 <= t < |blocks| - 2 && blocks[t] < |code| && code[blocks[t]].kind == LabelDefn(l)
      && forall i :: blocks[t] < i < |code| ==> code[i].kind != LabelDefn(l)
  }

  /** The successors of a block, by the kind of its last instruction. */
  ghost predicate AsWritten(code: Code, blocks: seq<nat>, succs: seq<nat>, b: nat)
    requires |blocks| >= 3 && b + 1 < |blocks|
  {
    && 0 < blocks[b + 1] <= |code|
    && match code[blocks[b + 1] - 1].kind
       case Return => succs == [|blocks| - 2]
       case Jump(l) => |succs| == 1 && LabelBlock(code, blocks, l, succs[0])
       case CondJump(l) => |succs| == 2 && succs[0] == b + 1 && LabelBlock(code, blocks, l, succs[1])
       case LabelDefn(_) => succs == [b + 1]
       case Plain => succs == [b + 1]
       case Call => succs == [b + 1]
  }

  lemma SameStart(code: Code, blocks: seq<nat>, s: nat, t: nat)
    requires BlocksOf(code, blocks) && 1 <= s <= ExitOf(blocks) && 1 <= t <= ExitOf(blocks) && blocks[s] == blocks[t]
    ensures s == t
  {
    BlockStart(code, blocks, s);
    BlockStart(code, blocks, t);
    AtUnique(code, blocks, s, t, blocks[s]);
  }

  lemma DestIsLabel(code: Code, blocks: seq<nat>, l: nat, t: nat)
    requires BlocksOf(code, blocks) && 1 <= t <= ExitOf(blocks) && blocks[t] == Dest(code, l)
    ensures LabelBlock(code, blocks, l, t)
  {
    BlockStart(code, blocks, t);
    hide Boundary;
  }

  lemma SuccsAsWritten(code: Code, blocks: seq<nat>, succs: seq<nat>, b: nat)
    requires BlocksOf(code, blocks) && 1 <= b < ExitOf(blocks) && ListedSuccs(code, blocks, succs, b)
    ensures AsWritten(code, blocks, succs, b)
  {
    BlockStart(code, blocks, b);
    var i := blocks[b + 1] - 1;
    var next := Next(code, i);
    assert |succs| == |next| && forall k :: 0 <= k < |next| ==> blocks[succs[k]] == next[k];
    hide BlocksOf, Dest;
    match code[i].kind
    case Return => SameStart(code, blocks, succs[0], ExitOf(blocks));
    case Jump(l) => DestIsLabel(code, blocks, l, succs[0]);
    case CondJump(l) =>
      SameStart(code, blocks, succs[0], b + 1);
      DestIsLabel(code, blocks, l, succs[1]);
    case _ => SameStart(code, blocks, succs[0], b + 1);
  }

  lemma MakeGraph(code: Code, blocks: seq<nat>, g: Cfg)
    requires BlocksOf(code, blocks) && |g.succs| == |g.instrs| == |blocks| - 1 && g.succs[0] == [1]
    requires g.succs[|g.succs| - 1] == []
    requires SuccsUpTo(code, blocks, g.succs, ExitOf(blocks))
    requires forall b :: 0 <= b < |g.instrs| ==>
             g.instrs[b] == if blocks[b + 1] >= blocks[b] then blocks[b + 1] - blocks[b] else 0
    ensures GraphOf(code, blocks, g)
  {
    hide Next;
    forall b, k | 0 <= b < |g.succs| && 0 <= k < |g.succs[b]|
      ensures g.succs[b][k] < |g.succs|
    {
      if 1 <= b < ExitOf(blocks) {
        assert ListedSuccs(code, blocks, g.succs[b], b);
      }
    }
    forall b | 0 <= b < |g.instrs|
      ensures blocks[b + 1] >= blocks[b]
    {
      if 1 <= b <= ExitOf(blocks) {
        BlockStart(code, blocks, b);
      }
    }
  }

  // ----- Reachable blocks -----

  /** The blocks found so far are listed once each, and all are reachable. */
  ghost predicate Found(g: Cfg, reachable: set<nat>, work: seq<nat>) {
    && (forall b :: b in reachable <==> b in work)
    && (forall b :: b in reachable ==> b < g.Size() && Reach(g, 0, b))
    && |work| == |reachable| <= g.Size()
  }

  /** The successors of the first n listed blocks are found. */
  ghost predicate Seen(g: Cfg, reachable: set<nat>, work: seq<nat>, n: nat) {
    forall k, s :: 0 <= k < n && k < |work| && g.Edge(work[k], s) ==> s in reachable
  }

  method AddSuccessors(g: Cfg, reachable0: set<nat>, work0: seq<nat>, i: nat)
    returns (reachable: set<nat>, work: seq<nat>)
    requires g.Valid() && i < |work0| && Found(g, reachable0, work0) && Seen(g, reachable0, work0, i)
    ensures reachable0 <= reachable && work0 <= work && Found(g, reachable, work) && Seen(g, reachable, work, i + 1)
  {
    reachable, work := reachable0, work0;
    var next := work[i];
    assert next in work;
    hide Reach, Seen;
    for k := 0 to |g.succs[next]|
      invariant reachable0 <= reachable && work0 <= work && Found(g, reachable, work)
      invariant forall m :: 0 <= m < k ==> g.succs[next][m] in reachable
    {
      var s := g.succs[next][k];
      assert g.Edge(next, s);
      if s !in reachable {
        ReachEdge(g, next, s);
        ReachTrans(g, 0, next, s);
        reachable := reachable + {s};
        work := work + [s];
        SizeBound(reachable, g.Size());
      }
    }
    SeenMore(g, reachable0, work0, i, reachable, work);
  }

  lemma SeenMore(g: Cfg, reachable0: set<nat>, work0: seq<nat>, i: nat, reachable: set<nat>, work: seq<nat>)
    requires Seen(g, reachable0, work0, i) && i < |work0| && reachable0 <= reachable && work0 <= work && g.Valid()
    requires work0[i] < g.Size()
    requires forall m :: 0 <= m < |g.succs[work0[i]]| ==> g.succs[work0[i]][m] in reachable
    ensures Seen(g, reachable, work, i + 1)
  {
  }

  /** Breadth-first search; the reachable blocks are exactly those the entry reaches. */
  method RecomputeReachable(g: Cfg) returns (reachable: set<nat>)
    requires g.Valid()
    ensures forall b :: b in reachable <==> Reach(g, 0, b)
    ensures Closed(g, reachable) && forall b :: b in reachable ==> b < g.Size()
  {
    reachable := {0};
    var work: seq<nat> := [0];
    ReachSelf(g, 0);
    var i := 0;
    while i < |work|
      invariant 0 <= i <= |work| && 0 in reachable && Found(g, reachable, work)
      invariant Seen(g, reachable, work, i)
      decreases g.Size() - i
    {
      reachable, work := AddSuccessors(g, reachable, work, i);
      i := i + 1;
    }
    forall a, b | a in reachable && g.Edge(a, b)
      ensures b in reachable
    {
      var k :| 0 <= k < |work| && work[k] == a;
    }
    forall b | Reach(g, 0, b)
      ensures b in reachable
    {
      ClosedReach(g, reachable, 0, b);
    }
  }

  lemma {:induction false} SizeBound(s: set<nat>, n: nat)
    requires forall x :: x in s ==> x < n
    ensures |s| <= n
  {
    if n == 0 {
      assert s == {};
    } else {
      SizeBound(s - {n - 1}, n - 1);
    }
  }

  // ----- Blocks mirror control flow between instructions -----

  /** Inside a block control passes to the next instruction. */
  lemma NextInside(code: Code, blocks: seq<nat>, b: nat, i: nat)
    requires BlocksOf(code, blocks) && At(code, blocks, b, i) && i < |code| && i + 1 < blocks[b + 1]
    ensures Next(code, i) == [i + 1] && At(code, blocks, b, i + 1)
  {
    InsideNoBoundary(code, blocks, b, i + 1);
  }

  lemma InsideNoBoundary(code: Code, blocks: seq<nat>, b: nat, i: nat)
    requires BlocksOf(code, blocks) && 1 <= b < ExitOf(blocks) && blocks[b] < i < blocks[b + 1]
    ensures i <= |code| && !Boundary(code, i)
  {
    BlockStart(code, blocks, b);
    if c: nat :| 1 <= c <= ExitOf(blocks) && blocks[c] == i {
      BlockStart(code, blocks, c);
      AtUnique(code, blocks, b, c, i);
      assert false;
    }
  }

  /** From the last instruction of a block control passes to the starts of the successors. */
  lemma NextLast(code: Code, blocks: seq<nat>, g: Cfg, b: nat)
    requires GraphOf(code, blocks, g) && 1 <= b < ExitOf(blocks)
    ensures var last := LastOf(blocks, b); last < |code| && At(code, blocks, b, last)
    ensures forall s: nat :: g.Edge(b, s) ==> 1 <= s <= ExitOf(blocks) && blocks[s] in Next(code, LastOf(blocks, b))
    ensures forall k: nat :: k in Next(code, LastOf(blocks, b)) ==> exists s: nat :: g.Edge(b, s) && blocks[s] == k
  {
    BlockStart(code, blocks, b);
    assert ListedSuccs(code, blocks, g.succs[b], b);
    hide Next;
    var next := Next(code, LastOf(blocks, b));
    forall s: nat | g.Edge(b, s)
      ensures 1 <= s <= ExitOf(blocks) && blocks[s] in next
    {
      var m :| 0 <= m < |g.succs[b]| && g.succs[b][m] == s;
      assert blocks[s] == next[m];
    }
    forall k | k in next
      ensures exists s: nat :: g.Edge(b, s) && blocks[s] == k
    {
      var m :| 0 <= m < |next| && next[m] == k;
      assert g.Edge(b, g.succs[b][m]);
    }
  }

  lemma {:induction false} InsideReachable(code: Code, blocks: seq<nat>, b: nat, i: nat)
    requires BlocksOf(code, blocks) && 1 <= b <= ExitOf(blocks) && At(code, blocks, b, i) && Reachable(code, blocks[b])
    ensures Reachable(code, i)
    decreases i
  {
    BlockStart(code, blocks, b);
    if blocks[b] < i {
      InsideReachable(code, blocks, b, i - 1);
      NextInside(code, blocks, b, i - 1);
      ReachableNext(code, i - 1, i);
    }
  }

  lemma {:induction false} BlockWalk(code: Code, blocks: seq<nat>, g: Cfg, w: seq<nat>, m: nat)
    requires GraphOf(code, blocks, g) && IsWalk(g, w) && w[0] == 0 && 0 < m < |w|
    ensures 1 <= w[m] <= ExitOf(blocks) && Reachable(code, blocks[w[m]])
  {
    assert g.Edge(w[m - 1], w[m - 1 + 1]);
    if m == 1 {
      ReachableStart(code);
    } else {
      BlockWalk(code, blocks, g, w, m - 1);
      var b := w[m - 1];
      assert b != ExitOf(blocks);
      NextLast(code, blocks, g, b);
      InsideReachable(code, blocks, b, LastOf(blocks, b));
      ReachableNext(code, LastOf(blocks, b), blocks[w[m]]);
    }
  }

  lemma {:induction false} CodeWalk(code: Code, blocks: seq<nat>, g: Cfg, w: seq<nat>, m: nat) returns (b: nat)
    requires GraphOf(code, blocks, g) && IsWalk(Flow(code), w) && w[0] == 0 && m < |w|
    ensures 1 <= b <= ExitOf(blocks) && At(code, blocks, b, w[m]) && Reach(g, 0, b)
    decreases m
  {
    if m == 0 {
      b := 1;
      assert g.Edge(0, 1);
      ReachEdge(g, 0, 1);
      BlockStart(code, blocks, 1);
    } else {
      var c := CodeWalk(code, blocks, g, w, m - 1);
      assert Flow(code).Edge(w[m - 1], w[m - 1 + 1]);
      hide GraphOf, IsWalk, At, Reach;
      b := CodeStep(code, blocks, g, c, w[m - 1], w[m]);
    }
  }

  /** One step between instructions stays in the block or goes to the start of a successor. */
  lemma CodeStep(code: Code, blocks: seq<nat>, g: Cfg, c: nat, i: nat, k: nat) returns (b: nat)
    requires GraphOf(code, blocks, g) && 1 <= c <= ExitOf(blocks) && At(code, blocks, c, i) && Reach(g, 0, c)
    requires i < |code| && k in Next(code, i)
    ensures 1 <= b <= ExitOf(blocks) && At(code, blocks, b, k) && Reach(g, 0, b)
  {
    hide Reach, Next, SuccsUpTo, Boundary;
    if i + 1 < blocks[c + 1] {
      NextInside(code, blocks, c, i);
      b := c;
    } else {
      NextLast(code, blocks, g, c);
      b :| g.Edge(c, b) && blocks[b] == k;
      ReachEdge(g, c, b);
      ReachTrans(g, 0, c, b);
      BlockStart(code, blocks, b);
    }
  }

  /** An instruction is reachable exactly when its block is. */
  lemma ReachableBlocks(code: Code, blocks: seq<nat>, g: Cfg, b: nat, i: nat)
    requires GraphOf(code, blocks, g) && 1 <= b <= ExitOf(blocks) && At(code, blocks, b, i)
    ensures Reachable(code, i) <==> Reach(g, 0, b)
  {
    if Reach(g, 0, b) {
      var w :| WalkBetween(g, w, 0, b);
      BlockWalk(code, blocks, g, w, |w| - 1);
      InsideReachable(code, blocks, b, i);
    }
    if Reachable(code, i) {
      var w :| WalkBetween(Flow(code), w, 0, i);
      var c := CodeWalk(code, blocks, g, w, |w| - 1);
      AtUnique(code, blocks, b, c, i);
    }
  }
}
