/** Control-flow graphs as the CFG analyses see them: numbered blocks, an ordered successor
    list per block (a conditional jump to the next block lists it twice), and walks. */
module Graph {

  /** Block 0 is the entry and the last block is the exit; `instrs[b]` is the size of block b. */
  datatype Cfg = Cfg(succs: seq<seq<nat>>, instrs: seq<nat>) {
    function Size(): nat { |succs| }

    function Exit(): nat
      requires Size() > 0
    {
      Size() - 1
    }

    /** Successors are blocks of the graph and control never leaves the exit. */
    ghost predicate Valid() {
      && 0 < |succs| == |instrs|
      && (forall b, k :: 0 <= b < |succs| && 0 <= k < |succs[b]| ==> succs[b][k] < |succs|)
      && succs[|succs| - 1] == []
    }

    predicate Edge(a: nat, b: nat) {
      a < |succs| && b in succs[a]
    }
  }

  ghost predicate IsWalk(g: Cfg, w: seq<nat>) {
    && |w| > 0
    && (forall i :: 0 <= i < |w| ==> w[i] < g.Size())
    && (forall i :: 0 <= i < |w| - 1 ==> g.Edge(w[i], w[i + 1]))
  }

  ghost predicate WalkBetween(g: Cfg, w: seq<nat>, a: nat, b: nat) {
    IsWalk(g, w) && w[0] == a && w[|w| - 1] == b
  }

  /** b can be reached from a; every block reaches itself. */
  ghost predicate Reach(g: Cfg, a: nat, b: nat) {
    exists w :: WalkBetween(g, w, a, b)
  }

  /** b lies on a cycle: some walk of at least one edge leads back to it. */
  ghost predicate OnCycle(g: Cfg, b: nat) {
    exists w :: WalkBetween(g, w, b, b) && |w| > 1
  }

  lemma ReachSelf(g: Cfg, a: nat)
    requires a < g.Size()
    ensures Reach(g, a, a)
  {
    assert WalkBetween(g, [a], a, a);
  }

  /** Glue two walks that share an end point. */
  lemma JoinWalks(g: Cfg, u: seq<nat>, v: seq<nat>)
    requires IsWalk(g, u) && IsWalk(g, v) && u[|u| - 1] == v[0]
    ensures IsWalk(g, u + v[1..])
  {
    var w := u + v[1..];
    forall i | 0 <= i < |w| - 1
      ensures g.Edge(w[i], w[i + 1])
    {
      if i < |u| - 1 {
        assert w[i] == u[i] && w[i + 1] == u[i + 1];
      } else {
        assert w[i] == v[i - |u| + 1] && w[i + 1] == v[i - |u| + 2];
      }
    }
  }

  lemma ReachTrans(g: Cfg, a: nat, b: nat, c: nat)
    requires Reach(g, a, b) && Reach(g, b, c)
    ensures Reach(g, a, c)
  {
    var u :| WalkBetween(g, u, a, b);
    var v :| WalkBetween(g, v, b, c);
    JoinWalks(g, u, v);
    assert WalkBetween(g, u + v[1..], a, c);
  }

  lemma ReachEdge(g: Cfg, a: nat, b: nat)
    requires g.Valid() && g.Edge(a, b)
    ensures Reach(g, a, b)
  {
    assert WalkBetween(g, [a, b], a, b);
  }

  lemma CycleFromEdge(g: Cfg, a: nat, b: nat)
    requires g.Valid() && g.Edge(a, b) && Reach(g, b, a)
    ensures OnCycle(g, a)
  {
    var v :| WalkBetween(g, v, b, a);
    JoinWalks(g, [a, b], v);
    assert WalkBetween(g, [a, b] + v[1..], a, a);
  }

  /** A block on a cycle has a successor that leads back to it. */
  lemma CycleFirstEdge(g: Cfg, a: nat) returns (b: nat)
    requires OnCycle(g, a)
    ensures g.Edge(a, b) && Reach(g, b, a)
  {
    var w :| WalkBetween(g, w, a, a) && |w| > 1;
    b := w[1];
    assert g.Edge(w[0], w[1]);
    forall i | 0 <= i < |w[1..]| - 1
      ensures g.Edge(w[1..][i], w[1..][i + 1])
    {
      assert g.Edge(w[i + 1], w[i + 2]);
    }
    assert WalkBetween(g, w[1..], b, a);
  }

  lemma CycleFromPair(g: Cfg, a: nat, b: nat)
    requires a != b && Reach(g, a, b) && Reach(g, b, a)
    ensures OnCycle(g, a)
  {
    var u :| WalkBetween(g, u, a, b);
    var v :| WalkBetween(g, v, b, a);
    JoinWalks(g, u, v);
    assert WalkBetween(g, u + v[1..], a, a);
  }

  ghost predicate Closed(g: Cfg, s: set<nat>) {
    forall a, b :: a in s && g.Edge(a, b) ==> b in s
  }

  /** A set closed under successors holds everything its members reach. */
  lemma {:induction false} ClosedReach(g: Cfg, s: set<nat>, a: nat, b: nat)
    requires Closed(g, s) && a in s && Reach(g, a, b)
    ensures b in s
  {
    var w :| WalkBetween(g, w, a, b);
    ClosedWalk(g, s, w, |w| - 1);
  }

  lemma {:induction false} ClosedWalk(g: Cfg, s: set<nat>, w: seq<nat>, k: nat)
    requires Closed(g, s) && IsWalk(g, w) && w[0] in s && k < |w|
    ensures w[k] in s
  {
    if k > 0 {
      ClosedWalk(g, s, w, k - 1);
      assert g.Edge(w[k - 1], w[k]);
    }
  }

  lemma SubWalk(g: Cfg, w: seq<nat>, i: nat, j: nat)
    requires IsWalk(g, w) && i < j <= |w|
    ensures IsWalk(g, w[i..j])
  {
    forall k | 0 <= k < |w[i..j]| - 1
      ensures g.Edge(w[i..j][k], w[i..j][k + 1])
    {
      assert g.Edge(w[i + k], w[i + k + 1]);
    }
  }
}
