/** The iterative dataflow loops: a descending forward solver (definedness in src/cfg/cfg.cc and
    dominators in src/cfg/dominators.cc) and an ascending backward one (liveness in src/cfg/cfg.cc).
    Both are exact: their results are characterised by the walks of the graph. */
module Fixpoint {
  import opened Graph

  // ----- Sizes, for termination -----

  ghost function Total(x: seq<set<nat>>): nat {
    if x == [] then 0 else |x[0]| + Total(x[1..])
  }

  lemma {:induction false} TotalUpdate(x: seq<set<nat>>, b: nat, s: set<nat>)
    requires b < |x|
    ensures Total(x[b := s]) == Total(x) - |x[b]| + |s|
  {
    if b == 0 {
      assert x[b := s][1..] == x[1..];
    } else {
      TotalUpdate(x[1..], b - 1, s);
      assert x[b := s][1..] == x[1..][b - 1 := s];
    }
  }

  lemma SubsetSize(a: set<nat>, b: set<nat>)
    requires a <= b
    ensures |a| <= |b| && (a != b ==> |a| < |b|)
  {
    assert b == a + (b - a);
    if a != b {
      var x :| x in b - a;
      assert |b - a| > 0;
    }
  }

  lemma {:induction false} TotalBound(x: seq<set<nat>>, top: set<nat>)
    requires forall b :: 0 <= b < |x| ==> x[b] <= top
    ensures Total(x) <= |x| * |top|
  {
    if x != [] {
      SubsetSize(x[0], top);
      assert forall b :: 0 <= b < |x[1..]| ==> x[1..][b] == x[b + 1];
      TotalBound(x[1..], top);
      OneMore(|x| - 1, |top|);
    }
  }

  lemma OneMore(n: nat, m: nat)
    ensures (n + 1) * m == n * m + m
  {
  }

  ghost predicate PredsOf(g: Cfg, preds: seq<seq<nat>>) {
    |preds| == g.Size() && forall b: nat, p: nat :: b < |preds| ==> (p in preds[b] <==> g.Edge(p, b))
  }

  /** The predecessor lists. */
  method RecomputePreds(g: Cfg) returns (preds: seq<seq<nat>>)
    requires g.Valid()
    ensures PredsOf(g, preds)
  {
    preds := seq(g.Size(), i => []);
    assert forall b :: 0 <= b < |preds| ==> preds[b] == [];
    for i := 0 to g.Size()
      invariant |preds| == g.Size()
      invariant forall b: nat, p: nat :: b < |preds| ==> (p in preds[b] <==> p < i && g.Edge(p, b))
    {
      for k := 0 to |g.succs[i]|
        invariant |preds| == g.Size()
        invariant forall b: nat, p: nat :: b < |preds| ==>
                  (p in preds[b] <==> (p < i && g.Edge(p, b)) || (p == i && b in g.succs[i][..k]))
      {
        var s := g.succs[i][k];
        assert g.succs[i][..k + 1] == g.succs[i][..k] + [s];
        preds := preds[s := preds[s] + [i]];
      }
      assert g.succs[i][..|g.succs[i]|] == g.succs[i];
    }
  }

  // ----- Forward problems -----

  /** Sets flow from the entry along the edges between `nodes`; block b turns x into (x - kill) + gen. */
  datatype Forward = Forward(g: Cfg, nodes: set<nat>, gen: seq<set<nat>>, kill: seq<set<nat>>, start: set<nat>,
                             top: set<nat>) {
    ghost predicate Valid() {
      && g.Valid() && 0 in nodes && (forall b :: b in nodes ==> b < g.Size())
      && |gen| == |kill| == g.Size()
      && start <= top && (forall b :: 0 <= b < |gen| ==> gen[b] <= top)
    }

    function Transfer(b: nat, x: set<nat>): set<nat>
      requires b < |gen| && b < |kill|
    {
      (x - kill[b]) + gen[b]
    }

    /** What flows into b: the meet over its predecessors. */
    ghost function Meet(out: seq<set<nat>>, b: nat): set<nat>
      requires |out| == g.Size()
    {
      set r | r in top && forall p :: p in nodes && g.Edge(p, b) ==> r in out[p]
    }

    ghost predicate Fixed(out: seq<set<nat>>, b: nat)
      requires |out| == g.Size() == |gen| == |kill| && b < g.Size()
    {
      out[b] == Transfer(b, Meet(out, b))
    }

    /** The equations hold. */
    ghost predicate Solved(out: seq<set<nat>>)
      requires Valid()
    {
      && |out| == g.Size() && out[0] == start
      && forall b :: b in nodes && b != 0 ==> Fixed(out, b)
    }

    /** x is consistent with the equations: nothing in it comes from nowhere. */
    ghost predicate Supported(x: seq<set<nat>>)
      requires Valid()
    {
      && |x| == g.Size() && x[0] <= start
      && forall b :: b in nodes && b != 0 ==> x[b] <= Transfer(b, Meet(x, b))
    }

    /** out contains every consistent assignment. */
    ghost predicate Greatest(out: seq<set<nat>>)
      requires Valid() && |out| == g.Size()
    {
      forall x, b :: Supported(x) && b in nodes ==> x[b] <= out[b]
    }
  }

  lemma MeetMonotone(f: Forward, x: seq<set<nat>>, y: seq<set<nat>>, b: nat)
    requires f.Valid() && b in f.nodes && |x| == |y| == f.g.Size()
    requires forall p :: p in f.nodes ==> x[p] <= y[p]
    ensures f.Transfer(b, f.Meet(x, b)) <= f.Transfer(b, f.Meet(y, b))
  {
    assert f.Meet(x, b) <= f.Meet(y, b);
  }

  /** The meet as the source computes it. */
  method ComputeMeet(f: Forward, preds: seq<seq<nat>>, out: seq<set<nat>>, b: nat) returns (x: set<nat>)
    requires f.Valid() && PredsOf(f.g, preds) && |out| == f.g.Size() && b < f.g.Size()
    ensures x == f.Meet(out, b)
  {
    x := f.top;
    for k := 0 to |preds[b]|
      invariant x == set r | r in f.top && forall p :: p in preds[b][..k] && p in f.nodes ==> r in out[p]
    {
      var p := preds[b][k];
      assert preds[b][..k + 1] == preds[b][..k] + [p];
      if p in f.nodes {
        x := x * out[p];
      }
    }
    assert preds[b][..|preds[b]|] == preds[b];
  }

  /** Invariant of the sweep. */
  ghost predicate Descending(f: Forward, out: seq<set<nat>>)
    requires f.Valid()
  {
    && |out| == f.g.Size() && out[0] == f.start && f.Greatest(out)
    && forall b :: b in f.nodes && b != 0 ==> f.Transfer(b, f.Meet(out, b)) <= out[b] <= f.top
  }

  lemma DescendingStep(f: Forward, out: seq<set<nat>>, b: nat)
    requires f.Valid() && Descending(f, out) && b in f.nodes && b != 0
    ensures var next := out[b := f.Transfer(b, f.Meet(out, b))];
            Descending(f, next) && Total(next) <= Total(out) && (next != out ==> Total(next) < Total(out))
  {
    var newOut := f.Transfer(b, f.Meet(out, b));
    var next := out[b := newOut];
    forall x | f.Supported(x)
      ensures forall c :: c in f.nodes ==> x[c] <= next[c]
    {
      MeetMonotone(f, x, out, b);
    }
    forall c | c in f.nodes && c != 0
      ensures f.Transfer(c, f.Meet(next, c)) <= next[c]
    {
      MeetMonotone(f, next, out, c);
    }
    SubsetSize(newOut, out[b]);
    TotalUpdate(out, b, newOut);
    if newOut == out[b] {
      assert next == out;
    }
  }

  /** One sweep over the blocks. */
  method SweepForward(f: Forward, preds: seq<seq<nat>>, order: seq<nat>, before: seq<set<nat>>)
    returns (out: seq<set<nat>>, changed: bool)
    requires f.Valid() && PredsOf(f.g, preds) && Descending(f, before)
    requires forall b :: b in order <==> b in f.nodes && b != 0
    ensures Descending(f, out)
    ensures if changed then Total(out) < Total(before) else out == before && f.Solved(out)
  {
    hide Forward.Meet, Forward.Greatest, Total;
    assert forall k :: 0 <= k < |order| ==> order[k] in order;
    out, changed := before, false;
    for i := 0 to |order|
      invariant Descending(f, out)
      invariant !changed ==> out == before && forall k :: 0 <= k < i ==> f.Fixed(out, order[k])
      invariant changed ==> Total(out) < Total(before)
    {
      var b := order[i];
      DescendingStep(f, out, b);
      var x := ComputeMeet(f, preds, out, b);
      var newOut := f.Transfer(b, x);
      if out[b] != newOut {
        changed := true;
        assert out[b := newOut] != out;
      } else {
        assert out[b := newOut] == out;
      }
      out := out[b := newOut];
    }
  }

  /** Sweep until nothing changes. */
  method SolveForward(f: Forward, preds: seq<seq<nat>>, order: seq<nat>, init: seq<set<nat>>)
    returns (out: seq<set<nat>>)
    requires f.Valid() && PredsOf(f.g, preds) && Descending(f, init)
    requires forall b :: b in order <==> b in f.nodes && b != 0
    ensures f.Solved(out) && f.Greatest(out)
  {
    out := init;
    var changed := true;
    while changed
      invariant Descending(f, out)
      invariant !changed ==> f.Solved(out)
      decreases Total(out), changed
    {
      out, changed := SweepForward(f, preds, order, out);
    }
  }

  // ----- Meaning of a forward solution: the meet over all paths -----

  /** r holds at the end of walk w: started with at the entry or generated later, and not killed since. */
  ghost predicate HoldsAlong(f: Forward, w: seq<nat>, r: nat)
    requires f.Valid() && IsWalk(f.g, w)
    decreases |w|
  {
    var b := w[|w| - 1];
    if |w| == 1 then r in f.start
    else r in f.gen[b] || (r !in f.kill[b] && (SubWalk(f.g, w, 0, |w| - 1); HoldsAlong(f, w[..|w| - 1], r)))
  }

  ghost predicate WalkIn(f: Forward, w: seq<nat>, b: nat) {
    WalkBetween(f.g, w, 0, b) && forall i :: 0 <= i < |w| ==> w[i] in f.nodes
  }

  ghost predicate OnAllPaths(f: Forward, b: nat, r: nat)
    requires f.Valid()
  {
    forall w :: WalkIn(f, w, b) ==> HoldsAlong(f, w, r)
  }

  /** The nodes can be reached through the nodes, and the entry has no way back. */
  ghost predicate Rooted(f: Forward)
    requires f.Valid()
  {
    (forall b :: b in f.nodes ==> exists w :: WalkIn(f, w, b)) && forall b :: !f.g.Edge(b, 0)
  }

  lemma {:induction false} SolvedAlong(f: Forward, out: seq<set<nat>>, w: seq<nat>, r: nat)
    requires f.Valid() && f.Solved(out) && (forall b :: !f.g.Edge(b, 0))
    requires IsWalk(f.g, w) && w[0] == 0 && (forall i :: 0 <= i < |w| ==> w[i] in f.nodes)
    requires r in out[w[|w| - 1]]
    ensures HoldsAlong(f, w, r)
    decreases |w|
  {
    if |w| > 1 {
      var b, p := w[|w| - 1], w[|w| - 2];
      assert f.g.Edge(p, w[|w| - 2 + 1]);
      assert f.Fixed(out, b);
      if r !in f.gen[b] {
        assert r in f.Meet(out, b);
        SubWalk(f.g, w, 0, |w| - 1);
        assert w[0..|w| - 1] == w[..|w| - 1];
        SolvedAlong(f, out, w[..|w| - 1], r);
      }
    }
  }

  ghost function PathSets(f: Forward): (x: seq<set<nat>>)
    requires f.Valid()
    ensures |x| == f.g.Size()
  {
    seq(f.g.Size(), b requires 0 <= b => set r | r in f.top && OnAllPaths(f, b, r))
  }

  lemma ExtendWalk(f: Forward, w: seq<nat>, p: nat, b: nat)
    requires f.Valid() && WalkIn(f, w, p) && f.g.Edge(p, b) && b in f.nodes
    ensures WalkIn(f, w + [b], b)
  {
    var v := w + [b];
    forall i | 0 <= i < |v| - 1
      ensures f.g.Edge(v[i], v[i + 1])
    {
      if i < |w| - 1 {
        assert f.g.Edge(w[i], w[i + 1]);
      }
    }
  }

  lemma PathSetsSupported(f: Forward)
    requires f.Valid() && Rooted(f)
    ensures f.Supported(PathSets(f))
  {
    var x := PathSets(f);
    forall r | r in x[0]
      ensures r in f.start
    {
      assert WalkIn(f, [0], 0);
      assert HoldsAlong(f, [0], r);
    }
    forall b, r | b in f.nodes && b != 0 && r in x[b]
      ensures r in f.Transfer(b, f.Meet(x, b))
    {
      if r !in f.gen[b] {
        PathStep(f, b, r);
      }
    }
  }

  lemma PathStep(f: Forward, b: nat, r: nat)
    requires f.Valid() && Rooted(f) && b in f.nodes && b != 0 && r in f.top && OnAllPaths(f, b, r) && r !in f.gen[b]
    ensures r !in f.kill[b] && forall p :: p in f.nodes && f.g.Edge(p, b) ==> OnAllPaths(f, p, r)
  {
    var v :| WalkIn(f, v, b);
    assert HoldsAlong(f, v, r);
    forall p, w | p in f.nodes && f.g.Edge(p, b) && WalkIn(f, w, p)
      ensures HoldsAlong(f, w, r)
    {
      ExtendWalk(f, w, p, b);
      assert HoldsAlong(f, w + [b], r);
      assert (w + [b])[..|w|] == w;
    }
  }

  /** The forward loop computes exactly the meet over all paths. */
  lemma ForwardExact(f: Forward, out: seq<set<nat>>, b: nat, r: nat)
    requires f.Valid() && Rooted(f) && f.Solved(out) && f.Greatest(out) && b in f.nodes && r in f.top
    ensures r in out[b] <==> OnAllPaths(f, b, r)
  {
    if r in out[b] {
      forall w | WalkIn(f, w, b)
        ensures HoldsAlong(f, w, r)
      {
        SolvedAlong(f, out, w, r);
      }
    }
    PathSetsSupported(f);
    assert r in PathSets(f)[b] <==> OnAllPaths(f, b, r);
  }

  // ----- Backward problems -----

  /** Sets flow against the edges from the exit, where `stop` holds; block b turns x into
      (x - kill) + use.  Only the blocks in `nodes` are computed. */
  datatype Backward = Backward(g: Cfg, reach: set<nat>, nodes: set<nat>, use: seq<set<nat>>, kill: seq<set<nat>>,
                               stop: set<nat>, top: set<nat>) {
    ghost predicate Valid() {
      && g.Valid() && nodes <= reach && Closed(g, reach) && g.Exit() !in nodes
      && (forall b :: b in reach ==> b < g.Size()) && |use| == |kill| == g.Size()
      && stop <= top && (forall b :: 0 <= b < |use| ==> use[b] <= top)
    }

    function Transfer(b: nat, x: set<nat>): set<nat>
      requires b < |use| && b < |kill|
    {
      (x - kill[b]) + use[b]
    }

    /** What is wanted after b: the join over its successors. */
    ghost function Join(ins: seq<set<nat>>, b: nat): set<nat>
      requires g.Valid() && |ins| == g.Size() && b < g.Size()
    {
      set r | r in top && exists s: nat :: g.Edge(b, s) && r in ins[s]
    }

    ghost predicate Fixed(ins: seq<set<nat>>, b: nat)
      requires g.Valid() && |ins| == g.Size() == |use| == |kill| && b < g.Size()
    {
      ins[b] == Transfer(b, Join(ins, b))
    }

    ghost predicate Solved(ins: seq<set<nat>>)
      requires Valid()
    {
      && |ins| == g.Size() && ins[g.Exit()] == stop
      && (forall b :: b in nodes ==> Fixed(ins, b))
      && (forall b :: 0 <= b < g.Exit() && b !in nodes ==> ins[b] == {})
    }

    /** x provides everything the equations ask for. */
    ghost predicate Sufficient(x: seq<set<nat>>)
      requires Valid()
    {
      && |x| == g.Size() && stop <= x[g.Exit()]
      && forall b :: b in nodes ==> Transfer(b, Join(x, b)) <= x[b]
    }

    ghost predicate Least(ins: seq<set<nat>>)
      requires Valid() && |ins| == g.Size()
    {
      forall x, b :: Sufficient(x) && 0 <= b < g.Size() ==> ins[b] <= x[b]
    }
  }

  lemma JoinMonotone(f: Backward, x: seq<set<nat>>, y: seq<set<nat>>, b: nat)
    requires f.Valid() && b < f.g.Size() && |x| == |y| == f.g.Size()
    requires forall s :: 0 <= s < |x| ==> x[s] <= y[s]
    ensures f.Transfer(b, f.Join(x, b)) <= f.Transfer(b, f.Join(y, b))
  {
    assert f.Join(x, b) <= f.Join(y, b);
  }

  method ComputeJoin(f: Backward, ins: seq<set<nat>>, b: nat) returns (x: set<nat>)
    requires f.Valid() && |ins| == f.g.Size() && b in f.nodes && forall s :: 0 <= s < |ins| ==> ins[s] <= f.top
    ensures x == f.Join(ins, b)
  {
    x := {};
    var succs := f.g.succs[b];
    for k := 0 to |succs|
      invariant x == set r | r in f.top && exists s :: s in succs[..k] && r in ins[s]
    {
      var s := succs[k];
      assert f.g.Edge(b, s);
      assert succs[..k + 1] == succs[..k] + [s];
      if s in f.reach {
        x := x + ins[s];
      }
    }
    assert succs[..|succs|] == succs;
  }

  ghost predicate Ascending(f: Backward, ins: seq<set<nat>>)
    requires f.Valid()
  {
    && |ins| == f.g.Size() && ins[f.g.Exit()] == f.stop && f.Least(ins)
    && (forall b :: 0 <= b < |ins| ==> ins[b] <= f.top)
    && (forall b :: b in f.nodes ==> ins[b] <= f.Transfer(b, f.Join(ins, b)))
    && (forall b :: 0 <= b < f.g.Exit() && b !in f.nodes ==> ins[b] == {})
  }

  lemma AscendingStep(f: Backward, ins: seq<set<nat>>, b: nat)
    requires f.Valid() && Ascending(f, ins) && b in f.nodes
    ensures var next := ins[b := f.Transfer(b, f.Join(ins, b))];
            Ascending(f, next) && Total(next) >= Total(ins) && (next != ins ==> Total(next) > Total(ins))
  {
    var newIn := f.Transfer(b, f.Join(ins, b));
    var next := ins[b := newIn];
    forall x | f.Sufficient(x)
      ensures forall c :: 0 <= c < |next| ==> next[c] <= x[c]
    {
      JoinMonotone(f, ins, x, b);
    }
    forall c | c in f.nodes
      ensures next[c] <= f.Transfer(c, f.Join(next, c))
    {
      JoinMonotone(f, ins, next, c);
    }
    SubsetSize(ins[b], newIn);
    TotalUpdate(ins, b, newIn);
    if newIn == ins[b] {
      assert next == ins;
    }
  }

  lemma AscendingStart(f: Backward, init: seq<set<nat>>)
    requires f.Valid() && |init| == f.g.Size() && init[f.g.Exit()] == f.stop
    requires forall b :: 0 <= b < f.g.Exit() ==> init[b] == {}
    ensures Ascending(f, init)
  {
  }

  /** One sweep over the blocks. */
  method SweepBackward(f: Backward, order: seq<nat>, before: seq<set<nat>>) returns (ins: seq<set<nat>>, changed: bool)
    requires f.Valid() && (forall b :: b in order <==> b in f.nodes) && Ascending(f, before)
    ensures Ascending(f, ins)
    ensures if changed then Total(ins) > Total(before) else ins == before && f.Solved(ins)
  {
    hide Backward.Join, Backward.Least, Total;
    assert forall k :: 0 <= k < |order| ==> order[k] in order;
    ins, changed := before, false;
    for i := 0 to |order|
      invariant Ascending(f, ins)
      invariant !changed ==> ins == before && forall k :: 0 <= k < i ==> f.Fixed(ins, order[k])
      invariant changed ==> Total(ins) > Total(before)
    {
      var b := order[i];
      AscendingStep(f, ins, b);
      var x := ComputeJoin(f, ins, b);
      var newIn := f.Transfer(b, x);
      if ins[b] != newIn {
        changed := true;
        assert ins[b := newIn] != ins;
      } else {
        assert ins[b := newIn] == ins;
      }
      ins := ins[b := newIn];
    }
  }

  /** Sweep until nothing changes. */
  method SolveBackward(f: Backward, order: seq<nat>) returns (ins: seq<set<nat>>)
    requires f.Valid() && forall b :: b in order <==> b in f.nodes
    ensures f.Solved(ins) && f.Least(ins) && forall b :: 0 <= b < |ins| ==> ins[b] <= f.top
  {
    ins := seq(f.g.Size(), b => {});
    ins := ins[f.g.Exit() := f.stop];
    AscendingStart(f, ins);
    ghost var room := |ins| * |f.top|;
    TotalBound(ins, f.top);
    var changed := true;
    while changed
      invariant Ascending(f, ins) && Total(ins) <= room == f.g.Size() * |f.top|
      invariant !changed ==> f.Solved(ins)
      decreases room - Total(ins), changed
    {
      ins, changed := SweepBackward(f, order, ins);
      TotalBound(ins, f.top);
    }
  }

  // ----- Meaning of a backward solution -----

  /** r is wanted at the last block of w and no block before it on w takes r away. */
  ghost predicate WantedAlong(f: Backward, w: seq<nat>, r: nat)
    requires f.Valid()
  {
    && IsWalk(f.g, w)
    && (forall i :: 0 <= i < |w| - 1 ==> w[i] in f.nodes && r !in f.kill[w[i]])
    && var b := w[|w| - 1]; if b == f.g.Exit() then r in f.stop else b in f.nodes && r in f.use[b]
  }

  ghost predicate Wanted(f: Backward, b: nat, r: nat)
    requires f.Valid()
  {
    exists w :: WantedAlong(f, w, r) && w[0] == b
  }

  lemma {:induction false} SolvedWanted(f: Backward, ins: seq<set<nat>>, w: seq<nat>, r: nat)
    requires f.Valid() && f.Solved(ins) && WantedAlong(f, w, r)
    ensures r in ins[w[0]] && r in f.top
    decreases |w|
  {
    if |w| == 1 {
      assert w[0] in f.nodes ==> f.Fixed(ins, w[0]);
    } else {
      WantedTail(f, w, r);
      SolvedWanted(f, ins, w[1..], r);
      hide WantedAlong;
      assert f.Fixed(ins, w[0]);
      assert r in f.Join(ins, w[0]);
    }
  }

  lemma WantedTail(f: Backward, w: seq<nat>, r: nat)
    requires f.Valid() && WantedAlong(f, w, r) && |w| > 1
    ensures WantedAlong(f, w[1..], r) && f.g.Edge(w[0], w[1]) && w[0] in f.nodes && r !in f.kill[w[0]]
  {
    assert f.g.Edge(w[0], w[0 + 1]);
    SubWalk(f.g, w, 1, |w|);
    assert w[1..|w|] == w[1..];
    forall i | 0 <= i < |w[1..]| - 1
      ensures w[1..][i] in f.nodes && r !in f.kill[w[1..][i]]
    {
      assert w[1..][i] == w[i + 1];
    }
  }

  ghost function WantedSets(f: Backward): (x: seq<set<nat>>)
    requires f.Valid()
    ensures |x| == f.g.Size()
  {
    seq(f.g.Size(), b requires 0 <= b => set r | r in f.top && Wanted(f, b, r))
  }

  lemma WantedStep(f: Backward, b: nat, s: nat, r: nat)
    requires f.Valid() && b in f.nodes && f.g.Edge(b, s) && Wanted(f, s, r) && r !in f.kill[b]
    ensures Wanted(f, b, r)
  {
    var w :| WantedAlong(f, w, r) && w[0] == s;
    JoinWalks(f.g, [b, s], w);
    var v := [b, s] + w[1..];
    assert v == [b] + w;
    assert WantedAlong(f, v, r);
  }

  lemma WantedSufficient(f: Backward)
    requires f.Valid()
    ensures f.Sufficient(WantedSets(f))
  {
    var x := WantedSets(f);
    forall r | r in f.stop
      ensures r in x[f.g.Exit()]
    {
      assert WantedAlong(f, [f.g.Exit()], r);
    }
    forall b: nat, r: nat | b in f.nodes && r in f.Transfer(b, f.Join(x, b))
      ensures r in x[b]
    {
      if r in f.use[b] {
        assert WantedAlong(f, [b], r);
      } else {
        var s: nat :| f.g.Edge(b, s) && r in x[s];
        WantedStep(f, b, s, r);
      }
    }
  }

  /** The backward loop computes exactly what some path wants. */
  lemma BackwardExact(f: Backward, ins: seq<set<nat>>, b: nat, r: nat)
    requires f.Valid() && f.Solved(ins) && f.Least(ins) && b < f.g.Size()
    ensures r in ins[b] <==> Wanted(f, b, r)
  {
    if Wanted(f, b, r) {
      var w :| WantedAlong(f, w, r) && w[0] == b;
      SolvedWanted(f, ins, w, r);
    }
    WantedSufficient(f);
    assert ins[b] <= WantedSets(f)[b];
  }
}
