/** What the liveness and definedness tables say, read off the register sets of the instructions along the
    paths of the code (src/cfg/cfg.cc, recompute_liveness and recompute_defs). */
module Registers {
  import opened Graph
  import opened Programs
  import opened Dataflow

  // ----- Liveness -----

  /** Along w the last instruction reads r, or r is live-out at the end, and none before surely overwrites it. */
  ghost predicate UsedAlong(code: Code, stop: set<nat>, w: seq<nat>, r: nat) {
    && IsWalk(Flow(code), w)
    && (if w[|w| - 1] < |code| then r in code[w[|w| - 1]].read else r in stop)
    && forall k :: 0 <= k < |w| - 1 ==>
         w[k] < |code| && r !in code[w[k]].mustWrite && r !in code[w[k]].mustUndef
  }

  ghost predicate UsedFrom(code: Code, stop: set<nat>, i: nat, r: nat) {
    exists w :: UsedAlong(code, stop, w, r) && w[0] == i
  }

  lemma FlowEdge(code: Code, i: nat, k: nat)
    ensures Flow(code).Edge(i, k) <==> i < |code| && k in Next(code, i)
  {
  }

  lemma WalkTail(code: Code, w: seq<nat>)
    requires IsWalk(Flow(code), w) && |w| > 1
    ensures IsWalk(Flow(code), w[1..]) && w[0] < |code| && w[1] in Next(code, w[0])
  {
    var v := w[1..];
    assert Flow(code).Edge(w[0], w[0 + 1]);
    forall i | 0 <= i < |v| - 1
      ensures Flow(code).Edge(v[i], v[i + 1])
    {
      assert Flow(code).Edge(w[i + 1], w[i + 1 + 1]);
    }
  }

  lemma {:induction false} UsedIsLive(code: Code, stop: set<nat>, x: seq<set<nat>>, w: seq<nat>, r: nat)
    requires LiveSound(code, stop, x) && UsedAlong(code, stop, w, r) && Reachable(code, w[0])
    ensures r in x[w[0]]
    decreases |w|
  {
    if |w| > 1 {
      WalkTail(code, w);
      ReachableNext(code, w[0], w[1]);
      forall k | 0 <= k < |w[1..]| - 1
        ensures w[1..][k] < |code| && r !in code[w[1..][k]].mustWrite && r !in code[w[1..][k]].mustUndef
      {
        assert w[1..][k] == w[k + 1];
      }
      UsedIsLive(code, stop, x, w[1..], r);
      assert LiveBefore(code[w[0]], x[w[1]]) <= x[w[0]];
    } else if w[0] < |code| {
      assert LiveBefore(code[w[0]], x[Next(code, w[0])[0]]) <= x[w[0]];
    }
  }

  ghost function UsedSets(code: Code, stop: set<nat>, x: seq<set<nat>>): (y: seq<set<nat>>)
    requires |x| == |code| + 1
    ensures |y| == |x| && forall i: nat, r :: i < |y| ==> (r in y[i] <==> r in x[i] && UsedFrom(code, stop, i, r))
  {
    seq(|x|, i requires 0 <= i < |x| => set r | r in x[i] && UsedFrom(code, stop, i, r))
  }

  lemma UsedSetsSound(code: Code, stop: set<nat>, x: seq<set<nat>>)
    requires LiveSound(code, stop, x)
    ensures LiveSound(code, stop, UsedSets(code, stop, x))
  {
    var y := UsedSets(code, stop, x);
    forall r | r in stop
      ensures r in y[|code|]
    {
      assert UsedAlong(code, stop, [|code|], r);
    }
    forall i, k | 0 <= i < |code| && Reachable(code, i) && k in Next(code, i)
      ensures LiveBefore(code[i], y[k]) <= y[i]
    {
      forall r | r in LiveBefore(code[i], y[k])
        ensures r in y[i]
      {
        assert LiveBefore(code[i], x[k]) <= x[i];
        UsedBefore(code, stop, i, k, r);
      }
    }
  }

  lemma UsedBefore(code: Code, stop: set<nat>, i: nat, k: nat, r: nat)
    requires i < |code| && k in Next(code, i)
    ensures r in code[i].read ==> UsedFrom(code, stop, i, r)
    ensures UsedFrom(code, stop, k, r) && r !in code[i].mustWrite && r !in code[i].mustUndef ==>
            UsedFrom(code, stop, i, r)
  {
    if r in code[i].read {
      assert UsedAlong(code, stop, [i], r);
    }
    if UsedFrom(code, stop, k, r) && r !in code[i].mustWrite && r !in code[i].mustUndef {
      var w :| UsedAlong(code, stop, w, r) && w[0] == k;
      var v := [i] + w;
      FlowEdge(code, i, k);
      forall m | 0 <= m < |v| - 1
        ensures Flow(code).Edge(v[m], v[m + 1]) && v[m] < |code|
        ensures r !in code[v[m]].mustWrite && r !in code[v[m]].mustUndef
      {
        if m > 0 {
          assert v[m] == w[m - 1] && v[m + 1] == w[m - 1 + 1];
          FlowEdge(code, w[m - 1], w[m - 1 + 1]);
        }
      }
      assert UsedAlong(code, stop, v, r);
    }
  }

  /** A register is live before a reachable instruction if and only if some path from there leads to a read of
      it, or to the end of the code if it is live-out, before it is surely overwritten. */
  lemma LiveExactly(code: Code, stop: set<nat>, x: seq<set<nat>>, i: nat, r: nat)
    requires LiveSound(code, stop, x) && LiveBest(code, stop, x) && i <= |code| && Reachable(code, i)
    ensures r in x[i] <==> exists w :: UsedAlong(code, stop, w, r) && w[0] == i
  {
    assert |x| == |code| + 1;
    hide LiveSound, Reachable, Flow;
    UsedSetsSound(code, stop, x);
    var y := UsedSets(code, stop, x);
    assert x[i] <= y[i];
    if w :| UsedAlong(code, stop, w, r) && w[0] == i {
      UsedIsLive(code, stop, x, w, r);
    }
  }

  // ----- Definedness -----

  /** Before the last instruction of w, r is defined: an instruction surely wrote it, without undefining it,
      or it was defined at the start, and none since may have undefined it. */
  ghost predicate DefinedAlong(code: Code, start: set<nat>, w: seq<nat>, r: nat)
    requires IsWalk(Flow(code), w)
  {
    && (forall k :: 0 <= k < |w| - 1 ==> w[k] < |code|)
    && ((r in start && KeptSince(code, w, 0, r)) ||
        exists k: nat :: k < |w| - 1 && r in code[w[k]].mustWrite && KeptSince(code, w, k, r))
  }

  ghost predicate KeptSince(code: Code, w: seq<nat>, k: nat, r: nat) {
    forall m :: k <= m < |w| - 1 ==> w[m] < |code| && r !in code[w[m]].undef
  }

  lemma WalkFront(code: Code, w: seq<nat>)
    requires IsWalk(Flow(code), w) && |w| > 1
    ensures IsWalk(Flow(code), w[..|w| - 1]) && w[|w| - 2] < |code| && w[|w| - 1] in Next(code, w[|w| - 2])
  {
    var v := w[..|w| - 1];
    assert Flow(code).Edge(w[|w| - 2], w[|w| - 2 + 1]);
    forall i | 0 <= i < |v| - 1
      ensures Flow(code).Edge(v[i], v[i + 1])
    {
      assert Flow(code).Edge(w[i], w[i + 1]);
    }
  }

  lemma WalkMore(code: Code, w: seq<nat>, k: nat)
    requires IsWalk(Flow(code), w) && w[|w| - 1] < |code| && k in Next(code, w[|w| - 1])
    ensures IsWalk(Flow(code), w + [k])
  {
    var v := w + [k];
    forall i | 0 <= i < |v| - 1
      ensures Flow(code).Edge(v[i], v[i + 1])
    {
      if i < |w| - 1 {
        assert Flow(code).Edge(w[i], w[i + 1]);
      }
    }
  }

  /** One more step defines what it writes without undefining it, and keeps what it does not undefine. */
  lemma DefinedStep(code: Code, start: set<nat>, w: seq<nat>, k: nat, r: nat)
    requires IsWalk(Flow(code), w) && w[|w| - 1] < |code| && IsWalk(Flow(code), w + [k])
    ensures DefinedAlong(code, start, w + [k], r) <==>
              ((forall m :: 0 <= m < |w| - 1 ==> w[m] < |code|) && r !in code[w[|w| - 1]].undef &&
               (r in code[w[|w| - 1]].mustWrite || DefinedAlong(code, start, w, r)))
  {
    var v, n := w + [k], |w| - 1;
    assert forall m :: 0 <= m <= n ==> v[m] == w[m];
    hide IsWalk;
    forall j: nat | j <= n
      ensures KeptSince(code, v, j, r) <==> r !in code[w[n]].undef && KeptSince(code, w, j, r)
    {
      SinceStep(code, w, k, j, r);
    }
    NothingSince(code, w, n, r);
    hide KeptSince;
    if DefinedAlong(code, start, v, r) {
      DefinedFront(code, start, w, v, r);
    }
    if r !in code[w[n]].undef && DefinedAlong(code, start, w, r) {
      DefinedBack(code, start, w, v, r);
    }
    if r !in code[w[n]].undef && r in code[w[n]].mustWrite {
      assert r in code[v[n]].mustWrite && KeptSince(code, v, n, r);
    }
  }

  lemma DefinedFront(code: Code, start: set<nat>, w: seq<nat>, v: seq<nat>, r: nat)
    requires IsWalk(Flow(code), w) && IsWalk(Flow(code), v) && |v| == |w| + 1 && v[..|w|] == w && w[|w| - 1] < |code|
    requires forall j: nat :: j < |w| ==>
               (KeptSince(code, v, j, r) <==> r !in code[w[|w| - 1]].undef && KeptSince(code, w, j, r))
    requires DefinedAlong(code, start, v, r)
    ensures r !in code[w[|w| - 1]].undef && (r in code[w[|w| - 1]].mustWrite || DefinedAlong(code, start, w, r))
  {
    assert forall m :: 0 <= m < |w| ==> v[m] == v[..|w|][m] == w[m];
    hide KeptSince, IsWalk;
    if !(r in start && KeptSince(code, v, 0, r)) {
      var j: nat :| j < |v| - 1 && r in code[v[j]].mustWrite && KeptSince(code, v, j, r);
      if j < |w| - 1 {
        assert r in code[w[j]].mustWrite && KeptSince(code, w, j, r);
      }
    }
  }

  lemma DefinedBack(code: Code, start: set<nat>, w: seq<nat>, v: seq<nat>, r: nat)
    requires IsWalk(Flow(code), w) && IsWalk(Flow(code), v) && |v| == |w| + 1 && v[..|w|] == w && w[|w| - 1] < |code|
    requires forall j: nat :: j < |w| ==>
               (KeptSince(code, v, j, r) <==> r !in code[w[|w| - 1]].undef && KeptSince(code, w, j, r))
    requires r !in code[w[|w| - 1]].undef && DefinedAlong(code, start, w, r)
    ensures DefinedAlong(code, start, v, r)
  {
    assert forall m :: 0 <= m < |w| ==> v[m] == v[..|w|][m] == w[m];
    hide KeptSince, IsWalk;
    if !(r in start && KeptSince(code, w, 0, r)) {
      var j: nat :| j < |w| - 1 && r in code[w[j]].mustWrite && KeptSince(code, w, j, r);
      assert r in code[v[j]].mustWrite && KeptSince(code, v, j, r);
    }
  }

  lemma SinceStep(code: Code, w: seq<nat>, k: nat, j: nat, r: nat)
    requires j < |w| && w[|w| - 1] < |code|
    ensures KeptSince(code, w + [k], j, r) <==> r !in code[w[|w| - 1]].undef && KeptSince(code, w, j, r)
  {
    var v := w + [k];
    if KeptSince(code, v, j, r) {
      assert v[|w| - 1] == w[|w| - 1];
      forall m | j <= m < |w| - 1
        ensures w[m] < |code| && r !in code[w[m]].undef
      {
        assert v[m] == w[m];
      }
    }
  }

  lemma NothingSince(code: Code, w: seq<nat>, n: nat, r: nat)
    requires n == |w| - 1
    ensures KeptSince(code, w, n, r)
  {
  }

  lemma {:induction false} DefIsDefined(code: Code, start: set<nat>, x: seq<set<nat>>, w: seq<nat>, r: nat)
    requires DefSound(code, start, x) && IsWalk(Flow(code), w) && w[0] == 0 && r in x[w[|w| - 1]]
    ensures DefinedAlong(code, start, w, r)
    decreases |w|
  {
    if |w| > 1 {
      var front, i, k := w[..|w| - 1], w[|w| - 2], w[|w| - 1];
      WalkFront(code, w);
      assert WalkBetween(Flow(code), front, 0, i);
      assert x[k] <= DefAfter(code[i], x[i]);
      assert w == front + [k];
      WalkInside(code, front);
      if r in x[i] {
        DefIsDefined(code, start, x, front, r);
      }
      DefinedStep(code, start, front, k, r);
    }
  }

  lemma WalkInside(code: Code, w: seq<nat>)
    requires IsWalk(Flow(code), w)
    ensures forall m :: 0 <= m < |w| - 1 ==> w[m] < |code|
  {
    forall m | 0 <= m < |w| - 1
      ensures w[m] < |code|
    {
      assert Flow(code).Edge(w[m], w[m + 1]);
    }
  }

  ghost predicate DefinedOnAll(code: Code, start: set<nat>, i: nat, r: nat) {
    forall w :: WalkBetween(Flow(code), w, 0, i) ==> DefinedAlong(code, start, w, r)
  }

  ghost function DefinedSets(code: Code, start: set<nat>, top: set<nat>): (y: seq<set<nat>>)
    ensures |y| == |code| + 1 && Within(y, top)
    ensures forall i: nat, r :: i < |y| ==> (r in y[i] <==> r in top && DefinedOnAll(code, start, i, r))
  {
    seq(|code| + 1, i requires 0 <= i <= |code| => set r | r in top && DefinedOnAll(code, start, i, r))
  }

  lemma DefinedSetsSound(code: Code, start: set<nat>, top: set<nat>)
    ensures DefSound(code, start, DefinedSets(code, start, top))
  {
    var y := DefinedSets(code, start, top);
    forall r | r in y[0]
      ensures r in start
    {
      assert WalkBetween(Flow(code), [0], 0, 0);
      assert DefinedAlong(code, start, [0], r);
    }
    forall i, k | 0 <= i < |code| && Reachable(code, i) && k in Next(code, i)
      ensures y[k] <= DefAfter(code[i], y[i])
    {
      forall r | r in y[k]
        ensures r in DefAfter(code[i], y[i])
      {
        DefinedBefore(code, start, i, k, r);
      }
    }
  }

  lemma DefinedBefore(code: Code, start: set<nat>, i: nat, k: nat, r: nat)
    requires i < |code| && Reachable(code, i) && k in Next(code, i) && DefinedOnAll(code, start, k, r)
    ensures r !in code[i].undef && (r in code[i].mustWrite || DefinedOnAll(code, start, i, r))
  {
    forall w | WalkBetween(Flow(code), w, 0, i)
      ensures r !in code[i].undef && (r in code[i].mustWrite || DefinedAlong(code, start, w, r))
    {
      WalkMore(code, w, k);
      assert WalkBetween(Flow(code), w + [k], 0, k);
      DefinedStep(code, start, w, k, r);
    }
  }

  /** A register of the universe is defined before a reachable instruction if and only if it is along every path
      from the entry. */
  lemma DefinedExactly(code: Code, start: set<nat>, top: set<nat>, x: seq<set<nat>>, i: nat, r: nat)
    requires DefSound(code, start, x) && DefBest(code, start, top, x) && i <= |code| && Reachable(code, i) && r in top
    ensures r in x[i] <==> forall w :: WalkBetween(Flow(code), w, 0, i) ==> DefinedAlong(code, start, w, r)
  {
    var y := DefinedSets(code, start, top);
    DefinedSetsSound(code, start, top);
    assert y[i] <= x[i];
    if r in x[i] {
      forall w | WalkBetween(Flow(code), w, 0, i)
        ensures DefinedAlong(code, start, w, r)
      {
        DefIsDefined(code, start, x, w, r);
      }
    } else {
      assert !DefinedOnAll(code, start, i, r);
    }
  }
}
