/** Whole-run consequences of a successful cutpoint proof (src/validator/ddec.cc): the two programs
    visit matching cutpoints in the same order, and one terminates if and only if the other does. */
module Simulation {
  import opened Graph
  import opened Paths
  import opened Ddec

  /** The cut lists as the cutpoint system builds them: distinct blocks, exit last. */
  ghost predicate CutList(g: Cfg, cuts: seq<nat>)
    requires g.Valid()
  {
    && InRange(g, cuts) && |cuts| > 0 && cuts[|cuts| - 1] == g.Exit()
    && (forall i, j :: 0 <= i < j < |cuts| ==> cuts[i] != cuts[j])
  }

  /** The traces list the same cutpoints, and the invariant of each holds there. */
  ghost predicate Matched<S(!new)>(v: Setup, meaning: (nat, S, S) -> bool,
                                   invs: seq<seq<nat>>, a: (nat, S), b: (nat, S))
    requires |v.tcuts| == |v.rcuts| == |invs|
  {
    exists c :: 0 <= c < |invs| && a.0 == v.tcuts[c] && b.0 == v.rcuts[c] && Holds(meaning, invs[c], a.1, b.1)
  }

  ghost predicate Parallel<S(!new)>(v: Setup, meaning: (nat, S, S) -> bool,
                                    invs: seq<seq<nat>>, a: seq<(nat, S)>, b: seq<(nat, S)>)
    requires |v.tcuts| == |v.rcuts| == |invs|
  {
    |a| == |b| && forall n :: 0 <= n < |a| ==> Matched(v, meaning, invs, a[n], b[n])
  }

  /** The state in which a run of k blocks stops. */
  ghost function Final<S(!new)>(prog: Program<S>, b: nat, s: S, k: nat): S
    requires prog.Valid() && b < prog.g.Size() && prog.Reaches(b, s, k)
    decreases k
  {
    if b == prog.g.Exit() then s else Final(prog, prog.Next(b, s), prog.body(prog.Next(b, s), s), k - 1)
  }

  lemma AvoidingLonger(g: Cfg, b: nat, n: nat, end: nat, cuts: seq<nat>, w: seq<nat>)
    requires g.Valid() && g.Edge(b, n) && n !in cuts && Avoiding(g, n, end, cuts, w)
    ensures Avoiding(g, b, end, cuts, [b] + w)
  {
    JoinWalks(g, [b, n], w);
    assert [b, n] + w[1..] == [b] + w;
  }

  lemma FollowsLonger<S(!new)>(prog: Program<S>, b: nat, w: seq<nat>, s: S)
    requires prog.Valid() && IsWalk(prog.g, [b] + w) && IsWalk(prog.g, w)
    requires b < prog.g.Size() && |prog.g.succs[b]| > 0 && prog.Next(b, s) == w[0]
    requires prog.Follows(w, prog.body(w[0], s))
    ensures prog.Follows([b] + w, s) && prog.End([b] + w, s) == prog.End(w, prog.body(w[0], s))
  {
    assert ([b] + w)[1..] == w;
  }

  lemma NextEdge<S(!new)>(prog: Program<S>, b: nat, s: S)
    requires prog.Valid() && b < prog.g.Exit()
    ensures prog.g.Edge(b, prog.Next(b, s)) && prog.Next(b, s) < prog.g.Size()
  {
  }

  lemma OneEdge<S(!new)>(prog: Program<S>, b: nat, s: S, cuts: seq<nat>)
    requires prog.Valid() && b < prog.g.Exit()
    ensures var n := prog.Next(b, s);
            && Avoiding(prog.g, b, n, cuts, [b, n]) && prog.Follows([b, n], s)
            && prog.End([b, n], s) == prog.body(n, s)
  {
    var n := prog.Next(b, s);
    NextEdge(prog, b, s);
    assert IsWalk(prog.g, [b, n]) && [b, n][1..] == [n];
    assert prog.Follows([n], prog.body(n, s));
  }

  /** w is the stretch of a terminating run from b up to the next cutpoint. */
  ghost predicate Stretch<S(!new)>(prog: Program<S>, cuts: seq<nat>, b: nat, s: S, k: nat, w: seq<nat>)
    requires prog.Valid()
  {
    && |w| > 1 && |w| - 1 <= k && w[|w| - 1] in cuts
    && Avoiding(prog.g, b, w[|w| - 1], cuts, w)
    && prog.Follows(w, s) && prog.Reaches(w[|w| - 1], prog.End(w, s), k - (|w| - 1))
  }

  lemma {:induction false} FirstCut<S(!new)>(prog: Program<S>, cuts: seq<nat>, b: nat, s: S, k: nat)
    returns (w: seq<nat>)
    requires prog.Valid() && prog.g.Exit() in cuts && b < prog.g.Exit() && prog.Reaches(b, s, k)
    ensures Stretch(prog, cuts, b, s, k, w)
    ensures |w| > 1 && |w| - 1 <= k && w[|w| - 1] < prog.g.Size()
    ensures prog.Reaches(w[|w| - 1], prog.End(w, s), k - (|w| - 1))
    ensures prog.CutTrace(cuts, b, s, k) ==
            (if b in cuts then [(b, s)] else []) + prog.CutTrace(cuts, w[|w| - 1], prog.End(w, s), k - (|w| - 1))
    ensures Final(prog, b, s, k) == Final(prog, w[|w| - 1], prog.End(w, s), k - (|w| - 1))
    decreases k
  {
    hide Stretch, Final, Program.CutTrace, Program.Reaches, Program.End;
    var n := prog.Next(b, s);
    NextEdge(prog, b, s);
    RunStep(prog, cuts, b, s, k);
    if n in cuts {
      w := [b, n];
      OneEdge(prog, b, s, cuts);
      StretchOne(prog, cuts, b, s, k);
    } else {
      NotExit(prog, cuts, n);
      var u := FirstCut(prog, cuts, n, prog.body(n, s), k - 1);
      w := [b] + u;
      StretchLonger(prog, cuts, b, s, k, u);
      StretchEnd(prog, cuts, b, s, k, w);
      StretchEnd(prog, cuts, n, prog.body(n, s), k - 1, u);
    }
  }

  lemma NotExit<S(!new)>(prog: Program<S>, cuts: seq<nat>, n: nat)
    requires prog.Valid() && prog.g.Exit() in cuts && n !in cuts && n < prog.g.Size()
    ensures n < prog.g.Exit()
  {
  }

  lemma RunStep<S(!new)>(prog: Program<S>, cuts: seq<nat>, b: nat, s: S, k: nat)
    requires prog.Valid() && b < prog.g.Exit() && prog.Reaches(b, s, k)
    ensures var n, s' := prog.Next(b, s), prog.body(prog.Next(b, s), s);
            && n < prog.g.Size() && k > 0 && prog.Reaches(n, s', k - 1)
            && prog.CutTrace(cuts, b, s, k) == (if b in cuts then [(b, s)] else []) + prog.CutTrace(cuts, n, s', k - 1)
            && Final(prog, b, s, k) == Final(prog, n, s', k - 1)
  {
    NextEdge(prog, b, s);
  }

  lemma AtExit<S(!new)>(prog: Program<S>, cuts: seq<nat>, s: S, k: nat)
    requires prog.Valid() && prog.g.Exit() in cuts && prog.Reaches(prog.g.Exit(), s, k)
    ensures prog.CutTrace(cuts, prog.g.Exit(), s, k) == [(prog.g.Exit(), s)] && Final(prog, prog.g.Exit(), s, k) == s
  {
  }

  lemma StretchOne<S(!new)>(prog: Program<S>, cuts: seq<nat>, b: nat, s: S, k: nat)
    requires prog.Valid() && b < prog.g.Exit() && prog.Reaches(b, s, k) && prog.Next(b, s) in cuts
    ensures Stretch(prog, cuts, b, s, k, [b, prog.Next(b, s)])
  {
    OneEdge(prog, b, s, cuts);
    NextEdge(prog, b, s);
  }

  lemma StretchEnd<S(!new)>(prog: Program<S>, cuts: seq<nat>, b: nat, s: S, k: nat, w: seq<nat>)
    requires prog.Valid() && Stretch(prog, cuts, b, s, k, w)
    ensures |w| > 1 && |w| - 1 <= k && w[|w| - 1] < prog.g.Size() && w[|w| - 1] in cuts
    ensures prog.Reaches(w[|w| - 1], prog.End(w, s), k - (|w| - 1))
    ensures Avoiding(prog.g, b, w[|w| - 1], cuts, w) && IsWalk(prog.g, w) && prog.Follows(w, s)
  {
  }

  lemma StretchLonger<S(!new)>(prog: Program<S>, cuts: seq<nat>, b: nat, s: S, k: nat, u: seq<nat>)
    requires prog.Valid() && b < prog.g.Exit() && k > 0
    requires var n := prog.Next(b, s); n !in cuts && Stretch(prog, cuts, n, prog.body(n, s), k - 1, u)
    ensures Stretch(prog, cuts, b, s, k, [b] + u)
    ensures prog.End([b] + u, s) == prog.End(u, prog.body(prog.Next(b, s), s))
    ensures |u| > 1 && ([b] + u)[|u|] == u[|u| - 1]
  {
    hide Avoiding, IsWalk;
    var n := prog.Next(b, s);
    NextEdge(prog, b, s);
    AvoidingLonger(prog.g, b, n, u[|u| - 1], cuts, u);
    AvoidingEnds(prog.g, n, u[|u| - 1], cuts, u);
    AvoidingEnds(prog.g, b, u[|u| - 1], cuts, [b] + u);
    FollowsLonger(prog, b, u, s);
  }

  lemma ExitIndex(g: Cfg, cuts: seq<nat>, i: nat)
    requires g.Valid() && CutList(g, cuts) && i < |cuts|
    ensures cuts[i] == g.Exit() <==> i == |cuts| - 1
    ensures g.Exit() in cuts && cuts[i] < g.Size()
  {
  }

  lemma IndexOf(cuts: seq<nat>, b: nat) returns (i: nat)
    requires b in cuts
    ensures i < |cuts| && cuts[i] == b
  {
    i :| 0 <= i < |cuts| && cuts[i] == b;
  }

  /** Everything a successful proof attempt provides. */
  ghost predicate Proved<S(!new)>(v: Setup, tp: Program<S>, rp: Program<S>, meaning: (nat, S, S) -> bool,
                                  check: Query -> bool, invs: seq<seq<nat>>) {
    && Runs(v, tp, rp) && SoundOracle(tp, rp, meaning, check)
    && |invs| == |v.tcuts| && ProofHolds(v, invs, check)
    && FaithfulBetween(tp, v.tcuts) && FaithfulBetween(rp, v.rcuts)
    && CutList(v.target, v.tcuts) && CutList(v.rewrite, v.rcuts)
  }

  lemma ParallelCons<S(!new)>(v: Setup, meaning: (nat, S, S) -> bool, invs: seq<seq<nat>>,
                              a0: (nat, S), b0: (nat, S), a: seq<(nat, S)>, b: seq<(nat, S)>)
    requires |v.tcuts| == |v.rcuts| == |invs|
    requires Matched(v, meaning, invs, a0, b0) && Parallel(v, meaning, invs, a, b)
    ensures Parallel(v, meaning, invs, [a0] + a, [b0] + b)
  {
  }

  /** Soundness of the proof over whole runs: from any cutpoint pair that satisfies its invariant,
      terminating runs visit matching cutpoints in the same order, satisfy the matching invariant
      at each, and stop in states that satisfy the exit invariant. */
  lemma {:induction false} RunsAgree<S(!new)>(v: Setup, tp: Program<S>, rp: Program<S>,
                                              meaning: (nat, S, S) -> bool, check: Query -> bool,
                                              invs: seq<seq<nat>>, i: nat, s: S, t: S, kt: nat, kr: nat)
    requires Proved(v, tp, rp, meaning, check, invs) && i < |v.tcuts| && Holds(meaning, invs[i], s, t)
    requires tp.Reaches(v.tcuts[i], s, kt) && rp.Reaches(v.rcuts[i], t, kr)
    ensures Parallel(v, meaning, invs, tp.CutTrace(v.tcuts, v.tcuts[i], s, kt), rp.CutTrace(v.rcuts, v.rcuts[i], t, kr))
    ensures Holds(meaning, invs[|invs| - 1], Final(tp, v.tcuts[i], s, kt), Final(rp, v.rcuts[i], t, kr))
    decreases kt
  {
    hide Holds, ProofHolds, SoundOracle, FaithfulBetween, Avoiding, Parallel, CutList, NoEmptyPairs, Stretch, Final;
    hide Program.CutTrace, Program.Reaches, Program.End, Program.Follows, Program.Valid, Setup.Valid, IsWalk;
    SetupSizes(v, tp, rp, meaning, check, invs);
    ExitIndex(v.target, v.tcuts, i);
    ExitIndex(v.rewrite, v.rcuts, i);
    var a0, b0 := (v.tcuts[i], s), (v.rcuts[i], t);
    assert Matched(v, meaning, invs, a0, b0);
    if i == |v.tcuts| - 1 {
      AtExit(tp, v.tcuts, s, kt);
      AtExit(rp, v.rcuts, t, kr);
      ParallelNil(v, meaning, invs);
      ParallelCons(v, meaning, invs, a0, b0, [], []);
      assert [a0] + [] == [a0] && [b0] + [] == [b0];
    } else {
      var w := FirstCut(tp, v.tcuts, v.tcuts[i], s, kt);
      var x := FirstCut(rp, v.rcuts, v.rcuts[i], t, kr);
      StretchEnd(tp, v.tcuts, v.tcuts[i], s, kt, w);
      StretchEnd(rp, v.rcuts, v.rcuts[i], t, kr, x);
      var j := IndexOf(v.tcuts, w[|w| - 1]);
      var k := IndexOf(v.rcuts, x[|x| - 1]);
      SameCutpoint(v, tp, rp, meaning, check, invs, i, j, k, w, x, s, t);
      RunsAgree(v, tp, rp, meaning, check, invs, j, tp.End(w, s), rp.End(x, t), kt - (|w| - 1), kr - (|x| - 1));
      ParallelCons(v, meaning, invs, a0, b0,
                   tp.CutTrace(v.tcuts, v.tcuts[j], tp.End(w, s), kt - (|w| - 1)),
                   rp.CutTrace(v.rcuts, v.rcuts[j], rp.End(x, t), kr - (|x| - 1)));
    }
  }

  lemma SetupSizes<S(!new)>(v: Setup, tp: Program<S>, rp: Program<S>, meaning: (nat, S, S) -> bool,
                            check: Query -> bool, invs: seq<seq<nat>>)
    requires Proved(v, tp, rp, meaning, check, invs)
    ensures |v.tcuts| == |v.rcuts| == |invs| > 0 && tp.Valid() && rp.Valid() && v.Valid()
    ensures v.target.Valid() && v.rewrite.Valid()
  {
  }

  lemma ParallelNil<S(!new)>(v: Setup, meaning: (nat, S, S) -> bool, invs: seq<seq<nat>>)
    requires |v.tcuts| == |v.rcuts| == |invs|
    ensures Parallel(v, meaning, invs, [], [])
  {
  }

  // ----- Termination -----

  /** A walk that meets no cutpoint after its first block. */
  ghost predicate FreeWalk(g: Cfg, cuts: seq<nat>, w: seq<nat>) {
    IsWalk(g, w) && forall i :: 0 < i < |w| ==> w[i] !in cuts
  }

  /** No walk from a reachable block avoids the cutpoints for long. */
  ghost predicate ShortFreeWalks(g: Cfg, cuts: seq<nat>) {
    forall w :: FreeWalk(g, cuts, w) && Reach(g, 0, w[0]) ==> |w| <= g.Size() + 1
  }

  /** Every cutpoint but the exit can be reached; the exit need not be. */
  ghost predicate CutsReachable(g: Cfg, cuts: seq<nat>) {
    forall i :: 0 <= i < |cuts| - 1 ==> Reach(g, 0, cuts[i])
  }

  lemma WalkAppend(g: Cfg, u: seq<nat>, n: nat)
    requires g.Valid() && IsWalk(g, u) && g.Edge(u[|u| - 1], n)
    ensures IsWalk(g, u + [n])
  {
    JoinWalks(g, u, [u[|u| - 1], n]);
    assert u + [u[|u| - 1], n][1..] == u + [n];
  }

  lemma {:induction false} FollowsAppend<S(!new)>(prog: Program<S>, u: seq<nat>, n: nat, s: S)
    requires prog.Valid() && IsWalk(prog.g, u) && u[|u| - 1] < prog.g.Exit() && prog.Follows(u, s)
    requires prog.Next(u[|u| - 1], prog.End(u, s)) == n
    ensures IsWalk(prog.g, u + [n]) && prog.Follows(u + [n], s)
    ensures prog.End(u + [n], s) == prog.body(n, prog.End(u, s))
    decreases |u|
  {
    NextEdge(prog, u[|u| - 1], prog.End(u, s));
    WalkAppend(prog.g, u, n);
    if |u| == 1 {
      assert u + [n] == [u[0], n];
      OneEdge(prog, u[0], s, []);
    } else {
      SubWalk(prog.g, u, 1, |u|);
      assert u[1..|u|] == u[1..];
      FollowsAppend(prog, u[1..], n, prog.body(u[1], s));
      assert (u + [n])[1..] == u[1..] + [n];
    }
  }

  /** Where free walks are short, the run from a cutpoint meets the next one. */
  lemma {:induction false} SeekCut<S(!new)>(prog: Program<S>, cuts: seq<nat>, u: seq<nat>, s: S) returns (w: seq<nat>)
    requires prog.Valid() && prog.g.Exit() in cuts && ShortFreeWalks(prog.g, cuts)
    requires FreeWalk(prog.g, cuts, u) && Reach(prog.g, 0, u[0]) && prog.Follows(u, s)
    requires u[|u| - 1] < prog.g.Exit()
    ensures |w| > 1 && Avoiding(prog.g, u[0], w[|w| - 1], cuts, w) && w[|w| - 1] in cuts && prog.Follows(w, s)
    decreases prog.g.Size() + 1 - |u|
  {
    var n := prog.Next(u[|u| - 1], prog.End(u, s));
    NextEdge(prog, u[|u| - 1], prog.End(u, s));
    FollowsAppend(prog, u, n, s);
    w := u + [n];
    if n !in cuts {
      assert FreeWalk(prog.g, cuts, w);
      w := SeekCut(prog, cuts, w, s);
    }
  }

  lemma {:induction false} ReachesBack<S(!new)>(prog: Program<S>, w: seq<nat>, s: S, k: nat)
    requires prog.Valid() && IsWalk(prog.g, w) && prog.Follows(w, s)
    requires prog.Reaches(w[|w| - 1], prog.End(w, s), k)
    ensures prog.Reaches(w[0], s, k + |w| - 1)
    decreases |w|
  {
    if |w| > 1 {
      assert prog.g.Edge(w[0], w[1]);
      SubWalk(prog.g, w, 1, |w|);
      assert w[1..|w|] == w[1..];
      ReachesBack(prog, w[1..], prog.body(w[1], s), k);
    }
  }

  lemma SeekFrom<S(!new)>(prog: Program<S>, cuts: seq<nat>, i: nat, s: S) returns (w: seq<nat>)
    requires prog.Valid() && CutList(prog.g, cuts) && ShortFreeWalks(prog.g, cuts) && CutsReachable(prog.g, cuts)
    requires i < |cuts| - 1
    ensures |w| > 1 && Avoiding(prog.g, cuts[i], w[|w| - 1], cuts, w) && w[|w| - 1] in cuts
    ensures IsWalk(prog.g, w) && w[0] == cuts[i] && prog.Follows(w, s)
  {
    ExitIndex(prog.g, cuts, i);
    assert IsWalk(prog.g, [cuts[i]]) && prog.Follows([cuts[i]], s);
    w := SeekCut(prog, cuts, [cuts[i]], s);
  }

  /** If the target terminates, so does the rewrite. */
  lemma {:induction false} RewriteTerminates<S(!new)>(v: Setup, tp: Program<S>, rp: Program<S>,
                                                      meaning: (nat, S, S) -> bool, check: Query -> bool,
                                                      invs: seq<seq<nat>>, i: nat, s: S, t: S, kt: nat)
    returns (kr: nat)
    requires Proved(v, tp, rp, meaning, check, invs) && i < |v.tcuts| && Holds(meaning, invs[i], s, t)
    requires ShortFreeWalks(v.rewrite, v.rcuts) && CutsReachable(v.rewrite, v.rcuts)
    requires tp.Reaches(v.tcuts[i], s, kt)
    ensures rp.Reaches(v.rcuts[i], t, kr)
    decreases kt
  {
    hide Holds, ProofHolds, SoundOracle, FaithfulBetween, Avoiding, CutList, NoEmptyPairs, Stretch, Final,
      ShortFreeWalks;
    hide Program.CutTrace, Program.End, Program.Follows, Program.Valid, Setup.Valid, IsWalk, CutsReachable;
    SetupSizes(v, tp, rp, meaning, check, invs);
    ExitIndex(v.target, v.tcuts, i);
    ExitIndex(v.rewrite, v.rcuts, i);
    if i == |v.tcuts| - 1 {
      kr := 0;
    } else {
      var w := FirstCut(tp, v.tcuts, v.tcuts[i], s, kt);
      StretchEnd(tp, v.tcuts, v.tcuts[i], s, kt, w);
      var x := SeekFrom(rp, v.rcuts, i, t);
      var j := IndexOf(v.tcuts, w[|w| - 1]);
      var k := IndexOf(v.rcuts, x[|x| - 1]);
      SameCutpoint(v, tp, rp, meaning, check, invs, i, j, k, w, x, s, t);
      kr := RewriteTerminates(v, tp, rp, meaning, check, invs, j, tp.End(w, s), rp.End(x, t), kt - (|w| - 1));
      ReachesBack(rp, x, t, kr);
      kr := kr + |x| - 1;
    }
  }

  /** If the rewrite terminates, so does the target. */
  lemma {:induction false} TargetTerminates<S(!new)>(v: Setup, tp: Program<S>, rp: Program<S>,
                                                     meaning: (nat, S, S) -> bool, check: Query -> bool,
                                                     invs: seq<seq<nat>>, i: nat, s: S, t: S, kr: nat)
    returns (kt: nat)
    requires Proved(v, tp, rp, meaning, check, invs) && i < |v.tcuts| && Holds(meaning, invs[i], s, t)
    requires ShortFreeWalks(v.target, v.tcuts) && CutsReachable(v.target, v.tcuts)
    requires rp.Reaches(v.rcuts[i], t, kr)
    ensures tp.Reaches(v.tcuts[i], s, kt)
    decreases kr
  {
    hide Holds, ProofHolds, SoundOracle, FaithfulBetween, Avoiding, CutList, NoEmptyPairs, Stretch, Final,
      ShortFreeWalks;
    hide Program.CutTrace, Program.End, Program.Follows, Program.Valid, Setup.Valid, IsWalk, CutsReachable;
    SetupSizes(v, tp, rp, meaning, check, invs);
    ExitIndex(v.target, v.tcuts, i);
    ExitIndex(v.rewrite, v.rcuts, i);
    if i == |v.tcuts| - 1 {
      kt := 0;
    } else {
      var x := FirstCut(rp, v.rcuts, v.rcuts[i], t, kr);
      StretchEnd(rp, v.rcuts, v.rcuts[i], t, kr, x);
      var w := SeekFrom(tp, v.tcuts, i, s);
      var j := IndexOf(v.tcuts, w[|w| - 1]);
      var k := IndexOf(v.rcuts, x[|x| - 1]);
      SameCutpoint(v, tp, rp, meaning, check, invs, i, j, k, w, x, s, t);
      kt := TargetTerminates(v, tp, rp, meaning, check, invs, j, tp.End(w, s), rp.End(x, t), kr - (|x| - 1));
      ReachesBack(tp, w, s, kt);
      kt := kt + |w| - 1;
    }
  }
}
