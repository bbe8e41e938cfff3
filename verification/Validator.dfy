/** The validator from code to verdict (src/validator/ddec.cc, verify and find_invariants;
    src/validator/cutpoints.cc, compute): graphs and loops of the two programs, the options for the
    cutpoints, and a Houdini loop for each of them. */
module Validator {
  import opened Graph
  import opened Paths
  import opened Programs
  import opened Blocks
  import opened Sccs
  import opened Ddec
  import opened Simulation
  import opened Houdini
  import opened Cutpoints
  import opened JumpInvariants

  // ----- What the validator knows of one program -----

  /** The blocks that end in a conditional jump. */
  ghost predicate EndsInJcc(code: Code, blocks: seq<nat>, b: nat)
    requires BlocksOf(code, blocks)
  {
    1 <= b < ExitOf(blocks) && (BlockStart(code, blocks, b); code[LastOf(blocks, b)].kind.CondJump?)
  }

  /** What is behind a block is either one successor or the next block and a second one. */
  ghost predicate Fork(g: Cfg, b: nat)
    requires b < |g.succs|
  {
    0 !in g.succs[b] && (|g.succs[b]| == 1 || (|g.succs[b]| == 2 && g.succs[b][0] == b + 1))
  }

  lemma NextShape(code: Code, i: nat)
    requires i < |code|
    ensures var next := Next(code, i);
            |next| == (if code[i].kind.CondJump? then 2 else 1) && (code[i].kind.CondJump? ==> next[0] == i + 1)
  {
  }

  lemma NextBlock(code: Code, blocks: seq<nat>, b: nat, s: nat)
    requires BlocksOf(code, blocks) && 1 <= b < ExitOf(blocks) && 1 <= s <= ExitOf(blocks) && blocks[s] == blocks[b + 1]
    ensures s == b + 1
  {
    BlockStart(code, blocks, s);
    BlockStart(code, blocks, b + 1);
    AtUnique(code, blocks, s, b + 1, blocks[s]);
  }

  lemma BlockForks(code: Code, blocks: seq<nat>, g: Cfg, b: nat)
    requires GraphOf(code, blocks, g) && 1 <= b < ExitOf(blocks)
    ensures Fork(g, b) && g.instrs[b] > 0 && (EndsInJcc(code, blocks, b) ==> |g.succs[b]| == 2)
  {
    BlockStart(code, blocks, b);
    assert ListedSuccs(code, blocks, g.succs[b], b);
    NextShape(code, LastOf(blocks, b));
    hide Next;
    if |g.succs[b]| == 2 {
      assert blocks[g.succs[b][0]] == blocks[b + 1];
      hide BlocksOf;
      NextBlock(code, blocks, b, g.succs[b][0]);
    }
  }

  /** The graphs built from code have the shape the results about branch assumptions rely on. */
  lemma GraphShape(code: Code, blocks: seq<nat>, g: Cfg, jcc: set<nat>)
    requires GraphOf(code, blocks, g) && code != []
    requires forall b :: b in jcc <==> EndsInJcc(code, blocks, b)
    ensures CodeGraph(g, jcc)
  {
    GraphEnds(code, blocks, g);
    hide GraphOf;
    forall b: nat | 1 <= b < g.Exit()
      ensures Fork(g, b) && g.instrs[b] > 0 && (b in jcc ==> |g.succs[b]| == 2)
    {
      BlockForks(code, blocks, g, b);
    }
    forall b | b in jcc
      ensures 0 < b < g.Exit()
    {
      assert EndsInJcc(code, blocks, b);
    }
    hide EndsInJcc;
    ShapeOfForks(g, jcc);
  }

  lemma GraphEnds(code: Code, blocks: seq<nat>, g: Cfg)
    requires GraphOf(code, blocks, g) && code != []
    ensures BlocksOf(code, blocks) && g.Valid() && 3 <= g.Size() && g.Exit() == ExitOf(blocks)
    ensures g.succs[0] == [1] && g.instrs[0] == 0 && g.instrs[g.Exit()] == 0
  {
  }

  lemma ShapeOfForks(g: Cfg, jcc: set<nat>)
    requires g.Valid() && 3 <= g.Size() && g.succs[0] == [1] && g.instrs[0] == 0 && g.instrs[g.Exit()] == 0
    requires forall b: nat :: 1 <= b < g.Exit() ==> Fork(g, b) && g.instrs[b] > 0 && (b in jcc ==> |g.succs[b]| == 2)
    requires forall b :: b in jcc ==> 0 < b < g.Exit()
    ensures CodeGraph(g, jcc)
  {
    forall b: nat
      ensures !g.Edge(b, 0)
    {
      if 1 <= b < g.Exit() {
        assert Fork(g, b);
      }
    }
    assert forall b: nat :: 1 <= b < g.Exit() ==> Fork(g, b);
  }

  /** A program with its graph and its loops. */
  datatype View = View(code: Code, blocks: seq<nat>, g: Cfg, jcc: set<nat>,
                       sccs: map<nat, int>, loops: map<nat, seq<nat>>, count: nat) {
    ghost predicate Valid() {
      && code != [] && GraphOf(code, blocks, g) && (forall b :: b in jcc <==> EndsInJcc(code, blocks, b))
      && SccData(g, sccs, loops, count)
    }
  }

  /** The instruction before the start of the next block is a conditional jump. */
  ghost predicate JumpAtEnd(code: Code, blocks: seq<nat>, b: nat) {
    1 <= b < |blocks| - 2 && 0 < blocks[b + 1] <= |code| && code[blocks[b + 1] - 1].kind.CondJump?
  }

  method FindJcc(code: Code, blocks: seq<nat>) returns (jcc: set<nat>)
    requires BlocksOf(code, blocks)
    ensures forall b :: b in jcc <==> EndsInJcc(code, blocks, b)
    ensures forall b: nat :: b in jcc <==> JumpAtEnd(code, blocks, b)
  {
    jcc := {};
    for b: nat := 1 to ExitOf(blocks)
      invariant forall c: nat :: c in jcc <==> c < b && EndsInJcc(code, blocks, c)
    {
      BlockStart(code, blocks, b);
      if code[LastOf(blocks, b)].kind.CondJump? {
        jcc := jcc + {b};
      }
    }
    forall b: nat
      ensures b in jcc <==> JumpAtEnd(code, blocks, b)
    {
      if 1 <= b < ExitOf(blocks) {
        BlockStart(code, blocks, b);
      }
    }
  }

  /** The loops of a graph, from Tarjan's algorithm over its reachable blocks. */
  method FindLoops(g: Cfg) returns (sccs: map<nat, int>, loops: map<nat, seq<nat>>, count: nat)
    requires g.Valid() && 2 <= g.Size() && forall b :: !g.Edge(b, 0)
    ensures SccData(g, sccs, loops, count)
  {
    hide Reach, OnCycle, Labels, Lists;
    var reachable := RecomputeReachable(g);
    var order: seq<nat> := [];
    for b: nat := 0 to g.Size()
      invariant forall c :: c in order <==> c < b && c in reachable
    {
      if b in reachable {
        order := order + [b];
      }
    }
    var tarjan := new CfgSccs(g, order);
    assert Elements(order) == reachable;
    tarjan.Recompute();
    sccs, loops, count := tarjan.sccs, tarjan.sccToBlocks, tarjan.count;
  }

  method Analyse(code: Code) returns (v: View)
    requires code != []
    ensures v.Valid() && v.code == code
    ensures forall b: nat :: b in v.jcc <==> JumpAtEnd(code, v.blocks, b)
  {
    hide BlocksOf, GraphOf, SccData, CodeGraph, JumpAtEnd;
    var blocks := RecomputeBlocks(code);
    var labels := RecomputeLabels(code, blocks);
    var g := RecomputeSuccs(code, blocks, labels);
    assert BlocksOf(code, blocks);
    var jcc := FindJcc(code, blocks);
    GraphShape(code, blocks, g, jcc);
    LoopInput(g, jcc);
    var sccs, loops, count := FindLoops(g);
    v := View(code, blocks, g, jcc, sccs, loops, count);
  }

  lemma LoopInput(g: Cfg, jcc: set<nat>)
    requires CodeGraph(g, jcc)
    ensures g.Valid() && 2 <= g.Size() && forall b :: !g.Edge(b, 0)
  {
  }

  // ----- Options and candidates -----

  type Choice = (seq<nat>, seq<nat>)

  /** One block per loop on both sides, along a matching of the loops. */
  ghost predicate Possible(t: View, r: View, o: Choice)
    requires t.Valid() && r.Valid()
  {
    ListKeys(t.sccs, t.loops, t.count);
    ListKeys(r.sccs, r.loops, r.count);
    t.count == r.count && Option(o, LoopLists(t.loops, t.count), LoopLists(r.loops, r.count))
  }

  /** The options in terms of the numbering: as many loops on both sides, and along some matching of them
      entry k of the two lists lies in loop k of the target and in the matching loop of the rewrite. */
  lemma PossibleMeans(t: View, r: View, o: Choice)
    requires t.Valid() && r.Valid()
    ensures Possible(t, r, o) <==> t.count == r.count && exists pi: seq<nat> :: PicksAlong(t, r, o, pi)
  {
    hide GraphOf, EndsInJcc, Labels, Reach, OnCycle, IsPermutation;
    ListKeys(t.sccs, t.loops, t.count);
    ListKeys(r.sccs, r.loops, r.count);
    if t.count == r.count {
      var tb, rb := LoopLists(t.loops, t.count), LoopLists(r.loops, r.count);
      assert Lists(t.sccs, t.loops, t.count) && Lists(r.sccs, r.loops, r.count);
      hide View.Valid, SccData;
      forall pi: seq<nat>
        ensures MatchedBy(o, tb, rb, pi) <==> PicksAlong(t, r, o, pi)
      {
      }
      OptionsMean(tb, rb);
    }
  }

  /** pi matches the loops, and o picks along it. */
  ghost predicate PicksAlong(t: View, r: View, o: Choice, pi: seq<nat>) {
    && |pi| == |o.0| == |o.1| == t.count && (forall i, j :: 0 <= i < j < |pi| ==> pi[i] != pi[j])
    && forall k :: 0 <= k < |pi| ==>
         && pi[k] < r.count && o.0[k] in t.sccs && t.sccs[o.0[k]] == k
         && o.1[k] in r.sccs && r.sccs[o.1[k]] == pi[k]
  }

  function SetupFor(t: View, r: View, o: Choice): Setup
    requires t.g.Size() > 0 && r.g.Size() > 0
  {
    Setup(t.g, t.jcc, r.g, r.jcc, WithEnds(t.g, o.0), WithEnds(r.g, o.1))
  }

  /** An option yields cut lists of equal length, with the entry first, the exit last and neither in between. */
  lemma OptionCuts(t: View, r: View, o: Choice)
    requires t.Valid() && r.Valid() && Possible(t, r, o)
    ensures CodeGraph(t.g, t.jcc) && CodeGraph(r.g, r.jcc)
    ensures var v := SetupFor(t, r, o);
            && v == Setup(t.g, t.jcc, r.g, r.jcc, [0] + o.0 + [t.g.Exit()], [0] + o.1 + [r.g.Exit()])
            && v.Valid() && |v.tcuts| == |v.rcuts| == |o.0| + 2
            && forall k :: 0 <= k < |v.tcuts| ==>
                 (v.tcuts[k] == 0 <==> k == 0) && (v.tcuts[k] == t.g.Exit() <==> k == |v.tcuts| - 1)
  {
    hide GraphOf, EndsInJcc, Labels, Lists, Reach, OnCycle, Option, OnePerLoop, CodeGraph;
    assert SccData(t.g, t.sccs, t.loops, t.count) && SccData(r.g, r.sccs, r.loops, r.count);
    OptionCutsLoops(o, t.g, t.sccs, t.loops, r.g, r.sccs, r.loops, t.count);
    hide SccData, View.Valid;
    SideCuts(t, o.0);
    SideCuts(r, o.1);
    SameSizes(o, t.sccs, r.sccs, t.count);
  }

  lemma SideCuts(v: View, side: seq<nat>)
    requires v.Valid() && OnePerLoop(side, v.sccs, v.count)
    ensures CodeGraph(v.g, v.jcc) && v.g.Valid() && NoEmptyPairs(v.g) && InRange(v.g, WithEnds(v.g, side))
    ensures forall k :: 0 <= k < |side| + 2 ==>
              (WithEnds(v.g, side)[k] == 0 <==> k == 0) && (WithEnds(v.g, side)[k] == v.g.Exit() <==> k == |side| + 1)
  {
    GraphShape(v.code, v.blocks, v.g, v.jcc);
    NoPairs(v.g, v.jcc);
    hide GraphOf, EndsInJcc, OnePerLoop, CutsEveryLoop, CutsReachable, SccData, CodeGraph;
    CutListFromLoops(v.g, v.sccs, v.loops, v.count, side);
    assert WithEnds(v.g, side)[0] == 0;
  }

  lemma NoPairs(g: Cfg, jcc: set<nat>)
    requires CodeGraph(g, jcc)
    ensures g.Valid() && 3 <= g.Size() && NoEmptyPairs(g)
  {
    assert 1 != g.Exit();
  }

  lemma SameSizes(o: Choice, ts: map<nat, int>, rs: map<nat, int>, count: nat)
    requires OnePerLoop(o.0, ts, count) && OnePerLoop(o.1, rs, count)
    ensures |o.0| == |o.1| == count
  {
  }

  /** `find_invariants`: what is tried depends on where the cutpoint lies. */
  method FindInvariants(v: Setup, o: Choice, begin: seq<nat>, end: seq<nat>, learn: (Choice, nat) -> seq<nat>)
    returns (invs: seq<seq<nat>>)
    requires v.target.Size() > 0 && |v.tcuts| == |o.0| + 2
    requires forall k :: 0 <= k < |v.tcuts| ==>
               (v.tcuts[k] == 0 <==> k == 0) && (v.tcuts[k] == v.target.Exit() <==> k == |v.tcuts| - 1)
    ensures |invs| == |v.tcuts| && invs[0] == begin && invs[|invs| - 1] == end
    ensures forall k :: 0 < k < |v.tcuts| - 1 ==> invs[k] == learn(o, k)
  {
    invs := [];
    for i: nat := 0 to |v.tcuts|
      invariant |invs| == i && (i > 0 ==> invs[0] == begin) && (i == |v.tcuts| ==> invs[i - 1] == end)
      invariant forall k :: 0 < k < i && k < |v.tcuts| - 1 ==> invs[k] == learn(o, k)
    {
      if v.tcuts[i] == 0 {
        invs := invs + [begin];
      } else if v.tcuts[i] == v.target.Exit() {
        invs := invs + [end];
      } else {
        invs := invs + [learn(o, i)];
      }
    }
  }

  // ----- The verdict -----

  /** Conjuncts per cutpoint: the fixed ones at entry and exit, some of the learned ones in between. */
  ghost predicate Chosen(o: Choice, begin: seq<nat>, end: seq<nat>,
                         learn: (Choice, nat) -> seq<nat>, invs: seq<seq<nat>>) {
    && |invs| == |o.0| + 2 && invs[0] == begin && invs[|invs| - 1] == end
    && forall k, id :: 0 < k < |invs| - 1 && id in invs[k] ==> id in learn(o, k)
  }

  /** The proof that the validator found: a viable option and conjuncts that were learned for it. */
  ghost predicate Proved(t: View, r: View, begin: seq<nat>, end: seq<nat>, learn: (Choice, nat) -> seq<nat>,
                         check: Query -> bool, o: Choice, invs: seq<seq<nat>>)
    requires t.Valid() && r.Valid()
  {
    && Possible(t, r, o) && Chosen(o, begin, end, learn, invs)
    && (OptionCuts(t, r, o); ProofHolds(SetupFor(t, r, o), invs, check))
  }

  /** An option is viable and some of the conjuncts learned for it close the proof. */
  ghost predicate Works(t: View, r: View, begin: seq<nat>, end: seq<nat>, learn: (Choice, nat) -> seq<nat>,
                        check: Query -> bool, viable: Choice -> bool, o: Choice)
    requires t.Valid() && r.Valid()
  {
    viable(o) && exists invs :: Proved(t, r, begin, end, learn, check, o, invs)
  }

  /** The programs terminate on the same inputs, and what holds at the end holds of the results. */
  ghost predicate Agree<S(!new)>(tp: Program<S>, rp: Program<S>, meaning: (nat, S, S) -> bool,
                                 begin: seq<nat>, end: seq<nat>)
    requires tp.Valid() && rp.Valid()
  {
    forall s, t :: Holds(meaning, begin, s, t) ==>
      && ((exists kt :: tp.Reaches(0, s, kt)) <==> (exists kr :: rp.Reaches(0, t, kr)))
      && forall kt, kr :: tp.Reaches(0, s, kt) && rp.Reaches(0, t, kr) ==>
           Holds(meaning, end, Final(tp, 0, s, kt), Final(rp, 0, t, kr))
  }

  ghost predicate Realises<S(!new)>(prog: Program<S>, v: View) { prog.Valid() && prog.g == v.g && prog.jcc == v.jcc }

  /** The paths between the cutpoints of an option are safe in both programs. */
  ghost predicate SafePaths(t: View, r: View, o: Choice)
    requires t.Valid() && r.Valid() && Possible(t, r, o)
  {
    OptionCuts(t, r, o);
    SafeBetween(t.g, t.jcc, WithEnds(t.g, o.0)) && SafeBetween(r.g, r.jcc, WithEnds(r.g, o.1))
  }

  /** A proof means agreement, for all programs over these graphs, if the checker is sound for them and
      the paths between the cutpoints are safe. */
  lemma ProvedAgree<S(!new)>(t: View, r: View, begin: seq<nat>, end: seq<nat>,
                             learn: (Choice, nat) -> seq<nat>, check: Query -> bool, o: Choice,
                             invs: seq<seq<nat>>, tp: Program<S>, rp: Program<S>, meaning: (nat, S, S) -> bool)
    requires t.Valid() && r.Valid() && Proved(t, r, begin, end, learn, check, o, invs)
    requires Realises(tp, t) && Realises(rp, r) && SoundOracle(tp, rp, meaning, check)
    requires SafePaths(t, r, o)
    ensures Agree(tp, rp, meaning, begin, end)
  {
    OptionCuts(t, r, o);
    var v := SetupFor(t, r, o);
    assert |v.tcuts| == |invs|;
    assert SccData(t.g, t.sccs, t.loops, t.count) && SccData(r.g, r.sccs, r.loops, r.count);
    hide ProofHolds, SafeBetween, CodeGraph, SccData, SoundOracle, Holds, Program.Reaches, Setup.Valid, GraphOf,
      EndsInJcc;
    forall s, u | Holds(meaning, begin, s, u)
      ensures (exists kt :: tp.Reaches(0, s, kt)) <==> (exists kr :: rp.Reaches(0, u, kr))
      ensures forall kt, kr :: tp.Reaches(0, s, kt) && rp.Reaches(0, u, kr) ==>
              Holds(meaning, end, Final(tp, 0, s, kt), Final(rp, 0, u, kr))
    {
      SafeProgramsAgree(v, tp, rp, meaning, check, invs, o, t.sccs, t.loops, r.sccs, r.loops, t.count, s, u);
    }
  }

  /** The options that the traces of the test cases do not rule out. */
  method KeepViable(options: seq<Choice>, viable: Choice -> bool) returns (kept: seq<Choice>)
    ensures forall o :: o in kept <==> o in options && viable(o)
  {
    kept := [];
    for i := 0 to |options|
      invariant forall o :: o in kept <==> o in options[..i] && viable(o)
    {
      assert options[..i + 1] == options[..i] + [options[i]];
      if viable(options[i]) {
        kept := kept + [options[i]];
      }
    }
    assert options[..|options|] == options;
  }

  /** All options for two programs that are viable. */
  method FindCutpoints(t: View, r: View, viable: Choice -> bool) returns (kept: seq<Choice>)
    requires t.Valid() && r.Valid()
    ensures forall o :: o in kept <==> Possible(t, r, o) && viable(o)
  {
    ListKeys(t.sccs, t.loops, t.count);
    ListKeys(r.sccs, r.loops, r.count);
    hide Option, GraphOf, EndsInJcc, SccData;
    var options := GetPossibleCutpoints(LoopLists(t.loops, t.count), LoopLists(r.loops, r.count));
    if options.DifferentLoopCounts? {
      return [];
    }
    kept := KeepViable(options.lists, viable);
  }

  /** The attempt for one option. */
  method TryOption(t: View, r: View, begin: seq<nat>, end: seq<nat>,
                   learn: (Choice, nat) -> seq<nat>, check: Query -> bool, o: Choice)
    returns (ok: bool, invs: seq<seq<nat>>)
    requires t.Valid() && r.Valid() && Possible(t, r, o)
    ensures ok ==> Proved(t, r, begin, end, learn, check, o, invs)
    ensures Monotone(check) ==> (ok <==> Works(t, r, begin, end, learn, check, _ => true, o))
  {
    OptionCuts(t, r, o);
    hide ProofHolds, Setup.Valid, View.Valid, Possible, CodeGraph, Monotone, Trimmed, Chosen, KeepsInductive, SetupFor;
    var v := SetupFor(t, r, o);
    var candidates := FindInvariants(v, o, begin, end, learn);
    ok, invs := RunHoudini(v, candidates, check);
    forall k
      ensures Trimmed(k, candidates) <==> Chosen(o, begin, end, learn, k)
    {
      TrimmedIsChosen(o, begin, end, learn, candidates, k);
    }
  }

  lemma TrimmedIsChosen(o: Choice, begin: seq<nat>, end: seq<nat>, learn: (Choice, nat) -> seq<nat>,
                        candidates: seq<seq<nat>>, k: seq<seq<nat>>)
    requires |candidates| == |o.0| + 2 && candidates[0] == begin && candidates[|candidates| - 1] == end
    requires forall j :: 0 < j < |candidates| - 1 ==> candidates[j] == learn(o, j)
    ensures Trimmed(k, candidates) <==> Chosen(o, begin, end, learn, k)
  {
  }

  /** The validator.  It tries the viable options one after the other.  If it accepts, it has a proof,
      and the programs agree if the checker is sound for them and the paths between the cutpoints are
      safe.  It accepts whenever for some viable option some of the conjuncts learned for it would close
      the proof. */
  method Verify<S(!new)>(target: Code, rewrite: Code, begin: seq<nat>, end: seq<nat>,
                         learn: (Choice, nat) -> seq<nat>, viable: Choice -> bool, check: Query -> bool,
                         ghost tp: Program<S>, ghost rp: Program<S>, ghost meaning: (nat, S, S) -> bool)
    returns (ok: bool, t: View, r: View, o: Choice, invs: seq<seq<nat>>)
    requires target != [] && rewrite != []
    ensures t.Valid() && t.code == target && r.Valid() && r.code == rewrite
    ensures ok ==> viable(o) && Proved(t, r, begin, end, learn, check, o, invs)
    ensures ok ==> |invs| == |o.0| + 2 && invs[0] == begin && invs[|invs| - 1] == end
    ensures ok ==> forall k, id :: 0 < k < |invs| - 1 && id in invs[k] ==> id in learn(o, k)
    ensures Monotone(check) ==> (ok <==> exists c :: Works(t, r, begin, end, learn, check, viable, c))
    ensures ok && Realises(tp, t) && Realises(rp, r) && SoundOracle(tp, rp, meaning, check) && SafePaths(t, r, o) ==>
              Agree(tp, rp, meaning, begin, end)
  {
    hide View.Valid, Possible, Proved, Works, SafePaths, Agree, Realises, SoundOracle, Monotone;
    t := Analyse(target);
    r := Analyse(rewrite);
    o, invs := ([], []), [];
    var options := FindCutpoints(t, r, viable);
    for pos := 0 to |options|
      invariant Monotone(check) ==> forall c :: c in options[..pos] ==>
                !Works(t, r, begin, end, learn, check, viable, c)
    {
      o := options[pos];
      ok, invs := TryOption(t, r, begin, end, learn, check, o);
      WorksWhenViable(t, r, begin, end, learn, check, viable, o);
      if ok {
        ProvedChosen(t, r, begin, end, learn, check, o, invs);
        if Realises(tp, t) && Realises(rp, r) && SoundOracle(tp, rp, meaning, check) && SafePaths(t, r, o) {
          ProvedAgree(t, r, begin, end, learn, check, o, invs, tp, rp, meaning);
        }
        return;
      }
      assert options[..pos + 1] == options[..pos] + [o];
    }
    ok := false;
    assert options[..|options|] == options;
    forall c
      ensures Works(t, r, begin, end, learn, check, viable, c) ==> c in options
    {
      WorksWhenViable(t, r, begin, end, learn, check, viable, c);
    }
  }

  lemma ProvedChosen(t: View, r: View, begin: seq<nat>, end: seq<nat>, learn: (Choice, nat) -> seq<nat>,
                     check: Query -> bool, o: Choice, invs: seq<seq<nat>>)
    requires t.Valid() && r.Valid() && Proved(t, r, begin, end, learn, check, o, invs)
    ensures |invs| == |o.0| + 2 && invs[0] == begin && invs[|invs| - 1] == end
    ensures forall k, id :: 0 < k < |invs| - 1 && id in invs[k] ==> id in learn(o, k)
  {
  }

  lemma WorksWhenViable(t: View, r: View, begin: seq<nat>, end: seq<nat>, learn: (Choice, nat) -> seq<nat>,
                        check: Query -> bool, viable: Choice -> bool, o: Choice)
    requires t.Valid() && r.Valid()
    ensures Works(t, r, begin, end, learn, check, viable, o) <==>
            viable(o) && Possible(t, r, o) && Works(t, r, begin, end, learn, check, _ => true, o)
  {
    hide View.Valid, Possible, ProofHolds, SetupFor, Chosen;
  }
}
