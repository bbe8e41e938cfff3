/** The control-flow graph object (src/cfg/cfg.h, src/cfg/cfg.cc) and the transformations that remove
    unreachable and redundant instructions (src/cfg/cfg_transforms.cc). */
module CfgTransforms {
  import opened Graph
  import opened Programs
  import opened Blocks
  import opened Fixpoint
  import opened Dataflow
  import opened Liveness
  import opened DeadCode
  import opened Registers

  /** Register sets: within the universe, and must-sets within maybe-sets. */
  ghost predicate Legal(code: Code, universe: set<nat>) { ValidCode(code) && CodeWithin(code, universe) }

  lemma LegalCut(code: Code, universe: set<nat>, i: nat)
    requires Legal(code, universe) && i < |code|
    ensures Legal(Cut(code, i), universe)
  {
    var c := Cut(code, i);
    assert forall k :: 0 <= k < |c| ==> c[k] == code[Up(i, k)];
  }

  /** After instruction i exactly that is live which is live before one that control can pass to. */
  ghost predicate OutFits(code: Code, live: seq<set<nat>>, outs: seq<set<nat>>, i: nat)
    requires i < |code| && |live| == |outs| == |code| + 1
  {
    forall r :: r in outs[i] <==> exists k :: k in Next(code, i) && r in live[k]
  }

  lemma PlainOut(code: Code, live: seq<set<nat>>, outs: seq<set<nat>>, i: nat)
    requires i < |code| && |live| == |outs| == |code| + 1 && code[i].kind == Plain && OutFits(code, live, outs, i)
    ensures outs[i] == live[i + 1]
  {
    assert i + 1 in Next(code, i);
  }

  /** Whether the block of an instruction is reachable, which is whether the instruction is. */
  method IsReachable(code: Code, blocks: seq<nat>, g: Cfg, reachable: set<nat>, i: nat) returns (r: bool)
    requires Structured(code, blocks, g, reachable) && i < |code|
    ensures r <==> Reachable(code, i)
  {
    hide Reachable, Reach, SuccsUpTo, Boundary;
    var b, _ := GetLoc(code, blocks, i);
    ReachableBlocks(code, blocks, g, b, i);
    r := b in reachable;
  }

  class CodeCfg {
    var code: Code
    const defIns: set<nat>
    const liveOuts: set<nat>
    const universe: set<nat>

    var blocks: seq<nat>
    var labels: map<nat, nat>
    var graph: Cfg
    var preds: seq<seq<nat>>
    var reachable: set<nat>
    var defs: seq<set<nat>>
    var defOuts: seq<set<nat>>
    var liveIn: seq<set<nat>>
    var liveOut: seq<set<nat>>

    ghost predicate Valid()
      reads this
    {
      Legal(code, universe) && defIns <= universe && liveOuts <= universe
    }

    /** The tables belong to the code: liveness and definedness are the best there are, and definedness
        is sound where the block summaries are exact. */
    ghost predicate Current()
      reads this
    {
      && |defs| == |code| + 1
      && Structured(code, blocks, graph, reachable) && Spans(code, blocks)
      && DefBest(code, defIns, universe, defs)
      && (CrispBlocks(code, blocks, reachable) ==> DefSound(code, defIns, defs))
      && LiveSound(code, liveOuts, liveIn) && LiveBest(code, liveOuts, liveIn) && Within(liveIn, universe)
      && |defs| == |liveIn| == |liveOut| == |code| + 1
      && forall i: nat :: i < |code| && Reachable(code, i) ==> OutFits(code, liveIn, liveOut, i)
    }

    constructor (code: Code, defIns: set<nat>, liveOuts: set<nat>, universe: set<nat>)
      requires Legal(code, universe) && defIns <= universe && liveOuts <= universe
      ensures this.code == code && this.defIns == defIns && this.liveOuts == liveOuts && this.universe == universe
      ensures Valid() && Current()
    {
      this.code := code;
      this.defIns := defIns;
      this.liveOuts := liveOuts;
      this.universe := universe;
      blocks, labels, graph, preds, reachable := [], map[], Cfg([], []), [], {};
      defs, defOuts, liveIn, liveOut := [], [], [], [];
      new;
      Recompute();
    }

    method RecomputeStructure()
      modifies this`blocks, this`labels, this`graph, this`preds, this`reachable
      ensures Structured(code, blocks, graph, reachable) && Spans(code, blocks) && PredsOf(graph, preds)
    {
      blocks := RecomputeBlocks(code);
      labels := RecomputeLabels(code, blocks);
      graph := RecomputeSuccs(code, blocks, labels);
      preds := RecomputePreds(graph);
      reachable := RecomputeReachable(graph);
      BlocksSpan(code, blocks);
    }

    /** Rebuild every table from the code. */
    method Recompute()
      requires Valid()
      modifies this
      ensures Valid() && Current() && code == old(code)
    {
      hide Structured, DefSound, DefBest, LiveSound, LiveBest, Reachable, DefProblem, LiveProblem, CrispBlocks, Spans;
      RecomputeStructure();
      ghost var f;
      defs, f, defOuts := RecomputeDefs(code, blocks, graph, preds, reachable, defIns, universe, defs);
      if CrispBlocks(code, blocks, reachable) {
        DefsSound(code, blocks, graph, reachable, defIns, universe, f, defOuts, defs);
      }
      DefsBest(code, blocks, graph, reachable, defIns, universe, f, defOuts, defs);
      ghost var q, ins;
      liveIn, liveOut, q, ins := RecomputeLiveness(code, blocks, graph, reachable, liveOuts, universe);
      LivesSound(code, blocks, graph, reachable, liveOuts, universe, q, ins, liveIn);
      LivesBest(code, blocks, graph, reachable, liveOuts, universe, q, ins, liveIn);
      forall i: nat | i < |code| && Reachable(code, i)
        ensures OutFits(code, liveIn, liveOut, i)
      {
        forall r
          ensures r in liveOut[i] <==> exists k :: k in Next(code, i) && r in liveIn[k]
        {
          OutJoins(code, blocks, graph, reachable, liveOuts, universe, q, ins, liveIn, liveOut, i, r);
        }
      }
    }

    /** Is an undefined register read by a reachable instruction? */
    method InvariantNoUndefReads() returns (ok: bool)
      requires Current()
      ensures ok <==> NoUndefReads(code, defs)
      ensures ok <==> forall i :: 0 <= i < |code| && Reachable(code, i) ==> code[i].read <= defs[i]
    {
      hide Structured, DefBest, DefSound, LiveSound, LiveBest, CrispBlocks, Spans, Reachable;
      for i := 0 to |code|
        invariant forall k :: 0 <= k < i && Reachable(code, k) ==> code[k].read <= defs[k]
      {
        var r := IsReachable(code, blocks, graph, reachable, i);
        if r && !(code[i].read <= defs[i]) {
          return false;
        }
      }
      ok := true;
    }

    /** Are the live-outs defined at the end? */
    method InvariantNoUndefLiveOuts() returns (ok: bool)
      requires Current()
      ensures ok <==> liveOuts <= defs[|code|]
      ensures ok ==> NoUndefLiveOuts(code, liveOuts, defs)
      ensures Reachable(code, |code|) ==> (ok <==> NoUndefLiveOuts(code, liveOuts, defs))
    {
      ok := liveOuts <= defs[|code|];
    }

    /** Remove instruction i and rebuild the tables. */
    method Remove(i: nat)
      requires Valid() && i < |code|
      modifies this
      ensures Valid() && Current() && code == Cut(old(code), i)
    {
      LegalCut(code, universe, i);
      code := code[..i] + code[i + 1..];
      Recompute();
    }
  }

  /** Definite code whose invariants hold. */
  ghost predicate Sure(code: Code, stop: set<nat>, def: seq<set<nat>>)
    requires |def| == |code| + 1
  {
    Definite(code) && Invariants(code, stop, def)
  }

  /** For such code the tables are all that the dead-code theorems ask for. */
  lemma SureAnalysed(code: Code, start: set<nat>, stop: set<nat>, top: set<nat>, blocks: seq<nat>,
                     g: Cfg, reach: set<nat>, def: seq<set<nat>>, live: seq<set<nat>>)
    requires ValidCode(code) && Structured(code, blocks, g, reach) && Spans(code, blocks)
    requires |def| == |code| + 1 && DefBest(code, start, top, def) && Sure(code, stop, def)
    requires CrispBlocks(code, blocks, reach) ==> DefSound(code, start, def)
    requires |live| == |code| + 1 && LiveSound(code, stop, live) && LiveBest(code, stop, live) && Within(live, top)
    ensures Analysed(code, start, stop, top, def, live)
  {
    DefiniteIsCrisp(code, blocks, g, reach);
  }

  lemma SureDead(code: Code, start: set<nat>, stop: set<nat>, top: set<nat>, blocks: seq<nat>,
                 g: Cfg, reach: set<nat>, def: seq<set<nat>>, live: seq<set<nat>>)
    requires ValidCode(code) && Structured(code, blocks, g, reach) && Spans(code, blocks)
    requires |def| == |code| + 1 && DefBest(code, start, top, def) && Sure(code, stop, def)
    requires CrispBlocks(code, blocks, reach) ==> DefSound(code, start, def)
    requires |live| == |code| + 1 && LiveSound(code, stop, live) && LiveBest(code, stop, live) && Within(live, top)
    ensures UndefsDead(code, live)
  {
    SureAnalysed(code, start, stop, top, blocks, g, reach, def, live);
    InvariantsSuffice(code, start, stop, top, def, live);
  }

  /** It stays like that when an unreachable or a redundant instruction is removed. */
  lemma SureCut(code: Code, start: set<nat>, stop: set<nat>, top: set<nat>,
                def: seq<set<nat>>, live: seq<set<nat>>, i: nat, def': seq<set<nat>>)
    requires Analysed(code, start, stop, top, def, live) && Sure(code, stop, def)
    requires i < |code| && (Reachable(code, i) ==> Redundant(code, live, i))
    requires |def'| == |code| && DefBest(Cut(code, i), start, top, def')
    ensures Sure(Cut(code, i), stop, def')
  {
    hide DefBest, Analysed, Reachable, Definite, Invariants;
    DefiniteCut(code, i);
    if Reachable(code, i) {
      RedundantInvariants(code, start, stop, top, def, live, i, def');
    } else {
      UnreachableInvariants(code, start, stop, top, def, live, i, def');
    }
  }

  lemma DeadCut(code: Code, stop: set<nat>, live: seq<set<nat>>, i: nat, live': seq<set<nat>>)
    requires ValidCode(code) && |live| == |code| + 1 && LiveSound(code, stop, live) && UndefsDead(code, live)
    requires i < |code| && (Reachable(code, i) ==> Redundant(code, live, i))
    requires |live'| == |code| && LiveSound(Cut(code, i), stop, live') && LiveBest(Cut(code, i), stop, live')
    ensures LiveTables(code, stop, live) && UndefsDead(Cut(code, i), live')
  {
    UndefsDeadCut(code, stop, live, i, live');
  }

  /** In the shorter code a straight stretch from a reachable instruction was one before. */
  lemma StraightCut(code: Code, i: nat, j': nat, k': nat)
    requires CanCut(code, i) && j' <= k' < |Cut(code, i)| && Reachable(Cut(code, i), j')
    requires Straight(Cut(code, i), j', k')
    ensures Reachable(code, Up(i, j')) && Straight(code, Up(i, j'), Up(i, k'))
  {
    ReachableUp(code, i, j');
    hide Reachable, Reach;
    var c := Cut(code, i);
    var j, k := Up(i, j'), Up(i, k');
    assert forall m :: 0 <= m < |c| ==> c[m] == code[Up(i, m)];
    if j < i < k {
      PlainBetween(code, i, j', k');
    }
    forall m: nat | j < m <= k
      ensures !Boundary(code, m)
    {
      var m' := Down(i, m);
      if m != i {
        assert j' < m' <= k' ==> !Boundary(c, m');
      } else {
        assert !Boundary(c, i);
      }
    }
  }

  /** An instruction in the middle of such a stretch was reachable, and so it was plain. */
  lemma {:induction false} PlainBetween(code: Code, i: nat, j': nat, k': nat)
    requires CanCut(code, i) && j' < i <= k' < |Cut(code, i)| && Reachable(code, j') && Straight(Cut(code, i), j', k')
    ensures code[i].kind == Plain
  {
    FallsThrough(code, i, j', k', i);
  }

  lemma {:induction false} FallsThrough(code: Code, i: nat, j': nat, k': nat, m: nat)
    requires CanCut(code, i) && j' < i <= k' < |Cut(code, i)| && Reachable(code, j') && Straight(Cut(code, i), j', k')
    requires j' <= m <= i
    ensures Reachable(code, m)
  {
    if m > j' {
      FallsThrough(code, i, j', k', m - 1);
      assert !Boundary(Cut(code, i), m);
      assert Cut(code, i)[m - 1] == code[m - 1];
      ReachableNext(code, m - 1, m);
    }
  }

  /** Definite code stays so. */
  lemma DefiniteCut(code: Code, i: nat)
    requires CanCut(code, i) && Definite(code)
    ensures Definite(Cut(code, i))
  {
    var c := Cut(code, i);
    forall j: nat, k: nat | j <= k < |c| && Reachable(c, j) && Straight(c, j, k)
      ensures Settled(c[j], c[k], j == k)
    {
      StraightCut(code, i, j, k);
      DefinitePair(code, Up(i, j), Up(i, k));
      assert c[j] == code[Up(i, j)] && c[k] == code[Up(i, k)];
    }
  }

  ghost predicate AllReachable(code: Code) { forall i: nat :: i < |code| ==> Reachable(code, i) }

  lemma AllReachableCut(code: Code, i: nat)
    requires AllReachable(code) && i < |code| && code[i].kind == Plain
    ensures AllReachable(Cut(code, i))
  {
    hide Reachable;
    forall k: nat | k < |Cut(code, i)|
      ensures Reachable(Cut(code, i), k)
    {
      ReachableDown(code, i, Up(i, k));
    }
  }

  lemma CutSmaller(code: Code, i: nat)
    requires i < |code|
    ensures |Cut(code, i)| == |code| - 1 && multiset(Cut(code, i)) <= multiset(code)
  {
    assert code == code[..i] + [code[i]] + code[i + 1..];
  }

  /** What is left of the code: the instructions at the positions ks, in their order. */
  ghost predicate LeftOf(was: Code, now: Code, ks: seq<nat>) {
    && |ks| == |now| && (forall a, b :: 0 <= a < b < |ks| ==> ks[a] < ks[b])
    && forall m :: 0 <= m < |now| ==> ks[m] < |was| && now[m] == was[ks[m]]
  }

  /** As much of it is reachable as was before. */
  ghost predicate SameReach(was: Code, now: Code, ks: seq<nat>) {
    |ks| == |now| && forall m: nat :: m < |now| ==> (Reachable(now, m) <==> Reachable(was, ks[m]))
  }

  lemma LeftAll(code: Code) returns (ks: seq<nat>)
    ensures LeftOf(code, code, ks) && SameReach(code, code, ks) && forall k: nat :: k < |code| ==> k in ks
  {
    ks := seq(|code|, k => k);
    forall k: nat | k < |code|
      ensures k in ks
    {
      assert ks[k] == k;
    }
  }

  lemma LeftCut(was: Code, now: Code, ks: seq<nat>, i: nat)
    requires LeftOf(was, now, ks) && i < |now|
    ensures LeftOf(was, Cut(now, i), ks[..i] + ks[i + 1..])
    ensures forall k :: k in ks && k != ks[i] ==> k in ks[..i] + ks[i + 1..]
  {
    var rest, c := ks[..i] + ks[i + 1..], Cut(now, i);
    forall a, b | 0 <= a < b < |rest|
      ensures rest[a] < rest[b]
    {
      assert rest[a] == ks[Up(i, a)] && rest[b] == ks[Up(i, b)];
    }
    forall m | 0 <= m < |c|
      ensures rest[m] < |was| && c[m] == was[rest[m]]
    {
      assert rest[m] == ks[Up(i, m)] && c[m] == now[Up(i, m)];
    }
    forall k | k in ks && k != ks[i]
      ensures k in rest
    {
      var m: nat :| m < |ks| && ks[m] == k;
      assert rest[Down(i, m)] == ks[m];
    }
  }

  lemma ReachCut(was: Code, now: Code, ks: seq<nat>, i: nat)
    requires SameReach(was, now, ks) && CanCut(now, i)
    ensures SameReach(was, Cut(now, i), ks[..i] + ks[i + 1..])
  {
    hide Reachable;
    var c, rest := Cut(now, i), ks[..i] + ks[i + 1..];
    forall m: nat | m < |c|
      ensures Reachable(c, m) <==> Reachable(was, rest[m])
    {
      assert rest[m] == ks[Up(i, m)];
      if Reachable(c, m) {
        ReachableUp(now, i, m);
      }
      if Reachable(now, Up(i, m)) {
        ReachableDown(now, i, Up(i, m));
      }
    }
  }

  /** The first unreachable instruction, if any. */
  method FindUnreachable(cfg: CodeCfg) returns (found: bool, i: nat)
    requires cfg.Current()
    ensures found ==> i < |cfg.code| && !Reachable(cfg.code, i)
    ensures !found ==> AllReachable(cfg.code)
  {
    hide Structured, DefBest, DefSound, LiveSound, LiveBest, CrispBlocks, Spans, Reachable;
    i := 0;
    while i < |cfg.code|
      invariant i <= |cfg.code| && forall k: nat :: k < i ==> Reachable(cfg.code, k)
    {
      var r := IsReachable(cfg.code, cfg.blocks, cfg.graph, cfg.reachable, i);
      if !r {
        return true, i;
      }
      i := i + 1;
    }
    found := false;
  }

  /** Removing unreachable instructions, one at a time, preserves meaning under every semantics.  It keeps
      undefined registers dead, and for definite code the invariants. */
  method RemoveUnreachable<M(!new)>(cfg: CodeCfg, ghost sem: Semantics<M>) returns (ghost ks: seq<nat>)
    requires cfg.Valid() && cfg.Current()
    modifies cfg
    ensures cfg.Valid() && cfg.Current()
    ensures AllReachable(cfg.code) && multiset(cfg.code) <= multiset(old(cfg.code))
    ensures LeftOf(old(cfg.code), cfg.code, ks) && SameReach(old(cfg.code), cfg.code, ks)
    ensures forall k: nat :: k in ks <==> k < old(|cfg.code|) && Reachable(old(cfg.code), k)
    ensures Preserves(sem, old(cfg.code), cfg.code, cfg.liveOuts)
    ensures Preserves(sem, cfg.code, old(cfg.code), cfg.liveOuts)
    ensures UndefsDead(old(cfg.code), old(cfg.liveIn)) ==> UndefsDead(cfg.code, cfg.liveIn)
    ensures Sure(old(cfg.code), cfg.liveOuts, old(cfg.defs)) ==> Sure(cfg.code, cfg.liveOuts, cfg.defs)
  {
    hide Structured, DefBest, DefSound, LiveSound, LiveBest, CrispBlocks, Spans, Reachable, ValidCode, CodeWithin,
      Sure, UndefsDead, Preserves, LeftOf, SameReach;
    ks := LeftAll(cfg.code);
    PreservesSelf(sem, cfg.code, cfg.liveOuts);
    ghost var sure, dead := Sure(cfg.code, cfg.liveOuts, cfg.defs), UndefsDead(cfg.code, cfg.liveIn);
    var found: bool, i: nat := FindUnreachable(cfg);
    while found
      invariant cfg.Valid() && cfg.Current() && multiset(cfg.code) <= multiset(old(cfg.code))
      invariant Preserves(sem, old(cfg.code), cfg.code, cfg.liveOuts)
      invariant Preserves(sem, cfg.code, old(cfg.code), cfg.liveOuts)
      invariant (sure ==> Sure(cfg.code, cfg.liveOuts, cfg.defs)) && (dead ==> UndefsDead(cfg.code, cfg.liveIn))
      invariant LeftOf(old(cfg.code), cfg.code, ks) && SameReach(old(cfg.code), cfg.code, ks)
      invariant forall k: nat :: k < old(|cfg.code|) && Reachable(old(cfg.code), k) ==> k in ks
      invariant found ==> i < |cfg.code| && !Reachable(cfg.code, i)
      invariant !found ==> AllReachable(cfg.code)
      decreases |cfg.code|, found
    {
      ghost var code, defs, live := cfg.code, cfg.defs, cfg.liveIn;
      if sure {
        SureAnalysed(code, cfg.defIns, cfg.liveOuts, cfg.universe, cfg.blocks, cfg.graph, cfg.reachable, defs, live);
      }
      ks := LeftStep(old(cfg.code), code, ks, i);
      cfg.Remove(i);
      if sure {
        SureCut(code, cfg.defIns, cfg.liveOuts, cfg.universe, defs, live, i, cfg.defs);
      }
      if dead {
        DeadCut(code, cfg.liveOuts, live, i, cfg.liveIn);
      }
      CutSmaller(code, i);
      UnreachablePreserves(sem, code, i, cfg.liveOuts);
      PreservesTrans(sem, old(cfg.code), code, cfg.code, cfg.liveOuts);
      PreservesTrans(sem, cfg.code, code, old(cfg.code), cfg.liveOuts);
      found, i := FindUnreachable(cfg);
    }
    OnlyReachable(old(cfg.code), cfg.code, ks);
  }

  lemma LeftStep(was: Code, now: Code, ks: seq<nat>, i: nat) returns (rest: seq<nat>)
    requires LeftOf(was, now, ks) && SameReach(was, now, ks) && CanCut(now, i)
    ensures LeftOf(was, Cut(now, i), rest) && SameReach(was, Cut(now, i), rest)
    ensures forall k :: k in ks && k !in rest ==>
              k < |was| && was[k] == now[i] && (Reachable(was, k) <==> Reachable(now, i))
  {
    LeftPosition(was, now, ks, i);
    LeftCut(was, now, ks, i);
    ReachCut(was, now, ks, i);
    rest := ks[..i] + ks[i + 1..];
  }

  lemma LeftPosition(was: Code, now: Code, ks: seq<nat>, i: nat)
    requires LeftOf(was, now, ks) && SameReach(was, now, ks) && i < |now|
    ensures |ks| == |now| && ks[i] < |was| && now[i] == was[ks[i]] && (Reachable(now, i) <==> Reachable(was, ks[i]))
  {
    hide Reachable;
  }

  lemma OnlyReachable(was: Code, now: Code, ks: seq<nat>)
    requires LeftOf(was, now, ks) && SameReach(was, now, ks) && AllReachable(now)
    ensures forall k :: k in ks ==> k < |was| && Reachable(was, k)
  {
    hide Reachable;
    forall k | k in ks
      ensures k < |was| && Reachable(was, k)
    {
      var m: nat :| m < |ks| && ks[m] == k;
      LeftPosition(was, now, ks, m);
    }
  }

  /** The first redundant instruction, if any. */
  method FindRedundant(cfg: CodeCfg) returns (found: bool, i: nat)
    requires cfg.Current() && AllReachable(cfg.code)
    ensures found ==> i < |cfg.code| && Redundant(cfg.code, cfg.liveIn, i)
    ensures !found ==> forall k: nat :: k < |cfg.code| ==> !Redundant(cfg.code, cfg.liveIn, k)
  {
    hide Structured, DefBest, DefSound, LiveSound, LiveBest, CrispBlocks, Spans, Reachable;
    i := 0;
    while i < |cfg.code|
      invariant i <= |cfg.code| && forall k: nat :: k < i ==> !Redundant(cfg.code, cfg.liveIn, k)
    {
      var instr := cfg.code[i];
      if instr.kind == Plain {
        PlainOut(cfg.code, cfg.liveIn, cfg.liveOut, i);
      }
      if instr.kind == Plain && !instr.deref && instr.write * cfg.liveOut[i] == {} {
        return true, i;
      }
      i := i + 1;
    }
    found := false;
  }

  /** Never run, or neither control nor a memory access. */
  ghost predicate Droppable(code: Code, k: nat)
    requires k < |code|
  {
    !Reachable(code, k) || (code[k].kind == Plain && !code[k].deref)
  }

  /** Dead-code removal: terminates, with code in which every instruction is reachable and none is
      redundant.  If no register is live after a plain instruction that may undefine it, every terminating
      run of the original is matched by one of the result with the same memory and live-out registers,
      and conversely if plain instructions cannot fault.  Definite code that satisfies the two invariants
      is like that, and the invariants hold again. */
  method RemoveRedundant<M(!new)>(cfg: CodeCfg, ghost sem: Semantics<M>) returns (ghost ks: seq<nat>)
    requires cfg.Valid() && cfg.Current()
    modifies cfg
    ensures cfg.Valid() && cfg.Current()
    ensures AllReachable(cfg.code) && multiset(cfg.code) <= multiset(old(cfg.code))
    ensures LeftOf(old(cfg.code), cfg.code, ks)
    ensures forall k: nat :: k < old(|cfg.code|) && k !in ks ==> Droppable(old(cfg.code), k)
    ensures forall k: nat :: k < |cfg.code| ==> !Redundant(cfg.code, cfg.liveIn, k)
    ensures forall k: nat :: k < |cfg.code| && cfg.code[k].kind == Plain && !cfg.code[k].deref ==>
              exists r :: r in cfg.code[k].write && UsedFrom(cfg.code, cfg.liveOuts, k + 1, r)
    ensures UndefsDead(old(cfg.code), old(cfg.liveIn)) ==> UndefsDead(cfg.code, cfg.liveIn)
    ensures UndefsDead(old(cfg.code), old(cfg.liveIn)) && sem.Valid() ==>
            Preserves(sem, old(cfg.code), cfg.code, cfg.liveOuts)
    ensures UndefsDead(old(cfg.code), old(cfg.liveIn)) && sem.Valid() && sem.NoFaults() ==>
            Preserves(sem, cfg.code, old(cfg.code), cfg.liveOuts)
    ensures Sure(old(cfg.code), cfg.liveOuts, old(cfg.defs)) ==>
            UndefsDead(old(cfg.code), old(cfg.liveIn)) && Sure(cfg.code, cfg.liveOuts, cfg.defs)
  {
    hide Structured, DefBest, DefSound, LiveSound, LiveBest, CrispBlocks, Spans, Reachable, ValidCode, CodeWithin,
      Sure, UndefsDead, Preserves, Analysed, UsedFrom, LeftOf, SameReach, Semantics.Valid, Semantics.NoFaults;
    ghost var sure, dead := Sure(cfg.code, cfg.liveOuts, cfg.defs), UndefsDead(cfg.code, cfg.liveIn);
    if sure {
      SureDead(cfg.code, cfg.defIns, cfg.liveOuts, cfg.universe, cfg.blocks, cfg.graph, cfg.reachable, cfg.defs,
               cfg.liveIn);
    }
    ks := RemoveUnreachable(cfg, sem);
    var found: bool, i: nat := FindRedundant(cfg);
    while found
      invariant cfg.Valid() && cfg.Current()
      invariant AllReachable(cfg.code) && multiset(cfg.code) <= multiset(old(cfg.code))
      invariant (sure ==> Sure(cfg.code, cfg.liveOuts, cfg.defs)) && (dead ==> UndefsDead(cfg.code, cfg.liveIn))
      invariant dead && sem.Valid() ==> Preserves(sem, old(cfg.code), cfg.code, cfg.liveOuts)
      invariant dead && sem.Valid() && sem.NoFaults() ==> Preserves(sem, cfg.code, old(cfg.code), cfg.liveOuts)
      invariant LeftOf(old(cfg.code), cfg.code, ks) && SameReach(old(cfg.code), cfg.code, ks)
      invariant forall k: nat :: k < old(|cfg.code|) && k !in ks ==> Droppable(old(cfg.code), k)
      invariant found ==> i < |cfg.code| && Redundant(cfg.code, cfg.liveIn, i)
      invariant !found ==> forall k: nat :: k < |cfg.code| ==> !Redundant(cfg.code, cfg.liveIn, k)
      decreases |cfg.code|, found
    {
      ghost var code, defs, live := cfg.code, cfg.defs, cfg.liveIn;
      if sure {
        SureAnalysed(code, cfg.defIns, cfg.liveOuts, cfg.universe, cfg.blocks, cfg.graph, cfg.reachable, defs, live);
      }
      ks := LeftStep(old(cfg.code), code, ks, i);
      cfg.Remove(i);
      if sure {
        SureCut(code, cfg.defIns, cfg.liveOuts, cfg.universe, defs, live, i, cfg.defs);
      }
      AllReachableCut(code, i);
      CutSmaller(code, i);
      if dead {
        DeadCut(code, cfg.liveOuts, live, i, cfg.liveIn);
        StepPreserves(sem, old(cfg.code), code, cfg.liveOuts, live, i);
      }
      found, i := FindRedundant(cfg);
    }
    NothingRedundant(cfg.code, cfg.liveOuts, cfg.liveIn);
  }

  /** What is left in place writes a register that some path behind it still uses. */
  lemma NothingRedundant(code: Code, stop: set<nat>, live: seq<set<nat>>)
    requires AllReachable(code) && LiveSound(code, stop, live) && LiveBest(code, stop, live)
    requires forall k: nat :: k < |code| ==> !Redundant(code, live, k)
    ensures forall k: nat :: k < |code| && code[k].kind == Plain && !code[k].deref ==>
              exists r :: r in code[k].write && UsedFrom(code, stop, k + 1, r)
  {
    assert |live| == |code| + 1;
    hide LiveSound, LiveBest, Reachable, UsedFrom;
    forall k: nat | k < |code| && code[k].kind == Plain && !code[k].deref
      ensures exists r :: r in code[k].write && UsedFrom(code, stop, k + 1, r)
    {
      assert !Redundant(code, live, k);
      var r :| r in code[k].write * live[k + 1];
      ReachableNext(code, k, k + 1);
      LiveIsUsed(code, stop, live, k + 1, r);
    }
  }

  lemma LiveIsUsed(code: Code, stop: set<nat>, live: seq<set<nat>>, i: nat, r: nat)
    requires LiveSound(code, stop, live) && LiveBest(code, stop, live) && i <= |code| && Reachable(code, i)
    ensures r in live[i] <==> UsedFrom(code, stop, i, r)
  {
    LiveExactly(code, stop, live, i, r);
  }

  /** What the tables say of a reachable instruction, along the paths of the code. */
  lemma TablesMean(cfg: CodeCfg, i: nat, r: nat)
    requires cfg.Valid() && cfg.Current() && i <= |cfg.code| && Reachable(cfg.code, i)
    ensures r in cfg.liveIn[i] <==> exists w :: UsedAlong(cfg.code, cfg.liveOuts, w, r) && w[0] == i
    ensures CrispBlocks(cfg.code, cfg.blocks, cfg.reachable) && r in cfg.universe ==>
              (r in cfg.defs[i] <==> forall w :: WalkBetween(Flow(cfg.code), w, 0, i) ==>
                                       DefinedAlong(cfg.code, cfg.defIns, w, r))
  {
    hide LiveSound, LiveBest, DefSound, DefBest, Structured, Spans, Flow;
    LiveExactly(cfg.code, cfg.liveOuts, cfg.liveIn, i, r);
    if CrispBlocks(cfg.code, cfg.blocks, cfg.reachable) && r in cfg.universe {
      DefinedExactly(cfg.code, cfg.defIns, cfg.universe, cfg.defs, i, r);
    }
  }

  /** One more redundant instruction removed. */
  lemma StepPreserves<M(!new)>(sem: Semantics<M>, first: Code, code: Code, stop: set<nat>, live: seq<set<nat>>, i: nat)
    requires LiveTables(code, stop, live) && i < |code| && Redundant(code, live, i)
    ensures sem.Valid() && Preserves(sem, first, code, stop) ==> Preserves(sem, first, Cut(code, i), stop)
    ensures sem.Valid() && sem.NoFaults() && Preserves(sem, code, first, stop) ==>
            Preserves(sem, Cut(code, i), first, stop)
  {
    hide Preserves, LiveTables, Cut, Semantics.NoFaults, Semantics.Valid;
    if sem.Valid() && Preserves(sem, first, code, stop) {
      CutPreserves(sem, code, stop, live, i);
      PreservesTrans(sem, first, code, Cut(code, i), stop);
    }
    if sem.Valid() && sem.NoFaults() && Preserves(sem, code, first, stop) {
      CutReflects(sem, code, stop, live, i);
      PreservesTrans(sem, Cut(code, i), code, first, stop);
    }
  }
}
