/** Liveness per instruction (src/cfg/cfg.cc, recompute_liveness), and the two recompute methods that
    fill the tables of the CFG. */
module Liveness {
  import opened Graph
  import opened Programs
  import opened Blocks
  import opened Fixpoint
  import opened Dataflow

  /** The backward problem solved by recompute_liveness. */
  ghost predicate LiveProblem(code: Code, blocks: seq<nat>, g: Cfg, reach: set<nat>,
                              stop: set<nat>, top: set<nat>, f: Backward) {
    && Structured(code, blocks, g, reach) && Spans(code, blocks)
    && f.Valid() && f.g == g && f.reach == reach && f.stop == stop && f.top == top
    && (forall b: nat :: b in f.nodes <==> b in reach && 1 <= b < ExitOf(blocks))
    && forall b: nat :: b < |f.use| ==> LiveSummary(code, blocks, reach, b, f.use[b], f.kill[b])
  }

  /** live[i] follows from what is wanted after the block of i. */
  ghost predicate LivesFrom(code: Code, blocks: seq<nat>, f: Backward, ins: seq<set<nat>>, live: seq<set<nat>>)
    requires BlocksOf(code, blocks) && f.g.Valid() && f.g.Size() == |blocks| - 1 == |ins|
  {
    && |live| == |code| + 1 && live[|code|] == f.stop
    && forall b: nat, i: nat :: b in f.nodes && 1 <= b < ExitOf(blocks) && At(code, blocks, b, i) ==>
         LiveAt(code, blocks, f, ins, live, b, i)
  }

  ghost predicate LiveAt(code: Code, blocks: seq<nat>, f: Backward,
                         ins: seq<set<nat>>, live: seq<set<nat>>, b: nat, i: nat)
    requires f.g.Valid() && f.g.Size() == |ins| && b < |ins|
  {
    SpanAt(code, blocks, b) && i < |live| && live[i] == LiveChain(code, i, blocks[b + 1], f.Join(ins, b))
  }

  /** At the start of a block the table agrees with the fixed point. */
  lemma LiveStart(code: Code, blocks: seq<nat>, g: Cfg, reach: set<nat>, stop: set<nat>,
                  top: set<nat>, f: Backward, ins: seq<set<nat>>, live: seq<set<nat>>, b: nat)
    requires LiveProblem(code, blocks, g, reach, stop, top, f) && f.Solved(ins) && LivesFrom(code, blocks, f, ins, live)
    requires b in reach && 1 <= b <= ExitOf(blocks)
    ensures blocks[b] <= |code| && live[blocks[b]] == ins[b]
  {
    BlockStart(code, blocks, b);
    if b < ExitOf(blocks) {
      assert LiveAt(code, blocks, f, ins, live, b, blocks[b]);
      assert f.Fixed(ins, b);
      assert LiveSummary(code, blocks, reach, b, f.use[b], f.kill[b]);
      LiveChainIsSummary(code, blocks[b], blocks[b + 1], f.Join(ins, b));
    }
  }

  lemma LiveInside(code: Code, blocks: seq<nat>, f: Backward, ins: seq<set<nat>>, live: seq<set<nat>>, b: nat, i: nat)
    requires BlocksOf(code, blocks) && f.g.Valid() && f.g.Size() == |blocks| - 1 == |ins|
    requires LivesFrom(code, blocks, f, ins, live)
    requires b in f.nodes && 1 <= b < ExitOf(blocks) && At(code, blocks, b, i)
    ensures i < |code|
    ensures i + 1 < blocks[b + 1] ==> live[i] == LiveBefore(code[i], live[i + 1])
    ensures i + 1 == blocks[b + 1] ==> live[i] == LiveBefore(code[i], f.Join(ins, b))
  {
    BlockStart(code, blocks, b);
    hide Backward.Join, LiveBefore;
    assert LiveAt(code, blocks, f, ins, live, b, i);
    assert LiveChain(code, i, blocks[b + 1], f.Join(ins, b)) ==
           LiveBefore(code[i], LiveChain(code, i + 1, blocks[b + 1], f.Join(ins, b)));
    if i + 1 < blocks[b + 1] {
      assert At(code, blocks, b, i + 1);
      assert LiveAt(code, blocks, f, ins, live, b, i + 1);
    }
  }

  lemma LiveEdge(code: Code, blocks: seq<nat>, g: Cfg, reach: set<nat>, stop: set<nat>,
                 top: set<nat>, f: Backward, ins: seq<set<nat>>, live: seq<set<nat>>, i: nat, k: nat)
    requires LiveProblem(code, blocks, g, reach, stop, top, f) && f.Solved(ins) && LivesFrom(code, blocks, f, ins, live)
    requires forall b :: 0 <= b < |ins| ==> ins[b] <= f.top
    requires i < |code| && Reachable(code, i) && k in Next(code, i)
    ensures LiveBefore(code[i], live[k]) <= live[i]
  {
    var b := BlockExists(code, blocks, i);
    hide Reachable, Reach, Next, LiveSummary, SuccsUpTo, Boundary, Backward.Fixed, LiveAt;
    ReachableStartOf(code, blocks, g, reach, b, i);
    LiveInside(code, blocks, f, ins, live, b, i);
    if i + 1 < blocks[b + 1] {
      NextInside(code, blocks, b, i);
    } else {
      assert i == LastOf(blocks, b);
      hide BlocksOf, LivesFrom, Backward.Solved;
      LiveJoin(code, blocks, g, reach, stop, top, f, ins, live, b, k);
    }
  }

  /** What is live where a block passes control is among what the block joins. */
  lemma LiveJoin(code: Code, blocks: seq<nat>, g: Cfg, reach: set<nat>, stop: set<nat>,
                 top: set<nat>, f: Backward, ins: seq<set<nat>>, live: seq<set<nat>>, b: nat, k: nat)
    requires LiveProblem(code, blocks, g, reach, stop, top, f) && f.Solved(ins) && LivesFrom(code, blocks, f, ins, live)
    requires forall b :: 0 <= b < |ins| ==> ins[b] <= f.top
    requires 1 <= b < ExitOf(blocks) && b in reach && k in Next(code, LastOf(blocks, b))
    ensures k <= |code| && live[k] <= f.Join(ins, b)
  {
    hide Reachable, Reach, Next, LiveSummary, SuccsUpTo, Boundary, Backward.Fixed, LiveAt;
    NextLast(code, blocks, g, b);
    var s: nat :| g.Edge(b, s) && blocks[s] == k;
    assert s in reach;
    LiveStart(code, blocks, g, reach, stop, top, f, ins, live, s);
    assert ins[s] <= f.Join(ins, b);
  }

  lemma LivesSound(code: Code, blocks: seq<nat>, g: Cfg, reach: set<nat>, stop: set<nat>,
                   top: set<nat>, f: Backward, ins: seq<set<nat>>, live: seq<set<nat>>)
    requires LiveProblem(code, blocks, g, reach, stop, top, f) && f.Solved(ins) && LivesFrom(code, blocks, f, ins, live)
    requires forall b :: 0 <= b < |ins| ==> ins[b] <= f.top
    ensures LiveSound(code, stop, live)
  {
    hide Reachable, Next, LiveBefore, Backward.Solved;
    forall i: nat, k: nat | i < |code| && Reachable(code, i) && k in Next(code, i)
      ensures LiveBefore(code[i], live[k]) <= live[i]
    {
      LiveEdge(code, blocks, g, reach, stop, top, f, ins, live, i, k);
    }
  }

  // ----- The best solution -----

  ghost function Starts(code: Code, blocks: seq<nat>, reach: set<nat>, top: set<nat>, y: seq<set<nat>>)
      : (x: seq<set<nat>>)
    requires BlocksOf(code, blocks) && |y| == |code| + 1
    ensures |x| == |blocks| - 1
    ensures forall b: nat :: 1 <= b <= ExitOf(blocks) ==> blocks[b] <= |code| && x[b] == y[blocks[b]]
  {
    seq(|blocks| - 1, b requires 0 <= b < |blocks| - 1 => if b == 0 then {}
      else (BlockStart(code, blocks, b); y[blocks[b]]))
  }

  /** If y is enough before the last instruction of a block, it is enough before every one. */
  lemma {:induction false} SoundBackwards(code: Code, stop: set<nat>, blocks: seq<nat>,
                                          y: seq<set<nat>>, b: nat, i: nat, want: set<nat>)
    requires BlocksOf(code, blocks) && |y| == |code| + 1 && LiveSound(code, stop, y)
    requires 1 <= b < ExitOf(blocks) && blocks[b] <= i < blocks[b + 1] <= |code| && Reachable(code, blocks[b])
    requires LiveBefore(code[blocks[b + 1] - 1], want) <= y[blocks[b + 1] - 1]
    ensures LiveChain(code, i, blocks[b + 1], want) <= y[i]
    decreases blocks[b + 1] - i
  {
    hide Reachable, Next, Boundary, LiveBefore, LiveChain, LiveSound;
    ChainStep(code, i, blocks[b + 1], want);
    if i + 1 < blocks[b + 1] {
      NextInside(code, blocks, b, i);
      InsideReachable(code, blocks, b, i);
      SoundBackwards(code, stop, blocks, y, b, i + 1, want);
      LiveBeforeMonotone(code[i], LiveChain(code, i + 1, blocks[b + 1], want), y[i + 1]);
      SoundStep(code, stop, y, i, i + 1);
    }
  }

  /** A sufficient assignment holds everything a block needs of its successors, at every instruction. */
  lemma SufficientChain(code: Code, blocks: seq<nat>, g: Cfg, reach: set<nat>, stop: set<nat>,
                        top: set<nat>, f: Backward, y: seq<set<nat>>, b: nat, i: nat)
    requires LiveProblem(code, blocks, g, reach, stop, top, f) && LiveSound(code, stop, y)
    requires b in f.nodes && 1 <= b < ExitOf(blocks) && At(code, blocks, b, i)
    ensures SpanAt(code, blocks, b) && i < |code|
    ensures LiveChain(code, i, blocks[b + 1], f.Join(Starts(code, blocks, reach, top, y), b)) <= y[i]
  {
    BlockStart(code, blocks, b);
    SufficientLast(code, blocks, g, reach, stop, top, f, y, b);
    hide Reachable, Reach, Next, LiveSummary, SuccsUpTo, Boundary, Backward.Join, LiveBefore, Starts, LiveChain,
      LiveSound;
    ReachableBlocks(code, blocks, g, b, blocks[b]);
    SoundBackwards(code, stop, blocks, y, b, i, f.Join(Starts(code, blocks, reach, top, y), b));
  }

  lemma SoundStep(code: Code, stop: set<nat>, y: seq<set<nat>>, i: nat, k: nat)
    requires LiveSound(code, stop, y) && i < |code| && Reachable(code, i) && k in Next(code, i)
    ensures LiveBefore(code[i], y[k]) <= y[i]
  {
    hide Next, LiveBefore;
  }

  lemma ChainStep(code: Code, i: nat, hi: nat, x: set<nat>)
    requires i < hi <= |code|
    ensures LiveChain(code, i, hi, x) == LiveBefore(code[i], LiveChain(code, i + 1, hi, x))
    ensures LiveChain(code, hi, hi, x) == x
  {
  }

  lemma LiveBeforeMonotone(i: Instr, x: set<nat>, y: set<nat>)
    requires x <= y
    ensures LiveBefore(i, x) <= LiveBefore(i, y)
  {
  }

  lemma SufficientLast(code: Code, blocks: seq<nat>, g: Cfg, reach: set<nat>,
                       stop: set<nat>, top: set<nat>, f: Backward, y: seq<set<nat>>, b: nat)
    requires LiveProblem(code, blocks, g, reach, stop, top, f) && LiveSound(code, stop, y)
    requires b in f.nodes && 1 <= b < ExitOf(blocks)
    ensures LastOf(blocks, b) < |code|
    ensures LiveBefore(code[LastOf(blocks, b)], f.Join(Starts(code, blocks, reach, top, y), b)) <= y[LastOf(blocks, b)]
  {
    NextLast(code, blocks, g, b);
    var last := LastOf(blocks, b);
    hide Reachable, Reach, Next, LiveSummary, SuccsUpTo, Boundary;
    ReachableBlocks(code, blocks, g, b, last);
    var x := Starts(code, blocks, reach, top, y);
    var n0 := Next(code, last)[0];
    assert LiveBefore(code[last], y[n0]) <= y[last];
    forall r | r in LiveBefore(code[last], f.Join(x, b))
      ensures r in y[last]
    {
      if r !in code[last].read {
        var s: nat :| g.Edge(b, s) && r in x[s];
        assert LiveBefore(code[last], y[blocks[s]]) <= y[last];
      }
    }
  }

  lemma StartsSufficient(code: Code, blocks: seq<nat>, g: Cfg, reach: set<nat>,
                         stop: set<nat>, top: set<nat>, f: Backward, y: seq<set<nat>>)
    requires LiveProblem(code, blocks, g, reach, stop, top, f) && LiveSound(code, stop, y)
    ensures f.Sufficient(Starts(code, blocks, reach, top, y))
  {
    var x := Starts(code, blocks, reach, top, y);
    assert blocks[ExitOf(blocks)] == |code|;
    forall b: nat | b in f.nodes
      ensures f.Transfer(b, f.Join(x, b)) <= x[b]
    {
      hide Reach, Next, SuccsUpTo, Boundary, Backward.Join, LiveBefore;
      BlockStart(code, blocks, b);
      SufficientChain(code, blocks, g, reach, stop, top, f, y, b, blocks[b]);
      LiveChainIsSummary(code, blocks[b], blocks[b + 1], f.Join(x, b));
      assert LiveSummary(code, blocks, reach, b, f.use[b], f.kill[b]);
    }
  }

  lemma LivesBelow(code: Code, blocks: seq<nat>, g: Cfg, reach: set<nat>, stop: set<nat>, top: set<nat>,
                   f: Backward, ins: seq<set<nat>>, live: seq<set<nat>>, y: seq<set<nat>>, i: nat)
    requires LiveProblem(code, blocks, g, reach, stop, top, f) && f.Solved(ins) && f.Least(ins)
    requires LivesFrom(code, blocks, f, ins, live)
    requires LiveSound(code, stop, y) && i <= |code| && Reachable(code, i)
    ensures live[i] <= y[i]
  {
    hide Reachable, Reach, Next, LiveSummary, SuccsUpTo, Boundary, Backward.Fixed, LiveBefore, Starts,
      Backward.Sufficient;
    if i < |code| {
      var b := BlockExists(code, blocks, i);
      ReachableStartOf(code, blocks, g, reach, b, i);
      var x := Starts(code, blocks, reach, top, y);
      StartsSufficient(code, blocks, g, reach, stop, top, f, y);
      SufficientChain(code, blocks, g, reach, stop, top, f, y, b, i);
      assert LiveAt(code, blocks, f, ins, live, b, i);
      assert f.Join(ins, b) <= f.Join(x, b);
      LiveChainMonotone(code, i, blocks[b + 1], f.Join(ins, b), f.Join(x, b));
    }
  }

  lemma LivesBest(code: Code, blocks: seq<nat>, g: Cfg, reach: set<nat>, stop: set<nat>,
                  top: set<nat>, f: Backward, ins: seq<set<nat>>, live: seq<set<nat>>)
    requires LiveProblem(code, blocks, g, reach, stop, top, f) && f.Solved(ins) && f.Least(ins)
    requires LivesFrom(code, blocks, f, ins, live)
    ensures LiveBest(code, stop, live)
  {
    hide Reachable, Next, LiveBefore, Backward.Solved, Backward.Least;
    forall y, i: nat | LiveSound(code, stop, y) && i <= |code| && Reachable(code, i)
      ensures live[i] <= y[i]
    {
      LivesBelow(code, blocks, g, reach, stop, top, f, ins, live, y, i);
    }
  }

  // ----- Filling the tables -----

  /** The elements of a set of blocks in increasing order, from `first` on. */
  method Listing(s: set<nat>, first: nat, n: nat) returns (list: seq<nat>)
    requires first <= n
    ensures forall b :: b in list <==> b in s && first <= b < n
  {
    list := [];
    for b := first to n
      invariant forall c :: c in list <==> c in s && first <= c < b
    {
      if b in s {
        list := list + [b];
      }
    }
  }

  lemma InitialOut(f: Forward, init: seq<set<nat>>)
    requires f.Valid() && |init| == f.g.Size() && init[0] == f.start
    requires forall b: nat :: b in f.nodes && b != 0 ==> init[b] == f.top
    ensures Descending(f, init)
  {
    forall b: nat | b in f.nodes && b != 0
      ensures f.Transfer(b, f.Meet(init, b)) <= f.top
    {
    }
  }

  method SolveDefs(code: Code, blocks: seq<nat>, g: Cfg, preds: seq<seq<nat>>,
                   reach: set<nat>, start: set<nat>, top: set<nat>)
    returns (f: Forward, out: seq<set<nat>>)
    requires Structured(code, blocks, g, reach) && PredsOf(g, preds) && CodeWithin(code, top) && start <= top
    ensures DefProblem(code, blocks, g, reach, start, top, f) && f.Solved(out) && f.Greatest(out)
  {
    BlocksSpan(code, blocks);
    var gen, kill := RecomputeDefsGenKill(code, blocks, reach);
    f := Forward(g, reach, gen, kill, start, top);
    assert 0 in reach by {
      ReachSelf(g, 0);
    }
    forall b: nat | b < |gen|
      ensures gen[b] <= top
    {
      assert SpanAt(code, blocks, b) && DefSummary(code, blocks, reach, b, gen[b], kill[b]);
      GenWithin(code, blocks[b], blocks[b + 1], top);
    }
    hide GraphOf, Reach, DefSummary;
    var order := Listing(reach, 1, g.Size());
    var init := seq(g.Size(), b => if b == 0 then start else top);
    InitialOut(f, init);
    out := SolveForward(f, preds, order, init);
  }

  /** The definedness table: the fixed point over blocks, then one instruction at a time. */
  method RecomputeDefs(code: Code, blocks: seq<nat>, g: Cfg, preds: seq<seq<nat>>,
                       reach: set<nat>, start: set<nat>, top: set<nat>, before: seq<set<nat>>)
    returns (def: seq<set<nat>>, ghost f: Forward, out: seq<set<nat>>)
    requires Structured(code, blocks, g, reach) && PredsOf(g, preds) && CodeWithin(code, top) && start <= top
    ensures DefProblem(code, blocks, g, reach, start, top, f) && f.Solved(out) && f.Greatest(out)
    ensures DefsFrom(code, blocks, g, reach, f, out, def)
  {
    var p;
    p, out := SolveDefs(code, blocks, g, preds, reach, start, top);
    f := p;
    def := seq(|code| + 1, i requires 0 <= i => if i < |before| then before[i] else {});
    for b := 1 to g.Size()
      invariant |def| == |code| + 1
      invariant forall c: nat, i: nat :: 1 <= c < b && c in reach && At(code, blocks, c, i) && i <= |code| ==>
        def[i] == DefChain(code, blocks[c], i, f.Meet(out, c))
    {
      if b in reach {
        var x := ComputeMeet(p, preds, out, b);
        def := FillDefs(code, blocks, b, x, def);
      }
    }
  }

  method FillDefs(code: Code, blocks: seq<nat>, b: nat, x: set<nat>, before: seq<set<nat>>) returns (def: seq<set<nat>>)
    requires BlocksOf(code, blocks) && 1 <= b <= ExitOf(blocks) && |before| == |code| + 1
    ensures |def| == |code| + 1
    ensures forall i: nat :: i <= |code| ==>
            def[i] == if At(code, blocks, b, i) then DefChain(code, blocks[b], i, x) else before[i]
  {
    BlockStart(code, blocks, b);
    def := before[blocks[b] := x];
    hide Boundary, DefAfter;
    if b < ExitOf(blocks) {
      for i := blocks[b] + 1 to blocks[b + 1]
        invariant |def| == |code| + 1
        invariant forall k: nat :: k <= |code| ==>
          def[k] == if blocks[b] <= k < i then DefChain(code, blocks[b], k, x) else before[k]
      {
        def := def[i := DefAfter(code[i - 1], def[i - 1])];
      }
    }
  }

  method SolveLiveness(code: Code, blocks: seq<nat>, g: Cfg, reach: set<nat>, stop: set<nat>, top: set<nat>)
    returns (f: Backward, ins: seq<set<nat>>)
    requires Structured(code, blocks, g, reach) && CodeWithin(code, top) && stop <= top
    ensures LiveProblem(code, blocks, g, reach, stop, top, f) && f.Solved(ins) && f.Least(ins)
    ensures forall b :: 0 <= b < |ins| ==> ins[b] <= f.top
  {
    BlocksSpan(code, blocks);
    var use, kill := RecomputeLivenessUseKill(code, blocks, reach);
    var order := Listing(reach, 1, ExitOf(blocks));
    var nodes := set b | b in order;
    f := Backward(g, reach, nodes, use, kill, stop, top);
    forall b: nat | b < |use|
      ensures use[b] <= top
    {
      assert SpanAt(code, blocks, b) && LiveSummary(code, blocks, reach, b, use[b], kill[b]);
      GenWithin(code, blocks[b], blocks[b + 1], top);
    }
    ins := SolveBackward(f, order);
  }

  /** The liveness tables, before and after every instruction. */
  method RecomputeLiveness(code: Code, blocks: seq<nat>, g: Cfg, reach: set<nat>, stop: set<nat>, top: set<nat>)
    returns (liveIns: seq<set<nat>>, liveOuts: seq<set<nat>>, ghost f: Backward, ghost ins: seq<set<nat>>)
    requires Structured(code, blocks, g, reach) && CodeWithin(code, top) && stop <= top
    ensures LiveProblem(code, blocks, g, reach, stop, top, f) && f.Solved(ins) && f.Least(ins)
    ensures forall b :: 0 <= b < |ins| ==> ins[b] <= f.top
    ensures LivesFrom(code, blocks, f, ins, liveIns) && OutsFrom(code, blocks, f, ins, liveIns, liveOuts)
    ensures Within(liveIns, top)
  {
    var p, x := SolveLiveness(code, blocks, g, reach, stop, top);
    f, ins := p, x;
    liveIns, liveOuts := FillTables(code, blocks, p, x);
  }

  method FillTables(code: Code, blocks: seq<nat>, f: Backward, ins: seq<set<nat>>)
    returns (liveIns: seq<set<nat>>, liveOuts: seq<set<nat>>)
    requires BlocksOf(code, blocks) && f.Valid() && f.g.Size() == |blocks| - 1 == |ins|
    requires CodeWithin(code, f.top) && forall b :: 0 <= b < |ins| ==> ins[b] <= f.top
    ensures LivesFrom(code, blocks, f, ins, liveIns) && OutsFrom(code, blocks, f, ins, liveIns, liveOuts)
    ensures Within(liveIns, f.top)
  {
    hide Backward.Join, LiveAt, OutLive, Boundary;
    liveIns := seq(|code| + 1, i => {});
    liveOuts := liveIns;
    liveIns := liveIns[|code| := f.stop];
    for b := 1 to ExitOf(blocks)
      invariant |liveIns| == |liveOuts| == |code| + 1 && liveIns[|code|] == f.stop
      invariant LivesUpTo(code, blocks, f, ins, liveIns, liveOuts, b) && Within(liveIns, f.top)
    {
      ghost var ins0, outs0 := liveIns, liveOuts;
      if b in f.nodes {
        var want := ComputeJoin(f, ins, b);
        liveIns, liveOuts := FillLives(code, blocks, b, want, liveIns, liveOuts);
        StepLives(code, blocks, f, ins, ins0, outs0, liveIns, liveOuts, b);
        JoinWithin(f, ins, b);
        FilledWithin(code, blocks[b], blocks[b + 1], want, ins0, outs0, liveIns, liveOuts, f.top);
      }
    }
  }

  /** The tables are right for the blocks before n. */
  ghost predicate LivesUpTo(code: Code, blocks: seq<nat>, f: Backward, ins: seq<set<nat>>,
                            liveIns: seq<set<nat>>, liveOuts: seq<set<nat>>, n: nat)
    requires BlocksOf(code, blocks) && f.g.Valid() && f.g.Size() == |blocks| - 1 == |ins| && n <= ExitOf(blocks)
  {
    forall b: nat, i: nat :: b in f.nodes && 1 <= b < n && At(code, blocks, b, i) ==>
      LiveAt(code, blocks, f, ins, liveIns, b, i) && OutLive(code, blocks, f, ins, liveIns, liveOuts, b, i)
  }

  /** liveIns and liveOuts are ins0 and outs0 with block b filled in. */
  ghost predicate Filled(code: Code, lo: nat, hi: nat, want: set<nat>, ins0: seq<set<nat>>,
                         outs0: seq<set<nat>>, ins: seq<set<nat>>, outs: seq<set<nat>>) {
    && lo < hi <= |code| && |ins0| == |outs0| == |ins| == |outs| == |code| + 1
    && (forall i: nat :: i <= |code| ==> ins[i] == if lo <= i < hi then LiveChain(code, i, hi, want) else ins0[i])
    && (forall i: nat :: i <= |code| ==> OutFilled(ins, outs, outs0, lo, hi, want, i))
  }

  lemma StepLives(code: Code, blocks: seq<nat>, f: Backward, ins: seq<set<nat>>, ins0: seq<set<nat>>,
                  outs0: seq<set<nat>>, liveIns: seq<set<nat>>, liveOuts: seq<set<nat>>, b: nat)
    requires BlocksOf(code, blocks) && f.g.Valid() && f.g.Size() == |blocks| - 1 == |ins| && 1 <= b < ExitOf(blocks)
    requires LivesUpTo(code, blocks, f, ins, ins0, outs0, b)
    requires Filled(code, blocks[b], blocks[b + 1], f.Join(ins, b), ins0, outs0, liveIns, liveOuts)
    ensures LivesUpTo(code, blocks, f, ins, liveIns, liveOuts, b + 1)
  {
    hide Backward.Join, LiveChain, Boundary;
    forall c: nat, i: nat | c in f.nodes && 1 <= c <= b && At(code, blocks, c, i)
      ensures LiveAt(code, blocks, f, ins, liveIns, c, i) && OutLive(code, blocks, f, ins, liveIns, liveOuts, c, i)
    {
      EarlierBlock(code, blocks, c, b, i);
      assert OutFilled(liveIns, liveOuts, outs0, blocks[b], blocks[b + 1], f.Join(ins, b), i);
      if c < b {
        assert LiveAt(code, blocks, f, ins, ins0, c, i) && OutLive(code, blocks, f, ins, ins0, outs0, c, i);
      }
    }
  }

  lemma EarlierBlock(code: Code, blocks: seq<nat>, c: nat, b: nat, i: nat)
    requires BlocksOf(code, blocks) && 1 <= c <= b < ExitOf(blocks) && At(code, blocks, c, i)
    ensures c < b ==> i < blocks[b] && (i + 1 < blocks[c + 1] ==> i + 1 < blocks[b])
  {
    assert c + 1 < b ==> blocks[c + 1] < blocks[b];
  }

  /** liveOuts[i] is what is live before the next instruction, or wanted by the successors. */
  ghost predicate OutLive(code: Code, blocks: seq<nat>, f: Backward, ins: seq<set<nat>>,
                          liveIns: seq<set<nat>>, liveOuts: seq<set<nat>>, b: nat, i: nat)
    requires f.g.Valid() && f.g.Size() == |ins| && b < |ins|
  {
    && b + 1 < |blocks| && i + 1 < |liveIns| && i < |liveOuts|
    && liveOuts[i] == if i + 1 < blocks[b + 1] then liveIns[i + 1] else f.Join(ins, b)
  }

  ghost predicate OutsFrom(code: Code, blocks: seq<nat>, f: Backward, ins: seq<set<nat>>,
                           liveIns: seq<set<nat>>, liveOuts: seq<set<nat>>)
    requires BlocksOf(code, blocks) && f.g.Valid() && f.g.Size() == |blocks| - 1 == |ins|
  {
    && |liveOuts| == |code| + 1
    && forall b: nat, i: nat :: b in f.nodes && 1 <= b < ExitOf(blocks) && At(code, blocks, b, i) ==>
         OutLive(code, blocks, f, ins, liveIns, liveOuts, b, i)
  }

  method FillLives(code: Code, blocks: seq<nat>, b: nat, want: set<nat>, ins0: seq<set<nat>>, outs0: seq<set<nat>>)
    returns (ins: seq<set<nat>>, outs: seq<set<nat>>)
    requires BlocksOf(code, blocks) && 1 <= b < ExitOf(blocks) && |ins0| == |outs0| == |code| + 1
    ensures Filled(code, blocks[b], blocks[b + 1], want, ins0, outs0, ins, outs)
  {
    BlockStart(code, blocks, b);
    var lo, hi := blocks[b], blocks[b + 1];
    ins, outs := ins0, outs0[hi - 1 := want];
    ins := ins[hi - 1 := LiveBefore(code[hi - 1], want)];
    for i := hi - 1 downto lo
      invariant |ins| == |outs| == |code| + 1
      invariant forall k: nat :: k <= |code| ==>
                if i <= k < hi then ins[k] == LiveChain(code, k, hi, want) else ins[k] == ins0[k]
      invariant forall k: nat :: k <= |code| ==> OutFilled(ins, outs, outs0, i, hi, want, k)
    {
      ghost var ins1, outs1, later: nat := ins, outs, i + 1;
      assert LiveChain(code, i, hi, want) == LiveBefore(code[i], LiveChain(code, later, hi, want));
      outs := outs[i := ins[i + 1]];
      ins := ins[i := LiveBefore(code[i], outs[i])];
      hide OutFilled;
      OutsStep(ins1, outs1, outs0, i, later, hi, want, ins, outs);
    }
  }

  lemma OutsStep(ins: seq<set<nat>>, outs: seq<set<nat>>, outs0: seq<set<nat>>, i: nat,
                 later: nat, hi: nat, want: set<nat>, ins': seq<set<nat>>, outs': seq<set<nat>>)
    requires |ins| == |outs| == |outs0| && i + 1 == later < hi <= |ins|
    requires |ins'| == |ins| && outs' == outs[i := ins[later]] && forall k :: later <= k < |ins| ==> ins'[k] == ins[k]
    requires forall k: nat :: k < |ins| ==> OutFilled(ins, outs, outs0, later, hi, want, k)
    ensures forall k: nat :: k < |ins| ==> OutFilled(ins', outs', outs0, i, hi, want, k)
  {
    forall k: nat | k < |ins|
      ensures OutFilled(ins', outs', outs0, i, hi, want, k)
    {
      assert OutFilled(ins, outs, outs0, later, hi, want, k);
    }
  }

  /** Entry k of the live-outs: what is live behind it within lo to hi - 1, the old entry elsewhere. */
  ghost predicate OutFilled(ins: seq<set<nat>>, outs: seq<set<nat>>, outs0: seq<set<nat>>,
                            lo: nat, hi: nat, want: set<nat>, k: nat)
    requires k < |ins| == |outs| == |outs0| && hi <= |ins|
  {
    outs[k] == if lo <= k < hi then (if k + 1 < hi then ins[k + 1] else want) else outs0[k]
  }

  lemma JoinWithin(f: Backward, ins: seq<set<nat>>, b: nat)
    requires f.g.Valid() && |ins| == f.g.Size() && b < |ins|
    ensures f.Join(ins, b) <= f.top
  {
  }

  /** What is wanted after a block is what is live where control goes from its last instruction. */
  lemma JoinIsNext(code: Code, blocks: seq<nat>, g: Cfg, reach: set<nat>, stop: set<nat>, top: set<nat>,
                   f: Backward, ins: seq<set<nat>>, liveIns: seq<set<nat>>, b: nat, r: nat)
    requires LiveProblem(code, blocks, g, reach, stop, top, f) && f.Solved(ins)
    requires LivesFrom(code, blocks, f, ins, liveIns) && forall c :: 0 <= c < |ins| ==> ins[c] <= f.top
    requires b in reach && 1 <= b < ExitOf(blocks)
    ensures LastOf(blocks, b) < |code|
    ensures r in f.Join(ins, b) <==> exists k :: k in Next(code, LastOf(blocks, b)) && r in liveIns[k]
  {
    NextLast(code, blocks, g, b);
    hide Reach, LiveSummary, SuccsUpTo, Boundary, Backward.Fixed, LiveAt, Next, LivesFrom;
    forall s: nat | g.Edge(b, s)
      ensures blocks[s] <= |code| && liveIns[blocks[s]] == ins[s]
    {
      assert s in reach;
      LiveStart(code, blocks, g, reach, stop, top, f, ins, liveIns, s);
    }
    hide LiveProblem, BlocksOf, ListedSuccs;
    if r in f.Join(ins, b) {
      var s: nat :| g.Edge(b, s) && r in ins[s];
      assert blocks[s] in Next(code, LastOf(blocks, b));
    }
    if k :| k in Next(code, LastOf(blocks, b)) && r in liveIns[k] {
      var s: nat :| g.Edge(b, s) && blocks[s] == k;
      assert r in ins[s];
    }
  }

  /** After an instruction exactly that is live which is live before one that control can pass to. */
  lemma OutJoins(code: Code, blocks: seq<nat>, g: Cfg, reach: set<nat>, stop: set<nat>, top: set<nat>,
                 f: Backward, ins: seq<set<nat>>, liveIns: seq<set<nat>>, liveOuts: seq<set<nat>>, i: nat, r: nat)
    requires LiveProblem(code, blocks, g, reach, stop, top, f) && f.Solved(ins)
    requires LivesFrom(code, blocks, f, ins, liveIns)
    requires OutsFrom(code, blocks, f, ins, liveIns, liveOuts) && forall b :: 0 <= b < |ins| ==> ins[b] <= f.top
    requires i < |code| && Reachable(code, i)
    ensures r in liveOuts[i] <==> exists k :: k in Next(code, i) && r in liveIns[k]
  {
    var b := BlockExists(code, blocks, i);
    hide Reachable, Reach, LiveSummary, SuccsUpTo, Boundary, Backward.Fixed, LiveAt, Backward.Join, Next, LivesFrom;
    ReachableStartOf(code, blocks, g, reach, b, i);
    assert OutLive(code, blocks, f, ins, liveIns, liveOuts, b, i);
    if i + 1 < blocks[b + 1] {
      NextInside(code, blocks, b, i);
    } else {
      assert i == LastOf(blocks, b);
      JoinIsNext(code, blocks, g, reach, stop, top, f, ins, liveIns, b, r);
    }
  }

  lemma LiveWithin(code: Code, lo: nat, hi: nat, x: set<nat>, top: set<nat>)
    requires hi <= |code| && CodeWithin(code, top) && x <= top
    ensures LiveChain(code, lo, hi, x) <= top
  {
    LiveChainIsSummary(code, lo, hi, x);
    GenWithin(code, lo, hi, top);
  }

  lemma FilledWithin(code: Code, lo: nat, hi: nat, want: set<nat>, ins0: seq<set<nat>>,
                     outs0: seq<set<nat>>, ins: seq<set<nat>>, outs: seq<set<nat>>, top: set<nat>)
    requires Filled(code, lo, hi, want, ins0, outs0, ins, outs) && CodeWithin(code, top) && want <= top
    requires Within(ins0, top)
    ensures Within(ins, top)
  {
    hide LiveChain;
    forall i: nat | i < |ins|
      ensures ins[i] <= top
    {
      LiveWithin(code, i, hi, want, top);
    }
  }
}
