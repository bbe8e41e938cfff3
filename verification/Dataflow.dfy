/** Definedness and liveness of registers (src/cfg/cfg.cc): block summaries, the two fixed points and
    the values per instruction, shown to be the best solutions between instructions. */
module Dataflow {
  import opened Graph
  import opened Programs
  import opened Blocks
  import opened Fixpoint

  // ----- Block summaries for definedness -----

  function GenOf(code: Code, lo: nat, hi: nat): set<nat>
    requires hi <= |code|
  {
    if lo >= hi then {} else GenOf(code, lo, hi - 1) + code[hi - 1].mustWrite - code[hi - 1].undef
  }

  function KillOf(code: Code, lo: nat, hi: nat): set<nat>
    requires hi <= |code|
  {
    if lo >= hi then {} else KillOf(code, lo, hi - 1) + code[hi - 1].undef - code[hi - 1].write
  }

  /** The registers defined after instructions lo to hi - 1, one at a time. */
  function DefChain(code: Code, lo: nat, hi: nat, x: set<nat>): set<nat>
    requires hi <= |code|
  {
    if lo >= hi then x else DefAfter(code[hi - 1], DefChain(code, lo, hi - 1, x))
  }

  /** The summary of a block applied to what is defined before it. */
  function Summary(code: Code, lo: nat, hi: nat, x: set<nat>): set<nat>
    requires hi <= |code|
  {
    (x - KillOf(code, lo, hi)) + GenOf(code, lo, hi)
  }

  /** Instruction j may undefine r, and no later one before hi does or surely writes r. */
  ghost predicate LastUndef(code: Code, j: nat, hi: nat, r: nat)
    requires j < hi <= |code|
  {
    r in code[j].undef && forall k :: j < k < hi ==> r !in code[k].undef && r !in code[k].mustWrite
  }

  ghost predicate PerhapsWritten(code: Code, j: nat, hi: nat, r: nat)
    requires hi <= |code|
  {
    exists k :: j <= k < hi && r in code[k].write
  }

  /** r is left undefined by the block, and then perhaps written. */
  ghost predicate Blurred(code: Code, lo: nat, hi: nat, r: nat)
    requires hi <= |code|
  {
    exists j :: lo <= j < hi && LastUndef(code, j, hi, r) && PerhapsWritten(code, j, hi, r)
  }

  ghost predicate Crisp(code: Code, lo: nat, hi: nat)
    requires hi <= |code|
  {
    forall r :: !Blurred(code, lo, hi, r)
  }

  lemma {:induction false} NeverUndef(code: Code, lo: nat, hi: nat, x: set<nat>, r: nat)
    requires hi <= |code| && forall k :: lo <= k < hi ==> r !in code[k].undef
    ensures r !in KillOf(code, lo, hi) && (r in DefChain(code, lo, hi, x) <==> r in x || r in GenOf(code, lo, hi))
  {
    if lo < hi {
      NeverUndef(code, lo, hi - 1, x, r);
    }
  }

  lemma {:induction false} SurelyWritten(code: Code, lo: nat, hi: nat, x: set<nat>, r: nat, j: nat)
    requires lo <= j < hi <= |code| && r in code[j].mustWrite && forall k :: j <= k < hi ==> r !in code[k].undef
    ensures r in GenOf(code, lo, hi) && r in DefChain(code, lo, hi, x)
  {
    if j < hi - 1 {
      SurelyWritten(code, lo, hi - 1, x, r, j);
    }
  }

  lemma {:induction false} LeftUndef(code: Code, lo: nat, hi: nat, x: set<nat>, r: nat, j: nat)
    requires lo <= j < hi <= |code| && LastUndef(code, j, hi, r)
    ensures r !in GenOf(code, lo, hi) && r !in DefChain(code, lo, hi, x)
    ensures r in KillOf(code, lo, hi) <==> !PerhapsWritten(code, j, hi, r)
  {
    if j < hi - 1 {
      LeftUndef(code, lo, hi - 1, x, r, j);
      assert r !in code[hi - 1].undef && r !in code[hi - 1].mustWrite;
    }
    assert PerhapsWritten(code, j, hi, r) <==> r in code[hi - 1].write || PerhapsWritten(code, j, hi - 1, r);
  }

  /** The last instruction that may undefine or surely writes r. */
  lemma {:induction false} LastEvent(code: Code, lo: nat, hi: nat, r: nat) returns (j: int)
    requires hi <= |code|
    ensures j < 0 || lo <= j < hi
    ensures j >= 0 ==> r in code[j].undef || r in code[j].mustWrite
    ensures forall k :: lo <= k < hi && j < k ==> r !in code[k].undef && r !in code[k].mustWrite
  {
    if lo >= hi {
      j := -1;
    } else if r in code[hi - 1].undef || r in code[hi - 1].mustWrite {
      j := hi - 1;
    } else {
      j := LastEvent(code, lo, hi - 1, r);
    }
  }

  /** The summary differs from the instructions exactly on blurred registers that come in defined. */
  lemma SummaryAt(code: Code, lo: nat, hi: nat, x: set<nat>, r: nat)
    requires hi <= |code| && ValidCode(code)
    ensures r in Summary(code, lo, hi, x) <==> r in DefChain(code, lo, hi, x) || (r in x && Blurred(code, lo, hi, r))
    ensures Blurred(code, lo, hi, r) ==> r !in DefChain(code, lo, hi, x)
  {
    var j := LastEvent(code, lo, hi, r);
    hide DefChain, KillOf, GenOf;
    forall i: nat | lo <= i < hi && LastUndef(code, i, hi, r)
      ensures i == j
    {
      assert j >= i;
    }
    if j < 0 {
      NeverUndef(code, lo, hi, x, r);
    } else if r in code[j].undef {
      LeftUndef(code, lo, hi, x, r, j);
    } else {
      SurelyWritten(code, lo, hi, x, r, j);
    }
  }

  /** The summary of a block is the composition of its instructions if and only if no register is
      left undefined and then perhaps written. */
  lemma SummaryExact(code: Code, lo: nat, hi: nat)
    requires hi <= |code| && ValidCode(code)
    ensures (forall x :: DefChain(code, lo, hi, x) == Summary(code, lo, hi, x)) <==> Crisp(code, lo, hi)
  {
    hide DefChain, Summary, Blurred;
    if Crisp(code, lo, hi) {
      forall x
        ensures DefChain(code, lo, hi, x) == Summary(code, lo, hi, x)
      {
        ChainIsSummary(code, lo, hi, x);
      }
    } else {
      var r :| Blurred(code, lo, hi, r);
      SummaryAt(code, lo, hi, {r}, r);
      assert DefChain(code, lo, hi, {r}) != Summary(code, lo, hi, {r});
    }
  }

  lemma ChainIsSummary(code: Code, lo: nat, hi: nat, x: set<nat>)
    requires hi <= |code| && ValidCode(code) && Crisp(code, lo, hi)
    ensures DefChain(code, lo, hi, x) == Summary(code, lo, hi, x)
  {
    hide DefChain, Summary, Blurred;
    forall r
      ensures r in DefChain(code, lo, hi, x) <==> r in Summary(code, lo, hi, x)
    {
      SummaryAt(code, lo, hi, x, r);
    }
  }

  /** The summary always claims at least as much as the instructions ... */
  lemma SummaryIsLarger(code: Code, lo: nat, hi: nat, x: set<nat>)
    requires hi <= |code| && ValidCode(code)
    ensures DefChain(code, lo, hi, x) <= Summary(code, lo, hi, x)
  {
    hide DefChain, Summary, Blurred;
    forall r | r in DefChain(code, lo, hi, x)
      ensures r in Summary(code, lo, hi, x)
    {
      SummaryAt(code, lo, hi, x, r);
    }
  }

  /** ... and sometimes more: a register that is undefined and then perhaps written counts as defined. */
  lemma SummaryTooLarge()
    ensures var undefine := Instr(0, Plain, false, {}, {}, {}, {7}, {7});
            var perhaps := Instr(1, Plain, false, {}, {7}, {}, {}, {});
            var code := [undefine, perhaps];
            ValidCode(code) && 7 in Summary(code, 0, 2, {7}) && 7 !in DefChain(code, 0, 2, {7})
  {
    var undefine := Instr(0, Plain, false, {}, {}, {}, {7}, {7});
    var perhaps := Instr(1, Plain, false, {}, {7}, {}, {}, {});
    var code := [undefine, perhaps];
    assert code[0] == undefine && code[1] == perhaps;
    assert KillOf(code, 0, 1) == {7};
    assert KillOf(code, 0, 2) == KillOf(code, 0, 1) + perhaps.undef - perhaps.write;
    assert DefChain(code, 0, 1, {7}) == {};
  }

  lemma {:induction false} ChainMonotone(code: Code, lo: nat, hi: nat, x: set<nat>, y: set<nat>)
    requires hi <= |code| && x <= y
    ensures DefChain(code, lo, hi, x) <= DefChain(code, lo, hi, y)
  {
    if lo < hi {
      ChainMonotone(code, lo, hi - 1, x, y);
    }
  }

  // ----- Block summaries for liveness -----

  function LiveKillOf(code: Code, lo: nat, hi: nat): set<nat>
    requires hi <= |code|
  {
    if lo >= hi then {} else LiveKillOf(code, lo, hi - 1) + code[hi - 1].mustUndef + code[hi - 1].mustWrite
  }

  function UseOf(code: Code, lo: nat, hi: nat): set<nat>
    requires hi <= |code|
  {
    if lo >= hi then {} else UseOf(code, lo, hi - 1) + (code[hi - 1].read - LiveKillOf(code, lo, hi - 1))
  }

  /** The registers live before instruction lo if x is live before hi. */
  function LiveChain(code: Code, lo: nat, hi: nat, x: set<nat>): set<nat>
    requires hi <= |code|
    decreases hi - lo
  {
    if lo >= hi then x else LiveBefore(code[lo], LiveChain(code, lo + 1, hi, x))
  }

  lemma {:induction false} LiveChainEnd(code: Code, lo: nat, hi: nat, x: set<nat>)
    requires lo < hi <= |code|
    ensures LiveChain(code, lo, hi, x) == LiveChain(code, lo, hi - 1, LiveBefore(code[hi - 1], x))
    decreases hi - lo
  {
    if lo + 1 < hi {
      LiveChainEnd(code, lo + 1, hi, x);
    }
  }

  lemma {:induction false} LiveChainIsSummary(code: Code, lo: nat, hi: nat, x: set<nat>)
    requires hi <= |code|
    ensures LiveChain(code, lo, hi, x) == (x - LiveKillOf(code, lo, hi)) + UseOf(code, lo, hi)
    decreases hi
  {
    if lo < hi {
      LiveChainEnd(code, lo, hi, x);
      LiveChainIsSummary(code, lo, hi - 1, LiveBefore(code[hi - 1], x));
    }
  }

  lemma {:induction false} LiveChainMonotone(code: Code, lo: nat, hi: nat, x: set<nat>, y: set<nat>)
    requires hi <= |code| && x <= y
    ensures LiveChain(code, lo, hi, x) <= LiveChain(code, lo, hi, y)
    decreases hi - lo
  {
    if lo < hi {
      LiveChainMonotone(code, lo + 1, hi, x, y);
    }
  }

  // ----- Computing the summaries -----

  /** Structure of the CFG as recomputed from the code. */
  ghost predicate Structured(code: Code, blocks: seq<nat>, g: Cfg, reach: set<nat>) {
    && GraphOf(code, blocks, g) && Closed(g, reach)
    && (forall b :: b in reach ==> b < g.Size())
    && (forall b :: b in reach <==> Reach(g, 0, b))
  }

  method BlockGenKill(code: Code, lo: nat, hi: nat) returns (gen: set<nat>, kill: set<nat>)
    requires lo <= hi <= |code|
    ensures gen == GenOf(code, lo, hi) && kill == KillOf(code, lo, hi)
  {
    gen, kill := {}, {};
    for j := lo to hi
      invariant gen == GenOf(code, lo, j) && kill == KillOf(code, lo, j)
    {
      gen := gen + code[j].mustWrite - code[j].undef;
      kill := kill + code[j].undef - code[j].write;
    }
  }

  method BlockUseKill(code: Code, lo: nat, hi: nat) returns (use: set<nat>, kill: set<nat>)
    requires lo <= hi <= |code|
    ensures use == UseOf(code, lo, hi) && kill == LiveKillOf(code, lo, hi)
  {
    use, kill := {}, {};
    for j := lo to hi
      invariant use == UseOf(code, lo, j) && kill == LiveKillOf(code, lo, j)
    {
      use := use + (code[j].read - kill);
      kill := kill + code[j].mustUndef + code[j].mustWrite;
    }
  }

  ghost predicate SpanAt(code: Code, blocks: seq<nat>, b: nat) {
    b + 1 < |blocks| && blocks[b] <= blocks[b + 1] <= |code|
  }

  ghost predicate Spans(code: Code, blocks: seq<nat>) {
    |blocks| > 0 && forall b: nat :: b < |blocks| - 1 ==> SpanAt(code, blocks, b)
  }

  lemma BlocksSpan(code: Code, blocks: seq<nat>)
    requires BlocksOf(code, blocks)
    ensures Spans(code, blocks)
  {
    forall b: nat | b < |blocks| - 1
      ensures SpanAt(code, blocks, b)
    {
      if b > 0 {
        BlockStart(code, blocks, b);
      }
    }
  }

  /** The summary of a reachable block; the others stay empty. */
  ghost predicate DefSummary(code: Code, blocks: seq<nat>, reach: set<nat>, b: nat, gen: set<nat>, kill: set<nat>)
    requires SpanAt(code, blocks, b)
  {
    if b in reach then gen == GenOf(code, blocks[b], blocks[b + 1]) && kill == KillOf(code, blocks[b], blocks[b + 1])
    else gen == kill == {}
  }

  method RecomputeDefsGenKill(code: Code, blocks: seq<nat>, reach: set<nat>)
    returns (gen: seq<set<nat>>, kill: seq<set<nat>>)
    requires Spans(code, blocks)
    ensures |gen| == |kill| == |blocks| - 1
    ensures forall b: nat :: b < |gen| ==> DefSummary(code, blocks, reach, b, gen[b], kill[b])
  {
    gen, kill := [], [];
    for b := 0 to |blocks| - 1
      invariant |gen| == |kill| == b
      invariant forall c: nat :: c < b ==> DefSummary(code, blocks, reach, c, gen[c], kill[c])
    {
      assert SpanAt(code, blocks, b);
      var x, y := {}, {};
      if b in reach {
        x, y := BlockGenKill(code, blocks[b], blocks[b + 1]);
      }
      gen, kill := gen + [x], kill + [y];
    }
  }

  ghost predicate LiveSummary(code: Code, blocks: seq<nat>, reach: set<nat>, b: nat, use: set<nat>, kill: set<nat>)
    requires SpanAt(code, blocks, b)
  {
    if b in reach then use == UseOf(code, blocks[b], blocks[b + 1]) &&
      kill == LiveKillOf(code, blocks[b], blocks[b + 1])
    else use == kill == {}
  }

  method RecomputeLivenessUseKill(code: Code, blocks: seq<nat>, reach: set<nat>)
    returns (use: seq<set<nat>>, kill: seq<set<nat>>)
    requires Spans(code, blocks)
    ensures |use| == |kill| == |blocks| - 1
    ensures forall b: nat :: b < |use| ==> LiveSummary(code, blocks, reach, b, use[b], kill[b])
  {
    use, kill := [], [];
    for b := 0 to |blocks| - 1
      invariant |use| == |kill| == b
      invariant forall c: nat :: c < b ==> LiveSummary(code, blocks, reach, c, use[c], kill[c])
    {
      assert SpanAt(code, blocks, b);
      var x, y := {}, {};
      if b in reach {
        x, y := BlockUseKill(code, blocks[b], blocks[b + 1]);
      }
      use, kill := use + [x], kill + [y];
    }
  }

  // ----- Definedness per instruction -----

  ghost predicate CodeWithin(code: Code, top: set<nat>) {
    forall i :: 0 <= i < |code| ==> code[i].read <= top && code[i].mustWrite <= top
  }

  lemma {:induction false} GenWithin(code: Code, lo: nat, hi: nat, top: set<nat>)
    requires hi <= |code| && CodeWithin(code, top)
    ensures GenOf(code, lo, hi) <= top && UseOf(code, lo, hi) <= top
  {
    if lo < hi {
      GenWithin(code, lo, hi - 1, top);
    }
  }

  /** The forward problem solved by recompute_defs. */
  ghost predicate DefProblem(code: Code, blocks: seq<nat>, g: Cfg, reach: set<nat>,
                             start: set<nat>, top: set<nat>, f: Forward) {
    && Structured(code, blocks, g, reach) && Spans(code, blocks)
    && f.Valid() && f.g == g && f.nodes == reach && f.start == start && f.top == top
    && forall b: nat :: b < |f.gen| ==> DefSummary(code, blocks, reach, b, f.gen[b], f.kill[b])
  }

  /** def[i] follows from what flows into the block of i. */
  ghost predicate DefsFrom(code: Code, blocks: seq<nat>, g: Cfg, reach: set<nat>,
                           f: Forward, out: seq<set<nat>>, def: seq<set<nat>>)
    requires BlocksOf(code, blocks) && g.Size() == |blocks| - 1 && f.g == g && |out| == g.Size()
  {
    && |def| == |code| + 1
    && forall b: nat, i: nat :: 1 <= b <= ExitOf(blocks) && b in reach && At(code, blocks, b, i) && i <= |code| ==>
         def[i] == DefChain(code, blocks[b], i, f.Meet(out, b))
  }

  /** In every reachable block the summary is the composition of the instructions. */
  ghost predicate CrispBlocks(code: Code, blocks: seq<nat>, reach: set<nat>)
    requires Spans(code, blocks)
  {
    forall b: nat :: b in reach && b < |blocks| - 1 ==> CrispAt(code, blocks, b)
  }

  ghost predicate CrispAt(code: Code, blocks: seq<nat>, b: nat) {
    SpanAt(code, blocks, b) && Crisp(code, blocks[b], blocks[b + 1])
  }

  lemma DefsIntoSuccessor(code: Code, blocks: seq<nat>, g: Cfg, reach: set<nat>, start: set<nat>,
                          top: set<nat>, f: Forward, out: seq<set<nat>>, def: seq<set<nat>>, b: nat, s: nat)
    requires DefProblem(code, blocks, g, reach, start, top, f) && f.Solved(out) && ValidCode(code)
    requires CrispBlocks(code, blocks, reach)
    requires DefsFrom(code, blocks, g, reach, f, out, def)
    requires 1 <= b < ExitOf(blocks) && b in reach && g.Edge(b, s) && 1 <= s <= ExitOf(blocks)
    ensures LastOf(blocks, b) < |code| && blocks[s] <= |code|
    ensures def[blocks[s]] <= DefAfter(code[LastOf(blocks, b)], def[LastOf(blocks, b)])
  {
    var last := LastOf(blocks, b);
    BlockStart(code, blocks, b);
    BlockStart(code, blocks, s);
    assert s in reach;
    assert def[blocks[s]] == f.Meet(out, s);
    assert At(code, blocks, b, last);
    assert f.Fixed(out, b);
    assert SpanAt(code, blocks, b) && DefSummary(code, blocks, reach, b, f.gen[b], f.kill[b]);
    assert CrispAt(code, blocks, b);
    ChainIsSummary(code, blocks[b], blocks[b + 1], f.Meet(out, b));
  }

  lemma DefsInside(code: Code, blocks: seq<nat>, g: Cfg, reach: set<nat>, f: Forward,
                   out: seq<set<nat>>, def: seq<set<nat>>, b: nat, i: nat)
    requires BlocksOf(code, blocks) && g.Size() == |blocks| - 1 && f.g == g && |out| == g.Size()
    requires DefsFrom(code, blocks, g, reach, f, out, def)
    requires 1 <= b < ExitOf(blocks) && b in reach && blocks[b] <= i && i + 1 < blocks[b + 1]
    ensures i + 1 < |code| && def[i + 1] == DefAfter(code[i], def[i])
  {
    BlockStart(code, blocks, b);
    hide Forward.Meet, DefAfter;
    assert At(code, blocks, b, i) && At(code, blocks, b, i + 1);
    assert def[i + 1] == DefChain(code, blocks[b], i + 1, f.Meet(out, b));
  }

  lemma DefsStart(code: Code, blocks: seq<nat>, g: Cfg, reach: set<nat>, start: set<nat>,
                  top: set<nat>, f: Forward, out: seq<set<nat>>, def: seq<set<nat>>)
    requires DefProblem(code, blocks, g, reach, start, top, f) && f.Solved(out)
    requires DefsFrom(code, blocks, g, reach, f, out, def)
    ensures def[0] <= start
  {
    assert g.Edge(0, 1) && 1 in reach;
    BlockStart(code, blocks, 1);
    assert def[0] == f.Meet(out, 1);
  }

  lemma DefsEdge(code: Code, blocks: seq<nat>, g: Cfg, reach: set<nat>, start: set<nat>,
                 top: set<nat>, f: Forward, out: seq<set<nat>>, def: seq<set<nat>>, i: nat, k: nat)
    requires DefProblem(code, blocks, g, reach, start, top, f) && f.Solved(out) && ValidCode(code)
    requires CrispBlocks(code, blocks, reach)
    requires DefsFrom(code, blocks, g, reach, f, out, def)
    requires i < |code| && Reachable(code, i) && k in Next(code, i)
    ensures def[k] <= DefAfter(code[i], def[i])
  {
    hide Reachable, Next, DefAfter, CrispBlocks, DefsFrom, DefSummary, SuccsUpTo, Boundary, Forward.Fixed;
    var b := BlockExists(code, blocks, i);
    ReachableBlocks(code, blocks, g, b, i);
    if i + 1 < blocks[b + 1] {
      NextInside(code, blocks, b, i);
      DefsInside(code, blocks, g, reach, f, out, def, b, i);
    } else {
      NextLast(code, blocks, g, b);
      assert i == LastOf(blocks, b);
      var s: nat :| g.Edge(b, s) && blocks[s] == k;
      DefsIntoSuccessor(code, blocks, g, reach, start, top, f, out, def, b, s);
    }
  }

  /** The computed definedness is sound between instructions if the summaries of the reachable blocks
      are exact. */
  lemma DefsSound(code: Code, blocks: seq<nat>, g: Cfg, reach: set<nat>, start: set<nat>,
                  top: set<nat>, f: Forward, out: seq<set<nat>>, def: seq<set<nat>>)
    requires DefProblem(code, blocks, g, reach, start, top, f) && f.Solved(out) && ValidCode(code)
    requires CrispBlocks(code, blocks, reach)
    requires DefsFrom(code, blocks, g, reach, f, out, def)
    ensures DefSound(code, start, def)
  {
    DefsStart(code, blocks, g, reach, start, top, f, out, def);
    hide Reachable, Next, DefAfter, CrispBlocks, Forward.Solved, DefProblem;
    forall i: nat, k: nat | i < |code| && Reachable(code, i) && k in Next(code, i)
      ensures def[k] <= DefAfter(code[i], def[i])
    {
      DefsEdge(code, blocks, g, reach, start, top, f, out, def, i, k);
    }
  }

  // ----- ... and the best -----

  lemma {:induction false} SoundChain(code: Code, start: set<nat>, blocks: seq<nat>, y: seq<set<nat>>, b: nat, i: nat)
    requires BlocksOf(code, blocks) && DefSound(code, start, y) && 1 <= b <= ExitOf(blocks)
    requires Reachable(code, blocks[b]) && At(code, blocks, b, i) && i <= |code|
    ensures y[i] <= DefChain(code, blocks[b], i, y[blocks[b]])
    decreases i
  {
    BlockStart(code, blocks, b);
    if blocks[b] < i {
      SoundChain(code, start, blocks, y, b, i - 1);
      NextInside(code, blocks, b, i - 1);
      InsideReachable(code, blocks, b, i - 1);
    }
  }

  /** What a sound assignment says at the end of block b. */
  ghost function OutOf(code: Code, blocks: seq<nat>, start: set<nat>, y: seq<set<nat>>, b: nat): set<nat>
    requires SpanAt(code, blocks, b) && |y| == |code| + 1
  {
    if b == 0 then start else DefChain(code, blocks[b], blocks[b + 1], y[blocks[b]])
  }

  ghost function Outs(code: Code, blocks: seq<nat>, start: set<nat>, y: seq<set<nat>>): (x: seq<set<nat>>)
    requires Spans(code, blocks) && |y| == |code| + 1
    ensures |x| == |blocks| - 1
    ensures forall b: nat :: b < |x| ==> SpanAt(code, blocks, b) && x[b] == OutOf(code, blocks, start, y, b)
  {
    seq(|blocks| - 1, b requires 0 <= b < |blocks| - 1 && SpanAt(code, blocks, b) => OutOf(code, blocks, start, y, b))
  }

  lemma SoundIntoSuccessor(code: Code, start: set<nat>, y: seq<set<nat>>, i: nat, k: nat, x: set<nat>)
    requires DefSound(code, start, y) && i < |code| && Reachable(code, i) && k in Next(code, i) && y[i] <= x
    ensures k <= |code| && y[k] <= DefAfter(code[i], x)
  {
    hide Next;
    assert y[k] <= DefAfter(code[i], y[i]);
  }

  lemma OutIsAfterLast(code: Code, blocks: seq<nat>, start: set<nat>, y: seq<set<nat>>, b: nat)
    requires BlocksOf(code, blocks) && |y| == |code| + 1 && 1 <= b < ExitOf(blocks)
    ensures SpanAt(code, blocks, b) && LastOf(blocks, b) < |code| && blocks[b] <= |code|
    ensures OutOf(code, blocks, start, y, b) ==
            DefAfter(code[LastOf(blocks, b)], DefChain(code, blocks[b], LastOf(blocks, b), y[blocks[b]]))
  {
    BlockStart(code, blocks, b);
  }

  /** The ends of a reachable block are reachable, and lead on to its successors. */
  lemma BlockEnds(code: Code, blocks: seq<nat>, g: Cfg, reach: set<nat>, p: nat, b: nat)
    requires Structured(code, blocks, g, reach) && p in reach && p > 0 && g.Edge(p, b)
    ensures 1 <= p < ExitOf(blocks) && 1 <= b <= ExitOf(blocks) && LastOf(blocks, p) < |code|
    ensures blocks[p] <= |code| && Reachable(code, blocks[p]) && Reachable(code, LastOf(blocks, p))
    ensures At(code, blocks, p, LastOf(blocks, p)) && blocks[b] in Next(code, LastOf(blocks, p))
  {
    assert p != ExitOf(blocks);
    NextLast(code, blocks, g, p);
    BlockStart(code, blocks, p);
    hide Reachable, Reach, Next, SuccsUpTo, Boundary;
    ReachableBlocks(code, blocks, g, p, LastOf(blocks, p));
    ReachableBlocks(code, blocks, g, p, blocks[p]);
  }

  /** y at the start of a block is contained in the outs of its predecessors. */
  lemma OutsFlow(code: Code, blocks: seq<nat>, g: Cfg, reach: set<nat>,
                 start: set<nat>, y: seq<set<nat>>, p: nat, b: nat)
    requires Structured(code, blocks, g, reach) && DefSound(code, start, y) && p in reach && g.Edge(p, b)
    requires 1 <= b <= ExitOf(blocks)
    ensures blocks[b] <= |code| && SpanAt(code, blocks, p) && y[blocks[b]] <= OutOf(code, blocks, start, y, p)
  {
    if p == 0 {
      assert b == 1;
    } else {
      BlockEnds(code, blocks, g, reach, p, b);
      hide Reachable, Reach, Next, DefAfter, GraphOf, Boundary;
      var last := LastOf(blocks, p);
      assert BlocksOf(code, blocks);
      SoundChain(code, start, blocks, y, p, last);
      SoundIntoSuccessor(code, start, y, last, blocks[b], DefChain(code, blocks[p], last, y[blocks[p]]));
      OutIsAfterLast(code, blocks, start, y, p);
    }
  }

  lemma OutsSupported(code: Code, blocks: seq<nat>, g: Cfg, reach: set<nat>,
                      start: set<nat>, top: set<nat>, f: Forward, y: seq<set<nat>>)
    requires DefProblem(code, blocks, g, reach, start, top, f) && ValidCode(code) && DefSound(code, start, y)
    requires Within(y, top)
    ensures f.Supported(Outs(code, blocks, start, y))
  {
    var x := Outs(code, blocks, start, y);
    forall b: nat | b in f.nodes && b != 0
      ensures x[b] <= f.Transfer(b, f.Meet(x, b))
    {
      BlockStart(code, blocks, b);
      StartWithinMeet(code, blocks, g, reach, start, top, f, y, b);
      hide Forward.Meet, Outs;
      assert SpanAt(code, blocks, b) && x[b] == OutOf(code, blocks, start, y, b);
      SummaryIsLarger(code, blocks[b], blocks[b + 1], y[blocks[b]]);
      assert DefSummary(code, blocks, reach, b, f.gen[b], f.kill[b]);
    }
  }

  lemma StartWithinMeet(code: Code, blocks: seq<nat>, g: Cfg, reach: set<nat>,
                        start: set<nat>, top: set<nat>, f: Forward, y: seq<set<nat>>, b: nat)
    requires DefProblem(code, blocks, g, reach, start, top, f) && DefSound(code, start, y) && Within(y, top)
    requires b in f.nodes && 1 <= b <= ExitOf(blocks) && blocks[b] <= |code|
    ensures y[blocks[b]] <= f.Meet(Outs(code, blocks, start, y), b)
  {
    hide DefSummary, SuccsUpTo, Boundary, OutOf, Reach, ValidCode;
    forall p: nat | p in f.nodes && g.Edge(p, b)
      ensures y[blocks[b]] <= Outs(code, blocks, start, y)[p]
    {
      OutsFlow(code, blocks, g, reach, start, y, p, b);
    }
  }

  /** No sound assignment claims more than the computed one. */
  lemma DefsBest(code: Code, blocks: seq<nat>, g: Cfg, reach: set<nat>, start: set<nat>,
                 top: set<nat>, f: Forward, out: seq<set<nat>>, def: seq<set<nat>>)
    requires DefProblem(code, blocks, g, reach, start, top, f) && f.Solved(out) && f.Greatest(out) && ValidCode(code)
    requires DefsFrom(code, blocks, g, reach, f, out, def)
    ensures DefBest(code, start, top, def)
  {
    hide Reachable, Next, DefAfter, CrispBlocks, DefProblem, Forward.Solved, Forward.Greatest;
    forall y, i: nat | DefSound(code, start, y) && Within(y, top) && i <= |code| && Reachable(code, i)
      ensures y[i] <= def[i]
    {
      DefsAbove(code, blocks, g, reach, start, top, f, out, def, y, i);
    }
  }

  lemma DefsAbove(code: Code, blocks: seq<nat>, g: Cfg, reach: set<nat>, start: set<nat>, top: set<nat>,
                  f: Forward, out: seq<set<nat>>, def: seq<set<nat>>, y: seq<set<nat>>, i: nat)
    requires DefProblem(code, blocks, g, reach, start, top, f) && f.Solved(out) && f.Greatest(out) && ValidCode(code)
    requires DefsFrom(code, blocks, g, reach, f, out, def)
    requires DefSound(code, start, y) && Within(y, top) && i <= |code| && Reachable(code, i)
    ensures y[i] <= def[i]
  {
    var b := BlockExists(code, blocks, i);
    ReachableStartOf(code, blocks, g, reach, b, i);
    SoundChain(code, start, blocks, y, b, i);
    StartAbove(code, blocks, g, reach, start, top, f, out, y, b);
    ChainMonotone(code, blocks[b], i, y[blocks[b]], f.Meet(out, b));
  }

  lemma ReachableStartOf(code: Code, blocks: seq<nat>, g: Cfg, reach: set<nat>, b: nat, i: nat)
    requires Structured(code, blocks, g, reach) && 1 <= b <= ExitOf(blocks) && At(code, blocks, b, i)
    requires Reachable(code, i)
    ensures b in reach && blocks[b] <= |code| && Reachable(code, blocks[b])
  {
    BlockStart(code, blocks, b);
    hide Reachable, Reach, Next, SuccsUpTo, Boundary;
    ReachableBlocks(code, blocks, g, b, i);
    ReachableBlocks(code, blocks, g, b, blocks[b]);
  }

  lemma OutsBelow(code: Code, blocks: seq<nat>, g: Cfg, reach: set<nat>, start: set<nat>,
                  top: set<nat>, f: Forward, out: seq<set<nat>>, y: seq<set<nat>>)
    requires DefProblem(code, blocks, g, reach, start, top, f) && f.Solved(out) && f.Greatest(out) && ValidCode(code)
    requires DefSound(code, start, y) && Within(y, top)
    ensures |out| == |blocks| - 1
    ensures forall p: nat :: p in reach ==> p < |out| && Outs(code, blocks, start, y)[p] <= out[p]
  {
    OutsSupported(code, blocks, g, reach, start, top, f, y);
  }

  lemma StartAbove(code: Code, blocks: seq<nat>, g: Cfg, reach: set<nat>, start: set<nat>,
                   top: set<nat>, f: Forward, out: seq<set<nat>>, y: seq<set<nat>>, b: nat)
    requires DefProblem(code, blocks, g, reach, start, top, f) && f.Solved(out) && f.Greatest(out) && ValidCode(code)
    requires |y| == |code| + 1 && |out| == g.Size()
    requires DefSound(code, start, y) && Within(y, top) && 1 <= b <= ExitOf(blocks) && b in reach && blocks[b] <= |code|
    ensures y[blocks[b]] <= f.Meet(out, b)
  {
    OutsBelow(code, blocks, g, reach, start, top, f, out, y);
    hide CrispBlocks, DefSummary, SuccsUpTo, Boundary, Outs, OutOf, Reach, Forward.Solved, Forward.Greatest, DefSound;
    forall p: nat | p in f.nodes && g.Edge(p, b)
      ensures y[blocks[b]] <= out[p]
    {
      OutsFlow(code, blocks, g, reach, start, y, p, b);
    }
  }

  // ----- ... and in terms of paths -----

  lemma NoWayBack(code: Code, blocks: seq<nat>, g: Cfg, b: nat)
    requires GraphOf(code, blocks, g)
    ensures !g.Edge(b, 0)
  {
    if 1 <= b < ExitOf(blocks) {
      NextLast(code, blocks, g, b);
    }
  }

  lemma DefProblemRooted(code: Code, blocks: seq<nat>, g: Cfg, reach: set<nat>,
                         start: set<nat>, top: set<nat>, f: Forward)
    requires DefProblem(code, blocks, g, reach, start, top, f)
    ensures Rooted(f)
  {
    forall b: nat | b in f.nodes
      ensures exists w :: WalkIn(f, w, b)
    {
      var w :| WalkBetween(g, w, 0, b);
      forall i | 0 <= i < |w|
        ensures w[i] in f.nodes
      {
        ReachSelf(g, 0);
        ClosedWalk(g, reach, w, i);
      }
      assert WalkIn(f, w, b);
    }
    forall b: nat
      ensures !g.Edge(b, 0)
    {
      NoWayBack(code, blocks, g, b);
    }
  }

  /** The registers defined at the end of a reachable block are exactly those that are defined along
      every path from the entry. */
  lemma DefsOnAllPaths(code: Code, blocks: seq<nat>, g: Cfg, reach: set<nat>, start: set<nat>,
                       top: set<nat>, f: Forward, out: seq<set<nat>>, b: nat, r: nat)
    requires DefProblem(code, blocks, g, reach, start, top, f) && f.Solved(out) && f.Greatest(out) && b in reach
    requires r in top
    ensures r in out[b] <==> OnAllPaths(f, b, r)
  {
    DefProblemRooted(code, blocks, g, reach, start, top, f);
    ForwardExact(f, out, b, r);
  }

  // ----- A condition that survives the removal of instructions -----

  /** No block starts after j, up to and including k. */
  ghost predicate Straight(code: Code, j: nat, k: nat)
    requires k < |code|
  {
    forall m :: j < m <= k ==> !Boundary(code, m)
  }

  /** A register that the earlier instruction may undefine is written by the later one surely or not at
      all, and not by the instruction that may undefine it. */
  ghost predicate Settled(earlier: Instr, later: Instr, same: bool) {
    (if same then later.write else later.write - later.mustWrite) !! earlier.undef
  }

  /** So it is for all pairs of instructions of one reachable block: the block stays crisp whatever
      instructions are removed from it. */
  ghost predicate Definite(code: Code) {
    forall j: nat, k: nat :: j <= k < |code| && Reachable(code, j) && Straight(code, j, k) ==>
        Settled(code[j], code[k], j == k)
  }

  /** The condition is what that takes: an unsettled pair, left alone, is not crisp. */
  lemma UnsettledIsBlurred(a: Instr, b: Instr)
    requires a.Valid() && b.Valid()
    ensures !Settled(a, b, false) ==> !Crisp([a, b], 0, 2)
    ensures !Settled(a, a, true) ==> !Crisp([a], 0, 1)
  {
    var pair, one := [a, b], [a];
    assert pair[0] == a && pair[1] == b && one[0] == a;
    if r :| r in a.undef && r in b.write - b.mustWrite {
      if r in b.undef {
        assert LastUndef(pair, 1, 2, r) && PerhapsWritten(pair, 1, 2, r);
      } else {
        assert LastUndef(pair, 0, 2, r) && PerhapsWritten(pair, 0, 2, r);
      }
      assert Blurred(pair, 0, 2, r);
    }
    if r :| r in a.undef && r in a.write {
      assert LastUndef(one, 0, 1, r) && PerhapsWritten(one, 0, 1, r);
      assert Blurred(one, 0, 1, r);
    }
  }

  lemma DefiniteIsCrisp(code: Code, blocks: seq<nat>, g: Cfg, reach: set<nat>)
    requires Structured(code, blocks, g, reach) && Spans(code, blocks) && Definite(code)
    ensures CrispBlocks(code, blocks, reach)
  {
    forall b: nat | b in reach && b < |blocks| - 1
      ensures CrispAt(code, blocks, b)
    {
      assert SpanAt(code, blocks, b);
      if !Crisp(code, blocks[b], blocks[b + 1]) {
        DefiniteBlock(code, blocks, g, reach, b);
        assert false;
      }
    }
  }

  lemma DefinitePair(code: Code, j: nat, k: nat)
    requires Definite(code) && j <= k < |code| && Reachable(code, j) && Straight(code, j, k)
    ensures Settled(code[j], code[k], j == k)
  {
  }

  lemma DefiniteBlock(code: Code, blocks: seq<nat>, g: Cfg, reach: set<nat>, b: nat)
    requires Structured(code, blocks, g, reach) && Definite(code) && b in reach && SpanAt(code, blocks, b)
    ensures Crisp(code, blocks[b], blocks[b + 1])
  {
    var lo, hi := blocks[b], blocks[b + 1];
    if r :| Blurred(code, lo, hi, r) {
      var j: nat :| lo <= j < hi && LastUndef(code, j, hi, r) && PerhapsWritten(code, j, hi, r);
      var k: nat :| j <= k < hi && r in code[k].write;
      assert At(code, blocks, b, j);
      ReachableBlocks(code, blocks, g, b, j);
      forall m: nat | j < m <= k
        ensures !Boundary(code, m)
      {
        InsideNoBoundary(code, blocks, b, m);
      }
      DefinitePair(code, j, k);
      assert false;
    }
  }
}
