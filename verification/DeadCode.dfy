/** Why instructions may be removed (src/cfg/cfg_transforms.cc): definedness meets liveness, and
    the simulation between the code before and after a removal. */
module DeadCode {
  import opened Graph
  import opened Programs

  // ----- Definedness meets liveness -----

  /** The analyses of one piece of code and the two invariants. */
  ghost predicate Analysed(code: Code, start: set<nat>, stop: set<nat>,
                           top: set<nat>, def: seq<set<nat>>, live: seq<set<nat>>) {
    && ValidCode(code)
    && DefSound(code, start, def) && DefBest(code, start, top, def)
    && LiveSound(code, stop, live) && LiveBest(code, stop, live) && Within(live, top)
  }

  ghost predicate Invariants(code: Code, stop: set<nat>, def: seq<set<nat>>)
    requires |def| == |code| + 1
  {
    NoUndefReads(code, def) && NoUndefLiveOuts(code, stop, def)
  }

  /** Every live register is defined. */
  lemma LiveIsDefined(code: Code, start: set<nat>, stop: set<nat>, top: set<nat>,
                      def: seq<set<nat>>, live: seq<set<nat>>, i: nat)
    requires Analysed(code, start, stop, top, def, live) && Invariants(code, stop, def) && Reachable(code, i)
    ensures i <= |code| && live[i] <= def[i]
  {
    ReachableBound(code, i);
    DefinedSuffices(code, start, stop, def, live);
  }

  ghost function DefinedOrLive(code: Code, def: seq<set<nat>>, live: seq<set<nat>>): (y: seq<set<nat>>)
    requires |def| == |live| == |code| + 1
    ensures |y| == |code| + 1
    ensures forall k: nat :: k <= |code| ==> y[k] == if Reachable(code, k) then def[k] else live[k]
  {
    seq(|code| + 1, k requires 0 <= k <= |code| => if Reachable(code, k) then def[k] else live[k])
  }

  lemma DefinedSuffices(code: Code, start: set<nat>, stop: set<nat>, def: seq<set<nat>>, live: seq<set<nat>>)
    requires ValidCode(code) && DefSound(code, start, def) && LiveSound(code, stop, live) && Invariants(code, stop, def)
    ensures LiveSound(code, stop, DefinedOrLive(code, def, live))
  {
    hide Reachable, Next;
    var y := DefinedOrLive(code, def, live);
    forall j: nat, k: nat | j < |code| && Reachable(code, j) && k in Next(code, j)
      ensures LiveBefore(code[j], y[k]) <= y[j]
    {
      ReachableNext(code, j, k);
      assert def[k] <= DefAfter(code[j], def[j]);
      assert code[j].Valid();
    }
  }

  /** No register that an instruction may undefine is live after it. */
  lemma UndefIsDead(code: Code, start: set<nat>, stop: set<nat>, top: set<nat>,
                    def: seq<set<nat>>, live: seq<set<nat>>, i: nat, k: nat)
    requires Analysed(code, start, stop, top, def, live) && Invariants(code, stop, def)
    requires i < |code| && Reachable(code, i) && k in Next(code, i)
    ensures live[k] !! code[i].undef && live[k] <= DefAfter(code[i], live[i])
  {
    ReachableNext(code, i, k);
    LiveIsDefined(code, start, stop, top, def, live, k);
    assert LiveBefore(code[i], live[k]) <= live[i];
  }

  /** No register that the instruction may undefine is live after it; asked only of the instructions
      that can be redundant at all. */
  ghost predicate UndefDeadAt(code: Code, live: seq<set<nat>>, i: nat)
    requires |live| == |code| + 1 && i < |code|
  {
    code[i].kind == Plain && !code[i].deref ==> live[i + 1] !! code[i].undef
  }

  ghost predicate UndefsDead(code: Code, live: seq<set<nat>>)
    requires |live| == |code| + 1
  {
    forall i: nat :: i < |code| && Reachable(code, i) ==> UndefDeadAt(code, live, i)
  }

  /** What the removal of redundant instructions relies on. */
  ghost predicate LiveTables(code: Code, stop: set<nat>, live: seq<set<nat>>) {
    ValidCode(code) && LiveSound(code, stop, live) && UndefsDead(code, live)
  }

  /** Exact definedness and the two invariants are enough for that. */
  lemma InvariantsSuffice(code: Code, start: set<nat>, stop: set<nat>,
                          top: set<nat>, def: seq<set<nat>>, live: seq<set<nat>>)
    requires Analysed(code, start, stop, top, def, live) && Invariants(code, stop, def)
    ensures LiveTables(code, stop, live)
  {
    forall i: nat | i < |code| && Reachable(code, i)
      ensures UndefDeadAt(code, live, i)
    {
      if code[i].kind == Plain {
        UndefIsDead(code, start, stop, top, def, live, i, i + 1);
      }
    }
  }

  // ----- Removing one instruction -----

  function Cut(code: Code, i: nat): Code
    requires i < |code|
  {
    code[..i] + code[i + 1..]
  }

  /** Where index k of the code is found after instruction i is gone, and back. */
  function Down(i: nat, k: nat): nat { if k <= i then k else k - 1 }
  function Up(i: nat, k: nat): nat { if k < i then k else k + 1 }

  lemma DestCut(code: Code, i: nat, name: nat)
    requires i < |code| && Dest(code, name) != i
    ensures Dest(Cut(code, i), name) == Down(i, Dest(code, name))
  {
    var d := Dest(code, name);
    var c := Cut(code, i);
    assert forall k :: 0 <= k < |c| ==> c[k] == code[Up(i, k)];
    DestUnique(c, name, Down(i, d));
  }

  /** The instruction is plain, or control never reaches it. */
  ghost predicate CanCut(code: Code, i: nat) {
    i < |code| && (code[i].kind == Plain || !Reachable(code, i))
  }

  lemma CutIndex(code: Code, i: nat, j: nat)
    requires i < |code| && j < |code| && j != i
    ensures |Cut(code, i)| == |code| - 1 && Down(i, j) < |Cut(code, i)| && Cut(code, i)[Down(i, j)] == code[j]
  {
  }

  /** Control flow from a reachable instruction that stays is the same up to renumbering. */
  lemma NextCut(code: Code, i: nat, j: nat)
    requires CanCut(code, i) && j < |code| && j != i && Reachable(code, j)
    ensures Down(i, j) < |Cut(code, i)| && Cut(code, i)[Down(i, j)] == code[j]
    ensures |Next(Cut(code, i), Down(i, j))| == |Next(code, j)|
    ensures forall k :: 0 <= k < |Next(code, j)| ==> Next(Cut(code, i), Down(i, j))[k] == Down(i, Next(code, j)[k])
  {
    CutIndex(code, i, j);
    hide Cut, Reachable, Dest;
    match code[j].kind
    case Jump(l) =>
      ReachableNext(code, j, Dest(code, l));
      DestCut(code, i, l);
    case CondJump(l) =>
      ReachableNext(code, j, Dest(code, l));
      DestCut(code, i, l);
    case _ =>
  }

  lemma {:induction false} WalkDown(code: Code, i: nat, w: seq<nat>, m: nat)
    requires CanCut(code, i) && IsWalk(Flow(code), w) && w[0] == 0 && m < |w|
    ensures Reachable(code, w[m]) && Reachable(Cut(code, i), Down(i, w[m]))
  {
    if m == 0 {
      ReachableStart(code);
      ReachableStart(Cut(code, i));
    } else {
      WalkDown(code, i, w, m - 1);
      assert Flow(code).Edge(w[m - 1], w[m - 1 + 1]);
      ReachableNext(code, w[m - 1], w[m]);
      if w[m - 1] != i {
        NextCut(code, i, w[m - 1]);
        ReachableNext(Cut(code, i), Down(i, w[m - 1]), Down(i, w[m]));
      }
    }
  }

  lemma ReachableDown(code: Code, i: nat, k: nat)
    requires CanCut(code, i) && Reachable(code, k)
    ensures Reachable(Cut(code, i), Down(i, k))
  {
    var w :| WalkBetween(Flow(code), w, 0, k);
    WalkDown(code, i, w, |w| - 1);
  }

  /** After a step from j to k, the code without i is at the image of a reachable index other than i. */
  lemma UpDown(code: Code, i: nat, k: nat)
    requires CanCut(code, i) && Reachable(code, k)
    ensures Reachable(code, Up(i, Down(i, k))) && Up(i, Down(i, k)) == if k == i then i + 1 else k
  {
    if k == i {
      ReachableNext(code, i, i + 1);
    }
  }

  lemma {:induction false} WalkUp(code: Code, i: nat, w: seq<nat>, m: nat)
    requires CanCut(code, i) && IsWalk(Flow(Cut(code, i)), w) && w[0] == 0 && m < |w|
    ensures Reachable(code, Up(i, w[m]))
  {
    if m == 0 {
      ReachableStart(code);
      UpDown(code, i, 0);
    } else {
      WalkUp(code, i, w, m - 1);
      assert Flow(Cut(code, i)).Edge(w[m - 1], w[m - 1 + 1]);
      hide IsWalk, Reachable;
      StepUp(code, i, w[m - 1], w[m]);
    }
  }

  lemma StepUp(code: Code, i: nat, k: nat, next: nat)
    requires CanCut(code, i) && Flow(Cut(code, i)).Edge(k, next) && Reachable(code, Up(i, k))
    ensures Reachable(code, Up(i, next))
  {
    hide Reachable, Next;
    var j := Up(i, k);
    assert k < |Cut(code, i)| && next in Next(Cut(code, i), k);
    NextCut(code, i, j);
    hide Cut;
    var n :| 0 <= n < |Next(code, j)| && next == Down(i, Next(code, j)[n]);
    ReachableNext(code, j, Next(code, j)[n]);
    UpDown(code, i, Next(code, j)[n]);
  }

  lemma ReachableUp(code: Code, i: nat, k: nat)
    requires CanCut(code, i) && Reachable(Cut(code, i), k)
    ensures Reachable(code, Up(i, k))
  {
    var w :| WalkBetween(Flow(Cut(code, i)), w, 0, k);
    WalkUp(code, i, w, |w| - 1);
  }

  /** The test of remove_redundant: not control, no memory access, and nothing it may write is live
      afterwards. */
  predicate Redundant(code: Code, live: seq<set<nat>>, i: nat)
    requires |live| == |code| + 1 && i < |code|
  {
    code[i].kind == Plain && !code[i].deref && code[i].write * live[i + 1] == {}
  }

  /** What is live after a redundant instruction was live before it, and is not touched by it. */
  lemma RedundantKeeps(code: Code, stop: set<nat>, live: seq<set<nat>>, i: nat)
    requires LiveTables(code, stop, live) && i < |code| && Reachable(code, i) && Redundant(code, live, i)
    ensures live[i + 1] <= live[i] && live[i + 1] !! code[i].write && live[i + 1] !! code[i].undef
  {
    assert LiveBefore(code[i], live[i + 1]) <= live[i];
    assert code[i].Valid() && UndefDeadAt(code, live, i);
    forall r | r in live[i + 1]
      ensures r !in code[i].write
    {
      assert r !in code[i].write * live[i + 1];
    }
  }

  /** A solution carried over to the shorter code. */
  ghost function Carried(code: Code, i: nat, x: seq<set<nat>>): (y: seq<set<nat>>)
    requires i < |code| && |x| == |code| + 1
    ensures |y| == |Cut(code, i)| + 1 && forall k :: 0 <= k < |y| ==> y[k] == x[Up(i, k)]
  {
    seq(|code|, k requires 0 <= k < |code| => x[Up(i, k)])
  }

  /** x flows into the successors, also through the removed instruction. */
  ghost predicate FlowsPast(code: Code, i: nat, x: seq<set<nat>>)
    requires i < |code| && |x| == |code| + 1
  {
    && (Reachable(code, i) ==> code[i].kind == Plain && x[i + 1] <= x[i])
    && forall j, k :: 0 <= j < |code| && j != i && Reachable(code, j) && k in Next(code, j) ==>
         x[k] <= DefAfter(code[j], x[j])
  }

  lemma CarriedSound(code: Code, start: set<nat>, i: nat, x: seq<set<nat>>)
    requires i < |code| && |x| == |code| + 1 && FlowsPast(code, i, x) && x[0] <= start
    ensures CanCut(code, i) && DefSound(Cut(code, i), start, Carried(code, i, x))
  {
    var c, y := Cut(code, i), Carried(code, i, x);
    ReachableStart(code);
    forall j': nat, k' | j' < |c| && Reachable(c, j') && k' in Next(c, j')
      ensures y[k'] <= DefAfter(c[j'], y[j'])
    {
      CarriedStep(code, i, x, j', k');
    }
  }

  lemma CarriedStep(code: Code, i: nat, x: seq<set<nat>>, j': nat, k': nat)
    requires i < |code| && |x| == |code| + 1 && FlowsPast(code, i, x)
    requires j' < |Cut(code, i)| && Reachable(Cut(code, i), j') && k' in Next(Cut(code, i), j')
    ensures x[Up(i, k')] <= DefAfter(Cut(code, i)[j'], x[Up(i, j')])
  {
    hide Reachable, Next, DefAfter;
    ReachableUp(code, i, j');
    var j := Up(i, j');
    NextCut(code, i, j);
    var n :| 0 <= n < |Next(code, j)| && k' == Down(i, Next(code, j)[n]);
    var k := Next(code, j)[n];
    ReachableNext(code, j, k);
    UpDown(code, i, k);
    assert x[k] <= DefAfter(code[j], x[j]);
  }

  lemma LiveFlowsPast(code: Code, start: set<nat>, stop: set<nat>, top: set<nat>,
                      def: seq<set<nat>>, live: seq<set<nat>>, i: nat)
    requires Analysed(code, start, stop, top, def, live) && Invariants(code, stop, def)
    requires i < |code| && Reachable(code, i) && Redundant(code, live, i)
    ensures FlowsPast(code, i, live) && live[0] <= start
  {
    InvariantsSuffice(code, start, stop, top, def, live);
    RedundantKeeps(code, stop, live, i);
    ReachableStart(code);
    LiveIsDefined(code, start, stop, top, def, live, 0);
    forall j, k | 0 <= j < |code| && j != i && Reachable(code, j) && k in Next(code, j)
      ensures live[k] <= DefAfter(code[j], live[j])
    {
      UndefIsDead(code, start, stop, top, def, live, j, k);
    }
  }

  lemma LiveReads(code: Code, stop: set<nat>, live: seq<set<nat>>, i: nat)
    requires LiveSound(code, stop, live) && i < |code| && Reachable(code, i)
    ensures code[i].read <= live[i]
  {
    var k := Next(code, i)[0];
    assert LiveBefore(code[i], live[k]) <= live[i];
  }

  /** If what was live before the removal is still defined after it, the invariants hold again. */
  lemma InvariantsFromLive(code: Code, stop: set<nat>, live: seq<set<nat>>, i: nat, def': seq<set<nat>>)
    requires CanCut(code, i) && LiveSound(code, stop, live) && |def'| == |code|
    requires forall k :: 0 <= k < |code| && Reachable(Cut(code, i), k) ==> live[Up(i, k)] <= def'[k]
    ensures Invariants(Cut(code, i), stop, def')
  {
    var c := Cut(code, i);
    forall k | 0 <= k < |c| && Reachable(c, k)
      ensures c[k].read <= def'[k]
    {
      ReachableUp(code, i, k);
      LiveReads(code, stop, live, Up(i, k));
      assert c[k] == code[Up(i, k)];
    }
  }

  /** Removing a redundant instruction keeps both invariants. */
  lemma RedundantInvariants(code: Code, start: set<nat>, stop: set<nat>, top: set<nat>,
                            def: seq<set<nat>>, live: seq<set<nat>>, i: nat, def': seq<set<nat>>)
    requires Analysed(code, start, stop, top, def, live) && Invariants(code, stop, def)
    requires i < |code| && Reachable(code, i) && Redundant(code, live, i)
    requires |def'| == |code| && DefBest(Cut(code, i), start, top, def')
    ensures Invariants(Cut(code, i), stop, def')
  {
    LiveFlowsPast(code, start, stop, top, def, live, i);
    CarriedSound(code, start, i, live);
    assert Within(Carried(code, i, live), top);
    InvariantsFromLive(code, stop, live, i, def');
  }

  /** Removing an unreachable instruction keeps them too. */
  lemma UnreachableInvariants(code: Code, start: set<nat>, stop: set<nat>, top: set<nat>,
                              def: seq<set<nat>>, live: seq<set<nat>>, i: nat, def': seq<set<nat>>)
    requires Analysed(code, start, stop, top, def, live) && Invariants(code, stop, def)
    requires i < |code| && !Reachable(code, i)
    requires |def'| == |code| && DefBest(Cut(code, i), start, top, def')
    ensures Invariants(Cut(code, i), stop, def')
  {
    ReachableStart(code);
    LiveIsDefined(code, start, stop, top, def, live, 0);
    forall j, k | 0 <= j < |code| && j != i && Reachable(code, j) && k in Next(code, j)
      ensures live[k] <= DefAfter(code[j], live[j])
    {
      UndefIsDead(code, start, stop, top, def, live, j, k);
    }
    CarriedSound(code, start, i, live);
    assert Within(Carried(code, i, live), top);
    InvariantsFromLive(code, stop, live, i, def');
  }

  /** What is live after step j of the shorter code was live there before. */
  lemma CarriedLiveStep(code: Code, stop: set<nat>, live: seq<set<nat>>, i: nat, j': nat, k': nat)
    requires LiveTables(code, stop, live) && i < |code| && (Reachable(code, i) ==> Redundant(code, live, i))
    requires j' < |Cut(code, i)| && Reachable(Cut(code, i), j') && k' in Next(Cut(code, i), j')
    ensures LiveBefore(Cut(code, i)[j'], live[Up(i, k')]) <= live[Up(i, j')]
    ensures Cut(code, i)[j'].kind == Plain && !Cut(code, i)[j'].deref ==> live[Up(i, k')] !! Cut(code, i)[j'].undef
  {
    hide Reachable, Next;
    ReachableUp(code, i, j');
    var j := Up(i, j');
    NextCut(code, i, j);
    var n :| 0 <= n < |Next(code, j)| && k' == Down(i, Next(code, j)[n]);
    var k := Next(code, j)[n];
    ReachableNext(code, j, k);
    UpDown(code, i, k);
    assert LiveBefore(code[j], live[k]) <= live[j] && UndefDeadAt(code, live, j);
    assert code[j].kind == Plain ==> k == j + 1 by {
      PlainNext(code, j, k);
    }
    if k == i {
      RedundantKeeps(code, stop, live, i);
    }
  }

  lemma NextOfPlain(code: Code, j: nat)
    requires j < |code| && code[j].kind == Plain
    ensures Next(code, j) == [j + 1]
  {
  }

  lemma PlainNext(code: Code, j: nat, k: nat)
    requires j < |code| && k in Next(code, j)
    ensures code[j].kind == Plain ==> k == j + 1
  {
  }

  /** Nothing such an instruction may undefine is live after it in the shorter code either. */
  lemma UndefsDeadCut(code: Code, stop: set<nat>, live: seq<set<nat>>, i: nat, live': seq<set<nat>>)
    requires LiveTables(code, stop, live) && i < |code| && (Reachable(code, i) ==> Redundant(code, live, i))
    requires |live'| == |code| && LiveSound(Cut(code, i), stop, live') && LiveBest(Cut(code, i), stop, live')
    ensures LiveTables(Cut(code, i), stop, live')
  {
    hide Reachable, Next, LiveBefore;
    var c, y := Cut(code, i), Carried(code, i, live);
    forall j: nat, k | j < |c| && Reachable(c, j) && k in Next(c, j)
      ensures LiveBefore(c[j], y[k]) <= y[j]
    {
      CarriedLiveStep(code, stop, live, i, j, k);
    }
    assert LiveSound(c, stop, y);
    forall j: nat | j < |c| && Reachable(c, j)
      ensures UndefDeadAt(c, live', j)
    {
      if c[j].kind == Plain && !c[j].deref {
        NextOfPlain(c, j);
        CarriedLiveStep(code, stop, live, i, j, j + 1);
        ReachableNext(c, j, j + 1);
        assert live'[j + 1] <= y[j + 1];
      }
    }
  }

  // ----- What goes wrong otherwise -----

  /** Undefines register 7, then perhaps writes it. */
  function BlurredCode(): Code {
    [Instr(0, Plain, false, {}, {}, {}, {7}, {7}), Instr(1, Plain, false, {}, {7}, {}, {}, {})]
  }

  /** Registers that must be written or undefined become zero, all others stay. */
  ghost function Zeroing(): Semantics<()> {
    Semantics((i: Instr, s: State<()>, t: State<()>) => i.Valid() && Zeroed(i, s, t), (i: Instr, s: State<()>) => false)
  }

  ghost predicate Zeroed(i: Instr, s: State<()>, t: State<()>) {
    forall r: nat :: t.regs(r) == if r in i.mustWrite || r in i.mustUndef then 0 else s.regs(r)
  }

  lemma ZeroingStep(i: Instr, s: State<()>, t: State<()>, s': State<()>) returns (t': State<()>)
    requires Zeroing().step(i, s, s')
    ensures Zeroing().step(i, t, t') && Zeroing().SameOutcome(i, s, t, s', t')
  {
    t' := State((r: nat) => if r in i.mustWrite || r in i.mustUndef then 0 else t.regs(r), ());
  }

  lemma ZeroingFrame()
    ensures Zeroing().Frame()
    ensures forall i: Instr, s: State<()> :: !Zeroing().cond(i, s)
  {
  }

  lemma ZeroingValid()
    ensures Zeroing().Valid()
  {
    var sem := Zeroing();
    ZeroingFrame();
    hide Semantics.SameOutcome, Semantics.Frame, Zeroing, Agree;
    forall i: Instr, s: State<()>, t: State<()>, s': State<()> |
      Agree(s, t, i.read) && s.mem == t.mem && sem.step(i, s, s')
      ensures exists t' :: sem.step(i, t, t') && sem.SameOutcome(i, s, t, s', t')
    {
      var t' := ZeroingStep(i, s, t, s');
    }
  }

  lemma BlurredFlow()
    ensures var code := BlurredCode();
            && Next(code, 0) == [1] && Next(code, 1) == [2]
            && Reachable(code, 0) && Reachable(code, 1) && Reachable(code, 2)
  {
    var code := BlurredCode();
    assert Next(code, 0) == [1] && Next(code, 1) == [2];
    hide Reachable;
    ReachableStart(code);
    ReachableNext(code, 0, 1);
    ReachableNext(code, 1, 2);
  }

  lemma BlurredDefs(y: seq<set<nat>>)
    requires DefSound(BlurredCode(), {7}, y) && Within(y, {7})
    ensures |y| == 3 && y[0] <= {7} && y[1] <= {} && y[2] <= {7}
  {
    BlurredFlow();
    hide Reachable, Next;
    assert y[1] <= DefAfter(BlurredCode()[0], y[0]);
  }

  lemma BlurredLives(y: seq<set<nat>>)
    requires LiveSound(BlurredCode(), {7}, y)
    ensures |y| == 3 && {7} <= y[1] && {7} <= y[2]
  {
    BlurredFlow();
    hide Reachable, Next;
    assert LiveBefore(BlurredCode()[1], y[2]) <= y[1];
  }

  /** The tables of that code, with register 7 defined at the start and live at the end. */
  lemma BlurredDefBest()
    ensures ValidCode(BlurredCode()) && DefBest(BlurredCode(), {7}, {7}, [{7}, {}, {7}])
  {
    var code, def := BlurredCode(), [{7}, {}, {7}];
    hide Reachable, Next, DefSound, Within;
    forall y, i: nat | DefSound(code, {7}, y) && Within(y, {7}) && i <= |code|
      ensures y[i] <= def[i]
    {
      BlurredDefs(y);
      assert i == 0 || i == 1 || i == 2;
    }
  }

  lemma BlurredLiveBest()
    ensures LiveBest(BlurredCode(), {7}, [{}, {7}, {7}])
  {
    var code, live := BlurredCode(), [{}, {7}, {7}];
    hide Reachable, Next, LiveSound;
    forall y, i: nat | LiveSound(code, {7}, y) && i <= |code|
      ensures live[i] <= y[i]
    {
      BlurredLives(y);
      assert i == 0 || i == 1 || i == 2;
    }
  }

  lemma BlurredInvariants()
    ensures Invariants(BlurredCode(), {7}, [{7}, {}, {7}])
  {
    hide Reachable;
  }

  lemma BlurredLiveSound()
    ensures LiveSound(BlurredCode(), {7}, [{}, {7}, {7}])
  {
    BlurredFlow();
    hide Reachable, Next;
  }

  /** The definedness table, computed from the block summary, satisfies both invariants, and the first
      instruction counts as redundant; yet removing it changes what the code leaves in register 7. */
  lemma BlurredRemoval()
    ensures var code := BlurredCode();
            && DefBest(code, {7}, {7}, [{7}, {}, {7}]) && Invariants(code, {7}, [{7}, {}, {7}])
            && LiveSound(code, {7}, [{}, {7}, {7}]) && LiveBest(code, {7}, [{}, {7}, {7}])
            && Redundant(code, [{}, {7}, {7}], 0) && !UndefsDead(code, [{}, {7}, {7}])
            && Zeroing().Valid() && !Preserves(Zeroing(), code, Cut(code, 0), {7})
  {
    var code, live := BlurredCode(), [{}, {7}, {7}];
    BlurredDefBest();
    BlurredLiveBest();
    BlurredInvariants();
    BlurredLiveSound();
    ZeroingValid();
    BlurredFlow();
    assert live[1] == {7} == code[0].undef && !UndefDeadAt(code, live, 0);
    hide DefBest, LiveBest, LiveSound, Invariants, Semantics.Valid, Reachable;
    BlurredRuns();
  }

  lemma BlurredRun(s: State<()>) returns (f: State<()>)
    ensures f.regs(7) == 0 && Zeroing().Runs(BlurredCode(), 0, s, 2, f)
  {
    var sem, code := Zeroing(), BlurredCode();
    BlurredFlow();
    hide Reachable, Next;
    f := State((r: nat) => if r == 7 then 0 else s.regs(r), ());
    assert code[0].Valid() && Zeroed(code[0], s, f) && sem.step(code[0], s, f);
    assert code[1].Valid() && Zeroed(code[1], f, f) && sem.step(code[1], f, f);
    hide Zeroing;
    assert sem.Runs(code, 2, f, 0, f);
    assert sem.Runs(code, 1, f, 1, f);
    assert sem.Runs(code, 0, s, 2, f);
  }

  lemma BlurredRuns()
    ensures !Preserves(Zeroing(), BlurredCode(), Cut(BlurredCode(), 0), {7})
  {
    var sem, code := Zeroing(), BlurredCode();
    var c := Cut(code, 0);
    var s := State((r: nat) => 5, ());
    var f := BlurredRun(s);
    forall k: nat, f': State<()> | sem.Runs(c, 0, s, k, f')
      ensures f'.regs(7) == 5
    {
      var m := RunsStep(sem, c, 0, s, k, f');
    }
  }

  /** Undefines register 7, then reads it for ever. */
  function EndlessCode(): Code {
    [Instr(0, Plain, false, {}, {}, {}, {7}, {7}), Instr(1, LabelDefn(0), false, {}, {}, {}, {}, {}),
     Instr(2, Jump(0), false, {7}, {}, {}, {}, {})]
  }

  lemma EndlessFlow()
    ensures var code := EndlessCode();
            && Next(code, 0) == [1] && Next(code, 1) == [2] && Next(code, 2) == [1]
            && Next(Cut(code, 0), 0) == [1] && Next(Cut(code, 0), 1) == [0]
    ensures Reachable(EndlessCode(), 0) && Reachable(EndlessCode(), 1) && Reachable(EndlessCode(), 2)
  {
    var code := EndlessCode();
    var c := Cut(code, 0);
    assert c == [code[1], code[2]];
    DestUnique(code, 0, 1);
    DestUnique(c, 0, 0);
    hide Reachable;
    ReachableStart(code);
    ReachableNext(code, 0, 1);
    ReachableNext(code, 1, 2);
  }

  lemma {:induction false} EndlessRuns<M(!new)>(sem: Semantics<M>, pc: nat, s: State<M>, k: nat, f: State<M>)
    requires pc < 3
    ensures !sem.Runs(EndlessCode(), pc, s, k, f)
    ensures pc < 2 ==> !sem.Runs(Cut(EndlessCode(), 0), pc, s, k, f)
    decreases k
  {
    EndlessFlow();
    hide Next, Reachable;
    var code, c := EndlessCode(), Cut(EndlessCode(), 0);
    if sem.Runs(code, pc, s, k, f) {
      var s' := RunsStep(sem, code, pc, s, k, f);
      EndlessRuns(sem, sem.NextPc(code, pc, s), s', k - 1, f);
      assert false;
    }
    if pc < 2 && sem.Runs(c, pc, s, k, f) {
      var s' := RunsStep(sem, c, pc, s, k, f);
      EndlessRuns(sem, sem.NextPc(c, pc, s), s', k - 1, f);
      assert false;
    }
  }

  lemma EndlessLiveSound()
    ensures LiveSound(EndlessCode(), {}, [{}, {7}, {7}, {}])
  {
    EndlessFlow();
    hide Reachable, Next;
  }

  lemma EndlessLives(y: seq<set<nat>>)
    requires LiveSound(EndlessCode(), {}, y)
    ensures |y| == 4 && 7 in y[1] && 7 in y[2]
  {
    EndlessFlow();
    hide Reachable, Next;
    assert LiveBefore(EndlessCode()[2], y[1]) <= y[2];
    assert LiveBefore(EndlessCode()[1], y[2]) <= y[1];
  }

  lemma EndlessLiveBest()
    ensures LiveBest(EndlessCode(), {}, [{}, {7}, {7}, {}])
  {
    var code, live := EndlessCode(), [{}, {7}, {7}, {}];
    hide Reachable, Next, LiveSound;
    forall y, i: nat | LiveSound(code, {}, y) && i <= |code|
      ensures live[i] <= y[i]
    {
      EndlessLives(y);
      assert i == 0 || i == 1 || i == 2 || i == 3;
    }
  }

  /** The condition is not necessary: here the register is live only on a path that never ends, and the
      removal preserves meaning under every semantics. */
  lemma EndlessRemoval<M(!new)>(sem: Semantics<M>)
    ensures var code, live := EndlessCode(), [{}, {7}, {7}, {}];
            && LiveSound(code, {}, live) && LiveBest(code, {}, live)
            && Redundant(code, live, 0) && !UndefsDead(code, live)
            && Preserves(sem, code, Cut(code, 0), {}) && Preserves(sem, Cut(code, 0), code, {})
  {
    var code, live := EndlessCode(), [{}, {7}, {7}, {}];
    EndlessLiveSound();
    EndlessLiveBest();
    EndlessFlow();
    assert !UndefDeadAt(code, live, 0);
    hide LiveSound, LiveBest, Next, Reachable, Cut, Semantics.Runs;
    forall s: State<M>, k: nat, f: State<M>
      ensures !sem.Runs(code, 0, s, k, f) && !sem.Runs(Cut(code, 0), 0, s, k, f)
    {
      EndlessRuns(sem, 0, s, k, f);
    }
  }

  // ----- The simulation -----

  /** Every terminating run of a is matched by one of b that ends with the same memory and the same
      live-out registers. */
  ghost predicate Preserves<M(!new)>(sem: Semantics<M>, a: Code, b: Code, stop: set<nat>) {
    forall s: State<M>, k: nat, f: State<M> :: sem.Runs(a, 0, s, k, f) ==>
      exists k': nat, f': State<M> :: sem.Runs(b, 0, s, k', f') && f'.mem == f.mem && Agree(f', f, stop)
  }

  ghost predicate Matched<M(!new)>(sem: Semantics<M>, b: Code, pc: nat, t: State<M>, f: State<M>, stop: set<nat>) {
    exists k': nat, f': State<M> :: sem.Runs(b, pc, t, k', f') && f'.mem == f.mem && Agree(f', f, stop)
  }

  lemma LocalStep<M(!new)>(sem: Semantics<M>, ins: Instr, s: State<M>, s': State<M>, t: State<M>) returns (t': State<M>)
    requires sem.Valid() && sem.step(ins, s, s') && s.mem == t.mem && Agree(s, t, ins.read)
    ensures sem.step(ins, t, t') && sem.SameOutcome(ins, s, t, s', t') && sem.cond(ins, s) == sem.cond(ins, t)
  {
    hide Semantics.SameOutcome, Agree;
    t' :| sem.step(ins, t, t') && sem.SameOutcome(ins, s, t, s', t');
  }

  lemma NextPcCut<M(!new)>(sem: Semantics<M>, code: Code, i: nat, pc: nat, s: State<M>, t: State<M>)
    requires CanCut(code, i) && pc < |code| && pc != i && Reachable(code, pc)
    requires sem.cond(code[pc], s) == sem.cond(code[pc], t)
    ensures var c := Cut(code, i); var pc' := Down(i, pc); var next := sem.NextPc(code, pc, s);
            && next in Next(code, pc) && Reachable(code, next) && next <= |code|
            && pc' < |c| && c[pc'] == code[pc] && sem.NextPc(c, pc', t) == Down(i, next)
  {
    hide Next, Cut, Down, Reachable;
    NextCut(code, i, pc);
    ReachableNext(code, pc, sem.NextPc(code, pc, s));
    ReachableBound(code, sem.NextPc(code, pc, s));
  }

  lemma OutcomeAgrees<M(!new)>(sem: Semantics<M>, ins: Instr, s: State<M>, s': State<M>,
                               t: State<M>, t': State<M>, before: set<nat>, after: set<nat>)
    requires sem.SameOutcome(ins, s, t, s', t') && LiveBefore(ins, after) <= before && Agree(t, s, before)
    ensures s'.mem == t'.mem && Agree(t', s', after)
  {
    forall r | r in after
      ensures t'.regs(r) == s'.regs(r)
    {
      if r !in ins.mustWrite && r !in ins.mustUndef {
        assert r in LiveBefore(ins, after);
      }
    }
  }

  /** One step of an instruction that stays, from states that agree on what is live. */
  lemma MatchStep<M(!new)>(sem: Semantics<M>, code: Code, stop: set<nat>, live: seq<set<nat>>,
                           i: nat, pc: nat, s: State<M>, s': State<M>, t: State<M>) returns (t': State<M>)
    requires sem.Valid() && CanCut(code, i) && LiveSound(code, stop, live)
    requires pc < |code| && pc != i && Reachable(code, pc)
    requires sem.step(code[pc], s, s') && s.mem == t.mem && Agree(t, s, live[pc])
    ensures var c := Cut(code, i); var pc' := Down(i, pc); var next := sem.NextPc(code, pc, s);
            && pc' < |c| && Reachable(code, next) && next <= |code|
            && sem.step(c[pc'], t, t') && sem.NextPc(c, pc', t) == Down(i, next)
            && s'.mem == t'.mem && Agree(t', s', live[next])
  {
    hide Next, Cut, Down, Reachable, Semantics.Valid, Semantics.SameOutcome, Semantics.NextPc, LiveBefore;
    LiveReads(code, stop, live, pc);
    t' := LocalStep(sem, code[pc], s, s', t);
    NextPcCut(sem, code, i, pc, s, t);
    var next := sem.NextPc(code, pc, s);
    OutcomeAgrees(sem, code[pc], s, s', t, t', live[pc], live[next]);
  }

  /** A step of a redundant instruction changes nothing that is live. */
  lemma SkipStep<M(!new)>(sem: Semantics<M>, code: Code, stop: set<nat>, live: seq<set<nat>>,
                          i: nat, s: State<M>, s': State<M>, t: State<M>)
    requires sem.Valid() && LiveTables(code, stop, live)
    requires i < |code| && Reachable(code, i) && Redundant(code, live, i)
    requires sem.step(code[i], s, s') && s.mem == t.mem && Agree(t, s, live[i])
    ensures sem.NextPc(code, i, s) == i + 1 && Reachable(code, i + 1)
    ensures s'.mem == t.mem && Agree(t, s', live[i + 1])
  {
    hide LiveTables, Agree, Reachable, Semantics.Valid;
    LiveShape(code, stop, live);
    RedundantKeeps(code, stop, live, i);
    ReachableNext(code, i, i + 1);
    FrameStep(sem, code[i], s, s', t, live[i], live[i + 1]);
  }

  lemma FrameStep<M(!new)>(sem: Semantics<M>, ins: Instr, s: State<M>, s': State<M>,
                           t: State<M>, before: set<nat>, after: set<nat>)
    requires sem.Valid() && sem.step(ins, s, s') && ins.kind == Plain && !ins.deref
    requires after <= before && after !! ins.write && after !! ins.undef
    requires s.mem == t.mem && Agree(t, s, before)
    ensures s'.mem == t.mem && Agree(t, s', after)
  {
  }

  lemma LiveShape(code: Code, stop: set<nat>, live: seq<set<nat>>)
    requires LiveTables(code, stop, live) || LiveSound(code, stop, live)
    ensures |live| == |code| + 1 && LiveSound(code, stop, live) && stop <= live[|code|]
  {
  }

  lemma RunsStep<M(!new)>(sem: Semantics<M>, code: Code, pc: nat, s: State<M>, k: nat, f: State<M>)
    returns (s': State<M>)
    requires pc < |code| && sem.Runs(code, pc, s, k, f)
    ensures k > 0 && sem.step(code[pc], s, s') && sem.Runs(code, sem.NextPc(code, pc, s), s', k - 1, f)
  {
    s' :| sem.step(code[pc], s, s') && sem.Runs(code, sem.NextPc(code, pc, s), s', k - 1, f);
  }

  lemma MatchedStep<M(!new)>(sem: Semantics<M>, c: Code, pc: nat, t: State<M>,
                             t': State<M>, f: State<M>, stop: set<nat>)
    requires pc < |c| && sem.step(c[pc], t, t') && Matched(sem, c, sem.NextPc(c, pc, t), t', f, stop)
    ensures Matched(sem, c, pc, t, f, stop)
  {
    var k': nat, f': State<M> :| sem.Runs(c, sem.NextPc(c, pc, t), t', k', f') && f'.mem == f.mem && Agree(f', f, stop);
    assert sem.Runs(c, pc, t, k' + 1, f');
  }

  lemma MatchedEnd<M(!new)>(sem: Semantics<M>, code: Code, c: Code, s: State<M>, k: nat,
                            f: State<M>, t: State<M>, stop: set<nat>, x: set<nat>)
    requires sem.Runs(code, |code|, s, k, f) && s.mem == t.mem && Agree(t, s, x) && stop <= x
    ensures Matched(sem, c, |c|, t, f, stop)
  {
    assert sem.Runs(c, |c|, t, 0, t);
  }

  lemma {:induction false} SimulateCut<M(!new)>(sem: Semantics<M>, code: Code, stop: set<nat>, live: seq<set<nat>>,
                                                i: nat, pc: nat, s: State<M>, k: nat, f: State<M>, t: State<M>)
    requires sem.Valid() && LiveTables(code, stop, live)
    requires i < |code| && (Reachable(code, i) ==> Redundant(code, live, i))
    requires Reachable(code, pc) && pc <= |code| && sem.Runs(code, pc, s, k, f)
    requires s.mem == t.mem && Agree(t, s, live[pc])
    ensures Matched(sem, Cut(code, i), Down(i, pc), t, f, stop)
    decreases k
  {
    hide LiveTables, Matched, Agree, Reachable, Semantics.Runs, Semantics.NextPc, Semantics.Valid;
    LiveShape(code, stop, live);
    var c := Cut(code, i);
    if pc == |code| {
      MatchedEnd(sem, code, c, s, k, f, t, stop, live[pc]);
    } else {
      var s' := RunsStep(sem, code, pc, s, k, f);
      if pc == i {
        SkipStep(sem, code, stop, live, i, s, s', t);
        SimulateCut(sem, code, stop, live, i, i + 1, s', k - 1, f, t);
      } else {
        var t' := MatchStep(sem, code, stop, live, i, pc, s, s', t);
        SimulateCut(sem, code, stop, live, i, sem.NextPc(code, pc, s), s', k - 1, f, t');
        MatchedStep(sem, c, Down(i, pc), t, t', f, stop);
      }
    }
  }

  /** One removal, of a redundant or an unreachable instruction, preserves meaning. */
  lemma CutPreserves<M(!new)>(sem: Semantics<M>, code: Code, stop: set<nat>, live: seq<set<nat>>, i: nat)
    requires sem.Valid() && LiveTables(code, stop, live)
    requires i < |code| && (Reachable(code, i) ==> Redundant(code, live, i))
    ensures Preserves(sem, code, Cut(code, i), stop)
  {
    ReachableStart(code);
    forall s: State<M>, k: nat, f: State<M> | sem.Runs(code, 0, s, k, f)
      ensures Matched(sem, Cut(code, i), 0, s, f, stop)
    {
      SimulateCut(sem, code, stop, live, i, 0, s, k, f, s);
    }
  }

  /** The other way round, a step of the shorter code is matched by the original. */
  lemma MatchBack<M(!new)>(sem: Semantics<M>, code: Code, stop: set<nat>, live: seq<set<nat>>,
                           i: nat, pc: nat, s: State<M>, t: State<M>, t': State<M>) returns (s': State<M>)
    requires sem.Valid() && CanCut(code, i) && LiveSound(code, stop, live)
    requires pc < |code| && pc != i && Reachable(code, pc) && Down(i, pc) < |Cut(code, i)|
    requires sem.step(Cut(code, i)[Down(i, pc)], t, t') && s.mem == t.mem && Agree(s, t, live[pc])
    ensures var next := sem.NextPc(code, pc, s);
            && Reachable(code, next) && next <= |code|
            && sem.step(code[pc], s, s') && sem.NextPc(Cut(code, i), Down(i, pc), t) == Down(i, next)
            && s'.mem == t'.mem && Agree(s', t', live[next])
  {
    hide Next, Cut, Down, Reachable, Semantics.Valid, Semantics.SameOutcome, Semantics.NextPc, LiveBefore, LiveSound;
    NextCut(code, i, pc);
    LiveShape(code, stop, live);
    LiveReads(code, stop, live, pc);
    s' := LocalStep(sem, code[pc], t, t', s);
    NextPcCut(sem, code, i, pc, s, t);
    LiveFlows(code, stop, live, pc, sem.NextPc(code, pc, s));
    OutcomeAgrees(sem, code[pc], t, t', s, s', live[pc], live[sem.NextPc(code, pc, s)]);
  }

  lemma LiveFlows(code: Code, stop: set<nat>, live: seq<set<nat>>, i: nat, k: nat)
    requires LiveSound(code, stop, live) && i < |code| && Reachable(code, i) && k in Next(code, i)
    ensures k <= |code| && LiveBefore(code[i], live[k]) <= live[i]
  {
  }

  lemma SkipBack<M(!new)>(sem: Semantics<M>, code: Code, stop: set<nat>,
                          live: seq<set<nat>>, i: nat, s: State<M>, t: State<M>)
                            returns (s': State<M>)
    requires sem.Valid() && sem.NoFaults() && LiveTables(code, stop, live)
    requires i < |code| && Reachable(code, i) && Redundant(code, live, i)
    requires s.mem == t.mem && Agree(s, t, live[i])
    ensures sem.step(code[i], s, s') && sem.NextPc(code, i, s) == i + 1 && Reachable(code, i + 1)
    ensures s'.mem == t.mem && Agree(s', t, live[i + 1])
  {
    hide LiveTables, Reachable, Semantics.Valid;
    LiveShape(code, stop, live);
    assert sem.CanStep(code[i], s);
    s' :| sem.step(code[i], s, s');
    hide Semantics.NoFaults;
    assert Agree(t, s, live[i]);
    SkipStep(sem, code, stop, live, i, s, s', t);
    assert Agree(s', t, live[i + 1]);
  }

  lemma {:induction false} SimulateBack<M(!new)>(sem: Semantics<M>, code: Code, stop: set<nat>, live: seq<set<nat>>,
                                                 i: nat, pc: nat, s: State<M>, t: State<M>, k: nat, f: State<M>)
    requires sem.Valid() && sem.NoFaults() && LiveTables(code, stop, live)
    requires i < |code| && (Reachable(code, i) ==> Redundant(code, live, i))
    requires Reachable(code, pc) && pc <= |code| && sem.Runs(Cut(code, i), Down(i, pc), t, k, f)
    requires s.mem == t.mem && Agree(s, t, live[pc])
    ensures Matched(sem, code, pc, s, f, stop)
    decreases k, pc == i
  {
    hide LiveTables, Matched, Agree, Reachable, Semantics.Runs, Semantics.NextPc, Semantics.Valid,
      Semantics.NoFaults;
    LiveShape(code, stop, live);
    var c := Cut(code, i);
    if pc == |code| {
      MatchedEnd(sem, c, code, t, k, f, s, stop, live[pc]);
    } else if pc == i {
      var s' := SkipBack(sem, code, stop, live, i, s, t);
      SimulateBack(sem, code, stop, live, i, i + 1, s', t, k, f);
      MatchedStep(sem, code, pc, s, s', f, stop);
    } else {
      NextCut(code, i, pc);
      var t' := RunsStep(sem, c, Down(i, pc), t, k, f);
      var s' := MatchBack(sem, code, stop, live, i, pc, s, t, t');
      SimulateBack(sem, code, stop, live, i, sem.NextPc(code, pc, s), s', t', k - 1, f);
      MatchedStep(sem, code, pc, s, s', f, stop);
    }
  }

  /** Nor does a removal add behaviour, as long as the removed instruction could not have faulted. */
  lemma CutReflects<M(!new)>(sem: Semantics<M>, code: Code, stop: set<nat>, live: seq<set<nat>>, i: nat)
    requires sem.Valid() && sem.NoFaults() && LiveTables(code, stop, live)
    requires i < |code| && (Reachable(code, i) ==> Redundant(code, live, i))
    ensures Preserves(sem, Cut(code, i), code, stop)
  {
    ReachableStart(code);
    forall s: State<M>, k: nat, f: State<M> | sem.Runs(Cut(code, i), 0, s, k, f)
      ensures Matched(sem, code, 0, s, f, stop)
    {
      SimulateBack(sem, code, stop, live, i, 0, s, s, k, f);
    }
  }

  /** Without an unreachable instruction the code has the same runs, whatever the semantics. */
  lemma {:induction false} UnreachableRuns<M(!new)>(sem: Semantics<M>, code: Code, i: nat,
                                                    pc: nat, s: State<M>, k: nat, f: State<M>)
    requires i < |code| && !Reachable(code, i) && Reachable(code, pc) && pc <= |code|
    ensures sem.Runs(code, pc, s, k, f) <==> sem.Runs(Cut(code, i), Down(i, pc), s, k, f)
    decreases k
  {
    var c := Cut(code, i);
    if pc < |code| && k > 0 {
      NextPcCut(sem, code, i, pc, s, s);
      var next := sem.NextPc(code, pc, s);
      var n: nat, next' := k - 1, Down(i, next);
      forall s': State<M>
        ensures sem.Runs(code, next, s', n, f) <==> sem.Runs(c, next', s', n, f)
      {
        UnreachableRuns(sem, code, i, next, s', n, f);
      }
      hide Reachable, Cut, Down, Semantics.NextPc;
      RunsUnfold(sem, code, pc, s, k, f);
      RunsUnfold(sem, c, Down(i, pc), s, k, f);
    } else if pc < |code| {
      NextPcCut(sem, code, i, pc, s, s);
    }
  }

  lemma RunsUnfold<M(!new)>(sem: Semantics<M>, code: Code, pc: nat, s: State<M>, k: nat, f: State<M>)
    requires pc < |code| && k > 0
    ensures sem.Runs(code, pc, s, k, f) <==>
            exists s': State<M> :: sem.step(code[pc], s, s') && sem.Runs(code, sem.NextPc(code, pc, s), s', k - 1, f)
  {
  }

  /** Removing it preserves meaning both ways, with no assumption on the analyses or the semantics. */
  lemma UnreachablePreserves<M(!new)>(sem: Semantics<M>, code: Code, i: nat, stop: set<nat>)
    requires i < |code| && !Reachable(code, i)
    ensures Preserves(sem, code, Cut(code, i), stop) && Preserves(sem, Cut(code, i), code, stop)
  {
    ReachableStart(code);
    hide Reachable, Cut, Semantics.Runs;
    forall s: State<M>, k: nat, f: State<M>
      ensures sem.Runs(code, 0, s, k, f) <==> sem.Runs(Cut(code, i), 0, s, k, f)
    {
      UnreachableRuns(sem, code, i, 0, s, k, f);
    }
    SameRunsPreserve(sem, code, Cut(code, i), stop);
    SameRunsPreserve(sem, Cut(code, i), code, stop);
  }

  lemma SameRunsPreserve<M(!new)>(sem: Semantics<M>, a: Code, b: Code, stop: set<nat>)
    requires forall s: State<M>, k: nat, f: State<M> :: sem.Runs(a, 0, s, k, f) ==> sem.Runs(b, 0, s, k, f)
    ensures Preserves(sem, a, b, stop)
  {
    forall s: State<M>, k: nat, f: State<M> | sem.Runs(a, 0, s, k, f)
      ensures Matched(sem, b, 0, s, f, stop)
    {
      assert sem.Runs(b, 0, s, k, f) && Agree(f, f, stop);
    }
  }

  lemma PreservesTrans<M(!new)>(sem: Semantics<M>, a: Code, b: Code, c: Code, stop: set<nat>)
    requires Preserves(sem, a, b, stop) && Preserves(sem, b, c, stop)
    ensures Preserves(sem, a, c, stop)
  {
    forall s: State<M>, k: nat, f: State<M> | sem.Runs(a, 0, s, k, f)
      ensures Matched(sem, c, 0, s, f, stop)
    {
      var k1, f1 :| sem.Runs(b, 0, s, k1, f1) && f1.mem == f.mem && Agree(f1, f, stop);
      var k2, f2 :| sem.Runs(c, 0, s, k2, f2) && f2.mem == f1.mem && Agree(f2, f1, stop);
    }
  }

  lemma PreservesSelf<M(!new)>(sem: Semantics<M>, a: Code, stop: set<nat>)
    ensures Preserves(sem, a, a, stop)
  {
    forall s: State<M>, k: nat, f: State<M> | sem.Runs(a, 0, s, k, f)
      ensures Matched(sem, a, 0, s, f, stop)
    {
      assert Agree(f, f, stop);
    }
  }
}
