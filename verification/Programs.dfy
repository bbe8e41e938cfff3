/** Code as the CFG sees it: abstract instructions with their register sets, control flow between
    instruction indices, and a small-step semantics constrained by those sets. */
module Programs {
  import opened Graph

  datatype Kind = Plain | LabelDefn(name: nat) | Jump(name: nat) | CondJump(name: nat) | Return | Call

  /** `read`, `write` and `undef` are the maybe-sets; a call falls through. */
  datatype Instr = Instr(id: nat, kind: Kind, deref: bool, read: set<nat>, write: set<nat>, mustWrite: set<nat>,
                         undef: set<nat>, mustUndef: set<nat>) {
    ghost predicate Valid() { mustWrite <= write && mustUndef <= undef }

    /** Instructions that end a block. */
    predicate EndsBlock() { kind.Jump? || kind.CondJump? || kind.Return? }
  }

  type Code = seq<Instr>

  ghost predicate ValidCode(code: Code) { forall i :: 0 <= i < |code| ==> code[i].Valid() }

  /** The last definition of a label among the first n instructions, or the end of the code. */
  function DestBefore(code: Code, name: nat, n: nat): (d: nat)
    requires n <= |code|
    ensures d < n || d == |code|
    ensures d < |code| ==> code[d].kind == LabelDefn(name)
    ensures forall i :: (if d < |code| then d else -1) < i < n ==> code[i].kind != LabelDefn(name)
  {
    if n == 0 then |code|
    else if code[n - 1].kind == LabelDefn(name) then n - 1
    else DestBefore(code, name, n - 1)
  }

  /** Where a jump goes; a missing label leads to the exit. */
  function Dest(code: Code, name: nat): nat { DestBefore(code, name, |code|) }

  /** The only index with the properties of a destination. */
  lemma DestUnique(code: Code, name: nat, d: nat)
    requires d <= |code| && (d < |code| ==> code[d].kind == LabelDefn(name))
    requires forall i :: (if d < |code| then d else -1) < i < |code| ==> code[i].kind != LabelDefn(name)
    ensures Dest(code, name) == d
  {
  }

  /** The instruction indices control can pass to; |code| is the exit. */
  function Next(code: Code, i: nat): (r: seq<nat>)
    requires i < |code|
    ensures |r| > 0 && forall k :: 0 <= k < |r| ==> r[k] <= |code|
  {
    match code[i].kind
    case Return => [|code|]
    case Jump(l) => [Dest(code, l)]
    case CondJump(l) => [i + 1, Dest(code, l)]
    case _ => [i + 1]
  }

  /** The flow graph over instruction indices. */
  function Flow(code: Code): (g: Cfg)
    ensures g.Size() == |code| + 1 && g.Valid()
  {
    Cfg(seq(|code| + 1, i requires 0 <= i <= |code| => if i < |code| then Next(code, i) else []),
      seq(|code| + 1, i => 1))
  }

  ghost predicate Reachable(code: Code, i: nat) { Reach(Flow(code), 0, i) }

  lemma ReachableStart(code: Code)
    ensures Reachable(code, 0)
  {
    ReachSelf(Flow(code), 0);
  }

  lemma ReachableNext(code: Code, i: nat, k: nat)
    requires Reachable(code, i) && i < |code| && k in Next(code, i)
    ensures Reachable(code, k)
  {
    ReachEdge(Flow(code), i, k);
    ReachTrans(Flow(code), 0, i, k);
  }

  lemma ReachableBound(code: Code, i: nat)
    requires Reachable(code, i)
    ensures i <= |code|
  {
    var w :| WalkBetween(Flow(code), w, 0, i);
  }

  // ----- Meaning -----

  datatype State<M> = State(regs: nat -> int, mem: M)

  ghost predicate Agree<M>(s: State<M>, t: State<M>, rs: set<nat>) {
    forall r :: r in rs ==> s.regs(r) == t.regs(r)
  }

  /** Any semantics that respects the register sets; instructions may be nondeterministic. */
  datatype Semantics<!M(!new)> = Semantics(step: (Instr, State<M>, State<M>) -> bool, cond: (Instr, State<M>) -> bool) {

    /** Registers outside the maybe-sets are kept, and so is memory by plain instructions that do
        not dereference it. */
    ghost predicate Frame() {
      forall i: Instr, s: State<M>, s': State<M> :: step(i, s, s') ==>
        && (forall r :: r !in i.write && r !in i.undef ==> s'.regs(r) == s.regs(r))
        && (i.kind == Plain && !i.deref ==> s'.mem == s.mem)
    }

    /** s' and t' are the same outcome as far as s and t allow: on what is surely overwritten and
        on every register that was equal before. */
    ghost predicate SameOutcome(i: Instr, s: State<M>, t: State<M>, s': State<M>, t': State<M>) {
      && t'.mem == s'.mem
      && forall r :: r in i.mustWrite || r in i.mustUndef || s.regs(r) == t.regs(r) ==> t'.regs(r) == s'.regs(r)
    }

    /** Only memory and the registers that may be read matter. */
    ghost predicate Local() {
      && (forall i: Instr, s: State<M>, t: State<M> :: Agree(s, t, i.read) && s.mem == t.mem ==>
           cond(i, s) == cond(i, t))
      && (forall i: Instr, s: State<M>, t: State<M>, s': State<M> ::
           Agree(s, t, i.read) && s.mem == t.mem && step(i, s, s') ==>
            exists t' :: step(i, t, t') && SameOutcome(i, s, t, s', t'))
    }

    ghost predicate Valid() { Frame() && Local() }

    /** Plain instructions that do not touch memory never fault. */
    ghost predicate NoFaults() {
      forall i: Instr, s: State<M> :: i.kind == Plain && !i.deref ==> CanStep(i, s)
    }

    ghost predicate CanStep(i: Instr, s: State<M>) { exists s': State<M> :: step(i, s, s') }

    function NextPc(code: Code, pc: nat, s: State<M>): nat
      requires pc < |code|
    {
      var next := Next(code, pc);
      if |next| > 1 && cond(code[pc], s) then next[1] else next[0]
    }

    /** From pc in state s the code can run k instructions and stop at its end in state f. */
    ghost predicate Runs(code: Code, pc: nat, s: State<M>, k: nat, f: State<M>)
      decreases k
    {
      if pc >= |code| then k == 0 && f == s
      else k > 0 && exists s' :: step(code[pc], s, s') && Runs(code, NextPc(code, pc, s), s', k - 1, f)
    }
  }

  // ----- Definedness and liveness, instruction by instruction -----

  function DefAfter(i: Instr, x: set<nat>): set<nat> { x + i.mustWrite - i.undef }

  function LiveBefore(i: Instr, x: set<nat>): set<nat> { (x - i.mustWrite - i.mustUndef) + i.read }

  /** x[i] is defined before every reachable instruction i, whatever path led there. */
  ghost predicate DefSound(code: Code, start: set<nat>, x: seq<set<nat>>) {
    && |x| == |code| + 1 && x[0] <= start
    && forall i, k :: 0 <= i < |code| && Reachable(code, i) && k in Next(code, i) ==> x[k] <= DefAfter(code[i], x[i])
  }

  ghost predicate Within(x: seq<set<nat>>, top: set<nat>) { forall i :: 0 <= i < |x| ==> x[i] <= top }

  ghost predicate DefBest(code: Code, start: set<nat>, top: set<nat>, x: seq<set<nat>>)
    requires |x| == |code| + 1
  {
    forall y, i :: DefSound(code, start, y) && Within(y, top) && 0 <= i <= |code| && Reachable(code, i) ==> y[i] <= x[i]
  }

  /** x[i] holds every register some path from i may use. */
  ghost predicate LiveSound(code: Code, stop: set<nat>, x: seq<set<nat>>) {
    && |x| == |code| + 1 && stop <= x[|code|]
    && forall i, k :: 0 <= i < |code| && Reachable(code, i) && k in Next(code, i) ==> LiveBefore(code[i], x[k]) <= x[i]
  }

  ghost predicate LiveBest(code: Code, stop: set<nat>, x: seq<set<nat>>)
    requires |x| == |code| + 1
  {
    forall y, i :: LiveSound(code, stop, y) && 0 <= i <= |code| && Reachable(code, i) ==> x[i] <= y[i]
  }

  /** The two invariants on definedness: no undefined register is read, and the live-outs are
      defined at the end. */
  ghost predicate NoUndefReads(code: Code, def: seq<set<nat>>)
    requires |def| == |code| + 1
  {
    forall i :: 0 <= i < |code| && Reachable(code, i) ==> code[i].read <= def[i]
  }

  ghost predicate NoUndefLiveOuts(code: Code, stop: set<nat>, def: seq<set<nat>>)
    requires |def| == |code| + 1
  {
    Reachable(code, |code|) ==> stop <= def[|code|]
  }
}
