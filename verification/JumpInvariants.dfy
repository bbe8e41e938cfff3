/** When the assumptions the validator adds about branches are right (src/validator/ddec.cc,
    get_jump_inv, and src/validator/obligation_checker.cc, is_jump): an exact condition on the
    path, and two inequivalent programs that pass where the condition fails. */
module JumpInvariants {
  import opened Graph
  import opened Paths
  import opened Ddec
  import opened Simulation
  import opened Cutpoints

  /** The shape of the graphs built from code: only entry and exit are empty, the entry leads to
      block 1, and a block with two successors lists its fall-through first. */
  ghost predicate CodeGraph(g: Cfg, jcc: set<nat>) {
    && g.Valid() && 3 <= g.Size()
    && (forall b :: 0 <= b < g.Size() ==> (g.instrs[b] == 0 <==> b == 0 || b == g.Exit()))
    && g.succs[0] == [1]
    && (forall b :: 0 < b < g.Exit() ==> |g.succs[b]| == 1 || (|g.succs[b]| == 2 && g.succs[b][0] == b + 1))
    && (forall b :: !g.Edge(b, 0))
    && (forall b :: b in jcc ==> 0 < b < g.Exit() && |g.succs[b]| == 2)
  }

  ghost predicate CodeWalk(g: Cfg, jcc: set<nat>, w: seq<nat>) {
    CodeGraph(g, jcc) && IsWalk(g, w) && |w| > 1
  }

  /** The blocks the checker runs for w: all after the first, without a final exit. */
  function Steps(g: Cfg, w: seq<nat>): seq<nat>
    requires |w| > 1 && g.Size() > 0
  {
    if w[|w| - 1] == g.Exit() then w[1..|w| - 1] else w[1..]
  }

  lemma Inner(g: Cfg, jcc: set<nat>, w: seq<nat>, k: nat)
    requires CodeWalk(g, jcc, w) && k < |w|
    ensures 0 < k ==> w[k] != 0
    ensures k < |w| - 1 ==> w[k] != g.Exit() && g.Edge(w[k], w[k + 1])
  {
    if k < |w| - 1 {
      assert g.Edge(w[k], w[k + 1]);
    }
    if 0 < k {
      assert g.Edge(w[k - 1], w[k - 1 + 1]);
    }
  }

  lemma {:induction false} DropEmptyAll(g: Cfg, p: seq<nat>)
    requires g.Valid() && InRange(g, p) && forall k :: 0 <= k < |p| ==> g.instrs[p[k]] != 0
    ensures DropEmpty(g, p) == p
  {
    if p != [] {
      DropEmptyAll(g, p[1..]);
      assert p == [p[0]] + p[1..];
    }
  }

  lemma {:induction false} DropEmptyLast(g: Cfg, p: seq<nat>, e: nat)
    requires g.Valid() && InRange(g, p) && e < g.Size() && g.instrs[e] == 0
    requires forall k :: 0 <= k < |p| ==> g.instrs[p[k]] != 0
    ensures DropEmpty(g, p + [e]) == p
  {
    if p != [] {
      DropEmptyLast(g, p[1..], e);
      assert (p + [e])[1..] == p[1..] + [e];
      assert p == [p[0]] + p[1..];
    } else {
      assert (p + [e])[1..] == [];
    }
  }

  /** Empty blocks occur only at the ends of a walk. */
  lemma StepsNonEmpty(g: Cfg, jcc: set<nat>, w: seq<nat>)
    requires CodeWalk(g, jcc, w)
    ensures InRange(g, Steps(g, w)) && forall k :: 0 <= k < |Steps(g, w)| ==> g.instrs[Steps(g, w)[k]] != 0
  {
    var p := Steps(g, w);
    forall k | 0 <= k < |p|
      ensures p[k] < g.Size() && g.instrs[p[k]] != 0
    {
      Inner(g, jcc, w, k + 1);
      assert p[k] == w[k + 1];
    }
  }

  lemma DropEmptyTail(g: Cfg, jcc: set<nat>, w: seq<nat>)
    requires CodeWalk(g, jcc, w)
    ensures DropEmpty(g, w[1..]) == Steps(g, w)
  {
    StepsNonEmpty(g, jcc, w);
    var p := Steps(g, w);
    if w[|w| - 1] == g.Exit() {
      DropEmptyLast(g, p, g.Exit());
      assert w[1..] == p + [g.Exit()];
    } else {
      DropEmptyAll(g, p);
    }
  }

  lemma FirstEdge(g: Cfg, jcc: set<nat>, w: seq<nat>)
    requires CodeWalk(g, jcc, w)
    ensures NoEmptyPairs(g) && (g.instrs[w[0]] == 0 <==> w[0] == 0)
  {
    Inner(g, jcc, w, 0);
    assert 1 != g.Exit();
  }

  /** What is left of the walk when empty blocks are dropped. */
  lemma DropEmptySteps(g: Cfg, jcc: set<nat>, w: seq<nat>)
    requires CodeWalk(g, jcc, w)
    ensures NoEmptyPairs(g) && InRange(g, Steps(g, w))
    ensures DropEmpty(g, w) == (if w[0] == 0 then [] else [w[0]]) + Steps(g, w)
    ensures DropEmpty(g, w) != [] && Rest(g, w[0], DropEmpty(g, w)) == Steps(g, w)
  {
    StepsNonEmpty(g, jcc, w);
    DropEmptyTail(g, jcc, w);
    FirstEdge(g, jcc, w);
    DropEmptyNonEmpty(g, w);
    hide CodeGraph, NoEmptyPairs, Steps;
  }

  ghost predicate OnlyFall(g: Cfg, b: nat, c: nat)
    requires b < g.Size() && |g.succs[b]| == 2
  {
    g.succs[b][0] == c && g.succs[b][1] != c
  }

  ghost predicate OnlyJump(g: Cfg, b: nat, c: nat)
    requires b < g.Size() && |g.succs[b]| == 2
  {
    g.succs[b][1] == c && g.succs[b][0] != c
  }

  /** A flag-testing block inside the path must not have its fall-through as jump target too. */
  ghost predicate SafeInside(g: Cfg, jcc: set<nat>, w: seq<nat>)
    requires CodeWalk(g, jcc, w)
  {
    var p := Steps(g, w);
    forall i :: 0 <= i < |p| - 1 && p[i] in jcc ==> g.succs[p[i]][1] != p[i] + 1
  }

  /** A path of a single block out of a block with two successors: the checker applies the
      direction of the first jump to the block's own flag test. */
  ghost predicate SafeSingle(g: Cfg, jcc: set<nat>, w: seq<nat>)
    requires CodeWalk(g, jcc, w)
  {
    var p := Steps(g, w);
    |p| == 1 && |g.succs[w[0]]| == 2 && p[0] in jcc ==>
      |w| == 3 && (if p[0] == w[0] + 1 then OnlyFall(g, p[0], w[2]) else OnlyJump(g, p[0], w[2]))
  }

  /** The first jump: from the entry the test of the first block is assumed of the wrong state; a
      direct step to the exit is always taken for a jump. */
  ghost predicate SafeFirst(g: Cfg, jcc: set<nat>, w: seq<nat>)
    requires CodeWalk(g, jcc, w)
  {
    var p := Steps(g, w);
    if w[0] == 0 then |p| >= 2 ==> p[0] !in jcc
    else w[0] in jcc ==> if p == [] then OnlyJump(g, w[0], w[1]) else g.succs[w[0]][1] != w[0] + 1
  }

  ghost predicate Safe(g: Cfg, jcc: set<nat>, w: seq<nat>)
    requires CodeWalk(g, jcc, w)
  {
    SafeInside(g, jcc, w) && SafeSingle(g, jcc, w) && SafeFirst(g, jcc, w)
  }

  // ----- Safe paths are treated right -----

  lemma FollowsNext<S(!new)>(prog: Program<S>, w: seq<nat>, s: S)
    requires IsWalk(prog.g, w) && |w| > 1 && prog.Follows(w, s)
    ensures |prog.g.succs[w[0]]| > 0 && prog.Next(w[0], s) == w[1]
    ensures IsWalk(prog.g, w[1..]) && prog.Follows(w[1..], prog.body(w[1], s))
  {
    assert prog.g.Edge(w[0], w[1]);
    SubWalk(prog.g, w, 1, |w|);
    assert w[1..|w|] == w[1..];
  }

  /** The constraint on block i of the path holds in a run that follows the walk. */
  lemma SafeStep<S(!new)>(prog: Program<S>, w: seq<nat>, i: nat, s: S)
    requires prog.Valid() && CodeWalk(prog.g, prog.jcc, w) && Safe(prog.g, prog.jcc, w)
    requires i < |Steps(prog.g, w)| && InRange(prog.g, Steps(prog.g, w))
    requires IsWalk(prog.g, w[i + 1..]) && prog.Follows(w[i + 1..], s)
    ensures var p := Steps(prog.g, w);
            p[i] in prog.jcc ==>
              match IsJump(prog.g, w[0], p, i)
              case NoJump => true
              case FallThrough => !prog.taken(p[i], s)
              case Jump => prog.taken(p[i], s)
  {
    var p := Steps(prog.g, w);
    assert p[i] == w[i + 1];
    if p[i] in prog.jcc && i + 2 < |w| {
      FollowsNext(prog, w[i + 1..], s);
      assert w[i + 1..][0] == p[i] && w[i + 1..][1] == w[i + 2];
      assert prog.Next(p[i], s) == w[i + 2];
      hide CodeGraph, Program.Follows, IsWalk;
      assert i + 1 < |p| ==> p[i + 1] == w[i + 2];
    }
  }

  lemma {:induction false} SafeCircuit<S(!new)>(prog: Program<S>, w: seq<nat>, i: nat, s: S)
    requires prog.Valid() && CodeWalk(prog.g, prog.jcc, w) && Safe(prog.g, prog.jcc, w)
    requires i <= |Steps(prog.g, w)| && InRange(prog.g, Steps(prog.g, w))
    requires IsWalk(prog.g, w[i..]) && prog.Follows(w[i..], s)
    ensures CircuitHolds(prog, w[0], Steps(prog.g, w), i, s)
    decreases |w| - i
  {
    hide Safe, CodeGraph;
    var p := Steps(prog.g, w);
    if i < |p| {
      FollowsNext(prog, w[i..], s);
      assert w[i..][1..] == w[i + 1..] && w[i..][1] == p[i];
      SafeStep(prog, w, i, prog.body(p[i], s));
      SafeCircuit(prog, w, i + 1, prog.body(p[i], s));
    }
  }

  lemma SafeJumpInv<S(!new)>(prog: Program<S>, w: seq<nat>, s: S)
    requires prog.Valid() && CodeWalk(prog.g, prog.jcc, w) && Safe(prog.g, prog.jcc, w) && prog.Follows(w, s)
    requires InRange(prog.g, Steps(prog.g, w))
    ensures var p := (if w[0] == 0 then [] else [w[0]]) + Steps(prog.g, w);
            p != [] ==> InRange(prog.g, p) && JumpHolds(prog, GetJumpInv(prog.g, prog.jcc, w[0], p), s)
  {
    FollowsNext(prog, w, s);
    Inner(prog.g, prog.jcc, w, 0);
    Inner(prog.g, prog.jcc, w, 1);
  }

  /** On a safe path everything the checker assumes follows from the program taking the path. */
  lemma SafeIsFaithful<S(!new)>(prog: Program<S>, w: seq<nat>)
    requires prog.Valid() && CodeWalk(prog.g, prog.jcc, w) && Safe(prog.g, prog.jcc, w)
    ensures NoEmptyPairs(prog.g) && Faithful(prog, w)
  {
    hide Safe, CodeGraph;
    DropEmptySteps(prog.g, prog.jcc, w);
    DropEmptyNonEmpty(prog.g, w);
    var p := DropEmpty(prog.g, w);
    forall s | prog.Follows(w, s)
      ensures JumpHolds(prog, GetJumpInv(prog.g, prog.jcc, w[0], p), s)
      ensures CircuitHolds(prog, w[0], Rest(prog.g, w[0], p), 0, s)
    {
      assert w[0..] == w;
      SafeCircuit(prog, w, 0, s);
      SafeJumpInv(prog, w, s);
    }
  }

  // ----- Unsafe paths are not -----

  /** The condition under which the k-th step of w is a jump. */
  function Onward(g: Cfg, w: seq<nat>, b: nat, k: int): bool {
    b < g.Size() && |g.succs[b]| == 2 && 0 < k + 1 < |w| && g.succs[b][1] == w[k + 1]
  }

  /** A program that counts the blocks it has run and steers along w, except that the jump of
      block `at`, met with count `when`, goes the way `go`. */
  function Walker(g: Cfg, jcc: set<nat>, w: seq<nat>, at: nat, when: nat, go: bool): Program<int> {
    Program(g, jcc,
            (b: nat, k: int) => if b < |g.instrs| && g.instrs[b] == 0 then k else k + 1,
            (b: nat, k: int) => if b == at && k == when then go else Onward(g, w, b, k))
  }

  /** The exception does not lead away from w. */
  ghost predicate Harmless(g: Cfg, w: seq<nat>, at: nat, when: nat, go: bool) {
    when + 1 < |w| && w[when] == at && at < g.Size() && |g.succs[at]| == 2 ==>
      g.succs[at][if go then 1 else 0] == w[when + 1]
  }

  lemma WalkerValid(g: Cfg, jcc: set<nat>, w: seq<nat>, at: nat, when: nat, go: bool)
    requires CodeGraph(g, jcc)
    ensures Walker(g, jcc, w, at, when, go).Valid()
  {
  }

  lemma WalkerStep(g: Cfg, jcc: set<nat>, w: seq<nat>, at: nat, when: nat, go: bool, i: nat)
    requires CodeWalk(g, jcc, w) && Harmless(g, w, at, when, go) && i + 1 < |w|
    ensures w[i] < g.Size() && |g.succs[w[i]]| > 0
    ensures Walker(g, jcc, w, at, when, go).Next(w[i], i) == w[i + 1]
    ensures i + 2 < |w| ==> Walker(g, jcc, w, at, when, go).body(w[i + 1], i) == i + 1
  {
    Inner(g, jcc, w, i);
    Inner(g, jcc, w, i + 1);
  }

  lemma {:induction false} WalkerFollows(g: Cfg, jcc: set<nat>, w: seq<nat>, at: nat,
                                         when: nat, go: bool, i: nat, s: int)
    requires CodeWalk(g, jcc, w) && Harmless(g, w, at, when, go) && i < |w| && IsWalk(g, w[i..])
    requires i + 1 < |w| ==> s == i
    ensures Walker(g, jcc, w, at, when, go).Follows(w[i..], s)
    decreases |w| - i
  {
    hide CodeGraph, Harmless;
    if i + 1 < |w| {
      var prog := Walker(g, jcc, w, at, when, go);
      WalkerStep(g, jcc, w, at, when, go, i);
      SubWalk(g, w, i + 1, |w|);
      assert w[i + 1..|w|] == w[i + 1..] && w[i..][1..] == w[i + 1..] && w[i..][1] == w[i + 1] && w[i..][0] == w[i];
      WalkerFollows(g, jcc, w, at, when, go, i + 1, prog.body(w[i + 1], s));
    }
  }

  /** The circuit of a walker forces its i-th jump in the count i + 1. */
  lemma {:induction false} WalkerCircuit(g: Cfg, jcc: set<nat>, w: seq<nat>, at: nat,
                                         when: nat, go: bool, i: nat, j: nat)
    requires CodeWalk(g, jcc, w) && InRange(g, Steps(g, w)) && j <= i < |Steps(g, w)| && Steps(g, w)[i] in jcc
    requires CircuitHolds(Walker(g, jcc, w, at, when, go), w[0], Steps(g, w), j, j)
    ensures match IsJump(g, w[0], Steps(g, w), i)
            case NoJump => true
            case FallThrough => !Walker(g, jcc, w, at, when, go).taken(Steps(g, w)[i], i + 1)
            case Jump => Walker(g, jcc, w, at, when, go).taken(Steps(g, w)[i], i + 1)
    decreases i - j
  {
    hide IsJump, Onward;
    StepsNonEmpty(g, jcc, w);
    if j < i {
      WalkerCircuit(g, jcc, w, at, when, go, i, j + 1);
    }
  }

  /** The walker follows w, so a constraint it breaks makes the checker's assumptions wrong. */
  lemma BrokenCircuit(g: Cfg, jcc: set<nat>, w: seq<nat>, at: nat, when: nat, go: bool, i: nat)
    requires CodeWalk(g, jcc, w) && Harmless(g, w, at, when, go)
    requires i < |Steps(g, w)| && Steps(g, w)[i] in jcc && InRange(g, Steps(g, w))
    requires IsJump(g, w[0], Steps(g, w), i) ==
             if Walker(g, jcc, w, at, when, go).taken(Steps(g, w)[i], i + 1) then FallThrough else Jump
    ensures NoEmptyPairs(g) && Walker(g, jcc, w, at, when, go).Valid()
    ensures !Faithful(Walker(g, jcc, w, at, when, go), w)
  {
    WalkerValid(g, jcc, w, at, when, go);
    DropEmptySteps(g, jcc, w);
    assert w[0..] == w;
    WalkerFollows(g, jcc, w, at, when, go, 0, 0);
    var prog := Walker(g, jcc, w, at, when, go);
    hide CodeGraph, Walker, IsJump, Onward, GetJumpInv, NoEmptyPairs, Harmless, CircuitHolds, JumpHolds;
    if Faithful(prog, w) {
      FaithfulAt(prog, w, 0);
      WalkerCircuit(g, jcc, w, at, when, go, i, 0);
      assert false;
    }
  }

  lemma BrokenJumpInv(g: Cfg, jcc: set<nat>, w: seq<nat>, at: nat, go: bool)
    requires CodeWalk(g, jcc, w) && Harmless(g, w, at, 0, go) && InRange(g, Steps(g, w))
    requires var p := (if w[0] == 0 then [] else [w[0]]) + Steps(g, w);
             p != [] && InRange(g, p) && GetJumpInv(g, jcc, w[0], p) == Flag(at, go)
    ensures NoEmptyPairs(g) && Walker(g, jcc, w, at, 0, go).Valid()
    ensures !Faithful(Walker(g, jcc, w, at, 0, go), w)
  {
    WalkerValid(g, jcc, w, at, 0, go);
    DropEmptySteps(g, jcc, w);
    assert w[0..] == w;
    WalkerFollows(g, jcc, w, at, 0, go, 0, 0);
    var prog := Walker(g, jcc, w, at, 0, go);
    hide CodeGraph, IsJump, Onward, GetJumpInv, NoEmptyPairs, Harmless, CircuitHolds;
    if Faithful(prog, w) {
      FaithfulAt(prog, w, 0);
      assert false;
    }
  }

  /** Some program on this graph takes the path while the checker's assumptions fail. */
  ghost predicate Refuted(g: Cfg, jcc: set<nat>, w: seq<nat>)
    requires CodeWalk(g, jcc, w)
  {
    exists prog: Program<int> :: prog.g == g && prog.jcc == jcc && prog.Valid() && NoEmptyPairs(g) && !Faithful(prog, w)
  }

  lemma UnsafeInside(g: Cfg, jcc: set<nat>, w: seq<nat>)
    requires CodeWalk(g, jcc, w)
    ensures SafeInside(g, jcc, w) || Refuted(g, jcc, w)
  {
    if !SafeInside(g, jcc, w) {
      StepsNonEmpty(g, jcc, w);
      var p := Steps(g, w);
      var i: nat :| i < |p| - 1 && p[i] in jcc && g.succs[p[i]][1] == p[i] + 1;
      Inner(g, jcc, w, i + 1);
      assert p[i] == w[i + 1] && p[i + 1] == w[i + 2];
      BrokenCircuit(g, jcc, w, 0, |w|, true, i);
      assert !Faithful(Walker(g, jcc, w, 0, |w|, true), w);
    }
  }

  lemma UnsafeSingle(g: Cfg, jcc: set<nat>, w: seq<nat>)
    requires CodeWalk(g, jcc, w)
    ensures SafeSingle(g, jcc, w) || Refuted(g, jcc, w)
  {
    if !SafeSingle(g, jcc, w) {
      StepsNonEmpty(g, jcc, w);
      var p := Steps(g, w);
      var go := p[0] == w[0] + 1;
      assert p[0] == w[1];
      Inner(g, jcc, w, 1);
      BrokenCircuit(g, jcc, w, p[0], 1, go, 0);
      assert !Faithful(Walker(g, jcc, w, p[0], 1, go), w);
    }
  }

  /** Out of the entry, the flag test of the first block is assumed. */
  lemma EntryInv(g: Cfg, jcc: set<nat>, w: seq<nat>)
    requires CodeWalk(g, jcc, w) && w[0] == 0 && !SafeFirst(g, jcc, w) && InRange(g, Steps(g, w))
    ensures var p := Steps(g, w);
            && |p| >= 2 && p[0] == w[1] && p[0] != 0 && GetJumpInv(g, jcc, 0, p) == Flag(p[0], p[1] == p[0] + 1)
  {
  }

  /** Out of another block its own flag test is assumed, as a jump if the path goes straight to the exit. */
  lemma StartInv(g: Cfg, jcc: set<nat>, w: seq<nat>)
    requires CodeWalk(g, jcc, w) && w[0] != 0 && !SafeFirst(g, jcc, w) && InRange(g, Steps(g, w)) && w[0] < g.Size()
    ensures var p := Steps(g, w);
            && InRange(g, [w[0]] + p) && GetJumpInv(g, jcc, w[0], [w[0]] + p) == Flag(w[0], p != [])
            && Harmless(g, w, w[0], 0, p != [])
  {
    var p := Steps(g, w);
    Inner(g, jcc, w, 0);
    Inner(g, jcc, w, 1);
    assert p != [] ==> p[0] == w[1];
    assert p == [] ==> w[1] == g.Exit();
  }

  lemma UnsafeEntry(g: Cfg, jcc: set<nat>, w: seq<nat>)
    requires CodeWalk(g, jcc, w) && w[0] == 0
    ensures SafeFirst(g, jcc, w) || Refuted(g, jcc, w)
  {
    if !SafeFirst(g, jcc, w) {
      StepsNonEmpty(g, jcc, w);
      EntryInv(g, jcc, w);
      hide CodeGraph, IsJump, GetJumpInv, SafeFirst, Steps, Faithful;
      var p := Steps(g, w);
      var go := p[1] == p[0] + 1;
      assert [] + p == p;
      BrokenJumpInv(g, jcc, w, p[0], go);
      assert !Faithful(Walker(g, jcc, w, p[0], 0, go), w);
    }
  }

  lemma UnsafeStart(g: Cfg, jcc: set<nat>, w: seq<nat>)
    requires CodeWalk(g, jcc, w) && w[0] != 0
    ensures SafeFirst(g, jcc, w) || Refuted(g, jcc, w)
  {
    if !SafeFirst(g, jcc, w) {
      StepsNonEmpty(g, jcc, w);
      StartInv(g, jcc, w);
      hide CodeGraph, IsJump, GetJumpInv, SafeFirst, Steps, Faithful, Harmless;
      var p := Steps(g, w);
      BrokenJumpInv(g, jcc, w, w[0], p != []);
      assert !Faithful(Walker(g, jcc, w, w[0], 0, p != []), w);
    }
  }

  /** The condition is exact: on the graph alone, a path is safe if and only if the checker's
      assumptions are right for every program (counters suffice to refute it). */
  lemma SafeExactly(g: Cfg, jcc: set<nat>, w: seq<nat>)
    requires CodeWalk(g, jcc, w)
    ensures Safe(g, jcc, w) <==> !Refuted(g, jcc, w)
  {
    hide CodeGraph, SafeInside, SafeSingle, SafeFirst;
    UnsafeInside(g, jcc, w);
    UnsafeSingle(g, jcc, w);
    if w[0] == 0 {
      UnsafeEntry(g, jcc, w);
    } else {
      UnsafeStart(g, jcc, w);
    }
    forall prog: Program<int> | prog.g == g && prog.jcc == jcc && prog.Valid() && Safe(g, jcc, w)
      ensures NoEmptyPairs(g) && Faithful(prog, w)
    {
      SafeIsFaithful(prog, w);
    }
  }

  /** The condition for a whole list of cutpoints. */
  ghost predicate SafeBetween(g: Cfg, jcc: set<nat>, cuts: seq<nat>)
    requires CodeGraph(g, jcc)
  {
    forall w, i, j :: 0 <= i < |cuts| && 0 <= j < |cuts| && IsPath(g, cuts, i, j, w) ==> Safe(g, jcc, w)
  }

  lemma SafeCuts<S(!new)>(prog: Program<S>, cuts: seq<nat>)
    requires prog.Valid() && CodeGraph(prog.g, prog.jcc) && SafeBetween(prog.g, prog.jcc, cuts)
    ensures NoEmptyPairs(prog.g) && FaithfulBetween(prog, cuts)
  {
    hide Safe, Faithful;
    assert 1 != prog.g.Exit();
    forall w, i, j | 0 <= i < |cuts| && 0 <= j < |cuts| && IsPath(prog.g, cuts, i, j, w)
      ensures Faithful(prog, w)
    {
      SafeIsFaithful(prog, w);
    }
  }

  /** The validator is sound for code whose paths between cutpoints are all safe: programs that pass
      terminate on the same inputs and their final states satisfy the exit invariant. */
  lemma SafeProgramsAgree<S(!new)>(v: Setup, tp: Program<S>, rp: Program<S>, meaning: (nat, S, S) -> bool,
                                   check: Query -> bool, invs: seq<seq<nat>>, o: (seq<nat>, seq<nat>),
                                   ts: map<nat, int>, tb: map<nat, seq<nat>>, rs: map<nat, int>,
                                   rb: map<nat, seq<nat>>, count: nat, s: S, t: S)
    requires Runs(v, tp, rp) && SoundOracle(tp, rp, meaning, check)
    requires SccData(v.target, ts, tb, count) && SccData(v.rewrite, rs, rb, count)
    requires Option(o, LoopLists(tb, count), LoopLists(rb, count))
    requires v.tcuts == WithEnds(v.target, o.0) && v.rcuts == WithEnds(v.rewrite, o.1)
    requires |invs| == |v.tcuts| && ProofHolds(v, invs, check) && Holds(meaning, invs[0], s, t)
    requires CodeGraph(v.target, v.tjcc) && SafeBetween(v.target, v.tjcc, v.tcuts)
    requires CodeGraph(v.rewrite, v.rjcc) && SafeBetween(v.rewrite, v.rjcc, v.rcuts)
    ensures (exists kt :: tp.Reaches(0, s, kt)) <==> (exists kr :: rp.Reaches(0, t, kr))
    ensures forall kt, kr :: tp.Reaches(0, s, kt) && rp.Reaches(0, t, kr) ==>
              Holds(meaning, invs[|invs| - 1], Final(tp, 0, s, kt), Final(rp, 0, t, kr))
  {
    hide Holds, SoundOracle, FaithfulBetween, SccData, Option, ProofHolds, SafeBetween, CodeGraph, NoEmptyPairs,
      Program.Reaches;
    SafeCuts(tp, v.tcuts);
    SafeCuts(rp, v.rcuts);
    ValidatedProgramsAgree(v, tp, rp, meaning, check, invs, o, ts, tb, rs, rb, count, s, t);
  }

  // ----- What goes wrong on an unsafe path -----

  datatype Regs = Regs(flag: bool, x: int)

  /** Block 1 flips the flag and jumps to the exit on it; block 2 loads a constant into x. */
  function LoadGraph(): Cfg { Cfg([[1], [2, 3], [3], []], [0, 1, 1, 0]) }

  function Load(c: int): Program<Regs> {
    Program(LoadGraph(), {1},
            (b: nat, s: Regs) => if b == 1 then s.(flag := !s.flag) else if b == 2 then s.(x := c) else s,
            (b: nat, s: Regs) => s.flag)
  }

  function LoadSetup(): Setup {
    Setup(LoadGraph(), {1}, LoadGraph(), {1}, [0, 3], [0, 3])
  }

  /** Conjunct 0: the states are equal.  Conjunct 1: x is equal. */
  predicate LoadMeaning(id: nat, s: Regs, t: Regs) {
    if id == 0 then s == t else s.x == t.x
  }

  lemma LoadWalks(w: seq<nat>, a: nat, b: nat)
    requires Avoiding(LoadGraph(), a, b, [0, 3], w) && a in [0, 3] && b in [0, 3]
    ensures a == 0 && b == 3 && (w == [0, 1, 3] || w == [0, 1, 2, 3])
  {
    var g := LoadGraph();
    assert g.Edge(w[0], w[1]);
    assert w[0] == 0 && w[1] == 1;
    assert |w| > 2;
    assert g.Edge(w[1], w[2]);
    ExitEnds(g, w, 2);
    if w[2] != 3 {
      assert g.Edge(w[2], w[3]);
      ExitEnds(g, w, 3);
    }
  }

  lemma ExitEnds(g: Cfg, w: seq<nat>, k: nat)
    requires g.Valid() && IsWalk(g, w) && k < |w|
    ensures w[k] == g.Exit() ==> k == |w| - 1
  {
    if k < |w| - 1 {
      assert g.Edge(w[k], w[k + 1]);
    }
  }

  lemma LoadValid()
    ensures LoadSetup().Valid() && CodeGraph(LoadGraph(), {1}) && forall c :: Load(c).Valid()
  {
    assert LoadGraph().Valid();
    assert NoEmptyPairs(LoadGraph());
  }

  /** The walks between the two cutpoints. */
  lemma LoadPath(i: nat, j: nat, w: seq<nat>)
    requires i < 2 && j < 2 && Avoiding(LoadGraph(), [0, 3][i], [0, 3][j], [0, 3], w)
    ensures i == 0 && j == 1 && (w == [0, 1, 3] || w == [0, 1, 2, 3])
  {
    LoadWalks(w, [0, 3][i], [0, 3][j]);
  }

  lemma LoadOnce(i: nat, j: nat, w: seq<nat>)
    requires i < 2 && j < 2 && Avoiding(LoadGraph(), [0, 3][i], [0, 3][j], [0, 3], w)
    ensures VisitsAtMost(w, 1)
  {
    LoadPath(i, j, w);
    assert w[1..] == [1, 3] || w[1..] == [1, 2, 3];
  }

  lemma LoadFinite(i: nat, j: nat)
    requires i < 2 && j < 2
    ensures LoadSetup().Valid() && Finite(LoadSetup(), i, j)
  {
    LoadValid();
    var g, cuts := LoadGraph(), [0, 3];
    hide VisitsAtMost, Avoiding, CountsAgree, LoadGraph;
    forall w | Avoiding(g, cuts[i], cuts[j], cuts, w)
      ensures VisitsAtMost(w, 1)
    {
      LoadOnce(i, j, w);
    }
    FinitenessTest(g, cuts[i], cuts[j], cuts);
  }

  /** Along the path through block 2 the flag is assumed clear both before and after it flips. */
  lemma LoadLongPath(c: int, s: Regs)
    ensures NoEmptyPairs(LoadGraph()) && DropEmpty(LoadGraph(), [0, 1, 2, 3]) == [1, 2]
    ensures InRange(LoadGraph(), [1, 2])
    ensures JumpHolds(Load(c), GetJumpInv(LoadGraph(), {1}, 0, [1, 2]), s) ==> !CircuitHolds(Load(c), 0, [1, 2], 0, s)
  {
    var g := LoadGraph();
    var w := [0, 1, 2, 3];
    assert w[1..] == [1, 2, 3] && w[1..][1..] == [2, 3] && w[1..][1..][1..] == [3] && w[1..][1..][1..][1..] == [];
    assert DropEmpty(g, [3]) == [];
    assert DropEmpty(g, [2, 3]) == [2];
  }

  lemma LoadShortPath(c: int, s: Regs)
    ensures DropEmpty(LoadGraph(), [0, 1, 3]) == [1]
    ensures CircuitEnd(Load(c), [1], s).x == s.x
  {
    var g := LoadGraph();
    var w := [0, 1, 3];
    assert w[1..] == [1, 3] && w[1..][1..] == [3] && w[1..][1..][1..] == [];
    assert [1][1..] == [];
    assert CircuitEnd(Load(c), [1], s) == CircuitEnd(Load(c), [], Load(c).body(1, s));
  }

  lemma LoadGoal(q: Query, s: Regs, t: Regs)
    requires NoEmptyPairs(LoadGraph()) && q.tblock == q.rblock == 0 && q.given == [0] && q.goal == Conjunct(1)
    requires (q.p == [1] || q.p == [1, 2]) && (q.q == [1] || q.q == [1, 2])
    requires q.tjump == GetJumpInv(LoadGraph(), {1}, 0, q.p) && q.rjump == GetJumpInv(LoadGraph(), {1}, 0, q.q)
    requires InRange(LoadGraph(), q.p) && InRange(LoadGraph(), q.q)
    requires Holds(LoadMeaning, q.given, s, t) && JumpHolds(Load(1), q.tjump, s) && JumpHolds(Load(2), q.rjump, t)
    requires CircuitHolds(Load(1), q.tblock, q.p, 0, s) && CircuitHolds(Load(2), q.rblock, q.q, 0, t)
    ensures GoalHolds(LoadMeaning, q.goal, CircuitEnd(Load(1), q.p, s), CircuitEnd(Load(2), q.q, t))
  {
    hide CircuitHolds, CircuitEnd, GetJumpInv, JumpHolds, DropEmpty, NoEmptyPairs, LoadGraph;
    LoadLongPath(1, s);
    LoadLongPath(2, t);
    LoadShortPath(1, s);
    LoadShortPath(2, t);
    assert LoadMeaning(q.given[0], s, t);
  }

  /** What the obligation for two of these walks is. */
  lemma LoadObligation(w: seq<nat>, x: seq<nat>)
    requires LoadSetup().Valid()
    requires (w == [0, 1, 3] || w == [0, 1, 2, 3]) && (x == [0, 1, 3] || x == [0, 1, 2, 3])
    requires IsWalk(LoadGraph(), w) && IsWalk(LoadGraph(), x)
    ensures var q := Obligation(LoadSetup(), 0, w, x, [0], Conjunct(1));
            && q.tblock == q.rblock == 0 && q.given == [0] && q.goal == Conjunct(1)
            && (q.p == [1] || q.p == [1, 2]) && (q.q == [1] || q.q == [1, 2])
            && q.tjump == GetJumpInv(LoadGraph(), {1}, 0, q.p) && q.rjump == GetJumpInv(LoadGraph(), {1}, 0, q.q)
            && InRange(LoadGraph(), q.p) && InRange(LoadGraph(), q.q)
  {
    LoadShortPath(1, Regs(true, 0));
    LoadLongPath(1, Regs(true, 0));
    hide GetJumpInv, DropEmpty;
  }

  lemma LoadOracle(check: Query -> bool, w: seq<nat>, x: seq<nat>)
    requires LoadSetup().Valid() && ExactAnswers(check)
    requires Avoiding(LoadGraph(), 0, 3, [0, 3], w) && Avoiding(LoadGraph(), 0, 3, [0, 3], x)
    ensures check(Obligation(LoadSetup(), 0, w, x, [0], Conjunct(1)))
  {
    LoadWalks(w, 0, 3);
    LoadWalks(x, 0, 3);
    LoadValid();
    var q := Obligation(LoadSetup(), 0, w, x, [0], Conjunct(1));
    LoadObligation(w, x);
    hide CircuitHolds, CircuitEnd, GetJumpInv, JumpHolds, DropEmpty, NoEmptyPairs, Holds, GoalHolds, Avoiding,
      Obligation, InRange;
    hide CodeGraph, Setup.Valid;
    LoadWellPosed(q);
    forall s, t |
      Holds(LoadMeaning, q.given, s, t) && JumpHolds(Load(1), q.tjump, s) && JumpHolds(Load(2), q.rjump, t) &&
      CircuitHolds(Load(1), q.tblock, q.p, 0, s) && CircuitHolds(Load(2), q.rblock, q.q, 0, t)
      ensures GoalHolds(LoadMeaning, q.goal, CircuitEnd(Load(1), q.p, s), CircuitEnd(Load(2), q.q, t))
    {
      LoadGoal(q, s, t);
    }
  }

  lemma LoadWellPosed(q: Query)
    requires q.tblock == q.rblock == 0 && InRange(LoadGraph(), q.p) && InRange(LoadGraph(), q.q)
    ensures WellPosed(LoadGraph(), LoadGraph(), q)
  {
  }

  /** The exact checker for the two example programs: it answers true just when the query holds. */
  ghost predicate ExactAnswers(check: Query -> bool) {
    forall q :: check(q) <==> WellPosed(LoadGraph(), LoadGraph(), q) && Entailed(Load(1), Load(2), LoadMeaning, q)
  }

  lemma LoadPreserved(check: Query -> bool, i: nat, j: nat)
    requires LoadSetup().Valid() && ExactAnswers(check) && i < 2 && j < 2
    ensures Preserved(LoadSetup(), [[0], [1]], check, i, j)
  {
    var v := LoadSetup();
    forall w, x, m | IsPath(v.target, v.tcuts, i, j, w) && IsPath(v.rewrite, v.rcuts, i, j, x) &&
        0 <= m < |[[0], [1]][j]|
      ensures check(Obligation(v, i, w, x, [[0], [1]][i], Conjunct([[0], [1]][j][m])))
    {
      LoadWalks(w, v.tcuts[i], v.tcuts[j]);
      LoadOracle(check, w, x);
    }
  }

  lemma LoadExclusive(check: Query -> bool, i: nat, j: nat, k: nat)
    requires LoadSetup().Valid() && i < 2 && j < 2 && k < 2
    ensures k != j ==> Exclusive(LoadSetup(), [[0], [1]], check, i, j, k)
  {
    var v := LoadSetup();
    hide LoadGraph, Obligation, Avoiding, VisitsAtMost, Setup.Valid;
    if k != j && !Exclusive(v, [[0], [1]], check, i, j, k) {
      var w, x :| IsPath(v.target, v.tcuts, i, j, w) && IsPath(v.rewrite, v.rcuts, i, k, x);
      LoadPath(i, j, w);
      LoadPath(i, k, x);
      assert false;
    }
  }

  lemma LoadRun(c: int)
    ensures Load(c).Valid() && Load(c).Reaches(0, Regs(true, 0), 3)
    ensures Final(Load(c), 0, Regs(true, 0), 3) == Regs(false, c)
  {
    var prog := Load(c);
    LoadValid();
    var s0, s1, s2 := Regs(true, 0), Regs(false, 0), Regs(false, c);
    assert prog.Next(0, s0) == 1 && prog.body(1, s0) == s1;
    assert prog.Next(1, s1) == 2 && prog.body(2, s1) == s2;
    assert prog.Next(2, s2) == 3 && prog.body(3, s2) == s2;
    assert prog.Reaches(3, s2, 0);
    assert prog.Reaches(2, s2, 1);
    assert prog.Reaches(1, s1, 2);
  }

  lemma LoadProof(check: Query -> bool)
    requires ExactAnswers(check)
    ensures LoadSetup().Valid() && ProofHolds(LoadSetup(), [[0], [1]], check)
  {
    LoadValid();
    hide Setup.Valid, Finite, Preserved, Exclusive, ExactAnswers;
    var v, invs := LoadSetup(), [[0], [1]];
    forall i, j | 0 <= i < |v.tcuts| && 0 <= j < |v.tcuts|
      ensures PairOk(v, invs, check, i, j)
    {
      LoadFinite(i, j);
      LoadPreserved(check, i, j);
      forall k | 0 <= k < |v.tcuts| && k != j
        ensures Exclusive(v, invs, check, i, j, k)
      {
        LoadExclusive(check, i, j, k);
      }
    }
  }

  /** Without the condition the validator is unsound, whatever the solver: these two programs pass
      with an exact checker, yet from equal states they stop with different values of x. */
  lemma UnsafeProofAccepted(check: Query -> bool)
    requires ExactAnswers(check)
    ensures LoadSetup().Valid() && SoundOracle(Load(1), Load(2), LoadMeaning, check)
    ensures ProofHolds(LoadSetup(), [[0], [1]], check)
    ensures Runs(LoadSetup(), Load(1), Load(2)) && CodeGraph(LoadGraph(), {1})
    ensures var s := Regs(true, 0);
            && Holds(LoadMeaning, [0], s, s) && Load(1).Reaches(0, s, 3) && Load(2).Reaches(0, s, 3)
            && !Holds(LoadMeaning, [1], Final(Load(1), 0, s, 3), Final(Load(2), 0, s, 3))
  {
    LoadValid();
    LoadProof(check);
    hide Setup.Valid, CodeGraph, ProofHolds, Program.Valid;
    assert LoadMeaning(0, Regs(true, 0), Regs(true, 0));
    LoadRun(1);
    LoadRun(2);
    assert !LoadMeaning([1][0], Regs(false, 1), Regs(false, 2));
  }
}