/** The cutpoint proof of equivalence (src/validator/ddec.cc): what the obligation checker assumes,
    the three checks of `check_proof`, and the simulation they justify. */
module Ddec {
  import opened Graph
  import opened Paths

  // ----- Programs -----

  /** A deterministic program over a CFG.  `body(b, s)` runs the instructions of block b up to its
      final jump, `taken(b, s)` is the condition of that jump, and `jcc` holds the blocks that end
      in a conditional jump on the flags. */
  datatype Program<!S(!new)> = Program(g: Cfg, jcc: set<nat>, body: (nat, S) -> S, taken: (nat, S) -> bool) {

    ghost predicate Valid() {
      && g.Valid() && 2 <= g.Size()
      && (forall b :: 0 <= b < g.Exit() ==> |g.succs[b]| > 0)
      && (forall b, s :: 0 <= b < |g.instrs| && g.instrs[b] == 0 ==> body(b, s) == s)
    }

    /** Where control goes from the end of block b: the second successor if the jump is taken. */
    function Next(b: nat, s: S): nat
      requires b < g.Size() && |g.succs[b]| > 0
    {
      if |g.succs[b]| >= 2 && taken(b, s) then g.succs[b][1] else g.succs[b][0]
    }

    /** From the end of block w[0] in state s, control passes through w[1], w[2], ... */
    predicate Follows(w: seq<nat>, s: S)
      requires IsWalk(g, w)
    {
      |w| == 1 ||
      (assert g.Edge(w[0], w[1]); SubWalk(g, w, 1, |w|);
       Next(w[0], s) == w[1] && Follows(w[1..], body(w[1], s)))
    }

    /** The state at the end of the last block of w. */
    function End(w: seq<nat>, s: S): S
      decreases |w|
    {
      if |w| <= 1 then s else End(w[1..], body(w[1], s))
    }

    /** From the end of block b in state s the exit is reached after exactly k more blocks. */
    predicate Reaches(b: nat, s: S, k: nat)
      requires Valid() && b < g.Size()
      decreases k
    {
      if b == g.Exit() then k == 0
      else k > 0 && (assert g.Edge(b, Next(b, s)); Reaches(Next(b, s), body(Next(b, s), s), k - 1))
    }

    /** The cutpoints visited from the end of block b until the exit, with their states. */
    function CutTrace(cuts: seq<nat>, b: nat, s: S, k: nat): seq<(nat, S)>
      requires Valid() && b < g.Size() && Reaches(b, s, k)
      decreases k
    {
      (if b in cuts then [(b, s)] else []) +
      (if b == g.Exit() then [] else CutTrace(cuts, Next(b, s), body(Next(b, s), s), k - 1))
    }
  }

  // ----- What the obligation checker is asked -----

  datatype JumpType = NoJump | FallThrough | Jump

  /** How block P[i] is left along the path, as the checker sees it; a path of one block is first
      extended by the block it starts from. */
  function IsJump(g: Cfg, start: nat, path: seq<nat>, i: nat): JumpType
    requires i < |path| && start < g.Size() && forall k :: 0 <= k < |path| ==> path[k] < g.Size()
  {
    var p := if i == 0 && |path| == 1 then [start] + path else path;
    if i == |p| - 1 then NoJump
    else if |g.succs[p[i]]| < 2 then NoJump
    else if p[i + 1] == p[i] + 1 then FallThrough
    else Jump
  }

  /** A condition on the flags: the jump ending `block` is taken, or not taken if `fall`. */
  datatype JumpInv = Always | Flag(block: nat, fall: bool)

  /** The invariant meant to say that the first transition of the path is taken. */
  function GetJumpInv(g: Cfg, jcc: set<nat>, start: nat, path: seq<nat>): JumpInv
    requires path != [] && start < g.Size() && forall k :: 0 <= k < |path| ==> path[k] < g.Size()
  {
    var jump := IsJump(g, start, path, 0);
    if jump == NoJump then Always
    else
      var block := if |path| == 1 then start else path[0];
      if block !in jcc then Always else Flag(block, jump == FallThrough)
  }

  datatype Goal = Conjunct(id: nat) | Contradiction

  /** One call of the checker: paths P and Q from two blocks, the conjuncts assumed together with
      the two jump invariants, and what is to be shown. */
  datatype Query = Query(tblock: nat, rblock: nat, p: seq<nat>, q: seq<nat>, given: seq<nat>,
                         tjump: JumpInv, rjump: JumpInv, goal: Goal)

  ghost predicate JumpHolds<S(!new)>(prog: Program<S>, j: JumpInv, s: S) {
    match j
    case Always => true
    case Flag(b, fall) => prog.taken(b, s) != fall
  }

  ghost predicate InRange(g: Cfg, path: seq<nat>) {
    forall k :: 0 <= k < |path| ==> path[k] < g.Size()
  }

  /** The branch constraints the checker collects while it runs the blocks of the path. */
  ghost predicate CircuitHolds<S(!new)>(prog: Program<S>, start: nat, path: seq<nat>, i: nat, s: S)
    requires start < prog.g.Size() && InRange(prog.g, path) && i <= |path|
    decreases |path| - i
  {
    i == |path| ||
    (var s' := prog.body(path[i], s);
     (path[i] in prog.jcc ==>
        match IsJump(prog.g, start, path, i)
        case NoJump => true
        case FallThrough => !prog.taken(path[i], s')
        case Jump => prog.taken(path[i], s'))
     && CircuitHolds(prog, start, path, i + 1, s'))
  }

  ghost function CircuitEnd<S(!new)>(prog: Program<S>, path: seq<nat>, s: S): S {
    if path == [] then s else CircuitEnd(prog, path[1..], prog.body(path[0], s))
  }

  /** The conjuncts listed hold of a pair of states. */
  ghost predicate Holds<S(!new)>(meaning: (nat, S, S) -> bool, ids: seq<nat>, s: S, t: S) {
    forall m :: 0 <= m < |ids| ==> meaning(ids[m], s, t)
  }

  ghost predicate GoalHolds<S(!new)>(meaning: (nat, S, S) -> bool, goal: Goal, s: S, t: S) {
    match goal
    case Conjunct(id) => meaning(id, s, t)
    case Contradiction => false
  }

  ghost predicate WellPosed(t: Cfg, r: Cfg, q: Query) {
    q.tblock < t.Size() && q.rblock < r.Size() && InRange(t, q.p) && InRange(r, q.q)
  }

  /** What an answer `true` means: whenever the assumptions hold and both circuits can be followed,
      the goal holds at their ends. */
  ghost predicate Entailed<S(!new)>(tp: Program<S>, rp: Program<S>, meaning: (nat, S, S) -> bool, q: Query)
    requires WellPosed(tp.g, rp.g, q)
  {
    forall s, t ::
      Holds(meaning, q.given, s, t) && JumpHolds(tp, q.tjump, s) && JumpHolds(rp, q.rjump, t) &&
      CircuitHolds(tp, q.tblock, q.p, 0, s) && CircuitHolds(rp, q.rblock, q.q, 0, t)
      ==> GoalHolds(meaning, q.goal, CircuitEnd(tp, q.p, s), CircuitEnd(rp, q.q, t))
  }

  ghost predicate SoundOracle<S(!new)>(tp: Program<S>, rp: Program<S>,
                                       meaning: (nat, S, S) -> bool, check: Query -> bool) {
    forall q :: WellPosed(tp.g, rp.g, q) && check(q) ==> Entailed(tp, rp, meaning, q)
  }

  // ----- The proof attempt -----

  /** The two graphs, their flag-testing blocks and the matched cutpoints. */
  datatype Setup = Setup(target: Cfg, tjcc: set<nat>, rewrite: Cfg, rjcc: set<nat>, tcuts: seq<nat>, rcuts: seq<nat>) {
    ghost predicate Valid() {
      && target.Valid() && rewrite.Valid() && NoEmptyPairs(target) && NoEmptyPairs(rewrite)
      && |tcuts| == |rcuts| && InRange(target, tcuts) && InRange(rewrite, rcuts)
    }
  }

  /** An empty block (entry or exit) never leads to another one: there is some code. */
  ghost predicate NoEmptyPairs(g: Cfg)
    requires g.Valid()
  {
    forall a: nat, b: nat :: g.Edge(a, b) && g.instrs[a] == 0 ==> g.instrs[b] != 0
  }

  /** The path without its first block, unless that block is empty and was dropped already. */
  function Rest(g: Cfg, start: nat, path: seq<nat>): seq<nat>
    requires start < |g.instrs| && path != []
  {
    if g.instrs[start] > 0 then path[1..] else path
  }

  function MakeQuery(v: Setup, i: nat, p: seq<nat>, q: seq<nat>, given: seq<nat>, goal: Goal): Query
    requires i < |v.tcuts| && i < |v.rcuts| && p != [] && q != []
    requires v.tcuts[i] < v.target.Size() == |v.target.instrs| && v.rcuts[i] < v.rewrite.Size() == |v.rewrite.instrs|
    requires forall k :: 0 <= k < |p| ==> p[k] < v.target.Size()
    requires forall k :: 0 <= k < |q| ==> q[k] < v.rewrite.Size()
  {
    Query(v.tcuts[i], v.rcuts[i], Rest(v.target, v.tcuts[i], p), Rest(v.rewrite, v.rcuts[i], q), given,
          GetJumpInv(v.target, v.tjcc, v.tcuts[i], p), GetJumpInv(v.rewrite, v.rjcc, v.rcuts[i], q), goal)
  }

  lemma {:induction false} DropEmptyInRange(g: Cfg, w: seq<nat>)
    requires g.Valid() && InRange(g, w)
    ensures InRange(g, DropEmpty(g, w))
  {
    if w != [] {
      DropEmptyInRange(g, w[1..]);
    }
  }

  lemma DropEmptyNonEmpty(g: Cfg, w: seq<nat>)
    requires g.Valid() && NoEmptyPairs(g) && IsWalk(g, w) && |w| > 1
    ensures DropEmpty(g, w) != [] && InRange(g, DropEmpty(g, w))
  {
    DropEmptyInRange(g, w);
    assert g.Edge(w[0], w[1]);
    assert w[1..][0] == w[1];
  }

  /** The obligation for walks w and x out of cutpoint i. */
  ghost function Obligation(v: Setup, i: nat, w: seq<nat>, x: seq<nat>, given: seq<nat>, goal: Goal): Query
    requires v.Valid() && i < |v.tcuts|
    requires IsWalk(v.target, w) && |w| > 1 && IsWalk(v.rewrite, x) && |x| > 1
  {
    DropEmptyNonEmpty(v.target, w);
    DropEmptyNonEmpty(v.rewrite, x);
    MakeQuery(v, i, DropEmpty(v.target, w), DropEmpty(v.rewrite, x), given, goal)
  }

  /** What the checker is asked: the paths are the walks behind their first blocks, without the blocks that
      hold no instruction, and the jump assumed for each is that from the first listed block to the second,
      or into the only listed one. */
  lemma ObligationIs(v: Setup, i: nat, w: seq<nat>, x: seq<nat>, given: seq<nat>, goal: Goal)
    requires v.Valid() && i < |v.tcuts| && w != [] && x != [] && w[0] == v.tcuts[i] && x[0] == v.rcuts[i]
    requires IsWalk(v.target, w) && |w| > 1 && IsWalk(v.rewrite, x) && |x| > 1
    ensures var q := Obligation(v, i, w, x, given, goal);
            && q.tblock == v.tcuts[i] && q.rblock == v.rcuts[i] && q.given == given && q.goal == goal
            && Sifted(w, (set k: nat | k < |w| && v.target.instrs[w[k]] > 0), 1, q.p)
            && Sifted(x, (set k: nat | k < |x| && v.rewrite.instrs[x[k]] > 0), 1, q.q)
            && JumpAssumed(v.target, v.tjcc, w, q.p, q.tjump) && JumpAssumed(v.rewrite, v.rjcc, x, q.q, q.rjump)
  {
    SideIs(v.target, v.tjcc, w);
    SideIs(v.rewrite, v.rjcc, x);
    hide Sifted, JumpAssumed, Rest, DropEmpty, GetJumpInv;
    DropEmptyNonEmpty(v.target, w);
    DropEmptyNonEmpty(v.rewrite, x);
  }

  /** The flag condition for walk w, whose blocks behind the first are listed in p. */
  ghost predicate JumpAssumed(g: Cfg, jcc: set<nat>, w: seq<nat>, p: seq<nat>, j: JumpInv)
    requires g.Valid() && IsWalk(g, w)
  {
    var all := if g.instrs[w[0]] > 0 then [w[0]] + p else p;
    && all != [] && all[0] < g.Size()
    && var (from, to) := if |all| == 1 then (w[0], all[0]) else (all[0], all[1]);
       j == if |g.succs[from]| >= 2 && from in jcc then Flag(from, to == from + 1) else Always
  }

  lemma SideIs(g: Cfg, jcc: set<nat>, w: seq<nat>)
    requires g.Valid() && NoEmptyPairs(g) && IsWalk(g, w) && |w| > 1
    ensures var p := DropEmpty(g, w);
            && p != [] && InRange(g, p)
            && Sifted(w, (set k: nat | k < |w| && g.instrs[w[k]] > 0), 1, Rest(g, w[0], p))
            && JumpAssumed(g, jcc, w, Rest(g, w[0], p), GetJumpInv(g, jcc, w[0], p))
  {
    DropEmptyNonEmpty(g, w);
    DropEmptyIs(g, w, 1);
    var p := DropEmpty(g, w);
    assert p == (if g.instrs[w[0]] > 0 then [w[0]] else []) + DropEmpty(g, w[1..]);
    assert Rest(g, w[0], p) == DropEmpty(g, w[1..]);
    hide Sifted, DropEmpty, NoEmptyPairs, JumpAssumed;
    JumpIs(g, jcc, w, p);
  }

  lemma JumpIs(g: Cfg, jcc: set<nat>, w: seq<nat>, p: seq<nat>)
    requires g.Valid() && IsWalk(g, w) && p != [] && InRange(g, p) && (g.instrs[w[0]] > 0 ==> p[0] == w[0])
    ensures JumpAssumed(g, jcc, w, Rest(g, w[0], p), GetJumpInv(g, jcc, w[0], p))
  {
    assert (if g.instrs[w[0]] > 0 then [w[0]] else []) + Rest(g, w[0], p) == p;
    hide Rest, IsWalk, Cfg.Valid;
    assert |p| == 1 ==> ([w[0]] + p)[1] == p[0];
  }

  ghost predicate IsPath(g: Cfg, cuts: seq<nat>, i: nat, j: nat, w: seq<nat>)
    requires i < |cuts| && j < |cuts|
  {
    Avoiding(g, cuts[i], cuts[j], cuts, w) && VisitsAtMost(w, 1)
  }

  /** Check 1 of `check_proof` for one pair of cutpoints. */
  ghost predicate Finite(v: Setup, i: nat, j: nat)
    requires v.Valid() && i < |v.tcuts| && j < |v.tcuts|
  {
    CountsAgree(v.target, v.tcuts[i], v.tcuts[j], v.tcuts) && CountsAgree(v.rewrite, v.rcuts[i], v.rcuts[j], v.rcuts)
  }

  /** Check 2: every pair of paths from i to j establishes every conjunct at j. */
  ghost predicate Preserved(v: Setup, invs: seq<seq<nat>>, check: Query -> bool, i: nat, j: nat)
    requires v.Valid() && |invs| == |v.tcuts| && i < |v.tcuts| && j < |v.tcuts|
  {
    forall w, x, m :: IsPath(v.target, v.tcuts, i, j, w) && IsPath(v.rewrite, v.rcuts, i, j, x) && 0 <= m < |invs[j]|
      ==> check(Obligation(v, i, w, x, invs[i], Conjunct(invs[j][m])))
  }

  /** Check 3: the target cannot go from i to j while the rewrite goes from i to k. */
  ghost predicate Exclusive(v: Setup, invs: seq<seq<nat>>, check: Query -> bool, i: nat, j: nat, k: nat)
    requires v.Valid() && |invs| == |v.tcuts| && i < |v.tcuts| && j < |v.tcuts| && k < |v.tcuts|
  {
    forall w, x :: IsPath(v.target, v.tcuts, i, j, w) && IsPath(v.rewrite, v.rcuts, i, k, x)
      ==> check(Obligation(v, i, w, x, invs[i], Contradiction))
  }

  /** The three checks for one pair of cutpoints. */
  ghost predicate PairOk(v: Setup, invs: seq<seq<nat>>, check: Query -> bool, i: nat, j: nat)
    requires v.Valid() && |invs| == |v.tcuts| && i < |v.tcuts| && j < |v.tcuts|
  {
    && Finite(v, i, j) && Preserved(v, invs, check, i, j)
    && forall k :: 0 <= k < |v.tcuts| && k != j ==> Exclusive(v, invs, check, i, j, k)
  }

  ghost predicate ProofHolds(v: Setup, invs: seq<seq<nat>>, check: Query -> bool)
    requires v.Valid() && |invs| == |v.tcuts|
  {
    forall i, j :: 0 <= i < |v.tcuts| && 0 <= j < |v.tcuts| ==> PairOk(v, invs, check, i, j)
  }

  /** The three checks written out: between no two cutpoints does a second visit of a block yield more paths,
      every pair of paths between the same cutpoints establishes every conjunct of the end from those of the
      start, and every pair of paths that part is ruled out by the conjuncts of the start. */
  lemma ProofMeans(v: Setup, invs: seq<seq<nat>>, check: Query -> bool)
    requires v.Valid() && |invs| == |v.tcuts|
    ensures ProofHolds(v, invs, check) <==>
      && (forall i, j :: 0 <= i < |v.tcuts| && 0 <= j < |v.tcuts| ==>
            && |AllWalks(v.target, v.tcuts[i], v.tcuts[j], 1, v.tcuts)| ==
               |AllWalks(v.target, v.tcuts[i], v.tcuts[j], 2, v.tcuts)|
            && |AllWalks(v.rewrite, v.rcuts[i], v.rcuts[j], 1, v.rcuts)| ==
               |AllWalks(v.rewrite, v.rcuts[i], v.rcuts[j], 2, v.rcuts)|)
      && (forall i, j, w, x, m ::
            && 0 <= i < |v.tcuts| && 0 <= j < |v.tcuts| && 0 <= m < |invs[j]|
            && IsPath(v.target, v.tcuts, i, j, w) && IsPath(v.rewrite, v.rcuts, i, j, x)
            ==> check(Obligation(v, i, w, x, invs[i], Conjunct(invs[j][m]))))
      && (forall i, j, k, w, x ::
            && 0 <= i < |v.tcuts| && 0 <= j < |v.tcuts| && 0 <= k < |v.tcuts| && j != k
            && IsPath(v.target, v.tcuts, i, j, w) && IsPath(v.rewrite, v.rcuts, i, k, x)
            ==> check(Obligation(v, i, w, x, invs[i], Contradiction)))
  {
    hide Obligation, AllWalks;
    if ProofHolds(v, invs, check) {
      forall i, j | 0 <= i < |v.tcuts| && 0 <= j < |v.tcuts|
        ensures |AllWalks(v.target, v.tcuts[i], v.tcuts[j], 1, v.tcuts)| ==
                |AllWalks(v.target, v.tcuts[i], v.tcuts[j], 2, v.tcuts)|
        ensures |AllWalks(v.rewrite, v.rcuts[i], v.rcuts[j], 1, v.rcuts)| ==
                |AllWalks(v.rewrite, v.rcuts[i], v.rcuts[j], 2, v.rcuts)|
      {
        assert PairOk(v, invs, check, i, j);
      }
      forall i, j, w, x, m | && 0 <= i < |v.tcuts| && 0 <= j < |v.tcuts| && 0 <= m < |invs[j]|
                             && IsPath(v.target, v.tcuts, i, j, w) && IsPath(v.rewrite, v.rcuts, i, j, x)
        ensures check(Obligation(v, i, w, x, invs[i], Conjunct(invs[j][m])))
      {
        assert PairOk(v, invs, check, i, j);
      }
      forall i, j, k, w, x | && 0 <= i < |v.tcuts| && 0 <= j < |v.tcuts| && 0 <= k < |v.tcuts| && j != k
                             && IsPath(v.target, v.tcuts, i, j, w) && IsPath(v.rewrite, v.rcuts, i, k, x)
        ensures check(Obligation(v, i, w, x, invs[i], Contradiction))
      {
        assert PairOk(v, invs, check, i, j) && Exclusive(v, invs, check, i, j, k);
      }
    }
  }

  // ----- Simulation -----

  /** What the checker assumes about walk w is implied by the program following w. */
  ghost predicate Faithful<S(!new)>(prog: Program<S>, w: seq<nat>)
    requires prog.Valid() && NoEmptyPairs(prog.g) && IsWalk(prog.g, w) && |w| > 1
  {
    DropEmptyNonEmpty(prog.g, w);
    var p := DropEmpty(prog.g, w);
    forall s :: prog.Follows(w, s) ==>
      && JumpHolds(prog, GetJumpInv(prog.g, prog.jcc, w[0], p), s)
      && CircuitHolds(prog, w[0], Rest(prog.g, w[0], p), 0, s)
  }

  /** ... for every path between cutpoints. */
  ghost predicate FaithfulBetween<S(!new)>(prog: Program<S>, cuts: seq<nat>)
    requires prog.Valid() && NoEmptyPairs(prog.g)
  {
    forall w, i, j :: 0 <= i < |cuts| && 0 <= j < |cuts| && IsPath(prog.g, cuts, i, j, w) ==> Faithful(prog, w)
  }

  ghost predicate Runs<S(!new)>(v: Setup, tp: Program<S>, rp: Program<S>) {
    && v.Valid() && tp.Valid() && rp.Valid()
    && tp.g == v.target && tp.jcc == v.tjcc && rp.g == v.rewrite && rp.jcc == v.rjcc
  }

  lemma {:induction false} EndOfCircuit<S(!new)>(prog: Program<S>, w: seq<nat>, s: S)
    requires prog.Valid() && InRange(prog.g, w) && w != []
    ensures CircuitEnd(prog, DropEmpty(prog.g, w[1..]), s) == prog.End(w, s)
    decreases |w|
  {
    if |w| > 1 {
      EndOfCircuit(prog, w[1..], prog.body(w[1], s));
      assert w[1..][1..] == w[1..][1..];
      assert w[1..][0] == w[1];
    }
  }

  /** The path handed to the checker ends where the program does. */
  lemma EndOfPath<S(!new)>(prog: Program<S>, w: seq<nat>, s: S)
    requires prog.Valid() && NoEmptyPairs(prog.g) && IsWalk(prog.g, w) && |w| > 1
    ensures DropEmpty(prog.g, w) != []
    ensures CircuitEnd(prog, Rest(prog.g, w[0], DropEmpty(prog.g, w)), s) == prog.End(w, s)
  {
    DropEmptyNonEmpty(prog.g, w);
    EndOfCircuit(prog, w, s);
  }

  /** The finiteness check makes the enumerated paths all there are. */
  lemma WalkIsPath(g: Cfg, cuts: seq<nat>, i: nat, j: nat, w: seq<nat>)
    requires g.Valid() && InRange(g, cuts) && i < |cuts| && j < |cuts|
    requires CountsAgree(g, cuts[i], cuts[j], cuts) && Avoiding(g, cuts[i], cuts[j], cuts, w)
    ensures IsPath(g, cuts, i, j, w)
  {
    FinitenessTest(g, cuts[i], cuts[j], cuts);
  }

  /** An oracle answer carries over to the programs. */
  lemma Discharge<S(!new)>(v: Setup, tp: Program<S>, rp: Program<S>, meaning: (nat, S, S) -> bool, check: Query -> bool,
                           i: nat, w: seq<nat>, x: seq<nat>, given: seq<nat>, goal: Goal, s: S, t: S)
    requires Runs(v, tp, rp) && SoundOracle(tp, rp, meaning, check) && i < |v.tcuts|
    requires IsWalk(v.target, w) && |w| > 1 && w[0] == v.tcuts[i] && Faithful(tp, w) && tp.Follows(w, s)
    requires IsWalk(v.rewrite, x) && |x| > 1 && x[0] == v.rcuts[i] && Faithful(rp, x) && rp.Follows(x, t)
    requires Holds(meaning, given, s, t) && check(Obligation(v, i, w, x, given, goal))
    ensures GoalHolds(meaning, goal, tp.End(w, s), rp.End(x, t))
  {
    hide Holds, GoalHolds, JumpHolds, CircuitHolds, CircuitEnd, Entailed, GetJumpInv, IsWalk, NoEmptyPairs;
    var q := Obligation(v, i, w, x, given, goal);
    EndOfPath(tp, w, s);
    EndOfPath(rp, x, t);
    DropEmptyNonEmpty(tp.g, w);
    DropEmptyNonEmpty(rp.g, x);
    assert WellPosed(tp.g, rp.g, q);
    FaithfulAt(tp, w, s);
    FaithfulAt(rp, x, t);
    Apply(tp, rp, meaning, q, s, t);
  }

  lemma FaithfulAt<S(!new)>(prog: Program<S>, w: seq<nat>, s: S)
    requires prog.Valid() && NoEmptyPairs(prog.g) && IsWalk(prog.g, w) && |w| > 1
    requires Faithful(prog, w) && prog.Follows(w, s)
    ensures var p := DropEmpty(prog.g, w);
            && p != [] && InRange(prog.g, p) && InRange(prog.g, Rest(prog.g, w[0], p))
            && JumpHolds(prog, GetJumpInv(prog.g, prog.jcc, w[0], p), s)
            && CircuitHolds(prog, w[0], Rest(prog.g, w[0], p), 0, s)
  {
    DropEmptyNonEmpty(prog.g, w);
  }

  lemma Apply<S(!new)>(tp: Program<S>, rp: Program<S>, meaning: (nat, S, S) -> bool, q: Query, s: S, t: S)
    requires WellPosed(tp.g, rp.g, q) && Entailed(tp, rp, meaning, q)
    requires Holds(meaning, q.given, s, t) && JumpHolds(tp, q.tjump, s) && JumpHolds(rp, q.rjump, t)
    requires CircuitHolds(tp, q.tblock, q.p, 0, s) && CircuitHolds(rp, q.rblock, q.q, 0, t)
    ensures GoalHolds(meaning, q.goal, CircuitEnd(tp, q.p, s), CircuitEnd(rp, q.q, t))
  {
    hide Holds, GoalHolds, JumpHolds, CircuitHolds, CircuitEnd;
  }

  lemma ProofParts(v: Setup, invs: seq<seq<nat>>, check: Query -> bool, i: nat, j: nat, k: nat)
    requires v.Valid() && |invs| == |v.tcuts| && ProofHolds(v, invs, check)
    requires i < |v.tcuts| && j < |v.tcuts| && k < |v.tcuts|
    ensures Finite(v, i, j) && Preserved(v, invs, check, i, j)
    ensures k != j ==> Exclusive(v, invs, check, i, j, k)
  {
    hide Finite, Preserved, Exclusive;
    assert PairOk(v, invs, check, i, j);
  }

  /** One round: from cutpoint i the two programs reach the same next cutpoint, with its
      invariant. */
  lemma SameCutpoint<S(!new)>(v: Setup, tp: Program<S>, rp: Program<S>, meaning: (nat, S, S) -> bool,
                              check: Query -> bool, invs: seq<seq<nat>>, i: nat, j: nat, k: nat,
                              w: seq<nat>, x: seq<nat>, s: S, t: S)
    requires Runs(v, tp, rp) && SoundOracle(tp, rp, meaning, check)
    requires |invs| == |v.tcuts| && ProofHolds(v, invs, check)
    requires FaithfulBetween(tp, v.tcuts) && FaithfulBetween(rp, v.rcuts)
    requires i < |v.tcuts| && j < |v.tcuts| && k < |v.tcuts| && Holds(meaning, invs[i], s, t)
    requires Avoiding(v.target, v.tcuts[i], v.tcuts[j], v.tcuts, w) && tp.Follows(w, s)
    requires Avoiding(v.rewrite, v.rcuts[i], v.rcuts[k], v.rcuts, x) && rp.Follows(x, t)
    ensures j == k && Holds(meaning, invs[j], tp.End(w, s), rp.End(x, t))
  {
    hide Avoiding, Faithful, Holds, CountsAgree, SoundOracle, ProofHolds, VisitsAtMost;
    ProofParts(v, invs, check, i, j, k);
    ProofParts(v, invs, check, i, k, k);
    WalkIsPath(v.target, v.tcuts, i, j, w);
    WalkIsPath(v.rewrite, v.rcuts, i, k, x);
    AvoidingEnds(v.target, v.tcuts[i], v.tcuts[j], v.tcuts, w);
    AvoidingEnds(v.rewrite, v.rcuts[i], v.rcuts[k], v.rcuts, x);
    if j != k {
      Discharge(v, tp, rp, meaning, check, i, w, x, invs[i], Contradiction, s, t);
      assert false;
    }
    forall m | 0 <= m < |invs[j]|
      ensures GoalHolds(meaning, Conjunct(invs[j][m]), tp.End(w, s), rp.End(x, t))
    {
      Discharge(v, tp, rp, meaning, check, i, w, x, invs[i], Conjunct(invs[j][m]), s, t);
    }
    HoldsAll(meaning, invs[j], tp.End(w, s), rp.End(x, t));
  }

  lemma AvoidingEnds(g: Cfg, a: nat, b: nat, nopass: seq<nat>, w: seq<nat>)
    requires Avoiding(g, a, b, nopass, w)
    ensures IsWalk(g, w) && |w| > 1 && w[0] == a
  {
  }

  lemma HoldsAll<S(!new)>(meaning: (nat, S, S) -> bool, ids: seq<nat>, s: S, t: S)
    requires forall m :: 0 <= m < |ids| ==> GoalHolds(meaning, Conjunct(ids[m]), s, t)
    ensures Holds(meaning, ids, s, t)
  {
  }
}
