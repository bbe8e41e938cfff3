/** The accept/reject loop of the search (src/search/search.cc) and the early-stopping cost
    evaluation it relies on (src/cost/correctness.cc). */
module Searches {

  // ----- Early-stopping evaluation -----

  function Sum(errs: seq<nat>): nat { if errs == [] then 0 else Sum(errs[..|errs| - 1]) + errs[|errs| - 1] }

  function Largest(errs: seq<nat>): nat {
    if errs == [] then 0
    else var m := Largest(errs[..|errs| - 1]); if m < errs[|errs| - 1] then errs[|errs| - 1] else m
  }

  /** The largest error is one of the errors, and no error is larger. */
  lemma {:induction false} LargestIs(errs: seq<nat>)
    ensures forall k :: 0 <= k < |errs| ==> errs[k] <= Largest(errs)
    ensures if errs == [] then Largest(errs) == 0 else exists k :: 0 <= k < |errs| && errs[k] == Largest(errs)
  {
    if errs != [] {
      var front, n := errs[..|errs| - 1], |errs| - 1;
      LargestIs(front);
      if front != [] && errs[n] <= Largest(front) {
        var k :| 0 <= k < |front| && front[k] == Largest(front);
        assert errs[k] == Largest(errs);
      } else {
        assert errs[n] == Largest(errs);
      }
    }
  }

  /** The sum changes as each of its terms does, and no terms sum up to nothing. */
  lemma {:induction false} SumIs(errs: seq<nat>, k: nat, err: nat)
    requires k < |errs|
    ensures Sum(errs[k := err]) + errs[k] == Sum(errs) + err
    ensures (forall i :: 0 <= i < |errs| ==> errs[i] == 0) ==> Sum(errs) == 0
  {
    var n := |errs| - 1;
    if k < n {
      SumIs(errs[..n], k, err);
      assert errs[k := err][..n] == errs[..n][k := err];
    } else {
      assert errs[k := err][..n] == errs[..n];
      if n > 0 {
        SumIs(errs[..n], 0, 0);
      }
    }
  }

  /** The first test case with an error among the first n, or -1. */
  ghost predicate FirstError(errs: seq<nat>, n: nat, c: int)
    requires n <= |errs|
  {
    if c < 0 then c == -1 && forall k :: 0 <= k < n ==> errs[k] == 0
    else c < n && errs[c] != 0 && forall k :: 0 <= k < c ==> errs[k] == 0
  }

  /** What a bounded evaluation promises: a result below the bound is the true cost, and otherwise
      the true cost is no less than the bound either. */
  ghost predicate Bounded(res: nat, cost: nat, max: nat) {
    (res < max ==> res == cost) && (res >= max ==> cost >= max)
  }

  /** The sum and the maximum as the loops compute them: from the first test case on, until the bound is
      reached. */
  function StoppedSum(errs: seq<nat>, max: nat): nat {
    if errs == [] then 0
    else var s := StoppedSum(errs[..|errs| - 1], max); if s < max then s + errs[|errs| - 1] else s
  }

  function StoppedMax(errs: seq<nat>, max: nat): nat {
    if errs == [] then 0
    else
      var s := StoppedMax(errs[..|errs| - 1], max);
      if s < max && s < errs[|errs| - 1] then errs[|errs| - 1] else s
  }

  lemma {:induction false} StoppedStays(errs: seq<nat>, max: nat, k: nat)
    requires k <= |errs|
    ensures StoppedSum(errs[..k], max) >= max ==> StoppedSum(errs, max) == StoppedSum(errs[..k], max)
    ensures StoppedMax(errs[..k], max) >= max ==> StoppedMax(errs, max) == StoppedMax(errs[..k], max)
  {
    if k < |errs| {
      StoppedStays(errs[..|errs| - 1], max, k);
      assert errs[..|errs| - 1][..k] == errs[..k];
    } else {
      assert errs[..k] == errs;
    }
  }

  /** The early stop keeps the promise of a bounded evaluation. */
  lemma {:induction false} StoppedBounded(errs: seq<nat>, max: nat)
    ensures Bounded(StoppedSum(errs, max), Sum(errs), max) && Bounded(StoppedMax(errs, max), Largest(errs), max)
  {
    if errs != [] {
      StoppedBounded(errs[..|errs| - 1], max);
    }
  }

  /** The evaluation looks at the first k test cases: all of them, or as many as it takes to reach the bound. */
  ghost predicate StopsSum(errs: seq<nat>, max: nat, k: nat)
    requires k <= |errs|
  {
    (k < |errs| ==> Sum(errs[..k]) >= max) && forall j: nat :: j < k ==> Sum(errs[..j]) < max
  }

  ghost predicate StopsMax(errs: seq<nat>, max: nat, k: nat)
    requires k <= |errs|
  {
    (k < |errs| ==> Largest(errs[..k]) >= max) && forall j: nat :: j < k ==> Largest(errs[..j]) < max
  }

  lemma MoreErrors(errs: seq<nat>, i: nat, max: nat)
    requires i < |errs|
    ensures Sum(errs[..i + 1]) == Sum(errs[..i]) + errs[i]
    ensures var m := Largest(errs[..i]); Largest(errs[..i + 1]) == if m < errs[i] then errs[i] else m
    ensures var s := StoppedSum(errs[..i], max); StoppedSum(errs[..i + 1], max) == if s < max then s + errs[i] else s
    ensures var s := StoppedMax(errs[..i], max);
            StoppedMax(errs[..i + 1], max) == if s < max && s < errs[i] then errs[i] else s
  {
    assert errs[..i + 1][..i] == errs[..i];
  }

  lemma FirstErrorStep(errs: seq<nat>, i: nat, c: int)
    requires i < |errs| && FirstError(errs, i, c)
    ensures FirstError(errs, i + 1, if errs[i] != 0 && c < 0 then i else c)
  {
  }

  lemma FirstErrorFound(errs: seq<nat>, i: nat, c: int)
    requires i <= |errs| && FirstError(errs, i, c)
    ensures c >= 0 ==> FirstError(errs, |errs|, c)
    ensures c < 0 ==> c == -1 && forall k :: 0 <= k < i ==> errs[k] == 0
  {
  }

  lemma SumStopped(errs: seq<nat>, max: nat, i: nat)
    requires i <= |errs| && StoppedSum(errs[..i], max) == Sum(errs[..i])
    requires (i < |errs| ==> Sum(errs[..i]) >= max) && forall j: nat :: j < i ==> Sum(errs[..j]) < max
    ensures Sum(errs[..i]) == StoppedSum(errs, max) && Bounded(Sum(errs[..i]), Sum(errs), max) && StopsSum(errs, max, i)
  {
    StoppedStays(errs, max, i);
    StoppedBounded(errs, max);
    hide Sum, StoppedSum;
    assert errs[..|errs|] == errs;
  }

  lemma MaxStopped(errs: seq<nat>, max: nat, i: nat)
    requires i <= |errs| && StoppedMax(errs[..i], max) == Largest(errs[..i])
    requires (i < |errs| ==> Largest(errs[..i]) >= max) && forall j: nat :: j < i ==> Largest(errs[..j]) < max
    ensures var res := Largest(errs[..i]);
            && res == StoppedMax(errs, max) && Bounded(res, Largest(errs), max) && StopsMax(errs, max, i)
            && (res < max ==> forall k :: 0 <= k < |errs| ==> errs[k] <= res)
  {
    LargestIs(errs);
    StoppedStays(errs, max, i);
    StoppedBounded(errs, max);
    hide Largest, StoppedMax;
    assert errs[..|errs|] == errs;
  }

  /** The early-stopped sum.  With a bound of zero no test case is looked at. */
  method SumCorrectness(errs: seq<nat>, max: nat) returns (res: nat, counterExample: int)
    ensures res == StoppedSum(errs, max) && Bounded(res, Sum(errs), max)
    ensures exists k: nat :: k <= |errs| && StopsSum(errs, max, k) && res == Sum(errs[..k])
    ensures max > 0 && counterExample < 0 ==> forall k :: 0 <= k < |errs| ==> errs[k] == 0
    ensures counterExample >= 0 ==> FirstError(errs, |errs|, counterExample)
    ensures max > 0 ==> (res == 0 <==> counterExample < 0)
    ensures max == 0 ==> res == 0 && counterExample == -1
  {
    res, counterExample := 0, -1;
    assert errs[..0] == [];
    assert StoppedSum([], max) == 0 && Sum([]) == 0 && FirstError(errs, 0, -1);
    hide StoppedSum, Sum, StopsSum, FirstError;
    var i := 0;
    while res < max && i < |errs|
      invariant 0 <= i <= |errs| && res == StoppedSum(errs[..i], max) && FirstError(errs, i, counterExample)
      invariant res == Sum(errs[..i]) && forall j: nat :: j < i ==> Sum(errs[..j]) < max
      invariant (res == 0 <==> counterExample < 0) && (max == 0 ==> i == 0)
    {
      var err := errs[i];
      ghost var before := counterExample;
      if err != 0 && counterExample < 0 {
        counterExample := i;
      }
      MoreErrors(errs, i, max);
      FirstErrorStep(errs, i, before);
      res := res + err;
      i := i + 1;
    }
    SumStopped(errs, max, i);
    FirstErrorFound(errs, i, counterExample);
  }

  /** The early-stopped maximum. */
  method MaxCorrectness(errs: seq<nat>, max: nat) returns (res: nat, counterExample: int)
    ensures res == StoppedMax(errs, max) && Bounded(res, Largest(errs), max)
    ensures exists k: nat :: k <= |errs| && StopsMax(errs, max, k) && res == Largest(errs[..k])
    ensures res < max ==> forall k :: 0 <= k < |errs| ==> errs[k] <= res
    ensures max > 0 && res > 0 ==> exists k :: 0 <= k < |errs| && errs[k] == res
    ensures max > 0 && counterExample < 0 ==> forall k :: 0 <= k < |errs| ==> errs[k] == 0
    ensures counterExample >= 0 ==> FirstError(errs, |errs|, counterExample)
    ensures max > 0 ==> (res == 0 <==> counterExample < 0)
    ensures max == 0 ==> res == 0 && counterExample == -1
  {
    res, counterExample := 0, -1;
    assert errs[..0] == [];
    assert StoppedMax([], max) == 0 && Largest([]) == 0 && FirstError(errs, 0, -1);
    hide StoppedMax, Largest, StopsMax, FirstError;
    var i := 0;
    while res < max && i < |errs|
      invariant 0 <= i <= |errs| && res == StoppedMax(errs[..i], max) && FirstError(errs, i, counterExample)
      invariant res == Largest(errs[..i]) && forall j: nat :: j < i ==> Largest(errs[..j]) < max
      invariant (res == 0 <==> counterExample < 0) && (max == 0 ==> i == 0)
      invariant res > 0 ==> exists k :: 0 <= k < i && errs[k] == res
    {
      var err := errs[i];
      ghost var before := counterExample;
      if err != 0 && counterExample < 0 {
        counterExample := i;
      }
      MoreErrors(errs, i, max);
      FirstErrorStep(errs, i, before);
      res := if res < err then err else res;
      i := i + 1;
    }
    MaxStopped(errs, max, i);
    FirstErrorFound(errs, i, counterExample);
  }

  // ----- The search -----

  /** The bound that stands for none. */
  const MAX_COST: nat := 0x4000_0000_0000_0000

  /** A cost function with a correctness verdict, and its evaluation under a bound. */
  datatype CostFunction<!T(!new)> = CostFunction(cost: T -> nat, correct: T -> bool, eval: (T, nat) -> (bool, nat)) {
    ghost predicate Valid() { forall t: T :: Evaluates(t) }

    ghost predicate Evaluates(t: T) {
      && cost(t) < MAX_COST
      && forall b: nat :: b > 0 ==> var r := eval(t, b); Bounded(r.1, cost(t), b) && (r.1 < b ==> r.0 == correct(t))
    }
  }

  /** The correctness costs built from the errors on the test cases. */
  function SumCost<T(!new)>(errs: T -> seq<nat>): CostFunction<T> {
    CostFunction((t: T) => Sum(errs(t)), (t: T) => Sum(errs(t)) == 0,
                 (t: T, b: nat) => (StoppedSum(errs(t), b) == 0, StoppedSum(errs(t), b)))
  }

  function MaxCost<T(!new)>(errs: T -> seq<nat>): CostFunction<T> {
    CostFunction((t: T) => Largest(errs(t)), (t: T) => Largest(errs(t)) == 0,
                 (t: T, b: nat) => (StoppedMax(errs(t), b) == 0, StoppedMax(errs(t), b)))
  }

  /** They are cost functions as the search needs them. */
  lemma CorrectnessIsCost<T(!new)>(errs: T -> seq<nat>)
    requires forall t: T :: Sum(errs(t)) < MAX_COST && Largest(errs(t)) < MAX_COST
    ensures SumCost(errs).Valid() && MaxCost(errs).Valid()
  {
    hide StoppedSum, StoppedMax, Sum, Largest;
    forall t: T
      ensures SumCost(errs).Evaluates(t) && MaxCost(errs).Evaluates(t)
    {
      forall b: nat | b > 0
        ensures Bounded(StoppedSum(errs(t), b), Sum(errs(t)), b) && Bounded(StoppedMax(errs(t), b), Largest(errs(t)), b)
      {
        StoppedBounded(errs(t), b);
      }
    }
  }

  /** A random move: `apply` edits a rewrite or fails, and says how `undo` can take the edit back. */
  datatype Transform<!T(!new), !I(!new), !U(!new)> = Transform(apply: (T, I) -> (bool, T, U), undo: (T, U) -> T) {
    ghost predicate Valid() { forall t: T, i: I :: Undoes(t, i) }

    ghost predicate Undoes(t: T, i: I) {
      var r := apply(t, i);
      if r.0 then undo(r.1, r.2) == t else r.1 == t
    }
  }

  /** What one iteration draws: the kind of move, its details and the acceptance threshold above the
      current cost. */
  datatype Draw<I> = Draw(move: nat, info: I, slack: real)

  datatype Statistics = Statistics(proposed: nat, succeeded: nat, accepted: nat)

  /** The least cost among the first value and the listed rewrites. */
  ghost function LeastCost<T(!new)>(first: nat, ts: seq<T>, cost: T -> nat): nat {
    if ts == [] then first
    else var m := LeastCost(first, ts[..|ts| - 1], cost); var c := cost(ts[|ts| - 1]); if c < m then c else m
  }

  ghost function CorrectOnes<T(!new)>(ts: seq<T>, correct: T -> bool): seq<T> {
    if ts == [] then []
    else CorrectOnes(ts[..|ts| - 1], correct) + if correct(ts[|ts| - 1]) then [ts[|ts| - 1]] else []
  }

  lemma {:induction false} LeastCostBounds<T(!new)>(first: nat, ts: seq<T>, cost: T -> nat, k: nat)
    requires k < |ts|
    ensures LeastCost(first, ts, cost) <= cost(ts[k]) && LeastCost(first, ts, cost) <= first
  {
    if k < |ts| - 1 {
      LeastCostBounds(first, ts[..|ts| - 1], cost, k);
    } else if |ts| > 1 {
      LeastCostBounds(first, ts[..|ts| - 1], cost, 0);
    }
  }

  /** The reference search: costs are evaluated in full, edits are made on a copy, and a proposal is
      taken exactly when its cost is within the threshold; it ends at cost zero.  The result lists the
      rewrites taken. */
  ghost function Taken<T(!new), I(!new), U(!new)>(f: CostFunction<T>, tr: Transform<T, I, U>, t: T, draws: seq<Draw<I>>)
    : seq<T>
  {
    if draws == [] then []
    else
      var taken := Taken(f, tr, t, draws[..|draws| - 1]);
      var now, d := LastOf(t, taken), draws[|draws| - 1];
      var (ok, next, _) := tr.apply(now, d.info);
      if f.cost(now) > 0 && ok && f.cost(next) as real <= f.cost(now) as real + d.slack then taken + [next] else taken
  }

  ghost function LastOf<T>(t: T, taken: seq<T>): T { if taken == [] then t else taken[|taken| - 1] }

  ghost predicate Improved<T(!new)>(first: nat, ts: seq<T>, cost: T -> nat) {
    LeastCost(first, ts, cost) < first || HasFree(ts, cost)
  }

  ghost predicate HasFree<T(!new)>(ts: seq<T>, cost: T -> nat) { exists t :: t in ts && cost(t) == 0 }

  class SearchState<!T(!new)> {
    var current: T
    var currentCost: nat
    var bestYet: T
    var bestYetCost: nat
    var bestCorrect: T
    var bestCorrectCost: nat
    var success: bool

    constructor (current: T, bestYet: T, bestCorrect: T)
      ensures this.current == current && this.bestYet == bestYet && this.bestCorrect == bestCorrect
    {
      this.current, this.bestYet, this.bestCorrect := current, bestYet, bestCorrect;
      currentCost, bestYetCost, bestCorrectCost, success := 0, 0, 0, false;
    }

    /** What holds after the rewrites in `taken` were accepted, with best rewrites yet and correct at the
        start. */
    ghost predicate Tracks(f: CostFunction<T>, yet: T, correct: T, taken: seq<T>)
      reads this
    {
      && currentCost == f.cost(current) && bestYetCost <= currentCost
      && Best(f.cost, yet, taken, bestYet, bestYetCost)
      && Best(f.cost, correct, CorrectOnes(taken, f.correct), bestCorrect, bestCorrectCost) && f.correct(bestCorrect)
      && (success <==> Improved(f.cost(correct), CorrectOnes(taken, f.correct), f.cost))
    }

    /** The initial costs; no cost reaches the default bound. */
    method Configure(f: CostFunction<T>)
      requires f.Valid() && f.correct(bestCorrect) && f.cost(bestYet) <= f.cost(current)
      modifies this`currentCost, this`bestYetCost, this`bestCorrectCost, this`success
      ensures Tracks(f, bestYet, bestCorrect, [])
    {
      assert f.Evaluates(current) && f.Evaluates(bestYet) && f.Evaluates(bestCorrect);
      currentCost := f.eval(current, MAX_COST).1;
      bestYetCost := f.eval(bestYet, MAX_COST).1;
      bestCorrectCost := f.eval(bestCorrect, MAX_COST).1;
      success := false;
    }

    /** Record an accepted rewrite. */
    method Accept(f: CostFunction<T>, newCost: nat, isCorrect: bool,
                  ghost yet: T, ghost correct: T, ghost taken: seq<T>)
      requires newCost == f.cost(current) && isCorrect == f.correct(current)
      requires Best(f.cost, yet, taken, bestYet, bestYetCost)
      requires Best(f.cost, correct, CorrectOnes(taken, f.correct), bestCorrect, bestCorrectCost)
      requires f.correct(bestCorrect)
      requires success <==> Improved(f.cost(correct), CorrectOnes(taken, f.correct), f.cost)
      modifies this`currentCost, this`bestYet, this`bestYetCost, this`bestCorrect, this`bestCorrectCost, this`success
      ensures Tracks(f, yet, correct, taken + [current])
    {
      hide CorrectOnes, Improved, Best;
      currentCost := newCost;
      BestStep(f.cost, yet, taken, bestYet, bestYetCost, current);
      BestFirst(f.cost, yet, taken, bestYet, bestYetCost);
      if newCost < bestYetCost {
        bestYet, bestYetCost := current, newCost;
      }
      ghost var ones := CorrectOnes(taken, f.correct);
      CorrectOnesStep(taken, current, f.correct);
      BestStep(f.cost, correct, ones, bestCorrect, bestCorrectCost, current);
      BestFirst(f.cost, correct, ones, bestCorrect, bestCorrectCost);
      ImprovedStep(f.cost(correct), ones, current, f.cost);
      if isCorrect && (newCost == 0 || newCost < bestCorrectCost) {
        success, bestCorrect, bestCorrectCost := true, current, newCost;
      }
    }
  }

  /** `best` is one of the rewrites, at the least of their costs. */
  ghost predicate Best<T(!new)>(cost: T -> nat, first: T, ts: seq<T>, best: T, bestCost: nat) {
    best in [first] + ts && bestCost == cost(best) == LeastCost(cost(first), ts, cost)
  }

  lemma BestStep<T(!new)>(cost: T -> nat, first: T, ts: seq<T>, best: T, bestCost: nat, t: T)
    requires Best(cost, first, ts, best, bestCost)
    ensures cost(t) < bestCost ==> Best(cost, first, ts + [t], t, cost(t))
    ensures cost(t) >= bestCost ==> Best(cost, first, ts + [t], best, bestCost)
    ensures cost(t) == bestCost ==> Best(cost, first, ts + [t], t, cost(t))
  {
    LeastCostStep(cost(first), ts, t, cost);
    hide LeastCost;
    assert [first] + (ts + [t]) == ([first] + ts) + [t];
  }

  lemma BestFirst<T(!new)>(cost: T -> nat, first: T, ts: seq<T>, best: T, bestCost: nat)
    requires Best(cost, first, ts, best, bestCost)
    ensures bestCost == LeastCost(cost(first), ts, cost)
  {
  }

  /** No rewrite in the list is cheaper than the best one. */
  lemma BestIsLeast<T(!new)>(cost: T -> nat, first: T, ts: seq<T>, best: T, bestCost: nat)
    requires Best(cost, first, ts, best, bestCost)
    ensures bestCost <= cost(first) && forall t :: t in ts ==> bestCost <= cost(t)
  {
    LeastCostFirst(cost(first), ts, cost);
    forall t | t in ts
      ensures bestCost <= cost(t)
    {
      var k :| 0 <= k < |ts| && ts[k] == t;
      LeastCostBounds(cost(first), ts, cost, k);
    }
  }

  lemma LeastCostStep<T(!new)>(first: nat, ts: seq<T>, t: T, cost: T -> nat)
    ensures var m := LeastCost(first, ts, cost); LeastCost(first, ts + [t], cost) == if cost(t) < m then cost(t) else m
  {
    assert (ts + [t])[..|ts|] == ts;
  }

  /** The best rewrite is the first one or in the list, and its cost is the recorded one. */
  lemma BestIsOne<T(!new)>(cost: T -> nat, first: T, ts: seq<T>, best: T, bestCost: nat)
    requires Best(cost, first, ts, best, bestCost)
    ensures (best == first || best in ts) && bestCost == cost(best)
  {
  }

  lemma CorrectOnesStep<T(!new)>(ts: seq<T>, t: T, correct: T -> bool)
    ensures CorrectOnes(ts + [t], correct) ==
            if correct(t) then CorrectOnes(ts, correct) + [t] else CorrectOnes(ts, correct)
  {
    assert (ts + [t])[..|ts|] == ts;
  }

  lemma {:induction false} LeastCostFirst<T(!new)>(first: nat, ts: seq<T>, cost: T -> nat)
    ensures LeastCost(first, ts, cost) <= first
  {
    if ts != [] {
      LeastCostFirst(first, ts[..|ts| - 1], cost);
    }
  }

  lemma ImprovedStep<T(!new)>(first: nat, ts: seq<T>, t: T, cost: T -> nat)
    ensures Improved(first, ts + [t], cost) <==>
            Improved(first, ts, cost) || cost(t) == 0 || cost(t) < LeastCost(first, ts, cost)
  {
    LeastCostFirst(first, ts, cost);
    LeastCostStep(first, ts, t, cost);
    hide LeastCost;
    FreeStep(ts, t, cost);
  }

  lemma FreeStep<T(!new)>(ts: seq<T>, t: T, cost: T -> nat)
    ensures HasFree(ts + [t], cost) <==> HasFree(ts, cost) || cost(t) == 0
  {
    assert t in ts + [t];
    assert forall x :: x in ts ==> x in ts + [t];
  }

  ghost predicate Ordered(stats: seq<Statistics>) {
    forall m :: 0 <= m < |stats| ==> stats[m].proposed >= stats[m].succeeded >= stats[m].accepted
  }

  lemma TakenStep<T(!new), I(!new), U(!new)>(f: CostFunction<T>, tr: Transform<T, I, U>,
                                             t: T, draws: seq<Draw<I>>, d: Draw<I>)
    ensures var taken := Taken(f, tr, t, draws);
            var now := LastOf(t, taken);
            var r := tr.apply(now, d.info);
            Taken(f, tr, t, draws + [d]) ==
            if f.cost(now) > 0 && r.0 && f.cost(r.1) as real <= f.cost(now) as real + d.slack
            then taken + [r.1] else taken
  {
    assert (draws + [d])[..|draws|] == draws;
  }

  /** One iteration: propose, evaluate under the threshold, and keep or undo. */
  method Iterate<T(!new), I(!new), U(!new)>(s: SearchState<T>, f: CostFunction<T>, tr: Transform<T, I, U>, d: Draw<I>,
                                            ghost start: T, ghost yet: T, ghost correct: T, ghost draws: seq<Draw<I>>)
    returns (succeeded: bool, accepted: bool)
    requires f.Valid() && tr.Valid() && s.currentCost > 0
    requires var taken := Taken(f, tr, start, draws);
             s.current == LastOf(start, taken) && s.Tracks(f, yet, correct, taken)
    modifies s
    ensures var taken := Taken(f, tr, start, draws + [d]);
            s.current == LastOf(start, taken) && s.Tracks(f, yet, correct, taken)
    ensures var r := tr.apply(old(s.current), d.info);
            && succeeded == r.0
            && (accepted <==> r.0 && f.cost(r.1) as real <= f.cost(old(s.current)) as real + d.slack)
            && s.current == (if accepted then r.1 else old(s.current))
  {
    hide LeastCost, CorrectOnes, Improved, Taken, Best, CostFunction.Valid;
    ghost var taken := Taken(f, tr, start, draws);
    TakenStep(f, tr, start, draws, d);
    assert tr.Undoes(s.current, d.info);
    var (success, next, undo) := tr.apply(s.current, d.info);
    s.current := next;
    if !success {
      return false, false;
    }
    var max := s.currentCost as real + d.slack;
    var (isCorrect, newCost) := f.eval(s.current, Bound(max));
    BoundDecides(f, s.current, max);
    if newCost as real > max {
      s.current := tr.undo(s.current, undo);
      return true, false;
    }
    s.Accept(f, newCost, isCorrect, yet, correct, taken);
    return true, true;
  }

  // ----- Statistics -----

  /** Before draw k the reference search proposes an edit that succeeds, and takes it. */
  ghost predicate Succeeds<T(!new), I(!new), U(!new)>(f: CostFunction<T>, tr: Transform<T, I, U>,
                                                      t: T, draws: seq<Draw<I>>, k: nat)
    requires k < |draws|
  {
    tr.apply(LastOf(t, Taken(f, tr, t, draws[..k])), draws[k].info).0
  }

  ghost predicate Accepts<T(!new), I(!new), U(!new)>(f: CostFunction<T>, tr: Transform<T, I, U>,
                                                     t: T, draws: seq<Draw<I>>, k: nat)
    requires k < |draws|
  {
    Taken(f, tr, t, draws[..k + 1]) != Taken(f, tr, t, draws[..k])
  }

  /** The iterations among the first n that propose a move of kind m, those where the edit succeeds, and
      those where it is taken. */
  ghost function Proposed<I(!new)>(draws: seq<Draw<I>>, n: nat, m: nat): (r: set<nat>)
    requires n <= |draws|
    ensures forall k: nat :: k in r <==> k < n && draws[k].move == m
  {
    set k: nat | k < n && draws[k].move == m
  }

  ghost function Succeeded<T(!new), I(!new), U(!new)>(f: CostFunction<T>, tr: Transform<T, I, U>,
                                                      t: T, draws: seq<Draw<I>>, n: nat, m: nat): (r: set<nat>)
    requires n <= |draws|
    ensures forall k: nat :: k in r <==> k < n && draws[k].move == m && Succeeds(f, tr, t, draws, k)
  {
    set k: nat | k < n && draws[k].move == m && Succeeds(f, tr, t, draws, k)
  }

  ghost function Accepted<T(!new), I(!new), U(!new)>(f: CostFunction<T>, tr: Transform<T, I, U>,
                                                     t: T, draws: seq<Draw<I>>, n: nat, m: nat): (r: set<nat>)
    requires n <= |draws|
    ensures forall k: nat :: k in r <==> k < n && draws[k].move == m && Accepts(f, tr, t, draws, k)
  {
    set k: nat | k < n && draws[k].move == m && Accepts(f, tr, t, draws, k)
  }

  /** The counts per kind of move after n iterations. */
  ghost predicate Counted<T(!new), I(!new), U(!new)>(f: CostFunction<T>, tr: Transform<T, I, U>, t: T,
                                                     draws: seq<Draw<I>>, n: nat, stats: seq<Statistics>)
    requires n <= |draws|
  {
    forall m: nat :: m < |stats| ==> CountedFor(f, tr, t, draws, n, m, stats[m])
  }

  ghost predicate CountedFor<T(!new), I(!new), U(!new)>(f: CostFunction<T>, tr: Transform<T, I, U>, t: T,
                                                        draws: seq<Draw<I>>, n: nat, m: nat, stats: Statistics)
    requires n <= |draws|
  {
    && stats.proposed == |Proposed(draws, n, m)|
    && stats.succeeded == |Succeeded(f, tr, t, draws, n, m)|
    && stats.accepted == |Accepted(f, tr, t, draws, n, m)|
  }

  /** One more iteration counts for the kind of move it draws. */
  lemma CountedStep<T(!new), I(!new), U(!new)>(f: CostFunction<T>, tr: Transform<T, I, U>, t: T,
                                               draws: seq<Draw<I>>, n: nat, stats: seq<Statistics>)
    requires n < |draws| && draws[n].move < |stats| && Counted(f, tr, t, draws, n, stats)
    ensures var m := draws[n].move;
            var st := Count(stats[m], Succeeds(f, tr, t, draws, n), Accepts(f, tr, t, draws, n));
            Counted(f, tr, t, draws, n + 1, stats[m := st])
  {
    hide Succeeds, Accepts, Proposed, Succeeded, Accepted;
    var all := stats[draws[n].move :=
      Count(stats[draws[n].move], Succeeds(f, tr, t, draws, n), Accepts(f, tr, t, draws, n))];
    forall m: nat | m < |all|
      ensures CountedFor(f, tr, t, draws, n + 1, m, all[m])
    {
      assert CountedFor(f, tr, t, draws, n, m, stats[m]);
      CountedMore(f, tr, t, draws, n, m);
    }
  }

  lemma CountedMore<T(!new), I(!new), U(!new)>(f: CostFunction<T>, tr: Transform<T, I, U>,
                                               t: T, draws: seq<Draw<I>>, n: nat, m: nat)
    requires n < |draws|
    ensures |Proposed(draws, n + 1, m)| == |Proposed(draws, n, m)| + if draws[n].move == m then 1 else 0
    ensures |Succeeded(f, tr, t, draws, n + 1, m)| == |Succeeded(f, tr, t, draws, n, m)| +
            if draws[n].move == m && Succeeds(f, tr, t, draws, n) then 1 else 0
    ensures |Accepted(f, tr, t, draws, n + 1, m)| == |Accepted(f, tr, t, draws, n, m)| +
            if draws[n].move == m && Accepts(f, tr, t, draws, n) then 1 else 0
  {
    hide Succeeds, Accepts;
    OneMore(Proposed(draws, n, m), Proposed(draws, n + 1, m), n);
    OneMore(Succeeded(f, tr, t, draws, n, m), Succeeded(f, tr, t, draws, n + 1, m), n);
    OneMore(Accepted(f, tr, t, draws, n, m), Accepted(f, tr, t, draws, n + 1, m), n);
  }

  lemma OneMore(p: set<nat>, q: set<nat>, n: nat)
    requires forall k :: k in p ==> k < n
    requires forall k :: k in q ==> k <= n
    requires forall k: nat :: k < n ==> (k in p <==> k in q)
    ensures |q| == |p| + if n in q then 1 else 0
  {
    assert n !in p;
    if n in q {
      assert q == p + {n};
    } else {
      assert q == p;
    }
  }

  lemma NothingCounted<T(!new), I(!new), U(!new)>(f: CostFunction<T>, tr: Transform<T, I, U>,
                                                  t: T, draws: seq<Draw<I>>, moves: nat)
    ensures Counted(f, tr, t, draws, 0, seq(moves, m => Statistics(0, 0, 0)))
  {
    hide Succeeds, Accepts, Proposed, Succeeded, Accepted;
    forall m: nat | m < moves
      ensures CountedFor(f, tr, t, draws, 0, m, Statistics(0, 0, 0))
    {
      assert Proposed(draws, 0, m) == {} && Succeeded(f, tr, t, draws, 0, m) == {};
      assert Accepted(f, tr, t, draws, 0, m) == {};
    }
  }

  /** The counts of accepted moves add up to the number of rewrites taken, those of proposed moves to the
      number of iterations. */
  ghost function Total(stats: seq<Statistics>, count: Statistics -> nat): nat {
    if stats == [] then 0 else Total(stats[..|stats| - 1], count) + count(stats[|stats| - 1])
  }

  lemma {:induction false} TotalUpdate(stats: seq<Statistics>, count: Statistics -> nat, m: nat, st: Statistics)
    requires m < |stats|
    ensures Total(stats[m := st], count) + count(stats[m]) == Total(stats, count) + count(st)
  {
    var n := |stats| - 1;
    if m < n {
      TotalUpdate(stats[..n], count, m, st);
      assert stats[m := st][..n] == stats[..n][m := st];
    } else {
      assert stats[m := st][..n] == stats[..n];
    }
  }

  lemma {:induction false} TotalZero(moves: nat, count: Statistics -> nat)
    requires count(Statistics(0, 0, 0)) == 0
    ensures Total(seq(moves, m => Statistics(0, 0, 0)), count) == 0
  {
    var stats := seq(moves, m => Statistics(0, 0, 0));
    if moves > 0 {
      TotalZero(moves - 1, count);
      assert stats[..moves - 1] == seq(moves - 1, m => Statistics(0, 0, 0));
    }
  }

  /** The numbers of iterations and of rewrites taken. */
  ghost predicate AddsUp(stats: seq<Statistics>, iterations: nat, taken: nat) {
    && Total(stats, (st: Statistics) => st.proposed) == iterations
    && Total(stats, (st: Statistics) => st.accepted) == taken
  }

  lemma AddsUpStep(stats: seq<Statistics>, iterations: nat, taken: nat, m: nat, succeeded: bool, accepted: bool)
    requires m < |stats| && AddsUp(stats, iterations, taken)
    ensures AddsUp(stats[m := Count(stats[m], succeeded, accepted)], iterations + 1, if accepted then taken + 1
            else taken)
  {
    TotalUpdate(stats, (st: Statistics) => st.proposed, m, Count(stats[m], succeeded, accepted));
    TotalUpdate(stats, (st: Statistics) => st.accepted, m, Count(stats[m], succeeded, accepted));
  }

  function Count(s: Statistics, succeeded: bool, accepted: bool): Statistics {
    Statistics(s.proposed + 1, s.succeeded + (if succeeded then 1 else 0), s.accepted + (if accepted then 1 else 0))
  }

  /** What the statistics say after i iterations. */
  ghost predicate Records<T(!new), I(!new), U(!new)>(f: CostFunction<T>, tr: Transform<T, I, U>, t: T,
                                                     draws: seq<Draw<I>>, i: nat, stats: seq<Statistics>)
    requires i <= |draws|
  {
    && Ordered(stats) && Counted(f, tr, t, draws, i, stats)
    && AddsUp(stats, i, |Taken(f, tr, t, draws[..i])|)
  }

  /** Iterations until the draws run out or the cost is zero. */
  method Loop<T(!new), I(!new), U(!new)>(s: SearchState<T>, f: CostFunction<T>,
                                         tr: Transform<T, I, U>, draws: seq<Draw<I>>, moves: nat,
                                         ghost start: T, ghost yet: T, ghost correct: T)
    returns (stats: seq<Statistics>, iterations: nat)
    requires f.Valid() && tr.Valid() && (forall k :: 0 <= k < |draws| ==> draws[k].move < moves)
    requires s.current == start && s.Tracks(f, yet, correct, [])
    modifies s
    ensures |stats| == moves && iterations <= |draws| && Records(f, tr, start, draws, iterations, stats)
    ensures iterations < |draws| ==> f.cost(s.current) == 0
    ensures var taken := Taken(f, tr, start, draws);
            && s.current == LastOf(start, taken) && s.Tracks(f, yet, correct, taken)
            && Taken(f, tr, start, draws[..iterations]) == taken
  {
    hide CostFunction.Valid, Transform.Valid, LeastCost, CorrectOnes, Improved, Best, Records;
    stats := seq(moves, m => Statistics(0, 0, 0));
    assert draws[..0] == [] && Taken(f, tr, start, []) == [];
    NothingRecorded(f, tr, start, draws, moves);
    hide Taken, LastOf, Count;
    var i: nat := 0;
    while i < |draws| && s.currentCost > 0
      invariant 0 <= i <= |draws| && |stats| == moves && Records(f, tr, start, draws, i, stats)
      invariant s.current == LastOf(start, Taken(f, tr, start, draws[..i]))
      invariant s.Tracks(f, yet, correct, Taken(f, tr, start, draws[..i]))
    {
      var d := draws[i];
      assert draws[..i + 1] == draws[..i] + [d];
      var succeeded, accepted := Iterate(s, f, tr, d, start, yet, correct, draws[..i]);
      RecordsStep(f, tr, start, draws, i, stats, succeeded, accepted);
      stats := stats[d.move := Count(stats[d.move], succeeded, accepted)];
      i := i + 1;
    }
    iterations := i;
    assert draws[..|draws|] == draws;
    if i < |draws| {
      Finished(f, tr, start, draws, i);
    }
  }

  lemma NothingRecorded<T(!new), I(!new), U(!new)>(f: CostFunction<T>, tr: Transform<T, I, U>,
                                                   t: T, draws: seq<Draw<I>>, moves: nat)
    ensures Records(f, tr, t, draws, 0, seq(moves, m => Statistics(0, 0, 0)))
  {
    assert draws[..0] == [] && Taken(f, tr, t, draws[..0]) == [];
    hide Taken;
    NothingCounted(f, tr, t, draws, moves);
    TotalZero(moves, (st: Statistics) => st.proposed);
    TotalZero(moves, (st: Statistics) => st.accepted);
  }

  lemma RecordsStep<T(!new), I(!new), U(!new)>(f: CostFunction<T>, tr: Transform<T, I, U>, t: T, draws: seq<Draw<I>>,
                                               i: nat, stats: seq<Statistics>, succeeded: bool, accepted: bool)
    requires i < |draws| && f.cost(LastOf(t, Taken(f, tr, t, draws[..i]))) > 0
    requires var now := LastOf(t, Taken(f, tr, t, draws[..i]));
             var r := tr.apply(now, draws[i].info);
             && succeeded == r.0
             && (accepted <==> r.0 && f.cost(r.1) as real <= f.cost(now) as real + draws[i].slack)
    requires draws[i].move < |stats| && Records(f, tr, t, draws, i, stats)
    ensures Records(f, tr, t, draws, i + 1, stats[draws[i].move := Count(stats[draws[i].move], succeeded, accepted)])
  {
    hide Taken, LastOf, Counted, AddsUp, Succeeds, Accepts;
    IterationMeans(f, tr, t, draws, i, succeeded, accepted);
    CountedStep(f, tr, t, draws, i, stats);
    AddsUpStep(stats, i, |Taken(f, tr, t, draws[..i])|, draws[i].move, succeeded, accepted);
  }

  /** What an iteration reports is what the reference search does. */
  lemma IterationMeans<T(!new), I(!new), U(!new)>(f: CostFunction<T>, tr: Transform<T, I, U>, t: T,
                                                  draws: seq<Draw<I>>, i: nat, succeeded: bool, accepted: bool)
    requires i < |draws| && f.cost(LastOf(t, Taken(f, tr, t, draws[..i]))) > 0
    requires var now := LastOf(t, Taken(f, tr, t, draws[..i]));
             var r := tr.apply(now, draws[i].info);
             && succeeded == r.0
             && (accepted <==> r.0 && f.cost(r.1) as real <= f.cost(now) as real + draws[i].slack)
    ensures succeeded == Succeeds(f, tr, t, draws, i) && accepted == Accepts(f, tr, t, draws, i)
    ensures |Taken(f, tr, t, draws[..i + 1])| == |Taken(f, tr, t, draws[..i])| + if accepted then 1 else 0
  {
    assert draws[..i + 1] == draws[..i] + [draws[i]];
    TakenStep(f, tr, t, draws[..i], draws[i]);
    hide Taken;
  }

  /** The search over the draws made before it is stopped: although it stops evaluations early and
      edits in place, it takes the rewrites of the reference search, knows their true costs, and keeps
      the best ones, which are among those seen.  It never checks the correctness of a start of cost
      zero, for which it reports one iteration. */
  method Run<T(!new), I(!new), U(!new)>(s: SearchState<T>, f: CostFunction<T>,
                                        tr: Transform<T, I, U>, draws: seq<Draw<I>>, moves: nat)
    returns (stats: seq<Statistics>, iterations: nat)
    requires f.Valid() && tr.Valid() && (forall k :: 0 <= k < |draws| ==> draws[k].move < moves)
    requires f.correct(s.bestCorrect) && f.cost(s.bestYet) <= f.cost(s.current)
    modifies s
    ensures |stats| == moves && Ordered(stats)
    ensures f.cost(old(s.current)) > 0 ==> iterations <= |draws| && (iterations < |draws| ==> f.cost(s.current) == 0)
    ensures f.cost(old(s.current)) > 0 ==>
              (Counted(f, tr, old(s.current), draws, iterations, stats) &&
               AddsUp(stats, iterations, |Taken(f, tr, old(s.current), draws)|))
    ensures f.cost(old(s.current)) == 0 ==> iterations == 1 && stats == seq(moves, m => Statistics(0, 0, 0))
    ensures s.current == LastOf(old(s.current), Taken(f, tr, old(s.current), draws))
    ensures f.cost(old(s.current)) > 0 ==>
      s.Tracks(f, old(s.bestYet), old(s.bestCorrect), Taken(f, tr, old(s.current), draws))
    ensures f.cost(old(s.current)) > 0 ==>
      var taken := Taken(f, tr, old(s.current), draws);
      && s.currentCost == f.cost(s.current)
      && s.bestYet in [old(s.bestYet)] + taken && s.bestYetCost == f.cost(s.bestYet) <= f.cost(old(s.bestYet))
      && (forall t :: t in taken ==> s.bestYetCost <= f.cost(t))
    ensures f.cost(old(s.current)) > 0 ==>
      var taken := Taken(f, tr, old(s.current), draws);
      && s.bestCorrect in [old(s.bestCorrect)] + taken && f.correct(s.bestCorrect)
      && s.bestCorrectCost == f.cost(s.bestCorrect) <= f.cost(old(s.bestCorrect))
      && (forall t :: t in taken && f.correct(t) ==> s.bestCorrectCost <= f.cost(t))
      && (s.success <==> exists t :: t in taken && f.correct(t) &&
                           (f.cost(t) == 0 || f.cost(t) < f.cost(old(s.bestCorrect))))
    ensures f.cost(old(s.current)) == 0 ==>
            s.success && s.bestCorrect == s.current == old(s.current) && s.bestCorrectCost == 0
  {
    hide Taken, CorrectOnes, Improved, LeastCost, Best, Counted, AddsUp;
    ghost var start, yet, correct := s.current, s.bestYet, s.bestCorrect;
    s.Configure(f);
    if s.currentCost == 0 {
      stats, iterations := seq(moves, m => Statistics(0, 0, 0)), 1;
      s.success, s.bestCorrect, s.bestCorrectCost := true, s.current, 0;
      NothingTaken(f, tr, start, draws);
      return;
    }
    stats, iterations := Loop(s, f, tr, draws, moves, start, yet, correct);
    ghost var taken := Taken(f, tr, start, draws);
    BestIsOne(f.cost, yet, taken, s.bestYet, s.bestYetCost);
    BestIsOne(f.cost, correct, CorrectOnes(taken, f.correct), s.bestCorrect, s.bestCorrectCost);
    BestIsLeast(f.cost, yet, taken, s.bestYet, s.bestYetCost);
    BestIsLeast(f.cost, correct, CorrectOnes(taken, f.correct), s.bestCorrect, s.bestCorrectCost);
    CorrectOnesAre(taken, f.correct);
    ImprovedMeans(f.cost(correct), CorrectOnes(taken, f.correct), f.cost);
  }

  lemma {:induction false} CorrectOnesAre<T(!new)>(ts: seq<T>, correct: T -> bool)
    ensures forall t :: t in CorrectOnes(ts, correct) <==> t in ts && correct(t)
  {
    if ts != [] {
      CorrectOnesAre(ts[..|ts| - 1], correct);
      assert ts == ts[..|ts| - 1] + [ts[|ts| - 1]];
    }
  }

  lemma ImprovedMeans<T(!new)>(first: nat, ts: seq<T>, cost: T -> nat)
    ensures Improved(first, ts, cost) <==> exists t :: t in ts && (cost(t) == 0 || cost(t) < first)
  {
    LeastCostAttained(first, ts, cost);
    forall t | t in ts
      ensures LeastCost(first, ts, cost) <= cost(t)
    {
      var k :| 0 <= k < |ts| && ts[k] == t;
      LeastCostBounds(first, ts, cost, k);
    }
    hide LeastCost;
  }

  lemma {:induction false} LeastCostAttained<T(!new)>(first: nat, ts: seq<T>, cost: T -> nat)
    ensures LeastCost(first, ts, cost) == first || exists t :: t in ts && cost(t) == LeastCost(first, ts, cost)
  {
    if ts != [] {
      LeastCostAttained(first, ts[..|ts| - 1], cost);
      assert ts == ts[..|ts| - 1] + [ts[|ts| - 1]];
    }
  }

  lemma NothingTaken<T(!new), I(!new), U(!new)>(f: CostFunction<T>, tr: Transform<T, I, U>, t: T, draws: seq<Draw<I>>)
    requires f.cost(t) == 0
    ensures Taken(f, tr, t, draws) == []
  {
    assert draws[..0] == [];
    Finished(f, tr, t, draws, 0);
  }

  /** The bound handed to the cost function for threshold `max`: max + 1 as an unsigned integer. */
  function Bound(max: real): nat { if max + 1.0 < 0.0 then 0 else (max + 1.0).Floor }

  /** Early stopping never changes the verdict, and an accepted cost is exact. */
  lemma BoundDecides<T(!new)>(f: CostFunction<T>, t: T, max: real)
    requires f.Valid()
    ensures var r := f.eval(t, Bound(max));
            && (r.1 as real > max <==> f.cost(t) as real > max)
            && (r.1 as real <= max ==> r == (f.correct(t), f.cost(t)))
  {
    var b, r := Bound(max), f.eval(t, Bound(max));
    assert f.Evaluates(t);
    if max >= 0.0 {
      assert b > 0 && b as real > max;
      assert Bounded(r.1, f.cost(t), b);
    }
  }

  /** Once the cost is zero nothing more is taken. */
  lemma {:induction false} Finished<T(!new), I(!new), U(!new)>(f: CostFunction<T>,
          tr: Transform<T, I, U>, t: T, draws: seq<Draw<I>>, i: nat)
    requires i <= |draws| && f.cost(LastOf(t, Taken(f, tr, t, draws[..i]))) == 0
    ensures Taken(f, tr, t, draws) == Taken(f, tr, t, draws[..i])
  {
    if i < |draws| {
      var rest := draws[..|draws| - 1];
      assert rest[..i] == draws[..i];
      Finished(f, tr, t, rest, i);
    } else {
      assert draws[..i] == draws;
    }
  }
}
