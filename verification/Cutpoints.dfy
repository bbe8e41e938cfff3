/** Choice of cutpoints (src/validator/cutpoints.cc): one block per loop and program, matched in
    every possible way, and why such a choice cuts every cycle once the finiteness test passes. */
module Cutpoints {
  import opened Graph
  import opened Paths
  import opened Sccs
  import opened Ddec
  import opened Simulation

  // ----- Permutations -----

  /** The numbers below n, once each. */
  ghost function Range(n: nat): multiset<nat> {
    if n == 0 then multiset{} else Range(n - 1) + multiset{n - 1}
  }

  ghost predicate IsPermutation(p: seq<nat>, n: nat) {
    multiset(p) == Range(n)
  }

  lemma {:induction false} RangeCount(n: nat, k: nat)
    ensures Range(n)[k] == if k < n then 1 else 0
  {
    if n > 0 {
      RangeCount(n - 1, k);
    }
  }

  function Insert(p: seq<nat>, i: nat, x: nat): seq<nat>
    requires i <= |p|
  {
    p[..i] + [x] + p[i..]
  }

  /** x inserted at each of the first m places of p. */
  function Inserts(p: seq<nat>, x: nat, m: nat): seq<seq<nat>>
    requires m <= |p| + 1
  {
    if m == 0 then [] else Inserts(p, x, m - 1) + [Insert(p, m - 1, x)]
  }

  function InsertsAll(ps: seq<seq<nat>>, x: nat): seq<seq<nat>> {
    if ps == [] then [] else InsertsAll(ps[..|ps| - 1], x) + Inserts(ps[|ps| - 1], x, |ps[|ps| - 1]| + 1)
  }

  function Permutations(n: nat): seq<seq<nat>>
    requires n > 0
  {
    if n == 1 then [[0]] else InsertsAll(Permutations(n - 1), n - 1)
  }

  /** p without its first x, and where that x was. */
  function Position(p: seq<nat>, x: nat): (i: nat)
    requires x in p
    ensures i < |p| && p[i] == x && x !in p[..i]
  {
    if p[0] == x then 0
    else
      var i := Position(p[1..], x) + 1;
      assert p[..i] == [p[0]] + p[1..][..i - 1];
      i
  }

  function Without(p: seq<nat>, x: nat): seq<nat>
    requires x in p
  {
    p[..Position(p, x)] + p[Position(p, x) + 1..]
  }

  lemma InsertInverse(p: seq<nat>, i: nat, x: nat)
    requires i <= |p| && x !in p
    ensures x in Insert(p, i, x) && Position(Insert(p, i, x), x) == i && Without(Insert(p, i, x), x) == p
  {
    var q := Insert(p, i, x);
    assert q[i] == x;
    var k := Position(q, x);
    assert forall h :: 0 <= h < |q| && h != i ==> q[h] in p;
    assert k == i;
  }

  lemma InsertBack(q: seq<nat>, x: nat)
    requires x in q
    ensures Insert(Without(q, x), Position(q, x), x) == q
    ensures multiset(q) == multiset(Without(q, x)) + multiset{x}
  {
    hide Position;
    var i := Position(q, x);
    SplitAt(q, i);
  }

  lemma SplitAt(q: seq<nat>, i: nat)
    requires i < |q|
    ensures q == q[..i] + [q[i]] + q[i + 1..]
    ensures multiset(q) == multiset(q[..i] + q[i + 1..]) + multiset{q[i]}
    ensures var p := q[..i] + q[i + 1..]; p[..i] == q[..i] && p[i..] == q[i + 1..]
  {
    assert q == q[..i] + [q[i]] + q[i + 1..];
  }

  /** Among the insertions of x into p, q appears once if removing x from q gives p. */
  lemma {:induction false} InsertsCount(p: seq<nat>, x: nat, m: nat, q: seq<nat>)
    requires m <= |p| + 1 && x !in p
    ensures multiset(Inserts(p, x, m))[q] == if x in q && Without(q, x) == p && Position(q, x) < m then 1 else 0
  {
    if m > 0 {
      InsertsCount(p, x, m - 1, q);
      InsertInverse(p, m - 1, x);
      if x in q {
        InsertBack(q, x);
      }
      hide Insert, Without, Position;
      assert multiset(Inserts(p, x, m)) == multiset(Inserts(p, x, m - 1)) + multiset{Insert(p, m - 1, x)};
    }
  }

  lemma LastCounts<T>(ps: seq<T>, p: T)
    requires ps != []
    ensures multiset(ps)[p] == multiset(ps[..|ps| - 1])[p] + if ps[|ps| - 1] == p then 1 else 0
  {
    assert ps == ps[..|ps| - 1] + [ps[|ps| - 1]];
  }

  lemma InsertsHere(p: seq<nat>, x: nat, q: seq<nat>)
    requires x !in p
    ensures multiset(Inserts(p, x, |p| + 1))[q] == if x in q && Without(q, x) == p then 1 else 0
  {
    InsertsCount(p, x, |p| + 1, q);
    hide Inserts;
  }

  lemma {:induction false} InsertsAllCount(ps: seq<seq<nat>>, x: nat, q: seq<nat>)
    requires forall i :: 0 <= i < |ps| ==> x !in ps[i]
    ensures multiset(InsertsAll(ps, x))[q] == if x in q then multiset(ps)[Without(q, x)] else 0
  {
    if ps != [] {
      var front, last := ps[..|ps| - 1], ps[|ps| - 1];
      InsertsAllCount(front, x, q);
      InsertsHere(last, x, q);
      assert multiset(InsertsAll(ps, x)) == multiset(InsertsAll(front, x)) + multiset(Inserts(last, x, |last| + 1));
      hide InsertsAll, Inserts, Without;
      if x in q {
        LastCounts(ps, Without(q, x));
      }
    }
  }

  /** Every permutation appears exactly once, and nothing else does. */
  lemma {:induction false} PermutationsExact(n: nat, q: seq<nat>)
    requires n > 0
    ensures multiset(Permutations(n))[q] == if IsPermutation(q, n) then 1 else 0
  {
    hide InsertsAll, IsPermutation, Without;
    if n == 1 {
      OnlyZero(q);
    } else {
      var x, ps := n - 1, Permutations(n - 1);
      forall i | 0 <= i < |ps|
        ensures x !in ps[i]
      {
        PermutationsExact(n - 1, ps[i]);
        NotBelow(n - 1, ps, i);
      }
      InsertsAllCount(ps, x, q);
      if x in q {
        PermutationsExact(n - 1, Without(q, x));
        DropTop(n, q);
      } else {
        HasTop(n, q);
      }
    }
  }

  lemma NotBelow(n: nat, ps: seq<seq<nat>>, i: nat)
    requires i < |ps| && multiset(ps)[ps[i]] == if IsPermutation(ps[i], n) then 1 else 0
    ensures n !in ps[i]
  {
    assert ps[i] in multiset(ps);
    RangeCount(n, n);
    assert multiset(ps[i])[n] == 0;
  }

  lemma DropTop(n: nat, q: seq<nat>)
    requires n > 0 && n - 1 in q
    ensures IsPermutation(q, n) <==> IsPermutation(Without(q, n - 1), n - 1)
  {
    hide Without;
    var top: nat := n - 1;
    InsertBack(q, top);
    var r := multiset(Without(q, top));
    assert Range(n) == Range(top) + multiset{top};
    hide Range;
    assert r == multiset(q) - multiset{top};
    assert multiset(q) == r + multiset{top};
    CancelOne(r, Range(top), top);
  }

  lemma CancelOne(a: multiset<nat>, b: multiset<nat>, x: nat)
    ensures a + multiset{x} == b + multiset{x} <==> a == b
  {
    assert a == (a + multiset{x}) - multiset{x} && b == (b + multiset{x}) - multiset{x};
  }

  lemma HasTop(n: nat, q: seq<nat>)
    requires n > 0 && n - 1 !in q
    ensures !IsPermutation(q, n)
  {
    RangeCount(n, n - 1);
    assert multiset(q)[n - 1] == 0;
  }

  lemma OnlyZero(q: seq<nat>)
    ensures IsPermutation(q, 1) <==> q == [0]
  {
    assert Range(1) == Range(0) + multiset{0} == multiset{0};
    if IsPermutation(q, 1) {
      assert |q| == |multiset(q)| == 1;
      assert q[0] in multiset(q);
    }
  }

  lemma InsertsStep(ps: seq<seq<nat>>, k: nat, x: nat)
    requires k < |ps|
    ensures InsertsAll(ps[..k + 1], x) == InsertsAll(ps[..k], x) + Inserts(ps[k], x, |ps[k]| + 1)
  {
    hide Inserts;
    assert ps[..k + 1][..k] == ps[..k];
  }

  method GetPermutations(n: nat) returns (results: seq<seq<nat>>)
    requires n > 0
    ensures results == Permutations(n)
  {
    if n == 1 {
      var one := [0];
      return [one];
    }
    results := [];
    var recursiveStep := GetPermutations(n - 1);
    assert Permutations(n) == InsertsAll(recursiveStep, n - 1) && InsertsAll([], n - 1) == [];
    hide Permutations, InsertsAll, Inserts;
    var k := 0;
    while k < |recursiveStep|
      invariant 0 <= k <= |recursiveStep|
      invariant results == InsertsAll(recursiveStep[..k], n - 1)
    {
      var inserted := InsertEverywhere(recursiveStep[k], n - 1);
      InsertsStep(recursiveStep, k, n - 1);
      results := results + inserted;
      k := k + 1;
    }
    assert recursiveStep[..k] == recursiveStep;
  }

  /** All copies of a permutation with a new element inserted. */
  method InsertEverywhere(pi: seq<nat>, x: nat) returns (results: seq<seq<nat>>)
    ensures results == Inserts(pi, x, |pi| + 1)
  {
    results := [];
    var i := 0;
    while i <= |pi|
      invariant 0 <= i <= |pi| + 1
      invariant results == Inserts(pi, x, i)
    {
      results := results + [pi[..i] + [x] + pi[i..]];
      i := i + 1;
    }
  }

  // ----- Cutpoint options -----

  /** Entry j of the option picks a block of target loop j and one of rewrite loop pi[j]. */
  ghost predicate Picks(o: (seq<nat>, seq<nat>), tb: seq<seq<nat>>, rb: seq<seq<nat>>, pi: seq<nat>, n: nat)
    requires n <= |tb| && n <= |pi| && forall j :: 0 <= j < |pi| ==> pi[j] < |rb|
  {
    |o.0| == |o.1| == n && forall j :: 0 <= j < n ==> o.0[j] in tb[j] && o.1[j] in rb[pi[j]]
  }

  function Extend(o: (seq<nat>, seq<nat>), tn: nat, rn: nat): (seq<nat>, seq<nat>) {
    (o.0 + [tn], o.1 + [rn])
  }

  ghost predicate Extends(o: (seq<nat>, seq<nat>), lists: seq<(seq<nat>, seq<nat>)>, ts: seq<nat>, rs: seq<nat>) {
    |o.0| > 0 && |o.1| > 0 && o.0[|o.0| - 1] in ts && o.1[|o.1| - 1] in rs
    && (o.0[..|o.0| - 1], o.1[..|o.1| - 1]) in lists
  }

  /** The three loops that extend each list of the working set by each pair of blocks. */
  method ExtendWorkingSet(working: seq<(seq<nat>, seq<nat>)>, targetNodes: seq<nat>, rewriteNodes: seq<nat>)
    returns (newWorking: seq<(seq<nat>, seq<nat>)>)
    ensures forall o :: o in newWorking <==> Extends(o, working, targetNodes, rewriteNodes)
  {
    newWorking := [];
    var a := 0;
    while a < |targetNodes|
      invariant 0 <= a <= |targetNodes|
      invariant forall o :: o in newWorking <==> Extends(o, working, targetNodes[..a], rewriteNodes)
    {
      var more := ExtendByRewrite(working, targetNodes[a], rewriteNodes);
      assert targetNodes[..a + 1] == targetNodes[..a] + [targetNodes[a]];
      newWorking := newWorking + more;
      a := a + 1;
    }
    assert targetNodes[..a] == targetNodes;
  }

  method ExtendByRewrite(working: seq<(seq<nat>, seq<nat>)>, tn: nat, rewriteNodes: seq<nat>)
    returns (newWorking: seq<(seq<nat>, seq<nat>)>)
    ensures forall o :: o in newWorking <==> Extends(o, working, [tn], rewriteNodes)
  {
    newWorking := [];
    var b := 0;
    while b < |rewriteNodes|
      invariant 0 <= b <= |rewriteNodes|
      invariant forall o :: o in newWorking <==> Extends(o, working, [tn], rewriteNodes[..b])
    {
      var more := ExtendByPair(working, tn, rewriteNodes[b]);
      assert rewriteNodes[..b + 1] == rewriteNodes[..b] + [rewriteNodes[b]];
      newWorking := newWorking + more;
      b := b + 1;
    }
    assert rewriteNodes[..b] == rewriteNodes;
  }

  lemma ExtendMember(o: (seq<nat>, seq<nat>), e: (seq<nat>, seq<nat>), tn: nat, rn: nat)
    ensures o == Extend(e, tn, rn) <==>
            |o.0| > 0 && |o.1| > 0 && o.0[|o.0| - 1] == tn && o.1[|o.1| - 1] == rn &&
              (o.0[..|o.0| - 1], o.1[..|o.1| - 1]) == e
  {
    if |o.0| > 0 && |o.1| > 0 {
      assert o.0 == o.0[..|o.0| - 1] + [o.0[|o.0| - 1]] && o.1 == o.1[..|o.1| - 1] + [o.1[|o.1| - 1]];
    }
  }

  method ExtendByPair(working: seq<(seq<nat>, seq<nat>)>, tn: nat, rn: nat)
    returns (newWorking: seq<(seq<nat>, seq<nat>)>)
    ensures forall o :: o in newWorking <==> Extends(o, working, [tn], [rn])
  {
    newWorking := [];
    var c := 0;
    while c < |working|
      invariant 0 <= c <= |working|
      invariant forall o :: o in newWorking <==> Extends(o, working[..c], [tn], [rn])
    {
      assert working[..c + 1] == working[..c] + [working[c]];
      forall o
        ensures o == Extend(working[c], tn, rn) <==> Extends(o, [working[c]], [tn], [rn])
      {
        ExtendMember(o, working[c], tn, rn);
      }
      assert forall o :: Extends(o, working[..c + 1], [tn], [rn]) <==>
                         Extends(o, working[..c], [tn], [rn]) || Extends(o, [working[c]], [tn], [rn]);
      newWorking := newWorking + [Extend(working[c], tn, rn)];
      c := c + 1;
    }
    assert working[..c] == working;
  }

  lemma PicksExtend(o: (seq<nat>, seq<nat>), working: seq<(seq<nat>, seq<nat>)>,
                    tb: seq<seq<nat>>, rb: seq<seq<nat>>, pi: seq<nat>, j: nat)
    requires j < |tb| && j < |pi| && forall k :: 0 <= k < |pi| ==> pi[k] < |rb|
    requires forall e :: e in working <==> Picks(e, tb, rb, pi, j)
    ensures Extends(o, working, tb[j], rb[pi[j]]) <==> Picks(o, tb, rb, pi, j + 1)
  {
  }

  /** All options for one matching of the loops. */
  method OptionsFor(tb: seq<seq<nat>>, rb: seq<seq<nat>>, pi: seq<nat>) returns (working: seq<(seq<nat>, seq<nat>)>)
    requires |tb| == |rb| == |pi| && forall k :: 0 <= k < |pi| ==> pi[k] < |rb|
    ensures forall o :: o in working <==> Picks(o, tb, rb, pi, |tb|)
  {
    working := [([], [])];
    var j := 0;
    while j < |tb|
      invariant 0 <= j <= |tb|
      invariant forall o :: o in working <==> Picks(o, tb, rb, pi, j)
    {
      forall o
        ensures Extends(o, working, tb[j], rb[pi[j]]) <==> Picks(o, tb, rb, pi, j + 1)
      {
        PicksExtend(o, working, tb, rb, pi, j);
      }
      working := ExtendWorkingSet(working, tb[j], rb[pi[j]]);
      j := j + 1;
    }
  }

  datatype Options = Options(lists: seq<(seq<nat>, seq<nat>)>) | DifferentLoopCounts

  lemma InPermutations(n: nat, pi: seq<nat>)
    requires n > 0
    ensures pi in Permutations(n) <==> IsPermutation(pi, n)
  {
    PermutationsExact(n, pi);
    assert pi in Permutations(n) <==> pi in multiset(Permutations(n));
  }

  lemma PermutationShape(n: nat, pi: seq<nat>)
    requires IsPermutation(pi, n)
    ensures |pi| == n && (forall k :: 0 <= k < n ==> pi[k] < n) && (forall x: nat :: x < n ==> x in pi)
  {
    RangeSize(n);
    assert |pi| == |multiset(pi)|;
    forall k | 0 <= k < n
      ensures pi[k] < n
    {
      assert pi[k] in multiset(pi);
      RangeCount(n, pi[k]);
    }
    forall x: nat | x < n
      ensures x in pi
    {
      RangeCount(n, x);
      assert x in multiset(pi);
    }
  }

  lemma {:induction false} RangeSize(n: nat)
    ensures |Range(n)| == n
  {
    if n > 0 {
      RangeSize(n - 1);
    }
  }

  ghost predicate Option(o: (seq<nat>, seq<nat>), tb: seq<seq<nat>>, rb: seq<seq<nat>>)
    requires |tb| == |rb|
  {
    exists pi :: IsPermutation(pi, |tb|) && PicksBy(o, tb, rb, pi)
  }

  ghost predicate PicksBy(o: (seq<nat>, seq<nat>), tb: seq<seq<nat>>, rb: seq<seq<nat>>, pi: seq<nat>)
    requires |tb| == |rb|
  {
    |pi| == |tb| && (forall k :: 0 <= k < |pi| ==> pi[k] < |rb|) && Picks(o, tb, rb, pi, |tb|)
  }

  function Below(n: nat): (s: set<nat>)
    ensures |s| == n && forall k: nat :: k in s <==> k < n
  {
    if n == 0 then {} else Below(n - 1) + {n - 1}
  }

  /** n different numbers below n are a permutation. */
  lemma DistinctIsPermutation(pi: seq<nat>)
    requires forall j :: 0 <= j < |pi| ==> pi[j] < |pi|
    requires forall i, j :: 0 <= i < j < |pi| ==> pi[i] != pi[j]
    ensures IsPermutation(pi, |pi|)
  {
    DistinctSize(pi, |pi|);
    assert pi[..|pi|] == pi;
    SameSize(Elements(pi), Below(|pi|));
    forall x: nat
      ensures multiset(pi)[x] == Range(|pi|)[x]
    {
      RangeCount(|pi|, x);
      DistinctCount(pi, |pi|, x);
      assert x in pi <==> x in Elements(pi);
    }
  }

  lemma SameSize(a: set<nat>, b: set<nat>)
    requires a <= b && |a| == |b|
    ensures a == b
  {
    assert b == a + (b - a) && |b| == |a| + |b - a|;
  }

  lemma {:induction false} DistinctSize(s: seq<nat>, n: nat)
    requires n <= |s| && forall i, j :: 0 <= i < j < |s| ==> s[i] != s[j]
    ensures |Elements(s[..n])| == n
  {
    if n > 0 {
      DistinctSize(s, n - 1);
      assert s[..n] == s[..n - 1] + [s[n - 1]];
      assert Elements(s[..n]) == Elements(s[..n - 1]) + {s[n - 1]};
    }
  }

  lemma {:induction false} DistinctCount(s: seq<nat>, n: nat, x: nat)
    requires n <= |s| && forall i, j :: 0 <= i < j < |s| ==> s[i] != s[j]
    ensures multiset(s[..n])[x] == if x in s[..n] then 1 else 0
  {
    if n > 0 {
      DistinctCount(s, n - 1, x);
      assert s[..n] == s[..n - 1] + [s[n - 1]];
    }
  }

  /** What an option is: different loops of the rewrite for the loops of the target, and a block of each. */
  ghost predicate MatchedBy(o: (seq<nat>, seq<nat>), tb: seq<seq<nat>>, rb: seq<seq<nat>>, pi: seq<nat>) {
    && |pi| == |tb| == |o.0| == |o.1| && (forall i, j :: 0 <= i < j < |pi| ==> pi[i] != pi[j])
    && forall j :: 0 <= j < |pi| ==> pi[j] < |rb| && o.0[j] in tb[j] && o.1[j] in rb[pi[j]]
  }

  lemma OptionsMean(tb: seq<seq<nat>>, rb: seq<seq<nat>>)
    ensures |tb| == |rb| ==> forall o :: Option(o, tb, rb) <==> exists pi :: MatchedBy(o, tb, rb, pi)
  {
    if |tb| == |rb| {
      forall o
        ensures Option(o, tb, rb) <==> exists pi :: MatchedBy(o, tb, rb, pi)
      {
        forall pi
          ensures IsPermutation(pi, |tb|) && PicksBy(o, tb, rb, pi) <==> MatchedBy(o, tb, rb, pi)
        {
          PicksMatch(o, tb, rb, pi);
        }
        hide IsPermutation, PicksBy, MatchedBy;
      }
    }
  }

  lemma PicksMatch(o: (seq<nat>, seq<nat>), tb: seq<seq<nat>>, rb: seq<seq<nat>>, pi: seq<nat>)
    requires |tb| == |rb|
    ensures IsPermutation(pi, |tb|) && PicksBy(o, tb, rb, pi) <==> MatchedBy(o, tb, rb, pi)
  {
    if MatchedBy(o, tb, rb, pi) {
      DistinctIsPermutation(pi);
    }
    hide IsPermutation;
    if IsPermutation(pi, |tb|) && PicksBy(o, tb, rb, pi) {
      forall i, j | 0 <= i < j < |pi|
        ensures pi[i] != pi[j]
      {
        PermutationDistinct(pi, |tb|, i, j);
      }
    }
  }

  /** All ways to match the loops of the two programs and to pick one block in each; an error if
      the numbers of loops differ. */
  method GetPossibleCutpoints(tb: seq<seq<nat>>, rb: seq<seq<nat>>) returns (r: Options)
    ensures r.DifferentLoopCounts? <==> |tb| != |rb|
    ensures |tb| == |rb| ==> forall o :: o in r.lists <==> Option(o, tb, rb)
    ensures |tb| == |rb| ==> forall o :: o in r.lists <==> exists pi :: MatchedBy(o, tb, rb, pi)
  {
    if |tb| != |rb| {
      return DifferentLoopCounts;
    }
    OptionsMean(tb, rb);
    hide Option;
    if |tb| == 0 {
      NoLoops(tb, rb);
      return Options([([], [])]);
    }
    hide Picks, IsPermutation, Permutations;
    var permutations := GetPermutations(|tb|);
    var results: seq<(seq<nat>, seq<nat>)> := [];
    var k := 0;
    while k < |permutations|
      invariant 0 <= k <= |permutations|
      invariant forall o :: o in results <==> PickedBefore(o, tb, rb, permutations, k)
    {
      InPermutations(|tb|, permutations[k]);
      PermutationShape(|tb|, permutations[k]);
      var working := OptionsFor(tb, rb, permutations[k]);
      assert forall o :: o in working <==> PicksBy(o, tb, rb, permutations[k]);
      hide PicksBy, PickedBefore;
      forall o
        ensures PickedBefore(o, tb, rb, permutations, k + 1) <==>
                PickedBefore(o, tb, rb, permutations, k) || o in working
      {
        PickedNext(o, tb, rb, permutations, k);
      }
      results := results + working;
      k := k + 1;
    }
    AllMatchings(tb, rb, results);
    return Options(results);
  }

  /** o picks along one of the first k permutations. */
  ghost predicate PickedBefore(o: (seq<nat>, seq<nat>), tb: seq<seq<nat>>, rb: seq<seq<nat>>, ps: seq<seq<nat>>, k: nat)
    requires |tb| == |rb| && k <= |ps|
  {
    exists i :: 0 <= i < k && PicksBy(o, tb, rb, ps[i])
  }

  lemma PickedNext(o: (seq<nat>, seq<nat>), tb: seq<seq<nat>>, rb: seq<seq<nat>>, ps: seq<seq<nat>>, k: nat)
    requires |tb| == |rb| && k < |ps|
    ensures PickedBefore(o, tb, rb, ps, k + 1) <==> PickedBefore(o, tb, rb, ps, k) || PicksBy(o, tb, rb, ps[k])
  {
    hide PicksBy;
  }

  lemma AllMatchings(tb: seq<seq<nat>>, rb: seq<seq<nat>>, results: seq<(seq<nat>, seq<nat>)>)
    requires |tb| == |rb| > 0
    requires var ps := Permutations(|tb|);
             forall o :: o in results <==> PickedBefore(o, tb, rb, ps, |ps|)
    ensures forall o :: o in results <==> Option(o, tb, rb)
  {
    hide Picks, IsPermutation, Permutations;
    var ps := Permutations(|tb|);
    forall o
      ensures o in results <==> Option(o, tb, rb)
    {
      if o in results {
        var i :| 0 <= i < |ps| && PicksBy(o, tb, rb, ps[i]);
        InPermutations(|tb|, ps[i]);
      }
      if Option(o, tb, rb) {
        var pi :| IsPermutation(pi, |tb|) && PicksBy(o, tb, rb, pi);
        InPermutations(|tb|, pi);
        var i :| 0 <= i < |ps| && ps[i] == pi;
        assert PicksBy(o, tb, rb, ps[i]);
      }
    }
  }

  lemma NoLoops(tb: seq<seq<nat>>, rb: seq<seq<nat>>)
    requires |tb| == |rb| == 0
    ensures forall o :: o == ([], []) <==> Option(o, tb, rb)
  {
    assert IsPermutation([], 0);
    forall o
      ensures o == ([], []) <==> Option(o, tb, rb)
    {
      assert PicksBy(o, tb, rb, []) <==> o == ([], []);
      if Option(o, tb, rb) {
        var pi :| IsPermutation(pi, |tb|) && PicksBy(o, tb, rb, pi);
        assert pi == [];
      }
    }
  }

  // ----- Every cycle is cut -----

  /** Every reachable block on a cycle shares its loop with a cutpoint. */
  ghost predicate CutsEveryLoop(g: Cfg, cuts: seq<nat>) {
    forall b :: Reach(g, 0, b) && OnCycle(g, b) ==> exists c :: c in cuts && Reach(g, b, c) && Reach(g, c, b)
  }

  ghost predicate AllCountsAgree(g: Cfg, cuts: seq<nat>)
    requires g.Valid() && InRange(g, cuts)
  {
    forall i, j :: 0 <= i < |cuts| && 0 <= j < |cuts| ==> CountsAgree(g, cuts[i], cuts[j], cuts)
  }

  /** The last stretch of a walk from a cutpoint: it starts at a cutpoint and avoids them since. */
  lemma {:induction false} SinceLastCut(g: Cfg, cuts: seq<nat>, w: seq<nat>) returns (u: seq<nat>)
    requires IsWalk(g, w) && w[0] in cuts
    ensures IsWalk(g, u) && u[0] in cuts && u[|u| - 1] == w[|w| - 1]
    ensures forall i :: 0 < i < |u| ==> u[i] !in cuts
    decreases |w|
  {
    if i :| 0 < i < |w| && w[i] in cuts {
      SubWalk(g, w, i, |w|);
      u := SinceLastCut(g, cuts, w[i..|w|]);
    } else {
      u := w;
    }
  }

  /** The first stretch of a walk to a cutpoint. */
  lemma {:induction false} UntilFirstCut(g: Cfg, cuts: seq<nat>, w: seq<nat>) returns (u: seq<nat>)
    requires IsWalk(g, w) && w[|w| - 1] in cuts
    ensures IsWalk(g, u) && u[0] == w[0] && u[|u| - 1] in cuts
    ensures forall i :: 0 <= i < |u| - 1 ==> u[i] !in cuts
    decreases |w|
  {
    if i :| 0 <= i < |w| - 1 && w[i] in cuts {
      SubWalk(g, w, 0, i + 1);
      u := UntilFirstCut(g, cuts, w[0..i + 1]);
    } else {
      u := w;
    }
  }

  lemma Pigeonhole(s: seq<nat>, n: nat) returns (i: nat, j: nat)
    requires |s| > n && forall k :: 0 <= k < |s| ==> s[k] < n
    ensures i < j < |s| && s[i] == s[j]
  {
    if forall x :: multiset(s)[x] <= 1 {
      forall x | x in multiset(s)
        ensures x < n
      {
        assert x in s;
      }
      CardinalityBound(multiset(s), n, 1);
      assert false;
    } else {
      var x :| multiset(s)[x] > 1;
      i := FirstOccurrence(s, x);
      var k := FirstOccurrence(s[i + 1..], x);
      j := i + 1 + k;
    }
  }

  /** A cycle that avoids the cutpoints gives walks between cutpoints that repeat a block. */
  lemma FreeCycle(g: Cfg, cuts: seq<nat>, b: nat, loop: seq<nat>) returns (i: nat, j: nat, w: seq<nat>)
    requires g.Valid() && InRange(g, cuts) && CutsEveryLoop(g, cuts) && Reach(g, 0, b)
    requires WalkBetween(g, loop, b, b) && |loop| > 1 && forall k :: 0 <= k < |loop| ==> loop[k] !in cuts
    ensures i < |cuts| && j < |cuts| && Avoiding(g, cuts[i], cuts[j], cuts, w) && !VisitsAtMost(w, 1)
  {
    assert OnCycle(g, b);
    var c :| c in cuts && Reach(g, b, c) && Reach(g, c, b);
    var into :| WalkBetween(g, into, c, b);
    var out :| WalkBetween(g, out, b, c);
    var u := SinceLastCut(g, cuts, into);
    var x := UntilFirstCut(g, cuts, out);
    assert |u| > 1 && |x| > 1;
    w := Splice(g, cuts, u, loop, x, b);
    i := IndexOf(cuts, u[0]);
    j := IndexOf(cuts, x[|x| - 1]);
  }

  /** A walk into b, a loop at b and a walk out of b, all avoiding the cutpoints in between. */
  lemma Splice(g: Cfg, cuts: seq<nat>, u: seq<nat>, loop: seq<nat>, x: seq<nat>, b: nat) returns (w: seq<nat>)
    requires g.Valid() && WalkBetween(g, loop, b, b) && |loop| > 1 && forall k :: 0 <= k < |loop| ==> loop[k] !in cuts
    requires IsWalk(g, u) && |u| > 1 && u[|u| - 1] == b && forall k :: 0 < k < |u| ==> u[k] !in cuts
    requires IsWalk(g, x) && |x| > 1 && x[0] == b && forall k :: 0 <= k < |x| - 1 ==> x[k] !in cuts
    ensures Avoiding(g, u[0], x[|x| - 1], cuts, w) && !VisitsAtMost(w, 1)
  {
    JoinWalks(g, u, loop);
    var y := u + loop[1..];
    JoinWalks(g, y, x);
    w := y + x[1..];
    hide IsWalk;
    forall k | 0 < k < |w| - 1
      ensures w[k] !in cuts
    {
      if |u| <= k < |y| {
        assert w[k] == loop[k - |u| + 1];
      } else if |y| <= k {
        assert w[k] == x[k - |y| + 1];
      }
    }
    assert w[1..] == u[1..] + loop[1..] + x[1..];
    assert u[1..][|u| - 2] == b && loop[1..][|loop| - 2] == b;
    TwiceIn(u[1..], loop[1..], x[1..], b);
  }

  lemma TwiceIn(u: seq<nat>, v: seq<nat>, x: seq<nat>, b: nat)
    requires b in u && b in v
    ensures multiset(u + v + x)[b] > 1
  {
    assert multiset(u)[b] >= 1 && multiset(v)[b] >= 1;
  }

  lemma WalkReaches(g: Cfg, w: seq<nat>, a: nat, b: nat)
    requires WalkBetween(g, w, a, b)
    ensures Reach(g, a, b)
  {
  }

  /** With a cutpoint in every loop and the finiteness test passed, no walk from a reachable block
      avoids the cutpoints for more blocks than the graph has. */
  lemma NoCutFreeCycle(g: Cfg, cuts: seq<nat>)
    requires g.Valid() && InRange(g, cuts) && CutsEveryLoop(g, cuts) && AllCountsAgree(g, cuts)
    ensures ShortFreeWalks(g, cuts)
  {
    hide CutsEveryLoop, Reach, CountsAgree;
    forall w | FreeWalk(g, cuts, w) && Reach(g, 0, w[0])
      ensures |w| <= g.Size() + 1
    {
      if |w| > g.Size() + 1 {
        var i, j, x := LongFreeWalk(g, cuts, w);
        FinitenessTest(g, cuts[i], cuts[j], cuts);
        assert false;
      }
    }
  }

  /** A longer walk repeats a block, so some walk between cutpoints repeats one. */
  lemma LongFreeWalk(g: Cfg, cuts: seq<nat>, w: seq<nat>) returns (i: nat, j: nat, x: seq<nat>)
    requires g.Valid() && InRange(g, cuts) && CutsEveryLoop(g, cuts)
    requires FreeWalk(g, cuts, w) && Reach(g, 0, w[0]) && |w| > g.Size() + 1
    ensures i < |cuts| && j < |cuts| && Avoiding(g, cuts[i], cuts[j], cuts, x) && !VisitsAtMost(x, 1)
  {
    hide CutsEveryLoop, Reach, Avoiding, VisitsAtMost;
    var a, b := Pigeonhole(w[1..], g.Size());
    var loop := w[a + 1..b + 2];
    SubWalk(g, w, a + 1, b + 2);
    SubWalk(g, w, 0, a + 2);
    WalkReaches(g, w[0..a + 2], w[0], w[a + 1]);
    ReachTrans(g, 0, w[0], w[a + 1]);
    i, j, x := FreeCycle(g, cuts, w[a + 1], loop);
  }

  // ----- From Tarjan's numbering to the cut lists -----

  /** The lists of blocks per loop, as `get_possible_cutpoints` reads them. */
  function LoopLists(blocks: map<nat, seq<nat>>, count: nat): seq<seq<nat>>
    requires forall k: nat :: k < count ==> k in blocks
  {
    seq(count, k requires 0 <= k < count => blocks[k])
  }

  /** The cut list built from one side of an option: entry first, exit last. */
  function WithEnds(g: Cfg, side: seq<nat>): seq<nat>
    requires g.Size() > 0
  {
    [0] + side + [g.Exit()]
  }

  /** One block from each loop, in some order. */
  ghost predicate OnePerLoop(side: seq<nat>, sccs: map<nat, int>, count: nat) {
    && |side| == count
    && (forall j :: 0 <= j < |side| ==> side[j] in sccs && sccs[side[j]] >= 0)
    && (forall b :: b in sccs && sccs[b] >= 0 ==> exists j :: 0 <= j < |side| && sccs[side[j]] == sccs[b])
    && (forall i, j :: 0 <= i < j < |side| ==> sccs[side[i]] != sccs[side[j]])
  }

  /** What Tarjan's algorithm delivers for a graph. */
  ghost predicate SccData(g: Cfg, sccs: map<nat, int>, blocks: map<nat, seq<nat>>, count: nat) {
    && g.Valid() && 2 <= g.Size() && (forall b :: !g.Edge(b, 0))
    && (forall b :: b in sccs <==> Reach(g, 0, b))
    && Labels(g, sccs, count) && Lists(sccs, blocks, count)
  }

  lemma PermutationDistinct(pi: seq<nat>, n: nat, i: nat, j: nat)
    requires IsPermutation(pi, n) && i < j < |pi|
    ensures pi[i] != pi[j]
  {
    RangeCount(n, pi[i]);
    assert pi == pi[..j] + [pi[j]] + pi[j + 1..];
    assert pi[..j][i] == pi[i];
    assert multiset(pi)[pi[j]] == multiset(pi[..j])[pi[j]] + 1 + multiset(pi[j + 1..])[pi[j]];
  }

  /** Picking block j from loop f[j], with f a permutation, picks one block from each loop. */
  lemma PickedOnePerLoop(side: seq<nat>, f: seq<nat>, sccs: map<nat, int>, blocks: map<nat, seq<nat>>, count: nat)
    requires Lists(sccs, blocks, count) && IsPermutation(f, count) && |side| == |f| == count
    requires forall b :: b in sccs ==> sccs[b] < count
    requires forall j :: 0 <= j < count ==> f[j] < count && side[j] in blocks[f[j]]
    ensures OnePerLoop(side, sccs, count)
  {
    forall j | 0 <= j < count
      ensures side[j] in sccs && sccs[side[j]] == f[j]
    {
    }
    forall b | b in sccs && sccs[b] >= 0
      ensures exists j :: 0 <= j < |side| && sccs[side[j]] == sccs[b]
    {
      PermutationShape(count, f);
      var k: nat := sccs[b];
      assert k in f;
      var j :| 0 <= j < |f| && f[j] == k;
      assert sccs[side[j]] == sccs[b];
    }
    forall i, j | 0 <= i < j < |side|
      ensures sccs[side[i]] != sccs[side[j]]
    {
      PermutationDistinct(f, count, i, j);
    }
  }

  function Identity(n: nat): (f: seq<nat>)
    ensures |f| == n && forall k :: 0 <= k < n ==> f[k] == k
  {
    seq(n, k requires 0 <= k < n => k)
  }

  lemma {:induction false} IdentityPermutation(n: nat)
    ensures IsPermutation(Identity(n), n)
  {
    if n > 0 {
      IdentityPermutation(n - 1);
      assert Identity(n) == Identity(n - 1) + [n - 1];
    }
  }

  /** Both sides of an option pick one block from each loop of their program. */
  lemma OptionCutsLoops(o: (seq<nat>, seq<nat>), tg: Cfg, ts: map<nat, int>, tb: map<nat, seq<nat>>,
                        rg: Cfg, rs: map<nat, int>, rb: map<nat, seq<nat>>, count: nat)
    requires SccData(tg, ts, tb, count) && SccData(rg, rs, rb, count)
    requires Option(o, LoopLists(tb, count), LoopLists(rb, count))
    ensures OnePerLoop(o.0, ts, count) && OnePerLoop(o.1, rs, count)
  {
    hide Reach, OnCycle, IsPermutation, OnePerLoop, Lists, Labels, Cfg.Valid, Cfg.Edge;
    ListKeys(ts, tb, count);
    ListKeys(rs, rb, count);
    assert Lists(ts, tb, count) && Lists(rs, rb, count);
    LabelRange(tg, ts, count);
    LabelRange(rg, rs, count);
    hide SccData, Option, LoopLists;
    var pi := PickedBlocks(o, tb, rb, count);
    IdentityPermutation(count);
    PickedOnePerLoop(o.0, Identity(count), ts, tb, count);
    PickedOnePerLoop(o.1, pi, rs, rb, count);
  }

  /** The permutation behind an option, and what is picked along it. */
  lemma PickedBlocks(o: (seq<nat>, seq<nat>), tb: map<nat, seq<nat>>, rb: map<nat, seq<nat>>, count: nat)
    returns (pi: seq<nat>)
    requires forall k: nat :: k < count ==> k in tb && k in rb
    requires Option(o, LoopLists(tb, count), LoopLists(rb, count))
    ensures IsPermutation(pi, count) && |o.0| == |o.1| == |pi| == count
    ensures forall j :: 0 <= j < count ==> o.0[j] in tb[j]
    ensures forall j :: 0 <= j < count ==> pi[j] < count && o.1[j] in rb[pi[j]]
  {
    hide IsPermutation;
    pi :| IsPermutation(pi, count) && PicksBy(o, LoopLists(tb, count), LoopLists(rb, count), pi);
  }

  lemma ListKeys(sccs: map<nat, int>, blocks: map<nat, seq<nat>>, count: nat)
    requires Lists(sccs, blocks, count)
    ensures forall k: nat :: k < count ==> k in blocks
  {
  }

  lemma CycleLastEdge(g: Cfg, a: nat) returns (b: nat)
    requires OnCycle(g, a)
    ensures g.Edge(b, a)
  {
    var w :| WalkBetween(g, w, a, a) && |w| > 1;
    b := w[|w| - 2];
    assert g.Edge(w[|w| - 2], w[|w| - 2 + 1]);
  }

  lemma EntryOffCycles(g: Cfg)
    requires g.Valid() && 2 <= g.Size() && (forall b :: !g.Edge(b, 0))
    ensures !OnCycle(g, 0) && !OnCycle(g, g.Exit())
  {
    if OnCycle(g, 0) {
      var b := CycleLastEdge(g, 0);
      assert false;
    }
    if OnCycle(g, g.Exit()) {
      var b := CycleFirstEdge(g, g.Exit());
      assert false;
    }
  }

  /** The resulting cut list is well formed, reachable and meets every loop. */
  lemma CutListFromLoops(g: Cfg, sccs: map<nat, int>, blocks: map<nat, seq<nat>>, count: nat, side: seq<nat>)
    requires SccData(g, sccs, blocks, count) && OnePerLoop(side, sccs, count)
    ensures var cuts := WithEnds(g, side);
            CutList(g, cuts) && CutsEveryLoop(g, cuts) && CutsReachable(g, cuts)
  {
    hide Lists, Reach, OnCycle;
    ReachSelf(g, 0);
    forall j | 0 <= j < |side|
      ensures side[j] != 0 && side[j] != g.Exit() && Reach(g, 0, side[j]) && side[j] < g.Size()
    {
      LoopBlock(g, sccs, count, side[j]);
    }
    EndsAdded(g, sccs, count, side);
    LoopsMet(g, sccs, count, side);
  }

  lemma EndsAdded(g: Cfg, sccs: map<nat, int>, count: nat, side: seq<nat>)
    requires g.Valid() && 2 <= g.Size() && OnePerLoop(side, sccs, count) && Reach(g, 0, 0)
    requires forall j :: 0 <= j < |side| ==>
             side[j] != 0 && side[j] != g.Exit() && Reach(g, 0, side[j]) && side[j] < g.Size()
    ensures CutList(g, WithEnds(g, side)) && CutsReachable(g, WithEnds(g, side))
  {
    hide Reach;
  }

  lemma LoopsMet(g: Cfg, sccs: map<nat, int>, count: nat, side: seq<nat>)
    requires g.Size() > 0 && OnePerLoop(side, sccs, count) && Labels(g, sccs, count)
    requires forall b :: b in sccs <==> Reach(g, 0, b)
    ensures CutsEveryLoop(g, WithEnds(g, side))
  {
    hide Reach, OnCycle, Labels;
    var cuts := WithEnds(g, side);
    forall b | Reach(g, 0, b) && OnCycle(g, b)
      ensures exists c :: c in cuts && Reach(g, b, c) && Reach(g, c, b)
    {
      CycleNumber(g, sccs, count, b);
      var j :| 0 <= j < |side| && sccs[side[j]] == sccs[b];
      SameNumber(g, sccs, count, b, side[j]);
      assert cuts[j + 1] == side[j];
    }
  }

  lemma CycleNumber(g: Cfg, sccs: map<nat, int>, count: nat, b: nat)
    requires Labels(g, sccs, count) && b in sccs && OnCycle(g, b)
    ensures sccs[b] >= 0
  {
  }

  lemma SameNumber(g: Cfg, sccs: map<nat, int>, count: nat, a: nat, b: nat)
    requires Labels(g, sccs, count) && a in sccs && b in sccs && sccs[a] == sccs[b] >= 0
    ensures Reach(g, a, b) && Reach(g, b, a)
  {
  }

  lemma LoopBlock(g: Cfg, sccs: map<nat, int>, count: nat, b: nat)
    requires g.Valid() && 2 <= g.Size() && (forall b :: !g.Edge(b, 0))
    requires Labels(g, sccs, count) && b in sccs && sccs[b] >= 0 && Reach(g, 0, b)
    ensures b != 0 && b != g.Exit() && b < g.Size()
  {
    EntryOffCycles(g);
    var w :| WalkBetween(g, w, 0, b);
  }

  /** The whole validator, end to end: programs that pass with a choice of one cutpoint per loop
      terminate on the same inputs, and their final states satisfy the exit invariant. */
  lemma ValidatedProgramsAgree<S(!new)>(v: Setup, tp: Program<S>, rp: Program<S>, meaning: (nat, S, S) -> bool,
                                        check: Query -> bool, invs: seq<seq<nat>>, o: (seq<nat>, seq<nat>),
                                        ts: map<nat, int>, tb: map<nat, seq<nat>>, rs: map<nat, int>,
                                        rb: map<nat, seq<nat>>, count: nat, s: S, t: S)
    requires Runs(v, tp, rp) && SoundOracle(tp, rp, meaning, check)
    requires SccData(v.target, ts, tb, count) && SccData(v.rewrite, rs, rb, count)
    requires Option(o, LoopLists(tb, count), LoopLists(rb, count))
    requires v.tcuts == WithEnds(v.target, o.0) && v.rcuts == WithEnds(v.rewrite, o.1)
    requires |invs| == |v.tcuts| && ProofHolds(v, invs, check)
    requires FaithfulBetween(tp, v.tcuts) && FaithfulBetween(rp, v.rcuts)
    requires Holds(meaning, invs[0], s, t)
    ensures (exists kt :: tp.Reaches(0, s, kt)) <==> (exists kr :: rp.Reaches(0, t, kr))
    ensures forall kt, kr :: tp.Reaches(0, s, kt) && rp.Reaches(0, t, kr) ==>
              Holds(meaning, invs[|invs| - 1], Final(tp, 0, s, kt), Final(rp, 0, t, kr))
  {
    hide Holds, SoundOracle, FaithfulBetween, Reach, OnCycle, SccData, Option, OnePerLoop, CutList, CutsEveryLoop;
    hide ShortFreeWalks, CutsReachable, NoEmptyPairs, Program.Reaches, ProofHolds;
    OptionCutsLoops(o, v.target, ts, tb, v.rewrite, rs, rb, count);
    CutListFromLoops(v.target, ts, tb, count, o.0);
    CutListFromLoops(v.rewrite, rs, rb, count, o.1);
    AllFinite(v, invs, check);
    NoCutFreeCycle(v.target, v.tcuts);
    NoCutFreeCycle(v.rewrite, v.rcuts);
    if kt :| tp.Reaches(0, s, kt) {
      var kr := RewriteTerminates(v, tp, rp, meaning, check, invs, 0, s, t, kt);
    }
    if kr :| rp.Reaches(0, t, kr) {
      var kt := TargetTerminates(v, tp, rp, meaning, check, invs, 0, s, t, kr);
    }
    forall kt, kr | tp.Reaches(0, s, kt) && rp.Reaches(0, t, kr)
      ensures Holds(meaning, invs[|invs| - 1], Final(tp, 0, s, kt), Final(rp, 0, t, kr))
    {
      RunsAgree(v, tp, rp, meaning, check, invs, 0, s, t, kt, kr);
    }
  }

  lemma AllFinite(v: Setup, invs: seq<seq<nat>>, check: Query -> bool)
    requires v.Valid() && |invs| == |v.tcuts| && ProofHolds(v, invs, check)
    ensures AllCountsAgree(v.target, v.tcuts) && AllCountsAgree(v.rewrite, v.rcuts)
  {
    hide ProofHolds, CountsAgree;
    forall i, j | 0 <= i < |v.tcuts| && 0 <= j < |v.tcuts|
      ensures CountsAgree(v.target, v.tcuts[i], v.tcuts[j], v.tcuts)
      ensures CountsAgree(v.rewrite, v.rcuts[i], v.rcuts[j], v.rcuts)
    {
      ProofParts(v, invs, check, i, j, j);
    }
  }
}
