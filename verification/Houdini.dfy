/** `check_proof` and the loop around it that drops failed conjuncts until the proof closes
    (src/validator/ddec.cc). */
module Houdini {
  import opened Graph
  import opened Paths
  import opened Ddec

  // ----- check_proof -----

  ghost predicate PathOk(g: Cfg, p: seq<nat>) {
    p != [] && forall k :: 0 <= k < |p| ==> p[k] < g.Size()
  }

  ghost predicate PathsOk(g: Cfg, ps: seq<seq<nat>>) {
    forall k :: 0 <= k < |ps| ==> PathOk(g, ps[k])
  }

  /** The checker refuses conjunct m of the list for the pair of paths p, q out of cutpoint i. */
  ghost predicate Refuses(v: Setup, check: Query -> bool, i: nat, p: seq<nat>,
                          q: seq<nat>, given: seq<nat>, ids: seq<nat>, m: nat)
    requires v.Valid() && i < |v.tcuts| && PathOk(v.target, p) && PathOk(v.rewrite, q)
  {
    m < |ids| && !check(MakeQuery(v, i, p, q, given, Conjunct(ids[m])))
  }

  method FailedGoals(v: Setup, check: Query -> bool, i: nat, p: seq<nat>, q: seq<nat>, given: seq<nat>, ids: seq<nat>)
    returns (failed: seq<nat>)
    requires v.Valid() && i < |v.tcuts| && PathOk(v.target, p) && PathOk(v.rewrite, q)
    ensures forall m: nat :: m in failed <==> Refuses(v, check, i, p, q, given, ids, m)
  {
    failed := [];
    var m: nat := 0;
    while m < |ids|
      invariant 0 <= m <= |ids|
      invariant forall k: nat :: k in failed <==> k < m && Refuses(v, check, i, p, q, given, ids, k)
    {
      if !check(MakeQuery(v, i, p, q, given, Conjunct(ids[m]))) {
        failed := failed + [m];
      }
      m := m + 1;
    }
  }

  method FailedAgainst(v: Setup, check: Query -> bool, i: nat, p: seq<nat>,
                       qs: seq<seq<nat>>, given: seq<nat>, ids: seq<nat>)
    returns (failed: seq<nat>)
    requires v.Valid() && i < |v.tcuts| && PathOk(v.target, p) && PathsOk(v.rewrite, qs)
    ensures forall m: nat :: m in failed <==> exists b :: 0 <= b < |qs| && Refuses(v, check, i, p, qs[b], given, ids, m)
  {
    hide Refuses;
    failed := [];
    var k := 0;
    while k < |qs|
      invariant 0 <= k <= |qs|
      invariant forall m: nat :: m in failed <==> exists b ::
                0 <= b < k && Refuses(v, check, i, p, qs[b], given, ids, m)
    {
      var more := FailedGoals(v, check, i, p, qs[k], given, ids);
      failed := failed + more;
      k := k + 1;
    }
  }

  ghost predicate RefusesSome(v: Setup, check: Query -> bool, i: nat, p: seq<nat>,
                              qs: seq<seq<nat>>, given: seq<nat>, ids: seq<nat>, m: nat)
    requires v.Valid() && i < |v.tcuts| && PathOk(v.target, p) && PathsOk(v.rewrite, qs)
  {
    exists b :: 0 <= b < |qs| && Refuses(v, check, i, p, qs[b], given, ids, m)
  }

  /** Check 2 for one pair of cutpoints: the conjuncts that some pair of paths fails to establish. */
  method FailedConjuncts(v: Setup, check: Query -> bool, i: nat, ps: seq<seq<nat>>,
                         qs: seq<seq<nat>>, given: seq<nat>, ids: seq<nat>)
    returns (failed: seq<nat>)
    requires v.Valid() && i < |v.tcuts| && PathsOk(v.target, ps) && PathsOk(v.rewrite, qs)
    ensures forall m: nat :: m in failed <==> exists a ::
            0 <= a < |ps| && RefusesSome(v, check, i, ps[a], qs, given, ids, m)
  {
    hide Refuses;
    failed := [];
    var k := 0;
    while k < |ps|
      invariant 0 <= k <= |ps|
      invariant forall m: nat :: m in failed <==> exists a ::
                0 <= a < k && RefusesSome(v, check, i, ps[a], qs, given, ids, m)
    {
      var more := FailedAgainst(v, check, i, ps[k], qs, given, ids);
      assert forall m: nat :: m in more <==> RefusesSome(v, check, i, ps[k], qs, given, ids, m);
      hide RefusesSome;
      failed := failed + more;
      k := k + 1;
    }
  }

  /** Check 3 for one triple of cutpoints. */
  method AllExcluded(v: Setup, check: Query -> bool, i: nat, ps: seq<seq<nat>>, qs: seq<seq<nat>>, given: seq<nat>)
    returns (ok: bool)
    requires v.Valid() && i < |v.tcuts| && PathsOk(v.target, ps) && PathsOk(v.rewrite, qs)
    ensures ok <==> forall a, b :: 0 <= a < |ps| && 0 <= b < |qs| ==>
            check(MakeQuery(v, i, ps[a], qs[b], given, Contradiction))
  {
    var k := 0;
    while k < |ps|
      invariant 0 <= k <= |ps|
      invariant forall a, b :: 0 <= a < k && 0 <= b < |qs| ==>
                check(MakeQuery(v, i, ps[a], qs[b], given, Contradiction))
    {
      var h := 0;
      while h < |qs|
        invariant 0 <= h <= |qs|
        invariant forall b :: 0 <= b < h ==> check(MakeQuery(v, i, ps[k], qs[b], given, Contradiction))
      {
        if !check(MakeQuery(v, i, ps[k], qs[h], given, Contradiction)) {
          return false;
        }
        h := h + 1;
      }
      k := k + 1;
    }
    return true;
  }

  /** The paths between two cutpoints, as lists of non-empty blocks, with the walks they stand for. */
  method PathsBetween(g: Cfg, cuts: seq<nat>, i: nat, j: nat) returns (paths: seq<seq<nat>>, ghost walks: seq<seq<nat>>)
    requires g.Valid() && NoEmptyPairs(g) && InRange(g, cuts) && i < |cuts| && j < |cuts|
    ensures |paths| == |walks| == |AllWalks(g, cuts[i], cuts[j], 1, cuts)|
    ensures forall w :: w in walks <==> IsPath(g, cuts, i, j, w)
    ensures Named(g, paths, walks)
  {
    paths := EnumeratePaths(g, 1, cuts[i], cuts[j], cuts);
    walks := AllWalks(g, cuts[i], cuts[j], 1, cuts);
    forall w
      ensures w in walks <==> IsPath(g, cuts, i, j, w)
    {
      AllWalksMembers(g, cuts[i], cuts[j], 1, cuts, w);
    }
    forall k | 0 <= k < |walks|
      ensures IsWalk(g, walks[k]) && |walks[k]| > 1 && paths[k] == DropEmpty(g, walks[k]) && PathOk(g, paths[k])
    {
      assert walks[k] in walks;
      DropEmptyNonEmpty(g, walks[k]);
    }
  }

  /** Path k is walk k without its empty blocks. */
  ghost predicate Named(g: Cfg, paths: seq<seq<nat>>, walks: seq<seq<nat>>)
    requires g.Valid()
  {
    |paths| == |walks| &&
    forall k :: 0 <= k < |walks| ==>
      IsWalk(g, walks[k]) && |walks[k]| > 1 && paths[k] == DropEmpty(g, walks[k]) && PathOk(g, paths[k])
  }

  /** Check 1 for one graph and one pair of cutpoints. */
  method CheckFinite(g: Cfg, cuts: seq<nat>, i: nat, j: nat, found: nat) returns (ok: bool)
    requires g.Valid() && InRange(g, cuts) && i < |cuts| && j < |cuts|
    requires found == |AllWalks(g, cuts[i], cuts[j], 1, cuts)|
    ensures ok <==> CountsAgree(g, cuts[i], cuts[j], cuts)
  {
    var more := EnumeratePaths(g, 2, cuts[i], cuts[j], cuts);
    ok := found == |more|;
  }

  /** Conjunct m of cutpoint j is not established by some pair of paths from i to j. */
  ghost predicate FailsFrom(v: Setup, invs: seq<seq<nat>>, check: Query -> bool, i: nat, j: nat, m: nat)
    requires v.Valid() && |invs| == |v.tcuts| && i < |v.tcuts| && j < |v.tcuts|
  {
    m < |invs[j]| && exists w, x :: IsPath(v.target, v.tcuts, i, j, w) && IsPath(v.rewrite, v.rcuts, i, j, x)
                                    && !check(Obligation(v, i, w, x, invs[i], Conjunct(invs[j][m])))
  }

  lemma RefusedIsFailed(v: Setup, invs: seq<seq<nat>>, check: Query -> bool, i: nat, j: nat, m: nat,
                        ps: seq<seq<nat>>, ws: seq<seq<nat>>, qs: seq<seq<nat>>, xs: seq<seq<nat>>)
    requires v.Valid() && |invs| == |v.tcuts| && i < |v.tcuts| && j < |v.tcuts|
    requires Named(v.target, ps, ws) && Named(v.rewrite, qs, xs)
    requires forall w :: w in ws <==> IsPath(v.target, v.tcuts, i, j, w)
    requires forall x :: x in xs <==> IsPath(v.rewrite, v.rcuts, i, j, x)
    ensures (exists a :: 0 <= a < |ps| && RefusesSome(v, check, i, ps[a], qs, invs[i], invs[j], m)) <==>
            FailsFrom(v, invs, check, i, j, m)
  {
    hide IsPath, MakeQuery;
    if a :| 0 <= a < |ps| && RefusesSome(v, check, i, ps[a], qs, invs[i], invs[j], m) {
      var b :| 0 <= b < |qs| && Refuses(v, check, i, ps[a], qs[b], invs[i], invs[j], m);
      assert ws[a] in ws && xs[b] in xs;
    }
    if FailsFrom(v, invs, check, i, j, m) {
      var w, x :| IsPath(v.target, v.tcuts, i, j, w) && IsPath(v.rewrite, v.rcuts, i, j, x)
                  && !check(Obligation(v, i, w, x, invs[i], Conjunct(invs[j][m])));
      var a :| 0 <= a < |ws| && ws[a] == w;
      var b :| 0 <= b < |xs| && xs[b] == x;
      assert Refuses(v, check, i, ps[a], qs[b], invs[i], invs[j], m);
      assert RefusesSome(v, check, i, ps[a], qs, invs[i], invs[j], m);
    }
  }

  lemma ExcludedIsExclusive(v: Setup, invs: seq<seq<nat>>, check: Query -> bool, i: nat, j: nat, k: nat,
                            ps: seq<seq<nat>>, ws: seq<seq<nat>>, qs: seq<seq<nat>>, xs: seq<seq<nat>>)
    requires v.Valid() && |invs| == |v.tcuts| && i < |v.tcuts| && j < |v.tcuts| && k < |v.tcuts|
    requires Named(v.target, ps, ws) && Named(v.rewrite, qs, xs)
    requires forall w :: w in ws <==> IsPath(v.target, v.tcuts, i, j, w)
    requires forall x :: x in xs <==> IsPath(v.rewrite, v.rcuts, i, k, x)
    ensures (forall a, b :: 0 <= a < |ps| && 0 <= b < |qs| ==>
            check(MakeQuery(v, i, ps[a], qs[b], invs[i], Contradiction))) <==>
            Exclusive(v, invs, check, i, j, k)
  {
    hide IsPath, MakeQuery;
    if forall a, b :: 0 <= a < |ps| && 0 <= b < |qs| ==> check(MakeQuery(v, i, ps[a], qs[b], invs[i], Contradiction)) {
      forall w, x | IsPath(v.target, v.tcuts, i, j, w) && IsPath(v.rewrite, v.rcuts, i, k, x)
        ensures check(Obligation(v, i, w, x, invs[i], Contradiction))
      {
        var a :| 0 <= a < |ws| && ws[a] == w;
        var b :| 0 <= b < |xs| && xs[b] == x;
      }
    }
    if Exclusive(v, invs, check, i, j, k) {
      forall a, b | 0 <= a < |ps| && 0 <= b < |qs|
        ensures check(MakeQuery(v, i, ps[a], qs[b], invs[i], Contradiction))
      {
        assert ws[a] in ws && xs[b] in xs;
        assert check(Obligation(v, i, ws[a], xs[b], invs[i], Contradiction));
      }
    }
  }

  lemma NoFailureIsPreserved(v: Setup, invs: seq<seq<nat>>, check: Query -> bool, i: nat, j: nat)
    requires v.Valid() && |invs| == |v.tcuts| && i < |v.tcuts| && j < |v.tcuts|
    ensures (forall m: nat :: !FailsFrom(v, invs, check, i, j, m)) <==> Preserved(v, invs, check, i, j)
  {
    hide Obligation;
    if Preserved(v, invs, check, i, j) {
    } else {
      var w, x, m :| IsPath(v.target, v.tcuts, i, j, w) && IsPath(v.rewrite, v.rcuts, i, j, x) && 0 <= m < |invs[j]|
                     && !check(Obligation(v, i, w, x, invs[i], Conjunct(invs[j][m])));
      assert FailsFrom(v, invs, check, i, j, m);
    }
  }

  /** Checks 3 for all k other than j. */
  method CheckExclusive(v: Setup, invs: seq<seq<nat>>, check: Query -> bool,
                        i: nat, j: nat, ps: seq<seq<nat>>, ghost ws: seq<seq<nat>>) returns (ok: bool)
    requires v.Valid() && |invs| == |v.tcuts| && i < |v.tcuts| && j < |v.tcuts|
    requires Named(v.target, ps, ws) && forall w :: w in ws <==> IsPath(v.target, v.tcuts, i, j, w)
    ensures ok <==> forall k :: 0 <= k < |v.tcuts| && k != j ==> Exclusive(v, invs, check, i, j, k)
  {
    var k := 0;
    while k < |v.rcuts|
      invariant 0 <= k <= |v.rcuts|
      invariant forall h :: 0 <= h < k && h != j ==> Exclusive(v, invs, check, i, j, h)
    {
      hide IsPath, MakeQuery, Exclusive;
      if k != j {
        var qs, xs := PathsBetween(v.rewrite, v.rcuts, i, k);
        var excluded := AllExcluded(v, check, i, ps, qs, invs[i]);
        ExcludedIsExclusive(v, invs, check, i, j, k, ps, ws, qs, xs);
        if !excluded {
          return false;
        }
      }
      k := k + 1;
    }
    return true;
  }

  /** The three checks for cutpoints i and j; on a failure of check 2, the failed conjuncts of j. */
  method CheckPair(v: Setup, invs: seq<seq<nat>>, check: Query -> bool, i: nat, j: nat)
    returns (ok: bool, failed: seq<nat>)
    requires v.Valid() && |invs| == |v.tcuts| && i < |v.tcuts| && j < |v.tcuts|
    ensures ok <==> PairOk(v, invs, check, i, j)
    ensures failed == [] || forall m: nat :: m in failed <==> FailsFrom(v, invs, check, i, j, m)
    ensures ok ==> failed == []
    ensures !ok && failed == [] ==> !Finite(v, i, j) || Preserved(v, invs, check, i, j)
  {
    hide IsPath, MakeQuery, Exclusive, Preserved, FailsFrom, RefusesSome, CountsAgree;
    failed := [];
    var ps, ws := PathsBetween(v.target, v.tcuts, i, j);
    var qs, xs := PathsBetween(v.rewrite, v.rcuts, i, j);
    var tfinite := CheckFinite(v.target, v.tcuts, i, j, |ps|);
    if !tfinite {
      return false, [];
    }
    var rfinite := CheckFinite(v.rewrite, v.rcuts, i, j, |qs|);
    if !rfinite {
      return false, [];
    }
    failed := FailedConjuncts(v, check, i, ps, qs, invs[i], invs[j]);
    forall m: nat
      ensures m in failed <==> FailsFrom(v, invs, check, i, j, m)
    {
      RefusedIsFailed(v, invs, check, i, j, m, ps, ws, qs, xs);
    }
    NoFailureIsPreserved(v, invs, check, i, j);
    if failed != [] {
      assert failed[0] in failed;
      return false, failed;
    }
    ok := CheckExclusive(v, invs, check, i, j, ps, ws);
  }

  /** The failed map names one cutpoint and exactly the conjuncts that failed there. */
  ghost predicate Blames(v: Setup, invs: seq<seq<nat>>, check: Query -> bool,
                         failed: map<nat, seq<nat>>, i: nat, j: nat)
    requires v.Valid() && |invs| == |v.tcuts|
  {
    i < |invs| && j < |invs| && failed.Keys == {j} && failed[j] != [] && forall m: nat :: m in failed[j] <==>
      FailsFrom(v, invs, check, i, j, m)
  }

  /** Cutpoints i and j fail a check that removing conjuncts does not repair. */
  ghost predicate Hopeless(v: Setup, invs: seq<seq<nat>>, check: Query -> bool, i: nat, j: nat)
    requires v.Valid() && |invs| == |v.tcuts|
  {
    && i < |invs| && j < |invs| && !PairOk(v, invs, check, i, j)
    && (!Finite(v, i, j) || Preserved(v, invs, check, i, j))
  }

  lemma AllPairsOk(v: Setup, invs: seq<seq<nat>>, check: Query -> bool)
    requires v.Valid() && |invs| == |v.tcuts|
    requires forall a, b :: 0 <= a < |v.tcuts| && 0 <= b < |v.tcuts| ==> PairOk(v, invs, check, a, b)
    ensures ProofHolds(v, invs, check)
  {
    hide PairOk;
  }

  lemma ProofGivesPair(v: Setup, invs: seq<seq<nat>>, check: Query -> bool, i: nat, j: nat)
    requires v.Valid() && |invs| == |v.tcuts| && i < |v.tcuts| && j < |v.tcuts|
    ensures ProofHolds(v, invs, check) ==> PairOk(v, invs, check, i, j)
  {
    hide PairOk;
  }

  /** `check_proof`: exactly the proof condition, with the blame for a failure of check 2. */
  method CheckProof(v: Setup, invs: seq<seq<nat>>, check: Query -> bool) returns (ok: bool, failed: map<nat, seq<nat>>)
    requires v.Valid() && |invs| == |v.tcuts|
    ensures ok <==> ProofHolds(v, invs, check)
    ensures failed == map[] || exists i, j :: Blames(v, invs, check, failed, i, j)
    ensures ok ==> failed == map[]
    ensures !ok && failed == map[] ==> exists i, j :: Hopeless(v, invs, check, i, j)
  {
    failed := map[];
    var i := 0;
    while i < |v.tcuts|
      invariant 0 <= i <= |v.tcuts|
      invariant forall a, b :: 0 <= a < i && 0 <= b < |v.tcuts| ==> PairOk(v, invs, check, a, b)
    {
      var j := 0;
      while j < |v.rcuts|
        invariant 0 <= j <= |v.rcuts|
        invariant forall b :: 0 <= b < j ==> PairOk(v, invs, check, i, b)
      {
        hide Finite, Preserved, Exclusive, FailsFrom;
        var good, here := CheckPair(v, invs, check, i, j);
        if !good {
          if here != [] {
            failed := map[j := here];
            assert Blames(v, invs, check, failed, i, j);
          } else {
            assert Hopeless(v, invs, check, i, j);
          }
          ProofGivesPair(v, invs, check, i, j);
          return false, failed;
        }
        j := j + 1;
      }
      i := i + 1;
    }
    AllPairsOk(v, invs, check);
    return true, failed;
  }

  // ----- Removing failed conjuncts -----

  /** s without the positions in `bad`, where s starts at position `off`. */
  ghost function Kept(s: seq<nat>, bad: set<nat>, off: nat): seq<nat> {
    if s == [] then [] else (if off in bad then [] else [s[0]]) + Kept(s[1..], bad, off + 1)
  }

  /** A stretch without bad positions is kept whole. */
  lemma {:induction false} KeptGap(s: seq<nat>, bad: set<nat>, off: nat, n: nat)
    requires n <= |s| && forall k :: off <= k < off + n ==> k !in bad
    ensures Kept(s, bad, off) == s[..n] + Kept(s[n..], bad, off + n)
  {
    if n > 0 {
      KeptGap(s[1..], bad, off + 1, n - 1);
      assert s[..n] == [s[0]] + s[1..][..n - 1] && s[1..][n - 1..] == s[n..];
    } else {
      assert s[0..] == s && s[..0] == [];
    }
  }

  /** What is left are the entries at the other positions, in their order. */
  lemma {:induction false} KeptIs(s: seq<nat>, bad: set<nat>, off: nat)
    requires off <= |s|
    ensures Sifted(s, (set k: nat | k < |s| && k !in bad), off, Kept(s[off..], bad, off))
    decreases |s| - off
  {
    var keep := set k: nat | k < |s| && k !in bad;
    if off < |s| {
      KeptIs(s, bad, off + 1);
      SiftedStep(s, keep, off, Kept(s[off + 1..], bad, off + 1));
      assert s[off..][1..] == s[off + 1..];
    } else {
      SiftedEnd(s, keep);
    }
  }

  ghost function Positions(failed: seq<nat>): set<nat> { set m | m in failed }

  ghost predicate Sorted(s: seq<nat>) {
    forall i, j :: 0 <= i < j < |s| ==> s[i] <= s[j]
  }

  method InsertSorted(s: seq<nat>, x: nat) returns (r: seq<nat>)
    requires Sorted(s)
    ensures Sorted(r) && forall y :: y in r <==> y in s || y == x
  {
    var i := 0;
    while i < |s| && s[i] <= x
      invariant 0 <= i <= |s| && forall h :: 0 <= h < i ==> s[h] <= x
    {
      i := i + 1;
    }
    assert s == s[..i] + s[i..];
    r := s[..i] + [x] + s[i..];
  }

  /** Stands for std::sort. */
  method Sort(s: seq<nat>) returns (r: seq<nat>)
    ensures Sorted(r) && forall x :: x in r <==> x in s
  {
    hide Sorted;
    r := [];
    SortedEmpty();
    for k := 0 to |s|
      invariant Sorted(r) && forall x :: x in r <==> x in s[..k]
    {
      assert s[..k + 1] == s[..k] + [s[k]];
      r := InsertSorted(r, s[k]);
    }
    assert s[..|s|] == s;
  }

  lemma SortedEmpty()
    ensures Sorted([])
  {
  }

  /** One cutpoint's clean-up: sort the failed positions and remove them from the back, each once. */
  method RemoveFailed(conj: seq<nat>, failed: seq<nat>) returns (r: seq<nat>, changed: bool)
    requires forall m :: m in failed ==> m < |conj|
    ensures r == Kept(conj, Positions(failed), 0)
    ensures Sifted(conj, (set k: nat | k < |conj| && k !in failed), 0, r)
    ensures changed <==> failed != []
  {
    ghost var bad := Positions(failed);
    var toRemove := Sort(failed);
    assert conj[|conj|..] == [] && conj[..|conj|] == conj;
    r, changed := conj, false;
    var it := |toRemove|;
    ghost var t: nat := |conj|;   // everything at or above t is dealt with
    while it > 0
      invariant 0 <= it <= |toRemove| && t <= |conj|
      invariant r == conj[..t] + Kept(conj[t..], bad, t)
      invariant forall k :: it <= k < |toRemove| ==> toRemove[k] >= t
      invariant forall m :: m in bad && m < t ==> exists k :: 0 <= k < it && toRemove[k] == m
      invariant if it < |toRemove| then toRemove[it] == t else t == |conj|
      invariant changed <==> it < |toRemove|
    {
      it := it - 1;
      var m := toRemove[it];
      assert m in toRemove && m in failed;
      assert it + 1 < |toRemove| ==> toRemove[it] <= toRemove[it + 1];
      if it + 1 < |toRemove| && toRemove[it + 1] == m {
        continue;
      }
      Gap(bad, toRemove, it, t);
      DropOne(conj, bad, m, t);
      r := r[..m] + r[m + 1..];
      t := m;
      changed := true;
    }
    assert forall k :: 0 <= k < t ==> k !in bad;
    KeptGap(conj, bad, 0, t);
    KeptIs(conj, bad, 0);
    assert conj[0..] == conj && (set k: nat | k < |conj| && k !in failed) == (set k: nat | k < |conj| && k !in bad);
    assert failed != [] ==> failed[0] in toRemove;
    assert toRemove != [] ==> toRemove[0] in failed;
  }

  /** Between the next position to remove and those already removed nothing is bad. */
  lemma Gap(bad: set<nat>, toRemove: seq<nat>, it: nat, t: nat)
    requires it < |toRemove| && Sorted(toRemove)
    requires forall m :: m in bad && m < t ==> exists k :: 0 <= k < it + 1 && toRemove[k] == m
    ensures forall k :: toRemove[it] < k < t ==> k !in bad
  {
  }

  lemma DropOne(conj: seq<nat>, bad: set<nat>, m: nat, t: nat)
    requires m < t <= |conj| && m in bad && forall k :: m < k < t ==> k !in bad
    ensures var r := conj[..t] + Kept(conj[t..], bad, t);
            r[..m] + r[m + 1..] == conj[..m] + Kept(conj[m..], bad, m)
  {
    var rest := Kept(conj[t..], bad, t);
    KeptAcross(conj, bad, m, t);
    CutAt(conj, rest, m, t);
  }

  lemma KeptAcross(conj: seq<nat>, bad: set<nat>, m: nat, t: nat)
    requires m < t <= |conj| && m in bad && forall k :: m < k < t ==> k !in bad
    ensures Kept(conj[m..], bad, m) == conj[m + 1..t] + Kept(conj[t..], bad, t)
  {
    KeptBad(conj[m..], bad, m);
    hide Kept;
    KeptGap(conj[m + 1..], bad, m + 1, t - m - 1);
    Parts(conj, m, m + 1);
    Parts(conj, m + 1, t);
  }

  lemma KeptBad(s: seq<nat>, bad: set<nat>, off: nat)
    requires s != [] && off in bad
    ensures Kept(s, bad, off) == Kept(s[1..], bad, off + 1)
  {
  }

  lemma Parts(s: seq<nat>, m: nat, t: nat)
    requires m <= t <= |s|
    ensures s[m..][t - m..] == s[t..] && s[m..][..t - m] == s[m..t]
  {
  }

  lemma CutAt(conj: seq<nat>, rest: seq<nat>, m: nat, t: nat)
    requires m < t <= |conj|
    ensures var r := conj[..t] + rest; r[..m] + r[m + 1..] == conj[..m] + (conj[m + 1..t] + rest)
  {
    var r := conj[..t] + rest;
    assert r[..m] == conj[..m] && r[m + 1..] == conj[m + 1..t] + rest;
  }

  // ----- The Houdini loop -----

  ghost function TotalSize(invs: seq<seq<nat>>): nat {
    if invs == [] then 0 else TotalSize(invs[..|invs| - 1]) + |invs[|invs| - 1]|
  }

  lemma {:induction false} TotalSizeUpdate(invs: seq<seq<nat>>, i: nat, c: seq<nat>)
    requires i < |invs|
    ensures TotalSize(invs[i := c]) == TotalSize(invs) - |invs[i]| + |c|
  {
    var n := |invs| - 1;
    if i == n {
      assert invs[i := c][..n] == invs[..n];
    } else {
      TotalSizeUpdate(invs[..n], i, c);
      assert invs[i := c][..n] == invs[..n][i := c];
    }
  }

  lemma {:induction false} KeptSize(s: seq<nat>, bad: set<nat>, off: nat)
    ensures |Kept(s, bad, off)| <= |s|
    ensures (exists k :: off <= k < off + |s| && k in bad) ==> |Kept(s, bad, off)| < |s|
  {
    if s != [] {
      KeptSize(s[1..], bad, off + 1);
    }
  }

  /** Entries at good positions are kept. */
  lemma {:induction false} KeptHas(s: seq<nat>, bad: set<nat>, off: nat, k: nat)
    requires k < |s| && off + k !in bad
    ensures s[k] in Kept(s, bad, off)
  {
    if k > 0 {
      KeptHas(s[1..], bad, off + 1, k - 1);
      assert s[1..][k - 1] == s[k];
    }
  }

  /** Everything kept was there. */
  lemma {:induction false} KeptWithin(s: seq<nat>, bad: set<nat>, off: nat, x: nat)
    ensures x in Kept(s, bad, off) ==> x in s
  {
    if s != [] {
      KeptWithin(s[1..], bad, off + 1, x);
      assert s == [s[0]] + s[1..];
    }
  }

  function FailedAt(failed: map<nat, seq<nat>>, i: nat): seq<nat> {
    if i in failed then failed[i] else []
  }

  /** The candidates after one round: the first and the last list are never touched. */
  ghost function Cleaned(invs: seq<seq<nat>>, failed: map<nat, seq<nat>>): (r: seq<seq<nat>>)
    ensures |r| == |invs|
  {
    seq(|invs|, i requires 0 <= i < |invs| =>
      if 0 < i < |invs| - 1 then Kept(invs[i], Positions(FailedAt(failed, i)), 0) else invs[i])
  }

  ghost predicate PositionsOk(invs: seq<seq<nat>>, failed: map<nat, seq<nat>>) {
    forall i, m :: 0 <= i < |invs| && m in FailedAt(failed, i) ==> m < |invs[i]|
  }

  method CleanUp(invs: seq<seq<nat>>, failed: map<nat, seq<nat>>) returns (r: seq<seq<nat>>, changed: bool)
    requires |invs| > 0 && PositionsOk(invs, failed)
    ensures r == Cleaned(invs, failed)
    ensures |r| == |invs| && r[0] == invs[0] && r[|r| - 1] == invs[|invs| - 1]
    ensures forall i: nat :: 0 < i < |invs| - 1 ==>
              Sifted(invs[i], (set k: nat | k < |invs[i]| && k !in FailedAt(failed, i)), 0, r[i])
    ensures TotalSize(r) <= TotalSize(invs) && (changed ==> TotalSize(r) < TotalSize(invs))
    ensures !changed ==> r == invs && forall k :: 0 < k < |invs| - 1 ==> FailedAt(failed, k) == []
  {
    hide TotalSize, Kept, Positions;
    r, changed := invs, false;
    var i := 1;
    while i < |invs| - 1
      invariant 1 <= i && (i <= |invs| - 1 || |invs| == 1)
      invariant |r| == |invs|
      invariant forall k :: 0 <= k < |invs| ==> r[k] == if k < i then Cleaned(invs, failed)[k] else invs[k]
      invariant TotalSize(r) <= TotalSize(invs) && (changed ==> TotalSize(r) < TotalSize(invs))
      invariant !changed ==> r == invs && forall k :: 0 < k < i ==> FailedAt(failed, k) == []
    {
      var conj, removed := RemoveFailed(r[i], FailedAt(failed, i));
      KeptShrinks(invs[i], FailedAt(failed, i));
      TotalSizeUpdate(r, i, conj);
      r := r[i := conj];
      changed := changed || removed;
      i := i + 1;
    }
    hide Sifted;
    forall k: nat | 0 < k < |invs| - 1
      ensures Sifted(invs[k], (set m: nat | m < |invs[k]| && m !in FailedAt(failed, k)), 0, r[k])
    {
      CleanedSifted(invs, failed, k);
    }
  }

  lemma CleanedSifted(invs: seq<seq<nat>>, failed: map<nat, seq<nat>>, i: nat)
    requires 0 < i < |invs| - 1
    ensures Sifted(invs[i], (set k: nat | k < |invs[i]| && k !in FailedAt(failed, i)), 0, Cleaned(invs, failed)[i])
  {
    var bad := Positions(FailedAt(failed, i));
    KeptIs(invs[i], bad, 0);
    hide Sifted, Kept;
    assert invs[i][0..] == invs[i];
    assert (set k: nat | k < |invs[i]| && k !in FailedAt(failed, i)) == (set k: nat | k < |invs[i]| && k !in bad);
  }

  lemma KeptShrinks(s: seq<nat>, failed: seq<nat>)
    requires forall m :: m in failed ==> m < |s|
    ensures |Kept(s, Positions(failed), 0)| <= |s|
    ensures failed != [] ==> |Kept(s, Positions(failed), 0)| < |s|
    ensures failed == [] ==> Kept(s, Positions(failed), 0) == s
  {
    KeptSize(s, Positions(failed), 0);
    if failed != [] {
      assert failed[0] in Positions(failed);
    } else {
      KeptGap(s, Positions(failed), 0, |s|);
      assert s[..|s|] == s && s[|s|..] == [];
    }
  }

  ghost predicate Contains(invs: seq<seq<nat>>, k: seq<seq<nat>>) {
    |k| == |invs| && forall i, id :: 0 <= i < |invs| && id in k[i] ==> id in invs[i]
  }

  /** A choice of conjuncts that proves itself: each follows along every pair of paths from the
      chosen conjuncts at the start. */
  ghost predicate Inductive(v: Setup, k: seq<seq<nat>>, check: Query -> bool)
    requires v.Valid()
  {
    |k| == |v.tcuts| &&
    forall i, j, w, x, id :: 0 <= i < |k| && 0 <= j < |k| && id in k[j]
                             && IsPath(v.target, v.tcuts, i, j, w) && IsPath(v.rewrite, v.rcuts, i, j, x)
                             ==> check(Obligation(v, i, w, x, k[i], Conjunct(id)))
  }

  /** More assumptions never turn a success into a failure. */
  ghost predicate Monotone(check: Query -> bool) {
    forall q: Query, more: seq<nat> :: check(q) && (forall id :: id in q.given ==> id in more) ==>
        check(q.(given := more))
  }

  ghost predicate ExactOracle<S(!new)>(tp: Program<S>, rp: Program<S>,
                                       meaning: (nat, S, S) -> bool, check: Query -> bool) {
    forall q :: check(q) <==> WellPosed(tp.g, rp.g, q) && Entailed(tp, rp, meaning, q)
  }

  lemma ExactIsMonotone<S(!new)>(tp: Program<S>, rp: Program<S>, meaning: (nat, S, S) -> bool, check: Query -> bool)
    requires ExactOracle(tp, rp, meaning, check)
    ensures Monotone(check) && SoundOracle(tp, rp, meaning, check)
  {
    hide JumpHolds, CircuitHolds, CircuitEnd, GoalHolds;
    forall q: Query, more: seq<nat> | check(q) && (forall id :: id in q.given ==> id in more)
      ensures check(q.(given := more))
    {
      var q' := q.(given := more);
      assert WellPosed(tp.g, rp.g, q') && Entailed(tp, rp, meaning, q);
      forall s, t | Holds(meaning, more, s, t)
        ensures Holds(meaning, q.given, s, t)
      {
        forall m | 0 <= m < |q.given|
          ensures meaning(q.given[m], s, t)
        {
          assert q.given[m] in q.given;
          var n :| 0 <= n < |more| && more[n] == q.given[m];
        }
      }
      assert Entailed(tp, rp, meaning, q');
    }
  }

  /** A conjunct of an inductive choice is never among the failed ones. */
  lemma InductiveSurvives(v: Setup, invs: seq<seq<nat>>, check: Query -> bool, k: seq<seq<nat>>, i: nat, j: nat, m: nat)
    requires v.Valid() && |invs| == |v.tcuts| && i < |invs| && j < |invs| && m < |invs[j]|
    requires Monotone(check) && Contains(invs, k) && Inductive(v, k, check) && invs[j][m] in k[j]
    ensures !FailsFrom(v, invs, check, i, j, m)
  {
    hide VisitsAtMost;
    forall w, x | IsPath(v.target, v.tcuts, i, j, w) && IsPath(v.rewrite, v.rcuts, i, j, x)
      ensures check(Obligation(v, i, w, x, invs[i], Conjunct(invs[j][m])))
    {
      var q := Obligation(v, i, w, x, k[i], Conjunct(invs[j][m]));
      assert check(q);
      assert q.(given := invs[i]) == Obligation(v, i, w, x, invs[i], Conjunct(invs[j][m]));
    }
  }

  /** One round keeps every inductive choice. */
  lemma RoundKeeps(v: Setup, invs: seq<seq<nat>>, check: Query -> bool, failed: map<nat, seq<nat>>, k: seq<seq<nat>>)
    requires v.Valid() && |invs| == |v.tcuts| && Monotone(check) && Contains(invs, k) && Inductive(v, k, check)
    requires failed == map[] || exists i, j :: Blames(v, invs, check, failed, i, j)
    ensures Contains(Cleaned(invs, failed), k)
  {
    hide Monotone, Inductive, FailsFrom, Kept;
    var r := Cleaned(invs, failed);
    forall j, id | 0 <= j < |invs| && id in k[j]
      ensures id in r[j]
    {
      var m :| 0 <= m < |invs[j]| && invs[j][m] == id;
      assert m !in FailedAt(failed, j) by {
        if m in FailedAt(failed, j) {
          var i, h :| Blames(v, invs, check, failed, i, h);
          InductiveSurvives(v, invs, check, k, i, j, m);
          assert false;
        }
      }
      KeptHas(invs[j], Positions(FailedAt(failed, j)), 0, m);
    }
  }

  lemma BlamedPositions(v: Setup, invs: seq<seq<nat>>, check: Query -> bool, failed: map<nat, seq<nat>>)
    requires v.Valid() && |invs| == |v.tcuts|
    requires failed == map[] || exists i, j :: Blames(v, invs, check, failed, i, j)
    ensures PositionsOk(invs, failed)
  {
    if failed != map[] {
      var i, j :| Blames(v, invs, check, failed, i, j);
    }
  }

  /** Nothing is added, and the first and the last list stay as they are. */
  ghost predicate Trimmed(invs: seq<seq<nat>>, from: seq<seq<nat>>) {
    && |invs| == |from| > 0 && invs[0] == from[0] && invs[|invs| - 1] == from[|from| - 1]
    && Contains(from, invs)
  }

  lemma CleanedTrims(invs: seq<seq<nat>>, from: seq<seq<nat>>, failed: map<nat, seq<nat>>)
    requires Trimmed(invs, from)
    ensures Trimmed(Cleaned(invs, failed), from)
  {
    hide Kept;
    var r := Cleaned(invs, failed);
    forall i, id | 0 <= i < |r| && id in r[i]
      ensures id in from[i]
    {
      KeptWithin(invs[i], Positions(FailedAt(failed, i)), 0, id);
      assert id in invs[i];
    }
  }

  /** Some choice among the candidates closes the proof. */
  ghost predicate Provable(v: Setup, candidates: seq<seq<nat>>, check: Query -> bool)
    requires v.Valid() && |candidates| == |v.tcuts|
  {
    exists k :: Trimmed(k, candidates) && ProofHolds(v, k, check)
  }

  lemma ProofIsInductive(v: Setup, k: seq<seq<nat>>, check: Query -> bool)
    requires v.Valid() && |k| == |v.tcuts| && ProofHolds(v, k, check)
    ensures Inductive(v, k, check)
  {
    hide Finite, Exclusive, Obligation;
    forall i, j, w, x, id | 0 <= i < |k| && 0 <= j < |k| && id in k[j]
                            && IsPath(v.target, v.tcuts, i, j, w) && IsPath(v.rewrite, v.rcuts, i, j, x)
      ensures check(Obligation(v, i, w, x, k[i], Conjunct(id)))
    {
      assert PairOk(v, k, check, i, j);
      var m :| 0 <= m < |k[j]| && k[j][m] == id;
    }
  }

  /** What the checker refuses under more assumptions it refuses under fewer. */
  lemma RefusedWithLess(v: Setup, check: Query -> bool, i: nat, w: seq<nat>,
                        x: seq<nat>, more: seq<nat>, less: seq<nat>, goal: Goal)
    requires v.Valid() && i < |v.tcuts| && Monotone(check)
    requires IsWalk(v.target, w) && |w| > 1 && IsWalk(v.rewrite, x) && |x| > 1
    requires (forall id :: id in less ==> id in more) && !check(Obligation(v, i, w, x, more, goal))
    ensures !check(Obligation(v, i, w, x, less, goal))
  {
    var q := Obligation(v, i, w, x, less, goal);
    assert q.(given := more) == Obligation(v, i, w, x, more, goal);
  }

  /** No choice among the conjuncts repairs a hopeless pair. */
  lemma HopelessStays(v: Setup, invs: seq<seq<nat>>, check: Query -> bool, i: nat, j: nat, k: seq<seq<nat>>)
    requires v.Valid() && |invs| == |v.tcuts| && Monotone(check) && Hopeless(v, invs, check, i, j) && Contains(invs, k)
    ensures !ProofHolds(v, k, check)
  {
    hide Obligation, Monotone;
    if Finite(v, i, j) {
      var h :| 0 <= h < |v.tcuts| && h != j && !Exclusive(v, invs, check, i, j, h);
      var w, x :| IsPath(v.target, v.tcuts, i, j, w) && IsPath(v.rewrite, v.rcuts, i, h, x)
                  && !check(Obligation(v, i, w, x, invs[i], Contradiction));
      RefusedWithLess(v, check, i, w, x, invs[i], k[i], Contradiction);
      assert !Exclusive(v, k, check, i, j, h);
    }
    assert !PairOk(v, k, check, i, j);
  }

  /** Nor a conjunct that fails at the entry or the exit. */
  lemma EndsMustHold(v: Setup, invs: seq<seq<nat>>, check: Query -> bool,
                     failed: map<nat, seq<nat>>, i: nat, j: nat, k: seq<seq<nat>>)
    requires v.Valid() && |invs| == |v.tcuts| && Monotone(check) && Blames(v, invs, check, failed, i, j)
    requires Contains(invs, k) && k[j] == invs[j]
    ensures !ProofHolds(v, k, check)
  {
    hide Obligation, Monotone;
    var m := failed[j][0];
    assert FailsFrom(v, invs, check, i, j, m);
    var w, x :| IsPath(v.target, v.tcuts, i, j, w) && IsPath(v.rewrite, v.rcuts, i, j, x)
                && !check(Obligation(v, i, w, x, invs[i], Conjunct(invs[j][m])));
    RefusedWithLess(v, check, i, w, x, invs[i], k[i], Conjunct(invs[j][m]));
    assert !Preserved(v, k, check, i, j);
    assert !PairOk(v, k, check, i, j);
  }

  /** When a round changes nothing, no choice among the candidates closes the proof. */
  lemma NoProofLeft(v: Setup, invs: seq<seq<nat>>, candidates: seq<seq<nat>>,
                    check: Query -> bool, failed: map<nat, seq<nat>>, k: seq<seq<nat>>)
    requires v.Valid() && |invs| == |v.tcuts| && Monotone(check) && Trimmed(invs, candidates) && Trimmed(k, candidates)
    requires Contains(invs, k)
    requires if failed == map[] then exists i, j :: Hopeless(v, invs, check, i, j) else exists i, j ::
             Blames(v, invs, check, failed, i, j)
    requires forall h :: 0 < h < |invs| - 1 ==> FailedAt(failed, h) == []
    ensures !ProofHolds(v, k, check)
  {
    hide ProofHolds, Hopeless, FailsFrom, Monotone;
    if failed == map[] {
      var i, j :| Hopeless(v, invs, check, i, j);
      HopelessStays(v, invs, check, i, j, k);
    } else {
      var i, j :| Blames(v, invs, check, failed, i, j);
      assert FailedAt(failed, j) != [];
      EndsMustHold(v, invs, check, failed, i, j, k);
    }
  }

  /** Every inductive choice among the candidates is still there. */
  ghost predicate KeepsInductive(v: Setup, candidates: seq<seq<nat>>, invs: seq<seq<nat>>, check: Query -> bool)
    requires v.Valid()
  {
    forall k :: Contains(candidates, k) && Inductive(v, k, check) ==> Contains(invs, k)
  }

  /** The Houdini loop.  It terminates; on success the proof closes with the conjuncts that are left;
      no inductive choice among the candidates loses a conjunct; and if some choice closes the proof,
      the loop finds one. */
  method RunHoudini(v: Setup, candidates: seq<seq<nat>>, check: Query -> bool) returns (ok: bool, invs: seq<seq<nat>>)
    requires v.Valid() && |candidates| == |v.tcuts| > 0
    ensures Trimmed(invs, candidates)
    ensures ok <==> ProofHolds(v, invs, check)
    ensures Monotone(check) ==> KeepsInductive(v, candidates, invs, check)
    ensures Monotone(check) ==> (ok <==> Provable(v, candidates, check))
  {
    hide ProofHolds, Blames, Hopeless, Inductive, Monotone, Cleaned, TotalSize, Contains;
    invs := candidates;
    AllContained(candidates);
    while true
      invariant Trimmed(invs, candidates)
      invariant Monotone(check) ==> KeepsInductive(v, candidates, invs, check)
      decreases TotalSize(invs)
    {
      var failed;
      ok, failed := CheckProof(v, invs, check);
      if ok {
        return;
      }
      BlamedPositions(v, invs, check, failed);
      var smaller, madeAChange := CleanUp(invs, failed);
      if !madeAChange {
        if Monotone(check) {
          Unprovable(v, invs, candidates, check, failed);
        }
        return;
      }
      CleanedTrims(invs, candidates, failed);
      if Monotone(check) {
        RoundsKeep(v, candidates, invs, check, failed);
      }
      invs := smaller;
    }
  }

  lemma RoundsKeep(v: Setup, candidates: seq<seq<nat>>, invs: seq<seq<nat>>,
                   check: Query -> bool, failed: map<nat, seq<nat>>)
    requires v.Valid() && |invs| == |v.tcuts| && Monotone(check) && KeepsInductive(v, candidates, invs, check)
    requires failed == map[] || exists i, j :: Blames(v, invs, check, failed, i, j)
    ensures KeepsInductive(v, candidates, Cleaned(invs, failed), check)
  {
    hide Blames, Inductive, Monotone, Cleaned, Contains;
    forall k | Contains(candidates, k) && Inductive(v, k, check)
      ensures Contains(Cleaned(invs, failed), k)
    {
      RoundKeeps(v, invs, check, failed, k);
    }
  }

  lemma Unprovable(v: Setup, invs: seq<seq<nat>>, candidates: seq<seq<nat>>,
                   check: Query -> bool, failed: map<nat, seq<nat>>)
    requires v.Valid() && |invs| == |v.tcuts| && Monotone(check) && Trimmed(invs, candidates)
    requires KeepsInductive(v, candidates, invs, check)
    requires if failed == map[] then exists i, j :: Hopeless(v, invs, check, i, j) else exists i, j ::
             Blames(v, invs, check, failed, i, j)
    requires forall h :: 0 < h < |invs| - 1 ==> FailedAt(failed, h) == []
    ensures !Provable(v, candidates, check)
  {
    hide ProofHolds, Blames, Hopeless, Inductive, Monotone, Contains;
    forall k | Trimmed(k, candidates)
      ensures !ProofHolds(v, k, check)
    {
      if ProofHolds(v, k, check) {
        ProofIsInductive(v, k, check);
        NoProofLeft(v, invs, candidates, check, failed, k);
      }
    }
  }

  lemma AllContained(invs: seq<seq<nat>>)
    ensures Contains(invs, invs)
  {
  }
}
