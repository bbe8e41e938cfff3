/** Path enumeration (src/cfg/paths.cc) and the pumping argument behind the finiteness test that
    the cutpoint validator runs on its results (src/validator/ddec.cc, check 1). */
module Paths {
  import opened Graph

  // ----- What a path is -----

  /** w may still be extended: it respects the visit bound after its first block and has not
      passed through a forbidden block. */
  ghost predicate Open(g: Cfg, max: nat, nopass: seq<nat>, w: seq<nat>) {
    && IsWalk(g, w)
    && (forall b :: multiset(w[1..])[b] <= max)
    && (forall i :: 0 < i < |w| - 1 ==> w[i] !in nopass)
  }

  /** A walk of at least one edge from `start` to `end` whose interior avoids `nopass`. */
  ghost predicate Avoiding(g: Cfg, start: nat, end: nat, nopass: seq<nat>, w: seq<nat>) {
    && WalkBetween(g, w, start, end)
    && |w| > 1
    && (forall i :: 0 < i < |w| - 1 ==> w[i] !in nopass)
  }

  /** No block is visited more than `max` times after the first position. */
  ghost predicate VisitsAtMost(w: seq<nat>, max: nat)
    requires |w| > 0
  {
    forall b :: multiset(w[1..])[b] <= max
  }

  ghost predicate Admissible(g: Cfg, end: nat, max: nat, nopass: seq<nat>, w: seq<nat>) {
    |w| > 0 && Avoiding(g, w[0], end, nopass, w) && VisitsAtMost(w, max)
  }

  /** In how many ways successor edges can be picked to spell out w from position k on. */
  ghost function Choices(g: Cfg, w: seq<nat>, k: nat): nat
    requires 1 <= k <= |w|
    requires forall i :: 0 <= i < |w| ==> w[i] < |g.succs|
    decreases |w| - k
  {
    if k == |w| then 1 else multiset(g.succs[w[k - 1]])[w[k]] * Choices(g, w, k + 1)
  }

  // ----- Termination: the visit bound limits the length of a path -----

  lemma {:induction false} CardinalityBound(m: multiset<nat>, n: nat, max: nat)
    requires forall x :: x in m ==> x < n
    requires forall x :: m[x] <= max
    ensures |m| <= n * max
  {
    if n == 0 {
      assert m == multiset{};
    } else {
      var rest := m[n - 1 := 0];
      assert forall x :: x in rest ==> x in m && x != n - 1;
      CardinalityBound(rest, n - 1, max);
      assert n * max == (n - 1) * max + max;
    }
  }

  lemma LengthBound(g: Cfg, max: nat, nopass: seq<nat>, w: seq<nat>)
    requires Open(g, max, nopass, w)
    ensures |w| <= g.Size() * max + 1
  {
    forall x | x in multiset(w[1..])
      ensures x < g.Size()
    {
      assert x in w[1..];
    }
    CardinalityBound(multiset(w[1..]), g.Size(), max);
  }

  /** How many more blocks the visit bound leaves room for. */
  ghost function Room(g: Cfg, max: nat, nopass: seq<nat>, w: seq<nat>): nat
    requires Open(g, max, nopass, w)
  {
    LengthBound(g, max, nopass, w);
    g.Size() * max + 1 - |w|
  }

  lemma OpenStep(g: Cfg, max: nat, nopass: seq<nat>, w: seq<nat>, c: nat)
    requires g.Valid() && Open(g, max, nopass, w) && g.Edge(w[|w| - 1], c)
    requires |w| > 1 ==> w[|w| - 1] !in nopass
    requires multiset(w[1..])[c] < max
    ensures Open(g, max, nopass, w + [c])
    ensures multiset((w + [c])[1..]) == multiset(w[1..]) + multiset{c}
    ensures Room(g, max, nopass, w + [c]) < Room(g, max, nopass, w)
  {
    assert (w + [c])[1..] == w[1..] + [c];
    var v := w + [c];
    forall i | 0 <= i < |v| - 1
      ensures g.Edge(v[i], v[i + 1])
    {
      if i < |w| - 1 {
        assert g.Edge(w[i], w[i + 1]);
      }
    }
    LengthBound(g, max, nopass, w);
    LengthBound(g, max, nopass, v);
  }

  // ----- The enumeration as a function -----

  ghost predicate AllEdges(g: Cfg, b: nat, ss: seq<nat>) {
    forall k :: 0 <= k < |ss| ==> g.Edge(b, ss[k])
  }

  ghost function Walks(g: Cfg, end: nat, max: nat, nopass: seq<nat>, path: seq<nat>): seq<seq<nat>>
    requires g.Valid() && Open(g, max, nopass, path)
    decreases Room(g, max, nopass, path), 2, 0
  {
    var last := path[|path| - 1];
    var here := if last == end && |path| > 1 then [path] else [];
    if (|path| > 1 && last in nopass) || last == g.Exit() then here
    else here + Extensions(g, end, max, nopass, path, g.succs[last])
  }

  ghost function Extensions(g: Cfg, end: nat, max: nat, nopass: seq<nat>, path: seq<nat>, ss: seq<nat>): seq<seq<nat>>
    requires g.Valid() && Open(g, max, nopass, path)
    requires |path| > 1 ==> path[|path| - 1] !in nopass
    requires AllEdges(g, path[|path| - 1], ss)
    decreases Room(g, max, nopass, path), 1, |ss|
  {
    if ss == [] then []
    else Branch(g, end, max, nopass, path, ss[0]) + Extensions(g, end, max, nopass, path, ss[1..])
  }

  /** The walks that continue with block c, none if c has used up its visits. */
  ghost function Branch(g: Cfg, end: nat, max: nat, nopass: seq<nat>, path: seq<nat>, c: nat): seq<seq<nat>>
    requires g.Valid() && Open(g, max, nopass, path)
    requires |path| > 1 ==> path[|path| - 1] !in nopass
    requires g.Edge(path[|path| - 1], c)
    decreases Room(g, max, nopass, path), 0, 0
  {
    if multiset(path[1..])[c] < max
    then OpenStep(g, max, nopass, path, c); Walks(g, end, max, nopass, path + [c])
    else []
  }

  lemma PrefixCounts(p: seq<nat>, w: seq<nat>, b: nat)
    requires 0 < |p|
    ensures p <= w ==> multiset(p[1..])[b] <= multiset(w[1..])[b]
  {
    if p <= w {
      assert w[1..] == p[1..] + w[|p|..];
    }
  }

  /** A walk that goes on past `path` leaves its last block by an edge. */
  lemma NextEdge(g: Cfg, path: seq<nat>, w: seq<nat>)
    requires |path| > 0
    ensures path <= w && |path| < |w| && IsWalk(g, w) ==> g.Edge(path[|path| - 1], w[|path|])
  {
    if path <= w && |path| < |w| && IsWalk(g, w) {
      assert g.Edge(w[|path| - 1], w[|path| - 1 + 1]);
    }
  }

  /** Exactness of the search below `path`: every admissible walk that extends it appears once
      per choice of successor edges, and nothing else appears. */
  lemma {:induction false} WalksCount(g: Cfg, end: nat, max: nat, nopass: seq<nat>, path: seq<nat>, w: seq<nat>)
    requires g.Valid() && Open(g, max, nopass, path)
    ensures multiset(Walks(g, end, max, nopass, path))[w] ==
            if path <= w && Admissible(g, end, max, nopass, w) then Choices(g, w, |path|) else 0
    decreases Room(g, max, nopass, path), 2, 0
  {
    var last := path[|path| - 1];
    NextEdge(g, path, w);
    assert path <= w && |w| == |path| ==> w == path;
    if !((|path| > 1 && last in nopass) || last == g.Exit()) {
      ExtensionsCount(g, end, max, nopass, path, g.succs[last], w);
    }
  }

  lemma {:induction false} ExtensionsCount(g: Cfg, end: nat, max: nat, nopass: seq<nat>,
                                           path: seq<nat>, ss: seq<nat>, w: seq<nat>)
    requires g.Valid() && Open(g, max, nopass, path)
    requires |path| > 1 ==> path[|path| - 1] !in nopass
    requires AllEdges(g, path[|path| - 1], ss)
    ensures multiset(Extensions(g, end, max, nopass, path, ss))[w] ==
            if |path| < |w| && path <= w && Admissible(g, end, max, nopass, w)
            then multiset(ss)[w[|path|]] * Choices(g, w, |path| + 1) else 0
    decreases Room(g, max, nopass, path), 1, |ss|
  {
    if ss != [] {
      ExtensionsCount(g, end, max, nopass, path, ss[1..], w);
      BranchCount(g, end, max, nopass, path, ss[0], w);
      var first, rest := Branch(g, end, max, nopass, path, ss[0]), Extensions(g, end, max, nopass, path, ss[1..]);
      if |path| < |w| && path <= w && Admissible(g, end, max, nopass, w) {
        AddCounts(first, rest, w, ss, w[|path|], Choices(g, w, |path| + 1));
      }
    }
  }

  lemma {:induction false} BranchCount(g: Cfg, end: nat, max: nat, nopass: seq<nat>,
                                       path: seq<nat>, c: nat, w: seq<nat>)
    requires g.Valid() && Open(g, max, nopass, path)
    requires |path| > 1 ==> path[|path| - 1] !in nopass
    requires g.Edge(path[|path| - 1], c)
    ensures multiset(Branch(g, end, max, nopass, path, c))[w] ==
            if |path| < |w| && path <= w && Admissible(g, end, max, nopass, w) && w[|path|] == c
            then Choices(g, w, |path| + 1) else 0
    decreases Room(g, max, nopass, path), 0, 0
  {
    assert path + [c] <= w <==> |path| < |w| && path <= w && w[|path|] == c;
    if multiset(path[1..])[c] < max {
      OpenStep(g, max, nopass, path, c);
      WalksCount(g, end, max, nopass, path + [c], w);
    } else {
      PrefixCounts(path + [c], w, c);
      assert (path + [c])[1..] == path[1..] + [c];
    }
  }

  lemma AddCounts(first: seq<seq<nat>>, rest: seq<seq<nat>>, w: seq<nat>, ss: seq<nat>, x: nat, e: nat)
    requires ss != []
    requires multiset(first)[w] == if x == ss[0] then e else 0
    requires multiset(rest)[w] == multiset(ss[1..])[x] * e
    ensures multiset(first + rest)[w] == multiset(ss)[x] * e
  {
    var one, more := if x == ss[0] then 1 else 0, multiset(ss[1..])[x];
    assert multiset(ss)[x] == one + more by {
      assert ss == [ss[0]] + ss[1..];
    }
    assert multiset(first + rest)[w] == one * e + more * e;
    assert (one + more) * e == one * e + more * e;
  }

  lemma StartOpen(g: Cfg, max: nat, nopass: seq<nat>, start: nat)
    requires start < g.Size()
    ensures Open(g, max, nopass, [start])
  {
    assert [start][1..] == [];
  }

  /** All walks from `start` to `end` that the enumeration returns, before empty blocks go. */
  ghost function AllWalks(g: Cfg, start: nat, end: nat, max: nat, nopass: seq<nat>): seq<seq<nat>>
    requires g.Valid() && start < g.Size()
  {
    StartOpen(g, max, nopass, start);
    if max == 0 then [] else Walks(g, end, max, nopass, [start])
  }

  lemma {:induction false} ChoicesPositive(g: Cfg, w: seq<nat>, k: nat)
    requires IsWalk(g, w) && 1 <= k <= |w|
    ensures Choices(g, w, k) > 0
    decreases |w| - k
  {
    if k < |w| {
      ChoicesPositive(g, w, k + 1);
      assert g.Edge(w[k - 1], w[k]);
      assert multiset(g.succs[w[k - 1]])[w[k]] >= 1;
      PositiveProduct(multiset(g.succs[w[k - 1]])[w[k]], Choices(g, w, k + 1));
    }
  }

  lemma PositiveProduct(a: nat, b: nat)
    requires a > 0 && b > 0
    ensures a * b > 0
  {
  }

  lemma NoVisits(w: seq<nat>)
    ensures |w| > 1 ==> !VisitsAtMost(w, 0)
  {
    if |w| > 1 {
      assert w[1..][0] in multiset(w[1..]);
    }
  }

  /** Exactness of the whole enumeration, with multiplicities. */
  lemma AllWalksCount(g: Cfg, start: nat, end: nat, max: nat, nopass: seq<nat>, w: seq<nat>)
    requires g.Valid() && start < g.Size()
    ensures multiset(AllWalks(g, start, end, max, nopass))[w] ==
            if Avoiding(g, start, end, nopass, w) && VisitsAtMost(w, max) then Choices(g, w, 1) else 0
  {
    StartOpen(g, max, nopass, start);
    NoVisits(w);
    if max > 0 {
      WalksCount(g, end, max, nopass, [start], w);
      assert [start] <= w <==> |w| > 0 && w[0] == start;
    }
  }

  lemma AllWalksMembers(g: Cfg, start: nat, end: nat, max: nat, nopass: seq<nat>, w: seq<nat>)
    requires g.Valid() && start < g.Size()
    ensures w in AllWalks(g, start, end, max, nopass) <==>
            Avoiding(g, start, end, nopass, w) && VisitsAtMost(w, max)
  {
    AllWalksCount(g, start, end, max, nopass, w);
    assert w in AllWalks(g, start, end, max, nopass) <==> w in multiset(AllWalks(g, start, end, max, nopass));
    if Avoiding(g, start, end, nopass, w) {
      ChoicesPositive(g, w, 1);
    }
  }

  // ----- Pumping -----

  /** The first occurrence of b. */
  lemma {:induction false} FirstOccurrence(s: seq<nat>, b: nat) returns (i: nat)
    requires multiset(s)[b] > 0
    ensures i < |s| && s[i] == b && multiset(s[i + 1..])[b] == multiset(s)[b] - 1
  {
    assert b in s;
    assert s == [s[0]] + s[1..];
    if s[0] == b {
      i := 0;
    } else {
      i := FirstOccurrence(s[1..], b);
      assert s[1..][i + 1..] == s[i + 2..];
      i := i + 1;
    }
  }

  /** Cutting the stretch between two visits of one block leaves a walk with the same ends. */
  lemma CutLoop(g: Cfg, start: nat, end: nat, nopass: seq<nat>, w: seq<nat>, i: nat, j: nat)
    requires Avoiding(g, start, end, nopass, w)
    requires 1 <= i < j < |w| && w[i] == w[j]
    ensures Avoiding(g, start, end, nopass, w[..i] + w[j..])
  {
    var v := w[..i] + w[j..];
    forall k | 0 <= k < |v| - 1
      ensures g.Edge(v[k], v[k + 1])
    {
      if k < i {
        assert g.Edge(w[k], w[k + 1]);
      } else {
        assert v[k] == w[k - i + j] && v[k + 1] == w[k - i + j + 1];
        assert g.Edge(w[k - i + j], w[k - i + j + 1]);
      }
    }
    forall k | 0 < k < |v| - 1
      ensures v[k] !in nopass
    {
      assert v[k] == if k < i then w[k] else w[k - i + j];
    }
  }

  /** Of three visits to b, the first two, with two visits left from the second on. */
  lemma TwoOfThree(w: seq<nat>, b: nat) returns (i: nat, j: nat)
    requires |w| > 0 && multiset(w[1..])[b] > 2
    ensures 1 <= i < j < |w| && w[i] == w[j] == b && multiset(w[j..])[b] >= 2
  {
    var x := FirstOccurrence(w[1..], b);
    var tail := w[x + 2..];
    assert w[1..][x + 1..] == tail;
    var y := FirstOccurrence(tail, b);
    i, j := x + 1, x + 2 + y;
    assert tail[y + 1..] == w[j + 1..];
    assert w[j..] == [b] + w[j + 1..];
  }

  /** A walk that repeats a block can be cut down to one that repeats some block exactly twice. */
  lemma {:induction false} Pump(g: Cfg, start: nat, end: nat, nopass: seq<nat>, w: seq<nat>) returns (v: seq<nat>)
    requires Avoiding(g, start, end, nopass, w) && !VisitsAtMost(w, 1)
    ensures Avoiding(g, start, end, nopass, v) && VisitsAtMost(v, 2) && !VisitsAtMost(v, 1)
    decreases |w|
  {
    if VisitsAtMost(w, 2) {
      v := w;
    } else {
      var b :| multiset(w[1..])[b] > 2;
      var i, j := TwoOfThree(w, b);
      CutLoop(g, start, end, nopass, w, i, j);
      var u := w[..i] + w[j..];
      assert u[1..] == w[1..i] + w[j..];
      assert multiset(u[1..])[b] == multiset(w[1..i])[b] + multiset(w[j..])[b];
      v := Pump(g, start, end, nopass, u);
    }
  }

  lemma SubMultisetEqual<T>(a: multiset<T>, b: multiset<T>)
    requires a <= b && |a| == |b|
    ensures a == b
  {
    assert |b - a| == 0;
    assert b == a + (b - a);
  }

  /** The bound-1 list is contained in the bound-2 list, multiplicities included. */
  lemma BoundOneWithinTwo(g: Cfg, start: nat, end: nat, nopass: seq<nat>)
    requires g.Valid() && start < g.Size()
    ensures multiset(AllWalks(g, start, end, 1, nopass)) <= multiset(AllWalks(g, start, end, 2, nopass))
  {
    forall w
      ensures multiset(AllWalks(g, start, end, 1, nopass))[w] <= multiset(AllWalks(g, start, end, 2, nopass))[w]
    {
      AllWalksCount(g, start, end, 1, nopass, w);
      AllWalksCount(g, start, end, 2, nopass, w);
    }
  }

  ghost predicate CountsAgree(g: Cfg, start: nat, end: nat, nopass: seq<nat>)
    requires g.Valid() && start < g.Size()
  {
    |AllWalks(g, start, end, 1, nopass)| == |AllWalks(g, start, end, 2, nopass)|
  }

  /** The finiteness test is exact: the counts for bounds 1 and 2 agree if and only if no walk
      between the two blocks, of whatever length, visits a block twice; the bound-1 list then
      holds every walk there is. */
  lemma FinitenessTest(g: Cfg, start: nat, end: nat, nopass: seq<nat>)
    requires g.Valid() && start < g.Size()
    ensures CountsAgree(g, start, end, nopass) <==>
            forall w :: Avoiding(g, start, end, nopass, w) ==> VisitsAtMost(w, 1)
    ensures CountsAgree(g, start, end, nopass) ==>
            forall w :: Avoiding(g, start, end, nopass, w) <==> w in AllWalks(g, start, end, 1, nopass)
  {
    if CountsAgree(g, start, end, nopass) {
      AgreeingCounts(g, start, end, nopass);
    }
    if forall w :: Avoiding(g, start, end, nopass, w) ==> VisitsAtMost(w, 1) {
      SimpleWalksAgree(g, start, end, nopass);
    }
    forall w
      ensures w in AllWalks(g, start, end, 1, nopass) <==> Avoiding(g, start, end, nopass, w) && VisitsAtMost(w, 1)
    {
      AllWalksMembers(g, start, end, 1, nopass, w);
    }
  }

  lemma AgreeingCounts(g: Cfg, start: nat, end: nat, nopass: seq<nat>)
    requires g.Valid() && start < g.Size() && CountsAgree(g, start, end, nopass)
    ensures forall w :: Avoiding(g, start, end, nopass, w) ==> VisitsAtMost(w, 1)
  {
    var one, two := AllWalks(g, start, end, 1, nopass), AllWalks(g, start, end, 2, nopass);
    BoundOneWithinTwo(g, start, end, nopass);
    SubMultisetEqual(multiset(one), multiset(two));
    forall w | Avoiding(g, start, end, nopass, w)
      ensures VisitsAtMost(w, 1)
    {
      if !VisitsAtMost(w, 1) {
        var v := Pump(g, start, end, nopass, w);
        AllWalksCount(g, start, end, 1, nopass, v);
        AllWalksCount(g, start, end, 2, nopass, v);
        ChoicesPositive(g, v, 1);
        assert false;
      }
    }
  }

  lemma SimpleWalksAgree(g: Cfg, start: nat, end: nat, nopass: seq<nat>)
    requires g.Valid() && start < g.Size()
    requires forall w :: Avoiding(g, start, end, nopass, w) ==> VisitsAtMost(w, 1)
    ensures CountsAgree(g, start, end, nopass)
  {
    var one, two := AllWalks(g, start, end, 1, nopass), AllWalks(g, start, end, 2, nopass);
    forall w
      ensures multiset(one)[w] == multiset(two)[w]
    {
      AllWalksCount(g, start, end, 1, nopass, w);
      AllWalksCount(g, start, end, 2, nopass, w);
    }
    assert multiset(one) == multiset(two);
    assert |multiset(one)| == |multiset(two)|;
  }

  lemma UnfoldExtensions(g: Cfg, end: nat, max: nat, nopass: seq<nat>, path: seq<nat>, succs: seq<nat>, it: nat)
    requires g.Valid() && Open(g, max, nopass, path)
    requires |path| > 1 ==> path[|path| - 1] !in nopass
    requires AllEdges(g, path[|path| - 1], succs) && it < |succs|
    ensures g.Edge(path[|path| - 1], succs[it])
    ensures Extensions(g, end, max, nopass, path, succs[it..]) ==
            Branch(g, end, max, nopass, path, succs[it]) + Extensions(g, end, max, nopass, path, succs[it + 1..])
  {
    assert succs[it..][1..] == succs[it + 1..];
  }

  lemma Regroup<T>(a: seq<T>, b: seq<T>, c: seq<T>)
    ensures a + (b + c) == (a + b) + c
  {
  }

  // ----- The code -----

  /** Visits recorded in the count map; absent blocks count as 0. */
  function Visits(counts: map<nat, nat>, b: nat): nat {
    if b in counts then counts[b] else 0
  }

  ghost predicate Tally(counts: map<nat, nat>, path: seq<nat>)
    requires |path| > 0
  {
    forall b :: Visits(counts, b) == multiset(path[1..])[b]
  }

  lemma TallyStep(counts: map<nat, nat>, path: seq<nat>, c: nat)
    requires |path| > 0 && Tally(counts, path)
    ensures Tally(counts[c := Visits(counts, c) + 1], path + [c])
    ensures Tally(counts[c := Visits(counts, c) + 1][c := Visits(counts, c)], path)
  {
    assert (path + [c])[1..] == path[1..] + [c];
  }

  /** The recursive search: pushes and pops one block at a time and appends to `results`. */
  method EnumeratePathsHelper(g: Cfg, pathSoFar: seq<nat>, end: nat, max: nat,
                              countsSoFar: map<nat, nat>, results: seq<seq<nat>>, nopass: seq<nat>)
    returns (out: seq<seq<nat>>)
    requires g.Valid() && Open(g, max, nopass, pathSoFar)
    requires Tally(countsSoFar, pathSoFar)
    ensures out == results + Walks(g, end, max, nopass, pathSoFar)
    decreases Room(g, max, nopass, pathSoFar), 1
  {
    out := results;
    var last := pathSoFar[|pathSoFar| - 1];
    if last == end && |pathSoFar| > 1 {
      out := out + [pathSoFar];
    }
    if |pathSoFar| > 1 && last in nopass {
      return;
    }
    if last == g.Exit() {
      return;
    }
    out := ExploreSuccessors(g, pathSoFar, end, max, countsSoFar, out, nopass);
  }

  /** The loop over the successors of the last block. */
  method ExploreSuccessors(g: Cfg, pathSoFar: seq<nat>, end: nat, max: nat,
                           countsSoFar: map<nat, nat>, results: seq<seq<nat>>, nopass: seq<nat>)
    returns (out: seq<seq<nat>>)
    requires g.Valid() && Open(g, max, nopass, pathSoFar) && Tally(countsSoFar, pathSoFar)
    requires |pathSoFar| > 1 ==> pathSoFar[|pathSoFar| - 1] !in nopass
    requires AllEdges(g, pathSoFar[|pathSoFar| - 1], g.succs[pathSoFar[|pathSoFar| - 1]])
    ensures out == results +
                   Extensions(g, end, max, nopass, pathSoFar, g.succs[pathSoFar[|pathSoFar| - 1]])
    decreases Room(g, max, nopass, pathSoFar), 0
  {
    out := results;
    var path: seq<nat>, counts: map<nat, nat> := pathSoFar, countsSoFar;
    var succs := g.succs[path[|path| - 1]];
    var it := 0;
    assert succs[0..] == succs;
    while it < |succs|
      invariant 0 <= it <= |succs|
      invariant path == pathSoFar
      invariant Tally(counts, path)
      invariant out + Extensions(g, end, max, nopass, path, succs[it..]) ==
                results + Extensions(g, end, max, nopass, path, succs)
    {
      var c := succs[it];
      UnfoldExtensions(g, end, max, nopass, path, succs, it);
      ghost var sofar, rest := out, Extensions(g, end, max, nopass, path, succs[it + 1..]);
      Regroup(out, Branch(g, end, max, nopass, path, c), rest);
      TallyStep(counts, path, c);
      counts := counts[c := Visits(counts, c) + 1];
      if counts[c] > max {
        counts := counts[c := counts[c] - 1];
        assert sofar + Branch(g, end, max, nopass, path, c) == out;
        it := it + 1;
        continue;
      }
      OpenStep(g, max, nopass, path, c);
      path := path + [c];
      out := EnumeratePathsHelper(g, path, end, max, counts, out, nopass);
      path := path[..|path| - 1];
      counts := counts[c := counts[c] - 1];
      assert path == pathSoFar && out == sofar + Branch(g, end, max, nopass, path, c);
      it := it + 1;
    }
    assert succs[it..] == [] && out == out + [];
  }

  /** w without the blocks that hold no instruction. */
  function DropEmpty(g: Cfg, w: seq<nat>): seq<nat>
    requires forall i :: 0 <= i < |w| ==> w[i] < |g.instrs|
  {
    if w == [] then []
    else if g.instrs[w[0]] == 0 then DropEmpty(g, w[1..])
    else [w[0]] + DropEmpty(g, w[1..])
  }

  /** r holds the entries of s from `lo` on whose positions are in `keep`, and no others, in their order. */
  ghost predicate Sifted(s: seq<nat>, keep: set<nat>, lo: nat, r: seq<nat>) {
    exists ks: seq<nat> :: SiftedBy(s, keep, lo, r, ks)
  }

  ghost predicate SiftedBy(s: seq<nat>, keep: set<nat>, lo: nat, r: seq<nat>, ks: seq<nat>) {
    && |ks| == |r| && (forall a, b :: 0 <= a < b < |ks| ==> ks[a] < ks[b])
    && (forall k: nat :: k in ks <==> lo <= k < |s| && k in keep)
    && forall m :: 0 <= m < |r| ==> ks[m] < |s| && r[m] == s[ks[m]]
  }

  lemma SiftedStep(s: seq<nat>, keep: set<nat>, lo: nat, r: seq<nat>)
    requires lo < |s| && Sifted(s, keep, lo + 1, r)
    ensures Sifted(s, keep, lo, (if lo in keep then [s[lo]] else []) + r)
  {
    var ks :| SiftedBy(s, keep, lo + 1, r, ks);
    if lo in keep {
      SiftedMore(s, keep, lo, r, ks);
    } else {
      assert SiftedBy(s, keep, lo, r, ks);
      assert [] + r == r;
    }
  }

  lemma SiftedMore(s: seq<nat>, keep: set<nat>, lo: nat, r: seq<nat>, ks: seq<nat>)
    requires lo < |s| && lo in keep && SiftedBy(s, keep, lo + 1, r, ks)
    ensures SiftedBy(s, keep, lo, [s[lo]] + r, [lo] + ks)
  {
    var all := [lo] + ks;
    forall b | 0 < b < |all|
      ensures all[b] == ks[b - 1] && lo < all[b] < |s|
    {
      assert ks[b - 1] in ks;
    }
    forall k: nat
      ensures k in all <==> k == lo || k in ks
    {
    }
  }

  lemma SiftedEnd(s: seq<nat>, keep: set<nat>)
    ensures Sifted(s, keep, |s|, [])
  {
    assert SiftedBy(s, keep, |s|, [], []);
  }

  /** What is left are the blocks that hold instructions. */
  lemma {:induction false} DropEmptyIs(g: Cfg, w: seq<nat>, lo: nat)
    requires lo <= |w| && forall i :: 0 <= i < |w| ==> w[i] < |g.instrs|
    ensures Sifted(w, (set k: nat | k < |w| && g.instrs[w[k]] > 0), lo, DropEmpty(g, w[lo..]))
    decreases |w| - lo
  {
    var keep := set k: nat | k < |w| && g.instrs[w[k]] > 0;
    if lo < |w| {
      DropEmptyIs(g, w, lo + 1);
      SiftedStep(w, keep, lo, DropEmpty(g, w[lo + 1..]));
      assert w[lo..][1..] == w[lo + 1..];
      assert [] + DropEmpty(g, w[lo + 1..]) == DropEmpty(g, w[lo + 1..]);
    } else {
      SiftedEnd(w, keep);
    }
  }

  method EraseEmptyBlocks(g: Cfg, w: seq<nat>) returns (path: seq<nat>)
    requires forall i :: 0 <= i < |w| ==> w[i] < |g.instrs|
    ensures path == DropEmpty(g, w)
  {
    path := w;
    var iter := 0;
    while iter < |path|
      invariant 0 <= iter <= |path|
      invariant forall i :: 0 <= i < |path| ==> path[i] < |g.instrs|
      invariant path[..iter] + DropEmpty(g, path[iter..]) == DropEmpty(g, w)
      decreases |path| - iter
    {
      EraseStep(g, path, iter);
      if g.instrs[path[iter]] == 0 {
        path := path[..iter] + path[iter + 1..];
      } else {
        iter := iter + 1;
      }
    }
    assert path[..iter] == path && path[iter..] == [];
  }

  lemma EraseStep(g: Cfg, path: seq<nat>, iter: nat)
    requires iter < |path| && forall i :: 0 <= i < |path| ==> path[i] < |g.instrs|
    ensures var shorter := path[..iter] + path[iter + 1..];
            g.instrs[path[iter]] == 0 ==>
            && (forall i :: 0 <= i < |shorter| ==> shorter[i] < |g.instrs|)
            && shorter[..iter] + DropEmpty(g, shorter[iter..]) == path[..iter] + DropEmpty(g, path[iter..])
    ensures g.instrs[path[iter]] != 0 ==>
            path[..iter + 1] + DropEmpty(g, path[iter + 1..]) == path[..iter] + DropEmpty(g, path[iter..])
  {
    var shorter := path[..iter] + path[iter + 1..];
    assert path[iter..][1..] == path[iter + 1..];
    assert shorter[iter..] == path[iter + 1..] && shorter[..iter] == path[..iter];
    assert path[..iter + 1] == path[..iter] + [path[iter]];
  }

  /** The list that `enumerate_paths` returns: the walks in search order, empty blocks erased. */
  method EnumeratePaths(g: Cfg, max: nat, start: nat, end: nat, nopass: seq<nat>) returns (paths: seq<seq<nat>>)
    requires g.Valid() && start < g.Size()
    ensures |paths| == |AllWalks(g, start, end, max, nopass)|
    ensures forall k :: 0 <= k < |paths| ==>
              var w := AllWalks(g, start, end, max, nopass)[k];
              IsWalk(g, w) && paths[k] == DropEmpty(g, w)
  {
    paths := [];
    StartOpen(g, max, nopass, start);
    if max > 0 {
      paths := EnumeratePathsHelper(g, [start], end, max, map[], [], nopass);
    }
    ghost var all := AllWalks(g, start, end, max, nopass);
    assert paths == all;
    forall k | 0 <= k < |all|
      ensures IsWalk(g, all[k])
    {
      AllWalksMembers(g, start, end, max, nopass, all[k]);
    }
    var i := 0;
    while i < |paths|
      invariant 0 <= i <= |paths| == |all|
      invariant forall k :: 0 <= k < i ==> IsWalk(g, all[k]) && paths[k] == DropEmpty(g, all[k])
      invariant forall k :: i <= k < |paths| ==> paths[k] == all[k]
    {
      var erased := EraseEmptyBlocks(g, paths[i]);
      paths := paths[i := erased];
      i := i + 1;
    }
  }
}
