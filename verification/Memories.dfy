/** Memory segments (src/state/memory.h) and the construction of a state's memory from a map of byte
    ranges (src/state/cpu_state.cc, memory_from_map). */
module Memories {

  /** The size of the address space. */
  const TOP: nat := 0x1_0000_0000_0000_0000

  type Byte = b: int | 0 <= b < 256

  function RoundDown(x: nat): nat { x - x % 32 }
  function RoundUp(x: nat): nat { (x + 7) / 8 * 8 }

  lemma RoundUpBounds(x: nat)
    ensures x <= RoundUp(x) <= x + 7 && RoundUp(x) % 8 == 0
    ensures forall y: nat :: y % 8 == 0 && x <= y ==> RoundUp(x) <= y
  {
  }

  /** A segment: an aligned base, and contents and valid bits with 32 bytes of headroom. */
  datatype Memory = Memory(base: nat, contents: seq<Byte>, valid: seq<bool>) {
    ghost predicate Valid() { base % 32 == 0 && |contents| == |valid| >= 32 && |contents| % 8 == 0 }

    function Size(): nat
      requires |contents| >= 32
    {
      |contents| - 32
    }

    function UpperBound(): nat
      requires |contents| >= 32
    {
      base + Size()
    }

    predicate InRange(addr: nat) { |contents| >= 32 && addr >= base && addr - base < |contents| - 32 }

    predicate IsValid(addr: nat)
      requires |contents| == |valid| && InRange(addr)
    {
      valid[addr - base]
    }

    function Get(addr: nat): Byte
      requires InRange(addr)
    {
      contents[addr - base]
    }

    function Put(addr: nat, b: Byte): Memory
      requires |contents| == |valid| && InRange(addr)
    {
      this.(contents := contents[addr - base := b], valid := valid[addr - base := true])
    }
  }

  function Fit<T>(s: seq<T>, n: nat, fill: T): (r: seq<T>)
    ensures |r| == n && forall i :: 0 <= i < n ==> r[i] == if i < |s| then s[i] else fill
  {
    seq(n, i requires 0 <= i < n => if i < |s| then s[i] else fill)
  }

  /** Set base and size: the base is rounded down to 32, the size padded by what that adds and by the
      headroom and rounded up to 8; new bytes are zero and invalid. */
  function Resize(m: Memory, base: nat, size: nat): Memory {
    var total := RoundUp(size + base % 32 + 32);
    Memory(RoundDown(base), Fit(m.contents, total, 0), Fit(m.valid, total, false))
  }

  /** A resized segment covers its range and ends at the next multiple of 8. */
  lemma ResizeBounds(m: Memory, base: nat, size: nat)
    ensures var r := Resize(m, base, size);
            r.Valid() && r.base <= base && base < r.base + 32 && r.UpperBound() == RoundUp(base + size)
  {
    var q := base / 32;
    assert base == 32 * q + base % 32;
    RoundUpShift(size + base % 32, 4);
    RoundUpShift(size + base % 32, 4 * q);
    RoundUpBounds(size + base % 32 + 32);
    hide RoundUp;
  }

  lemma RoundUpBelow(x: nat, base: nat)
    requires x <= base && base % 32 == 0
    ensures RoundUp(x) <= base
  {
    var k := base / 8;
    assert base == 8 * k;
    assert (x + 7) / 8 <= k;
  }

  lemma RoundUpShift(x: nat, k: nat)
    ensures RoundUp(x + 8 * k) == RoundUp(x) + 8 * k
  {
    assert (x + 8 * k + 7) / 8 == (x + 7) / 8 + k;
  }

  // ----- Mapped bytes -----

  type Entry = (nat, seq<Byte>)

  predicate Covers(e: Entry, addr: nat) { e.0 <= addr < e.0 + |e.1| }

  ghost predicate Mapped(es: seq<Entry>, addr: nat) { exists k :: 0 <= k < |es| && Covers(es[k], addr) }

  /** Ranges in increasing order that do not overlap or wrap around. */
  ghost predicate Ordered(es: seq<Entry>) {
    && (forall k :: 0 <= k < |es| ==> es[k].0 < TOP && es[k].0 + |es[k].1| <= TOP)
    && (forall j, k :: 0 <= j < k < |es| ==> es[j].0 + |es[j].1| <= es[k].0)
  }

  /** m holds exactly the mapped bytes within its range. */
  ghost predicate Holds(m: Memory, es: seq<Entry>)
    requires m.Valid()
  {
    && (forall addr: nat :: m.InRange(addr) ==> (m.IsValid(addr) <==> Mapped(es, addr)))
    && (forall k: nat, addr: nat :: k < |es| && m.InRange(addr) && Covers(es[k], addr) ==>
         m.Get(addr) == es[k].1[addr - es[k].0])
  }

  ghost predicate Disjoint(ms: seq<Memory>) {
    forall a, b, addr: nat :: 0 <= a < b < |ms| ==> !(ms[a].InRange(addr) && ms[b].InRange(addr))
  }

  ghost predicate Found(ms: seq<Memory>, addr: nat) { exists a :: 0 <= a < |ms| && ms[a].InRange(addr) }

  /** The segments hold exactly the mapped bytes. */
  ghost predicate Represents(ms: seq<Memory>, es: seq<Entry>) {
    && (forall a :: 0 <= a < |ms| ==> ms[a].Valid() && Holds(ms[a], es))
    && (forall addr: nat :: Mapped(es, addr) ==> Found(ms, addr))
  }

  lemma PutAt(m: Memory, a: nat, b: Byte, addr: nat)
    requires m.Valid() && m.InRange(a) && m.InRange(addr)
    ensures var r := m.Put(a, b);
            r.Valid() && r.InRange(addr) && r.IsValid(addr) == (addr == a || m.IsValid(addr)) &&
              r.Get(addr) == if addr == a then b else m.Get(addr)
  {
  }

  /** The headroom is never valid. */
  ghost predicate Clean(m: Memory)
    requires m.Valid()
  {
    forall i :: |m.valid| - 32 <= i < |m.valid| ==> !m.valid[i]
  }

  /** What a store does to one address. */
  ghost predicate Stored(m0: Memory, address: nat, bytes: seq<Byte>, n: nat, m: Memory, addr: nat)
    requires m0.Valid() && m.Valid() && m.base == m0.base && |m.contents| == |m0.contents| && n <= |bytes|
    requires m.InRange(addr)
  {
    if address <= addr < address + n then m.IsValid(addr) && m.Get(addr) == bytes[addr - address]
    else m.IsValid(addr) == m0.IsValid(addr) && m.Get(addr) == m0.Get(addr)
  }

  /** Mark a range of bytes valid and store it. */
  method Store(m0: Memory, address: nat, bytes: seq<Byte>) returns (m: Memory)
    requires m0.Valid() && Clean(m0) && m0.base <= address && address + |bytes| <= m0.UpperBound()
    ensures m.Valid() && Clean(m) && m.base == m0.base && |m.contents| == |m0.contents|
    ensures forall addr: nat :: m.InRange(addr) ==> Stored(m0, address, bytes, |bytes|, m, addr)
  {
    m := m0;
    for i := 0 to |bytes|
      invariant m.Valid() && Clean(m) && m.base == m0.base && |m.contents| == |m0.contents|
      invariant forall addr: nat :: m.InRange(addr) ==> Stored(m0, address, bytes, i, m, addr)
    {
      ghost var before := m;
      m := m.Put(address + i, bytes[i]);
      forall addr: nat | m.InRange(addr)
        ensures Stored(m0, address, bytes, i + 1, m, addr)
      {
        assert Stored(m0, address, bytes, i, before, addr);
        PutAt(before, address + i, bytes[i], addr);
      }
    }
  }

  // ----- Building the segments -----

  function EndOf(e: Entry): nat { e.0 + |e.1| }

  /** The segments for the entries so far: in order, and the last one ends right after the last entry. */
  ghost predicate Built(ms: seq<Memory>, es: seq<Entry>) {
    && ms != [] && es != [] && Ordered(es) && Represents(ms, es)
    && (forall a :: 0 <= a < |ms| ==> Clean(ms[a]))
    && (forall a, b :: 0 <= a < b < |ms| ==> ms[a].UpperBound() <= ms[b].base)
    && ms[|ms| - 1].base <= es[|es| - 1].0
    && ms[|ms| - 1].UpperBound() == RoundUp(EndOf(es[|es| - 1]))
  }

  lemma BeforeEnd(es: seq<Entry>, addr: nat)
    requires Ordered(es) && es != [] && Mapped(es, addr)
    ensures addr < EndOf(es[|es| - 1])
  {
    var k :| 0 <= k < |es| && Covers(es[k], addr);
    if k < |es| - 1 {
      assert EndOf(es[k]) <= es[|es| - 1].0;
    }
  }

  lemma MappedMore(es: seq<Entry>, e: Entry, addr: nat)
    ensures Mapped(es + [e], addr) <==> Mapped(es, addr) || Covers(e, addr)
  {
    if k :| 0 <= k < |es| && Covers(es[k], addr) {
      assert Covers((es + [e])[k], addr);
    }
    assert (es + [e])[|es|] == e;
  }

  /** A segment that ends before e is not affected by it. */
  lemma HoldsBelow(m: Memory, es: seq<Entry>, e: Entry)
    requires m.Valid() && Holds(m, es) && m.UpperBound() <= e.0
    ensures Holds(m, es + [e])
  {
    forall addr: nat | m.InRange(addr)
      ensures m.IsValid(addr) <==> Mapped(es + [e], addr)
    {
      MappedMore(es, e, addr);
    }
  }

  /** Storing e in a segment that held the earlier entries. */
  lemma HoldsStored(m0: Memory, es: seq<Entry>, e: Entry, m: Memory)
    requires m0.Valid() && Holds(m0, es) && m.Valid() && m.base == m0.base && |m.contents| == |m0.contents|
    requires Ordered(es + [e]) && forall addr: nat :: m.InRange(addr) ==> Stored(m0, e.0, e.1, |e.1|, m, addr)
    ensures Holds(m, es + [e])
  {
    var more := es + [e];
    forall addr: nat | m.InRange(addr)
      ensures m.IsValid(addr) <==> Mapped(more, addr)
    {
      MappedMore(es, e, addr);
      assert Stored(m0, e.0, e.1, |e.1|, m, addr);
    }
    forall k: nat, addr: nat | k < |more| && m.InRange(addr) && Covers(more[k], addr)
      ensures m.Get(addr) == more[k].1[addr - more[k].0]
    {
      assert Stored(m0, e.0, e.1, |e.1|, m, addr);
      if k < |es| {
        assert more[k] == es[k] && more[|es|] == e;
        assert EndOf(more[k]) <= more[|es|].0;
      }
    }
  }

  /** A grown segment holds the same entries: what is new is neither valid nor mapped. */
  lemma HoldsGrown(m0: Memory, es: seq<Entry>, size: nat, m: Memory)
    requires m0.Valid() && Clean(m0) && Holds(m0, es) && es != [] && Ordered(es)
    requires EndOf(es[|es| - 1]) <= m0.UpperBound()
    requires m == Resize(m0, m0.base, size) && m0.UpperBound() <= RoundUp(m0.base + size)
    ensures m.Valid() && Clean(m) && m.base == m0.base && Holds(m, es)
  {
    ResizeBounds(m0, m0.base, size);
    RoundUpBounds(m0.base + size);
    forall addr: nat | m.InRange(addr)
      ensures m0.InRange(addr) || (!m.IsValid(addr) && !Mapped(es, addr))
      ensures m0.InRange(addr) ==> m.IsValid(addr) == m0.IsValid(addr) && m.Get(addr) == m0.Get(addr)
    {
      if !m0.InRange(addr) && Mapped(es, addr) {
        BeforeEnd(es, addr);
        assert false;
      }
    }
  }

  lemma FreshHolds(address: nat, size: nat)
    ensures var m := Resize(Memory(0, [], []), address, size); m.Valid() && Clean(m) && Holds(m, [])
  {
    ResizeBounds(Memory(0, [], []), address, size);
  }

  /** A new segment lies beyond all earlier entries. */
  lemma HoldsFresh(es: seq<Entry>, e: Entry, m: Memory)
    requires es != [] && Ordered(es) && EndOf(es[|es| - 1]) + 32 <= e.0 && m == Resize(Memory(0, [], []), e.0, |e.1|)
    ensures m.Valid() && Clean(m) && Holds(m, es) && RoundUp(EndOf(es[|es| - 1])) <= m.base
  {
    ResizeBounds(Memory(0, [], []), e.0, |e.1|);
    FreshHolds(e.0, |e.1|);
    hide RoundUp, Resize, Ordered;
    RoundUpBelow(EndOf(es[|es| - 1]), m.base);
    forall addr: nat | m.InRange(addr)
      ensures !m.IsValid(addr) && !Mapped(es, addr)
    {
      assert !Mapped([], addr);
      if Mapped(es, addr) {
        BeforeEnd(es, addr);
        assert false;
      }
    }
  }

  lemma AllFound(ms: seq<Memory>, more: seq<Memory>, es: seq<Entry>, e: Entry, addr: nat)
    requires Mapped(es, addr) ==> Found(ms, addr)
    requires |more| >= |ms| > 0 && forall a, x: nat :: 0 <= a < |ms| && ms[a].InRange(x) ==> more[a].InRange(x)
    requires Covers(e, addr) ==> more[|more| - 1].InRange(addr)
    ensures Mapped(es + [e], addr) ==> Found(more, addr)
  {
    MappedMore(es, e, addr);
    if Found(ms, addr) {
      var a :| 0 <= a < |ms| && ms[a].InRange(addr);
      assert more[a].InRange(addr);
    }
  }

  /** The earlier segments stay, the last one is replaced by or followed by m. */
  lemma BuiltStep(ms: seq<Memory>, es: seq<Entry>, e: Entry, keep: nat, m: Memory)
    requires Built(ms, es) && Ordered(es + [e]) && (keep == |ms| || keep == |ms| - 1)
    requires m.Valid() && Clean(m) && Holds(m, es + [e]) && m.base <= e.0 && m.UpperBound() == RoundUp(EndOf(e))
    requires keep == |ms| ==> ms[|ms| - 1].UpperBound() <= m.base
    requires keep == |ms| - 1 ==> m.base == ms[keep].base && |m.contents| >= |ms[keep].contents|
    ensures Built(ms[..keep] + [m], es + [e])
  {
    var more, all := ms[..keep] + [m], es + [e];
    assert all[|es|] == e && all[|es| - 1] == es[|es| - 1];
    RoundUpBounds(EndOf(e));
    forall a | 0 <= a < |more|
      ensures more[a].Valid() && Clean(more[a]) && Holds(more[a], all) && (a < keep ==> more[a].UpperBound() <= m.base)
    {
      if a < keep {
        EarlierEnds(ms, es, e, keep, m, a);
        hide Holds, Clean, Ordered;
        HoldsBelow(ms[a], es, e);
      }
    }
    hide Holds, Clean;
    forall addr: nat
      ensures Mapped(all, addr) ==> Found(more, addr)
    {
      AllFound(ms, more, es, e, addr);
    }
  }

  lemma EarlierEnds(ms: seq<Memory>, es: seq<Entry>, e: Entry, keep: nat, m: Memory, a: nat)
    requires Built(ms, es) && (keep == |ms| || keep == |ms| - 1) && a < keep && m.base <= e.0
    requires keep == |ms| ==> ms[|ms| - 1].UpperBound() <= m.base
    requires keep == |ms| - 1 ==> m.base == ms[keep].base
    ensures ms[a].UpperBound() <= m.base
  {
    if a < |ms| - 1 {
      assert ms[a].UpperBound() <= ms[|ms| - 1].base;
    }
  }

  lemma BuiltFirst(m: Memory, e: Entry)
    requires Ordered([e]) && m.Valid() && Clean(m) && Holds(m, [e]) && m.base <= e.0
    requires m.UpperBound() == RoundUp(EndOf(e))
    ensures Built([m], [e])
  {
    RoundUpBounds(EndOf(e));
    forall addr: nat | Mapped([e], addr)
      ensures Found([m], addr)
    {
      assert [m][0].InRange(addr);
    }
  }

  method FirstSegment(e: Entry) returns (m: Memory)
    requires Ordered([e])
    ensures Built([m], [e]) && m.base == e.0 - e.0 % 32
  {
    FreshHolds(e.0, |e.1|);
    ResizeBounds(Memory(0, [], []), e.0, |e.1|);
    RoundUpBounds(EndOf(e));
    hide Resize, RoundUp, Clean, Holds, Built;
    m := Resize(Memory(0, [], []), e.0, |e.1|);
    ghost var m0 := m;
    m := Store(m, e.0, e.1);
    assert [] + [e] == [e];
    HoldsStored(m0, [], e, m);
    BuiltFirst(m, e);
  }

  /** Subtraction of unsigned 64-bit integers. */
  function Sub64(a: nat, b: nat): nat { (a - b) % TOP }

  lemma NoWrap(a: nat, b: nat)
    requires b <= a < TOP
    ensures Sub64(a, b) == a - b && a % TOP == a
  {
  }

  /** Put one more range into the last segment, growing it. */
  method GrowLast(ms: seq<Memory>, ghost es: seq<Entry>, e: Entry) returns (more: seq<Memory>)
    requires Built(ms, es) && Ordered(es + [e]) && EndOf(es[|es| - 1]) <= e.0
    ensures Built(more, es + [e])
    ensures |more| == |ms| && more[|ms| - 1].base == ms[|ms| - 1].base
    ensures forall a :: 0 <= a < |ms| - 1 ==> more[a] == ms[a]
  {
    var n := |ms| - 1;
    var last := ms[n];
    var newSize := e.0 + |e.1| - last.base;
    var m := Resize(last, last.base, newSize);
    RoundUpBounds(EndOf(e));
    RoundUpBounds(EndOf(es[|es| - 1]));
    assert RoundUp(EndOf(es[|es| - 1])) <= RoundUp(EndOf(e));
    hide RoundUp, Resize, Holds, Clean, Ordered;
    HoldsGrown(last, es, newSize, m);
    ResizeBounds(last, last.base, newSize);
    ghost var m0 := m;
    m := Store(m, e.0, e.1);
    HoldsStored(m0, es, e, m);
    BuiltStep(ms, es, e, n, m);
    more := ms[..n] + [m];
  }

  /** Put one more range into a segment of its own. */
  method StartNew(ms: seq<Memory>, ghost es: seq<Entry>, e: Entry) returns (more: seq<Memory>)
    requires Built(ms, es) && Ordered(es + [e]) && EndOf(es[|es| - 1]) + 32 <= e.0
    ensures Built(more, es + [e])
    ensures |more| == |ms| + 1 && more[|ms|].base == e.0 - e.0 % 32 && forall a :: 0 <= a < |ms| ==> more[a] == ms[a]
  {
    var m := Resize(Memory(0, [], []), e.0, |e.1|);
    HoldsFresh(es, e, m);
    ResizeBounds(Memory(0, [], []), e.0, |e.1|);
    RoundUpBounds(EndOf(e));
    hide RoundUp, Resize, Holds, Clean, Ordered;
    ghost var m0 := m;
    m := Store(m, e.0, e.1);
    HoldsStored(m0, es, e, m);
    BuiltStep(ms, es, e, |ms|, m);
    assert ms[..|ms|] == ms;
    more := ms + [m];
  }

  // ----- Which ranges share a segment -----

  /** How many of the gaps before entry k are of at least 32 bytes. */
  ghost function Gaps(es: seq<Entry>, k: nat): nat
    requires k < |es|
  {
    if k == 0 then 0 else Gaps(es, k - 1) + if es[k].0 - EndOf(es[k - 1]) >= 32 then 1 else 0
  }

  /** Entry k lies in the segment with the number of those gaps; the first entry of a segment starts it
      and the last one ends it, up to rounding. */
  ghost predicate GroupedAt(ms: seq<Memory>, es: seq<Entry>, k: nat)
    requires k < |es|
  {
    var a := Gaps(es, k);
    && a < |ms| && ms[a].Valid() && ms[a].base <= es[k].0 && EndOf(es[k]) <= ms[a].UpperBound()
    && (k == 0 || es[k].0 - EndOf(es[k - 1]) >= 32 ==> ms[a].base == es[k].0 - es[k].0 % 32)
    && (k == |es| - 1 || es[k + 1].0 - EndOf(es[k]) >= 32 ==> ms[a].UpperBound() == RoundUp(EndOf(es[k])))
  }

  ghost predicate Grouped(ms: seq<Memory>, es: seq<Entry>) {
    && es != [] && |ms| == Gaps(es, |es| - 1) + 1
    && forall k: nat :: k < |es| ==> GroupedAt(ms, es, k)
  }

  /** Some segment spans both ranges. */
  ghost predicate Together(ms: seq<Memory>, d: Entry, e: Entry) {
    exists a :: 0 <= a < |ms| && ms[a].Valid() && ms[a].base <= d.0 && EndOf(e) <= ms[a].UpperBound()
  }

  ghost predicate InOrder(ms: seq<Memory>) {
    && (forall a :: 0 <= a < |ms| ==> ms[a].Valid())
    && forall a, b :: 0 <= a < b < |ms| ==> ms[a].UpperBound() <= ms[b].base
  }

  lemma {:induction false} GapsPrefix(es: seq<Entry>, e: Entry, k: nat)
    requires k < |es|
    ensures Gaps(es + [e], k) == Gaps(es, k)
    decreases k
  {
    if k > 0 {
      GapsPrefix(es, e, k - 1);
    }
  }

  lemma {:induction false} GapsMonotone(es: seq<Entry>, j: nat, k: nat)
    requires j <= k < |es|
    ensures Gaps(es, j) <= Gaps(es, k)
    decreases k
  {
    if j < k {
      GapsMonotone(es, j, k - 1);
    }
  }

  /** Adding a range behind the others keeps the grouping. */
  lemma GroupedStep(ms: seq<Memory>, es: seq<Entry>, e: Entry, more: seq<Memory>)
    requires Grouped(ms, es) && ms != [] && EndOf(es[|es| - 1]) <= e.0
    requires forall a :: 0 <= a < |ms| - 1 ==> a < |more| && more[a] == ms[a]
    requires more != [] && more[|more| - 1].Valid() && more[|more| - 1].base <= e.0
    requires more[|more| - 1].UpperBound() == RoundUp(EndOf(e))
    requires if e.0 - EndOf(es[|es| - 1]) < 32
             then |more| == |ms| && more[|ms| - 1].base == ms[|ms| - 1].base
             else |more| == |ms| + 1 && more[|ms| - 1] == ms[|ms| - 1] && more[|ms|].base == e.0 - e.0 % 32
    ensures Grouped(more, es + [e])
  {
    var all, n := es + [e], |es|;
    RoundUpBounds(EndOf(e));
    RoundUpBounds(EndOf(es[n - 1]));
    GapsPrefix(es, e, n - 1);
    assert all[n] == e && all[n - 1] == es[n - 1];
    forall k: nat | k < |all|
      ensures GroupedAt(more, all, k)
    {
      if k < n {
        GapsPrefix(es, e, k);
        GapsMonotone(es, k, n - 1);
        if k < n - 1 {
          GapsMonotone(es, k + 1, n - 1);
        }
        assert k < n - 1 && es[k + 1].0 - EndOf(es[k]) >= 32 ==> Gaps(es, k) < |ms| - 1;
        hide Gaps, RoundUp;
        assert GroupedAt(ms, es, k);
        GroupedKept(ms, es, e, more, k);
      }
    }
  }

  lemma GroupedKept(ms: seq<Memory>, es: seq<Entry>, e: Entry, more: seq<Memory>, k: nat)
    requires k < |es| && Grouped(ms, es) && ms != [] && EndOf(es[|es| - 1]) <= e.0
    requires forall a :: 0 <= a < |ms| - 1 ==> a < |more| && more[a] == ms[a]
    requires more != [] && more[|more| - 1].Valid() && more[|more| - 1].UpperBound() == RoundUp(EndOf(e))
    requires RoundUp(EndOf(es[|es| - 1])) <= RoundUp(EndOf(e))
    requires if e.0 - EndOf(es[|es| - 1]) < 32
             then |more| == |ms| && more[|ms| - 1].base == ms[|ms| - 1].base
             else |more| == |ms| + 1 && more[|ms| - 1] == ms[|ms| - 1]
    requires Gaps(es + [e], k) == Gaps(es, k) <= |ms| - 1
    requires k < |es| - 1 && es[k + 1].0 - EndOf(es[k]) >= 32 ==> Gaps(es, k) < |ms| - 1
    ensures GroupedAt(more, es + [e], k)
  {
    hide Gaps, RoundUp;
    assert GroupedAt(ms, es, k) && GroupedAt(ms, es, |es| - 1);
    var all := es + [e];
    assert all[k] == es[k] && (k > 0 ==> all[k - 1] == es[k - 1]);
    assert all[k + 1] == if k == |es| - 1 then e else es[k + 1];
  }

  /** Consecutive ranges lie in one segment if and only if fewer than 32 bytes lie between them. */
  ghost predicate GapsSplit(ms: seq<Memory>, es: seq<Entry>) {
    forall k :: 0 <= k < |es| - 1 ==> (Together(ms, es[k], es[k + 1]) <==> es[k + 1].0 - EndOf(es[k]) < 32)
  }

  lemma TogetherExactly(ms: seq<Memory>, es: seq<Entry>, k: nat)
    requires Grouped(ms, es) && InOrder(ms) && Ordered(es) && k + 1 < |es|
    ensures Together(ms, es[k], es[k + 1]) <==> es[k + 1].0 - EndOf(es[k]) < 32
  {
    assert GroupedAt(ms, es, k) && GroupedAt(ms, es, k + 1);
    RoundUpBounds(EndOf(es[k]));
    var a, b := Gaps(es, k), Gaps(es, k + 1);
    assert b == a + if es[k + 1].0 - EndOf(es[k]) >= 32 then 1 else 0;
    hide Gaps, GroupedAt, RoundUp;
    if es[k + 1].0 - EndOf(es[k]) >= 32 {
      forall c | 0 <= c < |ms| && ms[c].Valid()
        ensures ms[c].base > es[k].0 || EndOf(es[k + 1]) > ms[c].UpperBound()
      {
        assert c < a ==> ms[c].UpperBound() <= ms[a].base;
        assert c > b ==> ms[b].UpperBound() <= ms[c].base;
      }
    }
  }

  /** One more range goes into the last segment if it starts less than 32 bytes after the previous one,
      and into a new segment otherwise. */
  method AddRange(ms: seq<Memory>, ghost es: seq<Entry>, e: Entry, maxAddr: nat) returns (more: seq<Memory>)
    requires Built(ms, es) && Ordered(es + [e]) && maxAddr == EndOf(es[|es| - 1]) % TOP
    ensures Built(more, es + [e])
    ensures |more| == if e.0 - EndOf(es[|es| - 1]) < 32 then |ms| else |ms| + 1
    ensures forall a :: 0 <= a < |ms| - 1 ==> more[a] == ms[a]
    ensures e.0 - EndOf(es[|es| - 1]) < 32 ==> more[|ms| - 1].base == ms[|ms| - 1].base
    ensures e.0 - EndOf(es[|es| - 1]) >= 32 ==> more[|ms| - 1] == ms[|ms| - 1] && more[|ms|].base == e.0 - e.0 % 32
  {
    assert (es + [e])[|es|] == e && (es + [e])[|es| - 1] == es[|es| - 1];
    assert EndOf(es[|es| - 1]) <= e.0 < TOP;
    NoWrap(EndOf(es[|es| - 1]), 0);
    NoWrap(e.0, maxAddr);
    hide Built, Ordered;
    if Sub64(e.0, maxAddr) < 32 {
      more := GrowLast(ms, es, e);
    } else {
      more := StartNew(ms, es, e);
    }
  }

  /** All ranges, in order. */
  method BuildSegments(es: seq<Entry>) returns (ms: seq<Memory>)
    requires Ordered(es) && es != []
    ensures Built(ms, es) && Grouped(ms, es) && GapsSplit(ms, es)
  {
    assert es[..1] == [es[0]];
    OrderedPrefix(es, 1);
    hide Built, Ordered, Grouped, GapsSplit, InOrder;
    var m := FirstSegment(es[0]);
    ms := [m];
    GroupedFirst(m, es[0]);
    var maxAddr := EndOf(es[0]) % TOP;
    for i := 1 to |es|
      invariant Built(ms, es[..i]) && Grouped(ms, es[..i]) && maxAddr == EndOf(es[i - 1]) % TOP
    {
      assert es[..i + 1] == es[..i] + [es[i]];
      OrderedPrefix(es, i + 1);
      ms := BuildNext(es[..i], es[i], ms, maxAddr);
      maxAddr := EndOf(es[i]) % TOP;
    }
    assert es[..|es|] == es;
    BuiltShape(ms, es);
    AllSplit(ms, es);
  }

  lemma AllSplit(ms: seq<Memory>, es: seq<Entry>)
    requires Grouped(ms, es) && InOrder(ms) && Ordered(es)
    ensures GapsSplit(ms, es)
  {
    hide Grouped, InOrder, Ordered, Together;
    forall k: nat | k < |es| - 1
      ensures Together(ms, es[k], es[k + 1]) <==> es[k + 1].0 - EndOf(es[k]) < 32
    {
      TogetherExactly(ms, es, k);
    }
  }

  /** One more range, with the grouping. */
  method BuildNext(ghost front: seq<Entry>, e: Entry, before: seq<Memory>, maxAddr: nat) returns (ms: seq<Memory>)
    requires Ordered(front + [e]) && Built(before, front) && Grouped(before, front)
    requires maxAddr == EndOf(front[|front| - 1]) % TOP
    ensures Built(ms, front + [e]) && Grouped(ms, front + [e])
  {
    LastBefore(front, e);
    hide Built, Ordered, Grouped, RoundUp, InOrder;
    BuiltShape(before, front);
    ms := AddRange(before, front, e, maxAddr);
    BuiltShape(ms, front + [e]);
    assert (front + [e])[|front|] == e;
    GroupedStep(before, front, e, ms);
  }

  lemma BuiltShape(ms: seq<Memory>, es: seq<Entry>)
    requires Built(ms, es)
    ensures InOrder(ms) && ms != [] && es != [] && (forall a :: 0 <= a < |ms| ==> ms[a].Valid())
    ensures ms[|ms| - 1].base <= es[|es| - 1].0 && ms[|ms| - 1].UpperBound() == RoundUp(EndOf(es[|es| - 1]))
  {
  }

  lemma LastBefore(es: seq<Entry>, e: Entry)
    requires es != [] && Ordered(es + [e])
    ensures EndOf(es[|es| - 1]) <= e.0
  {
    assert (es + [e])[|es|] == e && (es + [e])[|es| - 1] == es[|es| - 1];
  }

  lemma GroupedFirst(m: Memory, e: Entry)
    requires Built([m], [e]) && m.base == e.0 - e.0 % 32
    ensures Grouped([m], [e])
  {
    BuiltShape([m], [e]);
    RoundUpBounds(EndOf(e));
    hide RoundUp;
    assert GroupedAt([m], [e], 0);
  }

  lemma OrderedPrefix(es: seq<Entry>, n: nat)
    requires Ordered(es) && n <= |es|
    ensures Ordered(es[..n])
  {
  }

  // ----- Sorting -----

  type ByteMap = map<nat, seq<Byte>>

  /** Pairwise disjoint ranges that stay inside the address space. */
  ghost predicate Separate(c: ByteMap) {
    && (forall a :: a in c ==> a < TOP && a + |c[a]| <= TOP)
    && (forall a, b :: a in c && b in c && a < b ==> a + |c[a]| <= b)
  }

  ghost predicate Lists(es: seq<Entry>, c: ByteMap, keys: set<nat>) {
    && (forall k :: 0 <= k < |es| ==> es[k].0 in keys && es[k].0 in c && c[es[k].0] == es[k].1)
    && (forall a :: a in keys ==> exists k :: 0 <= k < |es| && es[k].0 == a)
  }

  ghost predicate Increasing(es: seq<Entry>) { forall j, k :: 0 <= j < k < |es| ==> es[j].0 < es[k].0 }

  method InsertEntry(es: seq<Entry>, e: Entry) returns (r: seq<Entry>)
    requires Increasing(es) && forall k :: 0 <= k < |es| ==> es[k].0 != e.0
    ensures Increasing(r) && exists i :: 0 <= i <= |es| && r == es[..i] + [e] + es[i..]
  {
    var i := 0;
    while i < |es| && es[i].0 < e.0
      invariant 0 <= i <= |es| && forall k :: 0 <= k < i ==> es[k].0 < e.0
    {
      i := i + 1;
    }
    r := es[..i] + [e] + es[i..];
  }

  method SortEntries(c: ByteMap) returns (es: seq<Entry>)
    ensures Increasing(es) && Lists(es, c, c.Keys)
  {
    es := [];
    var left := c.Keys;
    while left != {}
      invariant left <= c.Keys && Increasing(es) && Lists(es, c, c.Keys - left)
      decreases left
    {
      var a :| a in left;
      ghost var before := es;
      es := InsertEntry(es, (a, c[a]));
      ListsMore(before, c, c.Keys - left, a, es);
      left := left - {a};
      assert c.Keys - left == (c.Keys - (left + {a})) + {a};
    }
    assert c.Keys - left == c.Keys;
  }

  lemma ListsMore(es: seq<Entry>, c: ByteMap, keys: set<nat>, a: nat, r: seq<Entry>)
    requires Lists(es, c, keys) && a in c && a !in keys
    requires exists i :: 0 <= i <= |es| && r == es[..i] + [(a, c[a])] + es[i..]
    ensures Lists(r, c, keys + {a})
  {
    var i :| 0 <= i <= |es| && r == es[..i] + [(a, c[a])] + es[i..];
    assert r[i] == (a, c[a]);
    forall b | b in keys
      ensures exists k :: 0 <= k < |r| && r[k].0 == b
    {
      var k :| 0 <= k < |es| && es[k].0 == b;
      assert r[if k < i then k else k + 1] == es[k];
    }
  }

  lemma SortedOrdered(es: seq<Entry>, c: ByteMap)
    requires Separate(c) && Increasing(es) && Lists(es, c, c.Keys)
    ensures Ordered(es)
  {
  }

  // ----- The state -----

  ghost predicate ValidAt(ms: seq<Memory>, addr: nat) {
    exists a :: 0 <= a < |ms| && ms[a].Valid() && ms[a].InRange(addr) && ms[a].IsValid(addr)
  }

  ghost predicate MapCovers(c: ByteMap, addr: nat) { exists a :: a in c && Covers((a, c[a]), addr) }

  /** No address lies in two segments, the valid bytes are exactly the mapped ones, and each of them
      reads back. */
  ghost predicate Faithful(ms: seq<Memory>, c: ByteMap) {
    && Disjoint(ms) && (forall i :: 0 <= i < |ms| ==> ms[i].Valid())
    && (forall addr: nat :: ValidAt(ms, addr) <==> MapCovers(c, addr))
    && (forall i, a, addr: nat :: 0 <= i < |ms| && a in c && ms[i].InRange(addr) && Covers((a, c[a]), addr) ==>
          ms[i].Get(addr) == c[a][addr - a])
  }

  ghost predicate IsEmpty(m: Memory) { m.Valid() && |m.contents| == 32 }

  /** Well-formed disjoint segments without a valid byte. */
  ghost predicate Blank(ms: seq<Memory>) {
    Disjoint(ms) && (forall i :: 0 <= i < |ms| ==> ms[i].Valid()) && forall addr: nat :: !ValidAt(ms, addr)
  }

  /** With nothing mapped, the segments that were there before must be blank. */
  lemma EmptyMap(none: seq<Memory>, segments: seq<Memory>)
    requires forall i :: 0 <= i < |none| ==> IsEmpty(none[i])
    ensures Faithful(none + segments, map[]) <==> Blank(segments)
  {
    var all := none + segments;
    assert forall i :: 0 <= i < |segments| ==> all[|none| + i] == segments[i];
    forall addr: nat
      ensures ValidAt(all, addr) <==> ValidAt(segments, addr)
      ensures !MapCovers(map[], addr)
    {
      if a :| 0 <= a < |all| && all[a].Valid() && all[a].InRange(addr) && all[a].IsValid(addr) {
        assert a >= |none| && segments[a - |none|] == all[a];
      }
      if a :| 0 <= a < |segments| && segments[a].Valid() && segments[a].InRange(addr) && segments[a].IsValid(addr) {
        assert all[|none| + a].IsValid(addr);
      }
    }
    if Disjoint(all) {
      forall a: nat, b: nat, addr: nat | a < b < |segments|
        ensures !(segments[a].InRange(addr) && segments[b].InRange(addr))
      {
        assert !(all[|none| + a].InRange(addr) && all[|none| + b].InRange(addr));
      }
    }
  }

  lemma ListedCovers(es: seq<Entry>, c: ByteMap, addr: nat)
    requires Lists(es, c, c.Keys)
    ensures Mapped(es, addr) <==> MapCovers(c, addr)
  {
    if MapCovers(c, addr) {
      var a :| a in c && Covers((a, c[a]), addr);
      assert a in c.Keys;
      var k :| 0 <= k < |es| && es[k].0 == a;
      assert Covers(es[k], addr);
    }
    if Mapped(es, addr) {
      var k :| 0 <= k < |es| && Covers(es[k], addr);
      assert es[k].0 in c && Covers((es[k].0, c[es[k].0]), addr);
    }
  }

  /** Where a valid byte is found among the segments built. */
  lemma BuiltValid(ms: seq<Memory>, es: seq<Entry>, none: seq<Memory>, addr: nat)
    requires Built(ms, es) && forall i :: 0 <= i < |none| ==> IsEmpty(none[i])
    ensures ValidAt(ms + none, addr) <==> Mapped(es, addr)
  {
    var all := ms + none;
    if ValidAt(all, addr) {
      var a :| 0 <= a < |all| && all[a].Valid() && all[a].InRange(addr) && all[a].IsValid(addr);
      assert a < |ms| && Holds(ms[a], es);
    }
    if Mapped(es, addr) {
      assert Found(ms, addr);
      var a :| 0 <= a < |ms| && ms[a].InRange(addr);
      assert all[a] == ms[a] && Holds(ms[a], es);
    }
  }

  lemma BuiltFaithful(ms: seq<Memory>, es: seq<Entry>, c: ByteMap, none: seq<Memory>)
    requires Built(ms, es) && Lists(es, c, c.Keys) && forall i :: 0 <= i < |none| ==> IsEmpty(none[i])
    ensures Faithful(ms + none, c)
  {
    var all := ms + none;
    forall addr: nat
      ensures ValidAt(all, addr) <==> MapCovers(c, addr)
    {
      BuiltValid(ms, es, none, addr);
      ListedCovers(es, c, addr);
    }
    BuiltReads(ms, es, c, none);
    BuiltDisjoint(ms, es, none);
    hide Holds, Mapped, MapCovers, ValidAt, Covers, Ordered;
    assert forall i :: 0 <= i < |all| ==> all[i].Valid();
  }

  lemma BuiltReads(ms: seq<Memory>, es: seq<Entry>, c: ByteMap, none: seq<Memory>)
    requires Built(ms, es) && Lists(es, c, c.Keys) && forall i :: 0 <= i < |none| ==> IsEmpty(none[i])
    ensures forall i, a, addr: nat ::
              0 <= i < |ms + none| && a in c && (ms + none)[i].InRange(addr) && Covers((a, c[a]), addr) ==>
              (ms + none)[i].Get(addr) == c[a][addr - a]
  {
    var all := ms + none;
    hide Holds, Ordered, Lists, Covers, Built;
    forall i: nat, a: nat, addr: nat | i < |all| && a in c && all[i].InRange(addr) && Covers((a, c[a]), addr)
      ensures Covers((a, c[a]), addr) && a <= addr < a + |c[a]| && all[i].Get(addr) == c[a][addr - a]
    {
      BuiltRead(ms, es, c, none, i, a, addr);
    }
  }

  lemma BuiltRead(ms: seq<Memory>, es: seq<Entry>, c: ByteMap, none: seq<Memory>, i: nat, a: nat, addr: nat)
    requires Built(ms, es) && Lists(es, c, c.Keys) && forall i :: 0 <= i < |none| ==> IsEmpty(none[i])
    requires i < |ms + none| && a in c && (ms + none)[i].InRange(addr) && Covers((a, c[a]), addr)
    ensures a <= addr < a + |c[a]| && (ms + none)[i].Get(addr) == c[a][addr - a]
  {
    assert i < |ms| && ms[i].Valid() && Holds(ms[i], es) && (ms + none)[i] == ms[i];
    hide Built;
    HoldsRead(ms[i], es, c, a, addr);
  }

  lemma HoldsRead(m: Memory, es: seq<Entry>, c: ByteMap, a: nat, addr: nat)
    requires m.Valid() && Holds(m, es) && Lists(es, c, c.Keys)
    requires a in c && m.InRange(addr) && Covers((a, c[a]), addr)
    ensures a <= addr < a + |c[a]| && m.Get(addr) == c[a][addr - a]
  {
    assert a in c.Keys;
    var k: nat :| k < |es| && es[k].0 == a;
    assert Covers(es[k], addr);
  }

  lemma BuiltDisjoint(ms: seq<Memory>, es: seq<Entry>, none: seq<Memory>)
    requires Built(ms, es) && forall i :: 0 <= i < |none| ==> IsEmpty(none[i])
    ensures Disjoint(ms + none)
  {
    hide Holds, Ordered;
    var all := ms + none;
    forall a, b, addr: nat | 0 <= a < b < |all| && all[b].InRange(addr)
      ensures !all[a].InRange(addr)
    {
      assert b < |ms| && ms[a].UpperBound() <= ms[b].base;
    }
  }

  /** The segments for the ranges of a map. */
  method SegmentsFor(concrete: ByteMap) returns (ms: seq<Memory>, ghost es: seq<Entry>)
    requires Separate(concrete) && concrete != map[]
    ensures Increasing(es) && Lists(es, concrete, concrete.Keys) && ms != []
    ensures Built(ms, es) && Grouped(ms, es) && InOrder(ms) && GapsSplit(ms, es)
  {
    var entries := SortEntries(concrete);
    es := entries;
    NotNone(entries, concrete);
    SortedOrdered(entries, concrete);
    hide Built, Separate, Increasing, Ordered, Lists, Grouped, GapsSplit, InOrder;
    ms := BuildSegments(entries);
    BuiltShape(ms, es);
  }

  class CpuState {
    var heap: Memory
    var stack: Memory
    var data: Memory
    var segments: seq<Memory>

    constructor ()
      ensures All() == [heap, heap, heap] && IsEmpty(heap)
    {
      heap := Resize(Memory(0, [], []), 0, 0);
      stack, data, segments := heap, heap, [];
    }

    ghost function All(): seq<Memory>
      reads this
    {
      [heap, stack, data] + segments
    }

    /** A non-empty map determines the memory; for an empty one the extra segments stay as they were, so
        the memory is right exactly when they are disjoint and hold no valid byte. */
    method MemoryFromMap(concrete: ByteMap) returns (ok: bool, ghost es: seq<Entry>, ghost n: nat)
      requires Separate(concrete)
      modifies this
      ensures ok
      ensures concrete != map[] ==> Faithful(All(), concrete)
      ensures Increasing(es) && Lists(es, concrete, concrete.Keys) && 0 <= n <= |All()|
      ensures n == 0 <==> concrete == map[]
      ensures concrete != map[] ==> Grouped(All()[..n], es) && InOrder(All()[..n]) && GapsSplit(All()[..n], es)
      ensures concrete != map[] ==> |segments| == if n <= 3 then 0 else n - 3
      ensures n < 1 ==> IsEmpty(heap) && heap.base == 0x1_0000_0000
      ensures n < 2 ==> IsEmpty(stack) && stack.base == 0x7_0000_0000
      ensures n < 3 ==> IsEmpty(data) && data.base == 0
      ensures concrete == map[] ==> segments == old(segments)
      ensures concrete == map[] ==> (Faithful(All(), concrete) <==> Blank(old(segments)))
    {
      stack := Resize(stack, 0x7_0000_0000, 0);
      heap := Resize(heap, 0x1_0000_0000, 0);
      data := Resize(data, 0, 0);
      ResizeEmpty(old(stack), 0x7_0000_0000);
      ResizeEmpty(old(heap), 0x1_0000_0000);
      ResizeEmpty(old(data), 0);
      hide Resize, IsEmpty, Faithful, Blank, Memory.Valid;
      if concrete == map[] {
        EmptyMap([heap, stack, data], segments);
        return true, [], 0;
      }
      hide Built, Separate, Increasing, Lists, Grouped, GapsSplit, InOrder;
      var ms;
      ms, es := SegmentsFor(concrete);
      n := |ms|;
      ghost var none := Rest([heap, stack, data], |ms|);
      RestEmpty([heap, stack, data], |ms|);
      BuiltFaithful(ms, es, concrete, none);
      Distribute(ms);
      assert All()[..n] == ms;
      ok := true;
    }

    /** The first segments become heap, stack and data. */
    method Distribute(ms: seq<Memory>)
      requires ms != []
      modifies this
      ensures All() == ms + Rest([old(heap), old(stack), old(data)], |ms|)
      ensures |segments| == if |ms| <= 3 then 0 else |ms| - 3
      ensures (|ms| < 2 ==> stack == old(stack)) && (|ms| < 3 ==> data == old(data))
    {
      if |ms| >= 3 {
        data := ms[2];
      }
      if |ms| >= 2 {
        stack := ms[1];
      }
      heap := ms[0];
      segments := if |ms| > 3 then ms[3..] else [];
    }
  }

  function Rest(ms: seq<Memory>, n: nat): seq<Memory> { if n <= |ms| then ms[n..] else [] }

  lemma ResizeEmpty(m: Memory, base: nat)
    ensures base % 32 == 0 ==> IsEmpty(Resize(m, base, 0)) && Resize(m, base, 0).base == base
  {
  }

  lemma RestEmpty(ms: seq<Memory>, n: nat)
    requires forall i :: 0 <= i < |ms| ==> IsEmpty(ms[i])
    ensures forall i :: 0 <= i < |Rest(ms, n)| ==> IsEmpty(Rest(ms, n)[i])
  {
  }

  lemma NotNone(es: seq<Entry>, c: ByteMap)
    requires Lists(es, c, c.Keys) && c != map[]
    ensures es != []
  {
    var a :| a in c;
    assert a in c.Keys;
  }
}
