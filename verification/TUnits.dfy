/** The translation unit and its in-place editing (src/tunit/tunit.cc): offset and size tables and
    RIP-relative displacements are patched instead of recomputed. */
module TUnits {

  /** An instruction with its encoded size, whether it dereferences memory, and, if it has a RIP-relative
      operand, the displacement (encoded in four bytes whatever its value). */
  datatype Instr = Instr(op: nat, size: nat, deref: bool, rip: bool, disp: int)

  /** Change the displacement of a RIP-relative operand. */
  function Patch(t: Instr, delta: int): Instr { if t.rip then t.(disp := t.disp + delta) else t }

  /** Bytes before instruction k. */
  function Offset(code: seq<Instr>, k: nat): nat
    requires k <= |code|
  {
    if k == 0 then 0 else Offset(code, k - 1) + code[k - 1].size
  }

  /** The address just after instruction k, relative to the start of the code. */
  function End(code: seq<Instr>, k: nat): nat
    requires k < |code|
  {
    Offset(code, k) + code[k].size
  }

  /** The absolute address a RIP-relative operand names. */
  function Target(base: int, code: seq<Instr>, k: nat): int
    requires k < |code|
  {
    base + End(code, k) + code[k].disp
  }

  /** The addresses that RIP-relative memory accesses name. */
  ghost function TargetsOf(base: int, code: seq<Instr>): set<int> {
    set i | 0 <= i < |code| && code[i].deref && code[i].rip :: Target(base, code, i)
  }

  /** Instruction i of a appears as instruction k of b: only the displacement of a RIP-relative operand
      changes, by as much as the end of the instruction moves. */
  predicate Moved(a: seq<Instr>, i: nat, b: seq<Instr>, k: nat)
    requires i < |a| && k < |b|
  {
    && b[k] == a[i].(disp := b[k].disp)
    && b[k].disp == if a[i].rip then a[i].disp + End(a, i) - End(b, k) else a[i].disp
  }

  /** A moved operand names the same address. */
  lemma TargetKept(base: int, a: seq<Instr>, i: nat, b: seq<Instr>, k: nat)
    requires i < |a| && k < |b| && Moved(a, i, b, k) && a[i].rip
    ensures b[k].rip && Target(base, b, k) == Target(base, a, i)
  {
  }

  /** b is a rearrangement of a: position k holds instruction from[k] of a, or a new one if from[k] < 0. */
  ghost predicate Relocated(a: seq<Instr>, b: seq<Instr>, from: seq<int>) {
    && |from| == |b|
    && forall k :: 0 <= k < |b| && from[k] >= 0 ==> from[k] < |a| && Moved(a, from[k], b, k)
  }

  /** Every RIP-relative operand that was there before still names the same address. */
  lemma TargetsKept(base: int, a: seq<Instr>, b: seq<Instr>, from: seq<int>)
    requires Relocated(a, b, from)
    ensures forall k :: 0 <= k < |b| && from[k] >= 0 && a[from[k]].rip ==>
            b[k].rip && Target(base, b, k) == Target(base, a, from[k])
  {
    forall k | 0 <= k < |b| && from[k] >= 0 && a[from[k]].rip
      ensures b[k].rip && Target(base, b, k) == Target(base, a, from[k])
    {
      TargetKept(base, a, from[k], b, k);
    }
  }

  /** The tables that recompute builds for non-empty code. */
  ghost predicate Tables(code: seq<Instr>, offsets: seq<int>, sizes: seq<int>) {
    && |offsets| == |sizes| == |code|
    && forall k :: 0 <= k < |code| ==> offsets[k] == Offset(code, k) && sizes[k] == code[k].size
  }

  lemma {:induction false} OffsetSameSizes(a: seq<Instr>, b: seq<Instr>, k: nat)
    requires k <= |a| && k <= |b| && forall i :: 0 <= i < k ==> a[i].size == b[i].size
    ensures Offset(a, k) == Offset(b, k)
  {
    if k > 0 {
      OffsetSameSizes(a, b, k - 1);
    }
  }

  /** Undoing a rearrangement restores the code exactly, displacements included. */
  lemma UndoExact(a: seq<Instr>, b: seq<Instr>, c: seq<Instr>, p: seq<int>, q: seq<int>)
    requires Relocated(a, b, p) && Relocated(b, c, q) && |c| == |a|
    requires forall k :: 0 <= k < |c| ==> if q[k] < 0 then c[k] == a[k] else q[k] < |p| && p[q[k]] == k
    ensures c == a
  {
    forall k | 0 <= k < |c|
      ensures c[k].size == a[k].size
    {
      if q[k] >= 0 {
        assert Moved(b, q[k], c, k);
        assert Moved(a, p[q[k]], b, q[k]);
      }
    }
    forall k | 0 <= k < |c|
      ensures c[k] == a[k]
    {
      OffsetSameSizes(a, c, k);
      if q[k] >= 0 {
        assert Moved(b, q[k], c, k);
        assert Moved(a, p[q[k]], b, q[k]);
      }
    }
  }

  // ----- Sequences of edits -----

  /** Where the instructions after two edits come from. */
  function Compose(p: seq<int>, q: seq<int>): seq<int>
    requires forall k :: 0 <= k < |q| ==> q[k] < |p|
  {
    seq(|q|, k requires 0 <= k < |q| => if q[k] < 0 then -1 else p[q[k]])
  }

  /** Rearrangements compose. */
  lemma RelocatedTrans(a: seq<Instr>, b: seq<Instr>, c: seq<Instr>, p: seq<int>, q: seq<int>)
    requires Relocated(a, b, p) && Relocated(b, c, q) && forall k :: 0 <= k < |q| ==> q[k] < |p|
    ensures Relocated(a, c, Compose(p, q))
  {
    var r := Compose(p, q);
    forall k | 0 <= k < |c| && r[k] >= 0
      ensures r[k] < |a| && Moved(a, r[k], c, k)
    {
      assert Moved(b, q[k], c, k);
      assert Moved(a, p[q[k]], b, q[k]);
    }
  }

  /** States of the code joined by edits. */
  ghost predicate Edits(codes: seq<seq<Instr>>, froms: seq<seq<int>>) {
    && |codes| == |froms| + 1
    && forall i :: 0 <= i < |froms| ==> EditAt(codes[i], codes[i + 1], froms[i])
  }

  ghost predicate EditAt(a: seq<Instr>, b: seq<Instr>, from: seq<int>) {
    Relocated(a, b, from) && forall k :: 0 <= k < |from| ==> from[k] < |a|
  }

  function Identity(n: nat): seq<int> { seq(n, k => k) }

  /** Where the instructions after the first m edits come from. */
  ghost function Origin(codes: seq<seq<Instr>>, froms: seq<seq<int>>, m: nat): (r: seq<int>)
    requires Edits(codes, froms) && m <= |froms|
    ensures |r| == |codes[m]| && forall k :: 0 <= k < |r| ==> r[k] < |codes[0]|
  {
    if m == 0 then Identity(|codes[0]|)
    else
      assert EditAt(codes[m - 1], codes[m - 1 + 1], froms[m - 1]);
      Compose(Origin(codes, froms, m - 1), froms[m - 1])
  }

  /** After any sequence of edits the code is a rearrangement of the first, and every RIP-relative
      operand that has been there from the start names the same address. */
  lemma {:induction false} EditsKeepTargets(base: int, codes: seq<seq<Instr>>, froms: seq<seq<int>>, m: nat)
    requires Edits(codes, froms) && m <= |froms|
    ensures var from := Origin(codes, froms, m);
            && Relocated(codes[0], codes[m], from)
            && forall k :: 0 <= k < |codes[m]| && from[k] >= 0 && codes[0][from[k]].rip ==>
                 codes[m][k].rip && Target(base, codes[m], k) == Target(base, codes[0], from[k])
  {
    if m > 0 {
      EditsKeepTargets(base, codes, froms, m - 1);
      assert EditAt(codes[m - 1], codes[m - 1 + 1], froms[m - 1]);
      RelocatedTrans(codes[0], codes[m - 1], codes[m], Origin(codes, froms, m - 1), froms[m - 1]);
    }
    TargetsKept(base, codes[0], codes[m], Origin(codes, froms, m));
  }

  // ----- The code an edit results in -----

  ghost predicate Sources(a: seq<Instr>, from: seq<int>) { forall k :: 0 <= k < |from| ==> from[k] < |a| }

  function SizeAt(a: seq<Instr>, from: seq<int>, added: Instr, k: nat): nat
    requires k < |from| && from[k] < |a|
  {
    if from[k] < 0 then added.size else a[from[k]].size
  }

  /** Bytes before position k once the instructions are rearranged. */
  function OffsetAt(a: seq<Instr>, from: seq<int>, added: Instr, k: nat): nat
    requires k <= |from| && forall i :: 0 <= i < |from| ==> from[i] < |a|
  {
    if k == 0 then 0 else OffsetAt(a, from, added, k - 1) + SizeAt(a, from, added, k - 1)
  }

  /** The rearranged code, with one new instruction where `from` is negative. */
  function Arrange(a: seq<Instr>, from: seq<int>, added: Instr): seq<Instr>
    requires forall i :: 0 <= i < |from| ==> from[i] < |a|
  {
    seq(|from|, k requires 0 <= k < |from| =>
      if from[k] < 0 then added
      else Patch(a[from[k]], End(a, from[k]) - OffsetAt(a, from, added, k) - SizeAt(a, from, added, k)))
  }

  lemma {:induction false} ArrangedOffset(a: seq<Instr>, from: seq<int>, added: Instr, b: seq<Instr>, k: nat)
    requires Sources(a, from) && |b| == |from| && k <= |b|
    requires forall i :: 0 <= i < |b| ==> b[i].size == SizeAt(a, from, added, i)
    ensures Offset(b, k) == OffsetAt(a, from, added, k)
  {
    if k > 0 {
      ArrangedOffset(a, from, added, b, k - 1);
    }
  }

  /** Instruction k of b is the one the rearrangement puts there. */
  ghost predicate ArrangedAt(a: seq<Instr>, from: seq<int>, added: Instr, b: seq<Instr>, k: nat)
    requires k < |b| == |from| && from[k] < |a|
  {
    if from[k] < 0 then b[k] == added else Moved(a, from[k], b, k)
  }

  lemma ArrangedSame(a: seq<Instr>, from: seq<int>, added: Instr, b: seq<Instr>, k: nat)
    requires Sources(a, from) && k < |b| == |from|
    requires forall i :: 0 <= i < |b| ==> b[i].size == SizeAt(a, from, added, i)
    ensures ArrangedAt(a, from, added, b, k) <==> b[k] == Arrange(a, from, added)[k]
  {
    ArrangedOffset(a, from, added, b, k);
  }

  lemma ArrangedSizes(a: seq<Instr>, from: seq<int>, added: Instr, b: seq<Instr>)
    requires Sources(a, from) && |b| == |from| && forall k: nat :: k < |b| ==> ArrangedAt(a, from, added, b, k)
    ensures forall k: nat :: k < |b| ==> b[k].size == SizeAt(a, from, added, k)
  {
    forall k: nat | k < |b|
      ensures b[k].size == SizeAt(a, from, added, k)
    {
      assert ArrangedAt(a, from, added, b, k);
    }
  }

  /** It is a rearrangement, and the only one with that new instruction. */
  lemma ArrangeExactly(a: seq<Instr>, from: seq<int>, added: Instr, b: seq<Instr>)
    requires Sources(a, from)
    ensures b == Arrange(a, from, added) <==> |b| == |from| && forall k: nat :: k < |b| ==>
            ArrangedAt(a, from, added, b, k)
  {
    var c := Arrange(a, from, added);
    assert forall k: nat :: k < |c| ==> c[k].size == SizeAt(a, from, added, k);
    hide Arrange, ArrangedAt, SizeAt;
    forall k: nat | k < |c|
      ensures ArrangedAt(a, from, added, c, k)
    {
      ArrangedSame(a, from, added, c, k);
    }
    if |b| == |from| && forall k: nat :: k < |b| ==> ArrangedAt(a, from, added, b, k) {
      ArrangedSizes(a, from, added, b);
      forall k: nat | k < |b|
        ensures b[k] == c[k]
      {
        ArrangedSame(a, from, added, b, k);
      }
    }
  }

  lemma TablesUnique(code: seq<Instr>, o1: seq<int>, s1: seq<int>, o2: seq<int>, s2: seq<int>)
    requires Tables(code, o1, s1) && Tables(code, o2, s2)
    ensures o1 == o2 && s1 == s2
  {
  }

  // ----- The rearrangements -----

  function Without(n: nat, i: nat): seq<int>
    requires i < n
  {
    seq(n - 1, k => if k < i then k else k + 1)
  }

  function With(n: nat, i: nat): seq<int> { seq(n + 1, k => if k < i then k else if k == i then -1 else k - 1) }

  function Except(n: nat, i: nat): seq<int> { seq(n, k => if k == i then -1 else k) }

  function Swapped(n: nat, i: nat, j: nat): seq<int> { seq(n, k => if k == i then j else if k == j then i else k) }

  function RotatedLeft(n: nat, i: nat, j: nat): seq<int> {
    seq(n, k => if i <= k < j then k + 1 else if k == j then i else k)
  }

  function RotatedRight(n: nat, i: nat, j: nat): seq<int> {
    seq(n, k => if k == i then j else if i < k <= j then k - 1 else k)
  }

  // ----- What the rearrangements leave, but for displacements -----

  /** The instructions without their displacements. */
  function Bare(code: seq<Instr>): (r: seq<Instr>)
    ensures |r| == |code|
  {
    seq(|code|, k requires 0 <= k < |code| => code[k].(disp := 0))
  }

  lemma BareMoved(a: seq<Instr>, b: seq<Instr>, from: seq<int>, k: nat)
    requires Relocated(a, b, from) && k < |b|
    ensures from[k] >= 0 ==> from[k] < |a| && Bare(b)[k] == Bare(a)[from[k]]
  {
  }

  lemma WithoutBare(a: seq<Instr>, b: seq<Instr>, i: nat)
    requires i < |a| && Relocated(a, b, Without(|a|, i))
    ensures Bare(b) == Bare(a)[..i] + Bare(a)[i + 1..]
  {
    forall k: nat | k < |b|
      ensures Bare(b)[k] == (Bare(a)[..i] + Bare(a)[i + 1..])[k]
    {
      BareMoved(a, b, Without(|a|, i), k);
    }
  }

  lemma WithBare(a: seq<Instr>, b: seq<Instr>, i: nat)
    requires i <= |a| && Relocated(a, b, With(|a|, i))
    ensures Bare(b) == Bare(a)[..i] + [b[i].(disp := 0)] + Bare(a)[i..]
  {
    forall k: nat | k < |b|
      ensures Bare(b)[k] == (Bare(a)[..i] + [b[i].(disp := 0)] + Bare(a)[i..])[k]
    {
      BareMoved(a, b, With(|a|, i), k);
    }
  }

  lemma ExceptBare(a: seq<Instr>, b: seq<Instr>, i: nat)
    requires i < |a| && Relocated(a, b, Except(|a|, i))
    ensures Bare(b) == Bare(a)[i := b[i].(disp := 0)]
  {
    forall k: nat | k < |b|
      ensures Bare(b)[k] == Bare(a)[i := b[i].(disp := 0)][k]
    {
      BareMoved(a, b, Except(|a|, i), k);
    }
  }

  lemma SwappedBare(a: seq<Instr>, b: seq<Instr>, i: nat, j: nat)
    requires i < |a| && j < |a| && Relocated(a, b, Swapped(|a|, i, j))
    ensures Bare(b) == Bare(a)[i := Bare(a)[j]][j := Bare(a)[i]]
  {
    forall k: nat | k < |b|
      ensures Bare(b)[k] == Bare(a)[i := Bare(a)[j]][j := Bare(a)[i]][k]
    {
      BareMoved(a, b, Swapped(|a|, i, j), k);
    }
  }

  lemma RotatedLeftBare(a: seq<Instr>, b: seq<Instr>, i: nat, j: nat)
    requires i <= j < |a| && Relocated(a, b, RotatedLeft(|a|, i, j))
    ensures var c := Bare(a); Bare(b) == c[..i] + c[i + 1..j + 1] + [c[i]] + c[j + 1..]
  {
    var c := Bare(a);
    forall k: nat | k < |b|
      ensures Bare(b)[k] == (c[..i] + c[i + 1..j + 1] + [c[i]] + c[j + 1..])[k]
    {
      BareMoved(a, b, RotatedLeft(|a|, i, j), k);
    }
  }

  lemma RotatedRightBare(a: seq<Instr>, b: seq<Instr>, i: nat, j: nat)
    requires i <= j < |a| && Relocated(a, b, RotatedRight(|a|, i, j))
    ensures var c := Bare(a); Bare(b) == c[..i] + [c[j]] + c[i..j] + c[j + 1..]
  {
    var c := Bare(a);
    forall k: nat | k < |b|
      ensures Bare(b)[k] == (c[..i] + [c[j]] + c[i..j] + c[j + 1..])[k]
    {
      BareMoved(a, b, RotatedRight(|a|, i, j), k);
    }
  }

  // ----- The loops -----

  method ComputeSizes(code: seq<Instr>) returns (sizes: seq<int>)
    ensures |sizes| == |code| && forall k :: 0 <= k < |code| ==> sizes[k] == code[k].size
  {
    sizes := [];
    for i := 0 to |code|
      invariant |sizes| == i && forall k :: 0 <= k < i ==> sizes[k] == code[k].size
    {
      sizes := sizes + [code[i].size];
    }
  }

  /** Empty code still gets one offset. */
  method ComputeOffsets(code: seq<Instr>, sizes: seq<int>) returns (offsets: seq<int>)
    requires |sizes| == |code| && forall k :: 0 <= k < |code| ==> sizes[k] == code[k].size
    ensures |offsets| == (if code == [] then 1 else |code|)
    ensures forall k :: 0 <= k < |offsets| ==> offsets[k] == Offset(code, k)
  {
    offsets := [0];
    var i := 0;
    while i < |code| - 1
      invariant 0 <= i <= |code| && (code != [] ==> i < |code|) && |offsets| == i + 1
      invariant forall k :: 0 <= k <= i ==> offsets[k] == Offset(code, k)
    {
      offsets := offsets + [offsets[i] + sizes[i]];
      i := i + 1;
    }
  }

  method ComputeTargets(base: int, code: seq<Instr>, offsets: seq<int>, sizes: seq<int>) returns (targets: set<int>)
    requires Tables(code, offsets, sizes)
    ensures targets == TargetsOf(base, code)
  {
    hide Offset;
    targets := {};
    for i := 0 to |code|
      invariant targets == set k | 0 <= k < i && code[k].deref && code[k].rip :: Target(base, code, k)
    {
      if code[i].deref && code[i].rip {
        var target := base + offsets[i] + sizes[i] + code[i].disp;
        assert target == Target(base, code, i);
        hide Target;
        targets := targets + {target};
      }
    }
  }

  /** Adjust the RIP-relative operands of instructions lo to hi - 1. */
  method RescaleRips(code: seq<Instr>, lo: nat, hi: nat, delta: int) returns (r: seq<Instr>)
    requires hi <= |code|
    ensures |r| == |code|
    ensures forall k :: 0 <= k < |code| ==> r[k] == if lo <= k < hi then Patch(code[k], delta) else code[k]
  {
    r := code;
    var i := lo;
    while i < hi
      invariant lo <= i && (lo < hi ==> i <= hi) && |r| == |code|
      invariant forall k :: 0 <= k < |code| ==> r[k] == if lo <= k < i && k < hi then Patch(code[k], delta) else code[k]
    {
      if code[i].rip {
        r := r[i := Patch(r[i], delta)];
      }
      i := i + 1;
    }
  }

  /** Move the entries of lo + 1 to hi down by one place; entry hi stays. */
  method ShiftDown(table: seq<int>, lo: nat, hi: nat, delta: int) returns (r: seq<int>)
    requires lo <= hi < |table|
    ensures |r| == |table| && forall k {:trigger r[k]} :: 0 <= k < |table| ==>
            r[k] == if lo <= k < hi then table[k + 1] + delta else table[k]
  {
    r := table;
    for i := lo to hi
      invariant |r| == |table| && forall k {:trigger r[k]} :: 0 <= k < |table| ==>
                r[k] == if lo <= k < i then table[k + 1] + delta else table[k]
    {
      r := r[i := r[i + 1] + delta];
    }
  }

  /** Move the entries of lo to hi - 1 up by one place; entry lo stays. */
  method ShiftUp(table: seq<int>, lo: nat, hi: nat, delta: int) returns (r: seq<int>)
    requires lo <= hi < |table|
    ensures |r| == |table| && forall k {:trigger r[k]} :: 0 <= k < |table| ==>
            r[k] == if lo < k <= hi then table[k - 1] + delta else table[k]
  {
    r := table;
    for i := hi downto lo
      invariant |r| == |table| && forall k {:trigger r[k]} :: 0 <= k < |table| ==>
                r[k] == if i < k <= hi then table[k - 1] + delta else table[k]
    {
      r := r[i + 1 := r[i] + delta];
    }
  }

  /** Add delta to the entries lo to hi - 1. */
  method AddTo(table: seq<int>, lo: nat, hi: nat, delta: int) returns (r: seq<int>)
    requires lo <= hi <= |table|
    ensures |r| == |table| && forall k {:trigger r[k]} :: 0 <= k < |table| ==>
            r[k] == if lo <= k < hi then table[k] + delta else table[k]
  {
    r := table;
    for i := lo to hi
      invariant |r| == |table| && forall k {:trigger r[k]} :: 0 <= k < |table| ==>
                r[k] == if lo <= k < i then table[k] + delta else table[k]
    {
      r := r[i := r[i] + delta];
    }
  }

  /** Make room for one more instruction. */
  method GrowTables(offsets: seq<int>, sizes: seq<int>, index: nat, size: int) returns (o: seq<int>, s: seq<int>)
    requires |offsets| == |sizes| && index <= |offsets|
    ensures |o| == |s| == |offsets| + 1
    ensures forall k {:trigger o[k]} :: 0 <= k < |o| && k != index ==>
            o[k] == if k < index then offsets[k] else offsets[k - 1] + size
    ensures forall k {:trigger s[k]} :: 0 <= k < |o| && k != index ==> s[k] == sizes[if k < index then k else k - 1]
    ensures s[index] == size && o[index] == if index == 0 then 0 else offsets[index - 1] + sizes[index - 1]
  {
    o, s := offsets + [0], sizes + [0];
    o := ShiftUp(o, index, |offsets|, size);
    s := ShiftUp(s, index, |offsets|, 0);
    o := o[index := if index == 0 then 0 else o[index - 1] + s[index - 1]];
    s := s[index := size];
  }

  // ----- How offsets change -----

  ghost predicate Step(b: seq<Instr>, f: int -> int, i: nat)
    requires i < |b|
  {
    f(i + 1) == f(i) + b[i].size
  }

  lemma {:induction false} OffsetUnique(b: seq<Instr>, f: int -> int, k: nat)
    requires k <= |b| && f(0) == 0 && forall i: nat :: i < |b| ==> Step(b, f, i)
    ensures f(k) == Offset(b, k)
  {
    if k > 0 {
      OffsetUnique(b, f, k - 1);
      assert Step(b, f, k - 1);
    }
  }

  function Off(a: seq<Instr>, k: int): int { if 0 <= k <= |a| then Offset(a, k) else 0 }

  lemma RemoveOffset(a: seq<Instr>, b: seq<Instr>, i: nat, k: nat)
    requires i < |a| && |b| == |a| - 1 && k <= |b|
    requires forall m {:trigger b[m]} :: 0 <= m < |b| ==> b[m].size == a[if m < i then m else m + 1].size
    ensures Offset(b, k) == if k <= i then Offset(a, k) else Offset(a, k + 1) - a[i].size
  {
    var f := (m: int) => if m <= i then Off(a, m) else Off(a, m + 1) - a[i].size;
    forall m: nat | m < |b|
      ensures Step(b, f, m)
    {
      assert Off(a, m + 1) == Off(a, m) + a[m].size;
      assert Off(a, m + 2) == Off(a, m + 1) + a[m + 1].size;
    }
    OffsetUnique(b, f, k);
  }

  lemma InsertOffset(a: seq<Instr>, b: seq<Instr>, i: nat, k: nat)
    requires i <= |a| && |b| == |a| + 1 && k <= |b|
    requires forall m {:trigger b[m]} :: 0 <= m < |b| && m != i ==> b[m].size == a[if m < i then m else m - 1].size
    ensures Offset(b, k) == if k <= i then Offset(a, k) else Offset(a, k - 1) + b[i].size
  {
    var f := (m: int) => if m <= i then Off(a, m) else Off(a, m - 1) + b[i].size;
    forall m: nat | m < |b|
      ensures Step(b, f, m)
    {
      assert m < |a| ==> Off(a, m + 1) == Off(a, m) + a[m].size;
      assert m > 0 ==> Off(a, m) == Off(a, m - 1) + a[m - 1].size;
    }
    OffsetUnique(b, f, k);
    assert f(k) == if k <= i then Off(a, k) else Off(a, k - 1) + b[i].size;
  }

  lemma ReplaceOffset(a: seq<Instr>, b: seq<Instr>, i: nat, k: nat)
    requires i < |a| && |b| == |a| && k <= |b|
    requires forall m :: 0 <= m < |b| && m != i ==> b[m].size == a[m].size
    ensures Offset(b, k) == if k <= i then Offset(a, k) else Offset(a, k) + b[i].size - a[i].size
  {
    var f := (m: int) => if m <= i then Off(a, m) else Off(a, m) + b[i].size - a[i].size;
    forall m: nat | m < |b|
      ensures Step(b, f, m)
    {
    }
    OffsetUnique(b, f, k);
  }

  lemma SwapOffset(a: seq<Instr>, b: seq<Instr>, i: nat, j: nat, k: nat)
    requires i < j < |a| && |b| == |a| && k <= |b|
    requires forall m {:trigger b[m]} :: 0 <= m < |b| ==>
             b[m].size == a[if m == i then j else if m == j then i else m].size
    ensures Offset(b, k) == if i < k <= j then Offset(a, k) + a[j].size - a[i].size else Offset(a, k)
  {
    var f := (m: int) => if i < m <= j then Off(a, m) + a[j].size - a[i].size else Off(a, m);
    forall m: nat | m < |b|
      ensures Step(b, f, m)
    {
    }
    OffsetUnique(b, f, k);
  }

  lemma RotateLeftOffset(a: seq<Instr>, b: seq<Instr>, i: nat, j: nat, k: nat)
    requires i < j < |a| && |b| == |a| && k <= |b|
    requires forall m {:trigger b[m]} :: 0 <= m < |b| ==>
             b[m].size == a[if i <= m < j then m + 1 else if m == j then i else m].size
    ensures Offset(b, k) == if i < k <= j then Offset(a, k + 1) - a[i].size else Offset(a, k)
  {
    var f := (m: int) => if i < m <= j then Off(a, m + 1) - a[i].size else Off(a, m);
    forall m: nat | m < |b|
      ensures Step(b, f, m)
    {
      assert Off(a, m + 1) == Off(a, m) + a[m].size;
      assert m + 1 < |a| ==> Off(a, m + 2) == Off(a, m + 1) + a[m + 1].size;
    }
    OffsetUnique(b, f, k);
  }

  lemma RotateRightOffset(a: seq<Instr>, b: seq<Instr>, i: nat, j: nat, k: nat)
    requires i < j < |a| && |b| == |a| && k <= |b|
    requires forall m {:trigger b[m]} :: 0 <= m < |b| ==>
             b[m].size == a[if m == i then j else if i < m <= j then m - 1 else m].size
    ensures Offset(b, k) == if i < k <= j then Offset(a, k - 1) + a[j].size else Offset(a, k)
  {
    var f := (m: int) => if i < m <= j then Off(a, m - 1) + a[j].size else Off(a, m);
    forall m: nat | m < |b|
      ensures Step(b, f, m)
    {
      assert Off(a, m + 1) == Off(a, m) + a[m].size;
      assert m > 0 ==> Off(a, m) == Off(a, m - 1) + a[m - 1].size;
    }
    OffsetUnique(b, f, k);
  }

  // ----- The edits keep the tables and the targets -----

  lemma RemoveCorrect(a: seq<Instr>, b: seq<Instr>, i: nat, offsets: seq<int>, sizes: seq<int>)
    requires i < |a| && |b| == |a| - 1 == |offsets| == |sizes|
    requires forall k {:trigger b[k]} :: 0 <= k < |b| ==> b[k] == if k < i then a[k] else Patch(a[k + 1], a[i].size)
    requires forall k {:trigger offsets[k]} :: 0 <= k < |b| ==>
             offsets[k] == if k < i then Offset(a, k) else Offset(a, k + 1) - a[i].size
    requires forall k {:trigger sizes[k]} :: 0 <= k < |b| ==> sizes[k] == a[if k < i then k else k + 1].size
    ensures Tables(b, offsets, sizes) && Relocated(a, b, Without(|a|, i))
  {
    var from := Without(|a|, i);
    forall k | 0 <= k < |b|
      ensures offsets[k] == Offset(b, k) && sizes[k] == b[k].size && Moved(a, from[k], b, k)
    {
      RemoveOffset(a, b, i, k);
      assert Offset(a, i + 1) == Offset(a, i) + a[i].size;
    }
  }

  lemma InsertCorrect(a: seq<Instr>, b: seq<Instr>, i: nat, offsets: seq<int>, sizes: seq<int>)
    requires i <= |a| && |b| == |a| + 1 == |offsets| == |sizes|
    requires forall k {:trigger b[k]} :: 0 <= k < |b| && k != i ==>
             b[k] == if k < i then a[k] else Patch(a[k - 1], 0 - b[i].size)
    requires forall k {:trigger offsets[k]} :: 0 <= k < |b| ==>
             offsets[k] == if k <= i then Offset(a, k) else Offset(a, k - 1) + b[i].size
    requires forall k {:trigger sizes[k]} :: 0 <= k < |b| ==>
             sizes[k] == if k == i then b[i].size else a[if k < i then k else k - 1].size
    ensures Tables(b, offsets, sizes) && Relocated(a, b, With(|a|, i))
  {
    var from := With(|a|, i);
    forall k | 0 <= k < |b|
      ensures offsets[k] == Offset(b, k) && sizes[k] == b[k].size && (k != i ==> Moved(a, from[k], b, k))
    {
      InsertOffset(a, b, i, k);
    }
  }

  lemma ReplaceCorrect(a: seq<Instr>, b: seq<Instr>, i: nat)
    requires i < |a| && |b| == |a|
    requires forall k {:trigger b[k]} :: 0 <= k < |b| && k != i ==>
             b[k] == if k < i then a[k] else Patch(a[k], a[i].size - b[i].size)
    ensures Relocated(a, b, Except(|a|, i))
  {
    var from := Except(|a|, i);
    forall k | 0 <= k < |b| && k != i
      ensures Moved(a, from[k], b, k)
    {
      ReplaceOffset(a, b, i, k);
    }
  }

  /** What swap leaves at position k. */
  predicate SwappedAt(a: seq<Instr>, b: seq<Instr>, i: nat, j: nat, offsets: seq<int>, sizes: seq<int>, k: nat)
    requires i < j < |a| && |b| == |a| == |offsets| == |sizes| && k < |b|
  {
    && b[k] == (if k == i then Patch(a[j], End(a, j) - Offset(a, i) - a[j].size)
                else if k == j then Patch(a[i], End(a, i) - End(a, j))
                else if i < k < j then Patch(a[k], a[i].size - a[j].size) else a[k])
    && offsets[k] == (if i < k <= j then Offset(a, k) + a[j].size - a[i].size else Offset(a, k))
    && sizes[k] == a[if k == i then j else if k == j then i else k].size
  }

  lemma SwapCorrect(a: seq<Instr>, b: seq<Instr>, i: nat, j: nat, offsets: seq<int>, sizes: seq<int>)
    requires i < j < |a| && |b| == |a| == |offsets| == |sizes|
    requires forall k: nat :: k < |b| ==> SwappedAt(a, b, i, j, offsets, sizes, k)
    ensures Tables(b, offsets, sizes) && Relocated(a, b, Swapped(|a|, i, j))
  {
    var from := Swapped(|a|, i, j);
    forall m | 0 <= m < |b|
      ensures b[m].size == a[if m == i then j else if m == j then i else m].size && sizes[m] == b[m].size
    {
      assert SwappedAt(a, b, i, j, offsets, sizes, m);
    }
    forall k | 0 <= k < |b|
      ensures offsets[k] == Offset(b, k) && Moved(a, from[k], b, k)
    {
      hide Offset;
      SwapOffset(a, b, i, j, k);
      assert SwappedAt(a, b, i, j, offsets, sizes, k);
    }
  }

  lemma OffsetNext(a: seq<Instr>, k: nat)
    requires k < |a|
    ensures Offset(a, k + 1) == Offset(a, k) + a[k].size
  {
  }

  /** What rotate_left leaves at position k. */
  predicate RotatedAt(a: seq<Instr>, b: seq<Instr>, i: nat, j: nat, offsets: seq<int>, sizes: seq<int>, k: nat)
    requires i < j < |a| && |b| == |a| == |offsets| == |sizes| && k < |b|
  {
    && b[k] == (if i <= k < j then Patch(a[k + 1], a[i].size) else if k == j then Patch(a[i], End(a, i) - End(a, j))
         else a[k])
    && offsets[k] == (if i <= k <= j then Offset(a, k + 1) - a[i].size else Offset(a, k))
    && sizes[k] == a[if i <= k < j then k + 1 else if k == j then i else k].size
  }

  lemma RotateLeftCorrect(a: seq<Instr>, b: seq<Instr>, i: nat, j: nat, offsets: seq<int>, sizes: seq<int>)
    requires i < j < |a| && |b| == |a| == |offsets| == |sizes|
    requires forall k: nat :: k < |b| ==> RotatedAt(a, b, i, j, offsets, sizes, k)
    ensures Tables(b, offsets, sizes) && Relocated(a, b, RotatedLeft(|a|, i, j))
  {
    var from := RotatedLeft(|a|, i, j);
    OffsetNext(a, i);
    OffsetNext(a, j);
    forall m | 0 <= m < |b|
      ensures b[m].size == a[if i <= m < j then m + 1 else if m == j then i else m].size && sizes[m] == b[m].size
    {
      assert RotatedAt(a, b, i, j, offsets, sizes, m);
    }
    forall k | 0 <= k < |b|
      ensures offsets[k] == Offset(b, k) && Moved(a, from[k], b, k)
    {
      hide Offset;
      RotateLeftOffset(a, b, i, j, k);
      assert RotatedAt(a, b, i, j, offsets, sizes, k);
      OffsetNext(a, k);
    }
  }

  /** What rotate_right leaves at position k. */
  predicate RotatedBack(a: seq<Instr>, b: seq<Instr>, i: nat, j: nat, offsets: seq<int>, sizes: seq<int>, k: nat)
    requires i < j < |a| && |b| == |a| == |offsets| == |sizes| && k < |b|
  {
    && b[k] == (if k == i then Patch(a[j], Offset(a, j) - Offset(a, i))
         else if i < k <= j then Patch(a[k - 1], 0 - a[j].size) else a[k])
    && offsets[k] == (if i < k <= j then Offset(a, k - 1) + a[j].size else Offset(a, k))
    && sizes[k] == a[if k == i then j else if i < k <= j then k - 1 else k].size
  }

  lemma RotateRightCorrect(a: seq<Instr>, b: seq<Instr>, i: nat, j: nat, offsets: seq<int>, sizes: seq<int>)
    requires i < j < |a| && |b| == |a| == |offsets| == |sizes|
    requires forall k: nat :: k < |b| ==> RotatedBack(a, b, i, j, offsets, sizes, k)
    ensures Tables(b, offsets, sizes) && Relocated(a, b, RotatedRight(|a|, i, j))
  {
    var from := RotatedRight(|a|, i, j);
    forall m | 0 <= m < |b|
      ensures b[m].size == a[if m == i then j else if i < m <= j then m - 1 else m].size && sizes[m] == b[m].size
    {
      assert RotatedBack(a, b, i, j, offsets, sizes, m);
    }
    forall k | 0 <= k < |b|
      ensures offsets[k] == Offset(b, k) && Moved(a, from[k], b, k)
    {
      hide Offset;
      RotateRightOffset(a, b, i, j, k);
      assert RotatedBack(a, b, i, j, offsets, sizes, k);
    }
  }

  /** Position k after rotating entries i to j left by one. */
  function LeftFrom(i: nat, j: nat, k: int): int { if i <= k < j then k + 1 else if k == j then i else k }
  function RightFrom(i: nat, j: nat, k: int): int { if k == i then j else if i < k <= j then k - 1 else k }

  predicate LeftCodeAt(code: seq<Instr>, r: seq<Instr>, i: nat, j: nat, small: int, large: int, k: nat)
    requires i < j < |code| == |r| && k < |r|
  {
    r[k] == if i <= k <= j then Patch(code[LeftFrom(i, j, k)], if k < j then -small else -large) else code[k]
  }

  predicate LeftTablesAt(offsets: seq<int>, sizes: seq<int>, o: seq<int>,
                         s: seq<int>, i: nat, j: nat, small: int, large: int, k: nat)
    requires |offsets| == |sizes| == |o| == |s| && i < j < |offsets| && k < |o|
  {
    && o[k] == (if i <= k <= j then offsets[LeftFrom(i, j, k)] + (if k < j then small else large) else offsets[k])
    && s[k] == sizes[LeftFrom(i, j, k)]
  }

  method RotateCodeLeft(code: seq<Instr>, i: nat, j: nat, small: int, large: int) returns (r: seq<Instr>)
    requires i < j < |code|
    ensures |r| == |code|
    ensures forall k: nat :: k < |r| ==> LeftCodeAt(code, r, i, j, small, large, k)
  {
    var c := code[..i] + code[i + 1..j + 1] + [code[i]] + code[j + 1..];
    assert forall k {:trigger c[k]} :: 0 <= k < |c| ==> c[k] == code[LeftFrom(i, j, k)];
    r := RescaleRips(c, i, j, -small);
    r := RescaleRips(r, j, j + 1, -large);
  }

  predicate RightCodeAt(code: seq<Instr>, r: seq<Instr>, i: nat, j: nat, small: int, large: int, k: nat)
    requires i < j < |code| == |r| && k < |r|
  {
    r[k] == if i <= k <= j then Patch(code[RightFrom(i, j, k)], if i < k then -small else -large) else code[k]
  }

  predicate RightTablesAt(offsets: seq<int>, sizes: seq<int>, o: seq<int>,
                          s: seq<int>, i: nat, j: nat, small: int, large: int, k: nat)
    requires |offsets| == |sizes| == |o| == |s| && i < j < |offsets| && k < |o|
  {
    && o[k] == (if i <= k <= j then offsets[RightFrom(i, j, k)] + (if i < k then small else large) else offsets[k])
    && s[k] == sizes[RightFrom(i, j, k)]
  }

  method RotateCodeRight(code: seq<Instr>, i: nat, j: nat, small: int, large: int) returns (r: seq<Instr>)
    requires i < j < |code|
    ensures |r| == |code|
    ensures forall k: nat :: k < |r| ==> RightCodeAt(code, r, i, j, small, large, k)
  {
    var c := code[..i] + [code[j]] + code[i..j] + code[j + 1..];
    assert forall k {:trigger c[k]} :: 0 <= k < |c| ==> c[k] == code[RightFrom(i, j, k)];
    r := RescaleRips(c, i + 1, j + 1, -small);
    r := RescaleRips(r, i, i + 1, -large);
  }

  method RotateTablesLeft(offsets: seq<int>, sizes: seq<int>, i: nat, j: nat, small: int, large: int)
    returns (o: seq<int>, s: seq<int>)
    requires |offsets| == |sizes| && i < j < |offsets|
    ensures |o| == |s| == |offsets|
    ensures forall k: nat :: k < |o| ==> LeftTablesAt(offsets, sizes, o, s, i, j, small, large, k)
  {
    s := ShiftDown(sizes, i, j, 0);
    o := ShiftDown(offsets, i, j, small);
    s, o := s[j := sizes[i]], o[j := offsets[i] + large];
  }

  method RotateTablesRight(offsets: seq<int>, sizes: seq<int>, i: nat, j: nat, small: int, large: int)
    returns (o: seq<int>, s: seq<int>)
    requires |offsets| == |sizes| && i < j < |offsets|
    ensures |o| == |s| == |offsets|
    ensures forall k: nat :: k < |o| ==> RightTablesAt(offsets, sizes, o, s, i, j, small, large, k)
  {
    s := ShiftUp(sizes, i, j, 0);
    o := ShiftUp(offsets, i, j, small);
    s, o := s[i := sizes[j]], o[i := offsets[j] + large];
  }

  method RemoveCode(code: seq<Instr>, index: nat, delta: int) returns (r: seq<Instr>)
    requires index < |code|
    ensures |r| == |code| - 1
    ensures forall k {:trigger r[k]} :: 0 <= k < |r| ==>
            r[k] == if k < index then code[k] else Patch(code[k + 1], delta)
  {
    var c := code[..index] + code[index + 1..];
    r := RescaleRips(c, index, |c|, delta);
  }

  method ShrinkTables(offsets: seq<int>, sizes: seq<int>, index: nat, delta: int) returns (o: seq<int>, s: seq<int>)
    requires |offsets| == |sizes| && index < |offsets|
    ensures |o| == |s| == |offsets| - 1
    ensures forall k {:trigger o[k]} :: 0 <= k < |o| ==>
            o[k] == if k < index then offsets[k] else offsets[k + 1] + delta
    ensures forall k {:trigger s[k]} :: 0 <= k < |o| ==> s[k] == sizes[if k < index then k else k + 1]
  {
    o := ShiftDown(offsets, index, |offsets| - 1, delta);
    s := ShiftDown(sizes, index, |sizes| - 1, 0);
    o, s := o[..|o| - 1], s[..|s| - 1];
  }

  method InsertCode(code: seq<Instr>, index: nat, first: Instr, delta: int) returns (r: seq<Instr>)
    requires index <= |code|
    ensures |r| == |code| + 1 && r[index] == first
    ensures forall k {:trigger r[k]} :: 0 <= k < |r| && k != index ==>
            r[k] == if k < index then code[k] else Patch(code[k - 1], -delta)
  {
    var c := code[..index] + [first] + code[index..];
    r := c;
    if delta != 0 {
      r := RescaleRips(c, index + 1, |c|, -delta);
    }
  }

  method ReplaceCode(code: seq<Instr>, index: nat, first: Instr, skip: bool, delta: int) returns (r: seq<Instr>)
    requires index < |code|
    ensures |r| == |code| && r[index] == if skip then first else Patch(first, -delta)
    ensures forall k {:trigger r[k]} :: 0 <= k < |r| && k != index ==>
            r[k] == if k < index then code[k] else Patch(code[k], -delta)
  {
    r := code[index := first];
    if delta != 0 {
      var begin := if skip then index + 1 else index;
      r := RescaleRips(r, begin, |r|, -delta);
    }
  }

  lemma ReplaceSame(a: seq<Instr>, b: seq<Instr>, i: nat)
    requires i < |a| && |b| == |a| && forall k :: 0 <= k < i ==> b[k] == a[k]
    ensures Offset(b, i) == Offset(a, i)
  {
    OffsetSameSizes(a, b, i);
  }

  method SwapCode(code: seq<Instr>, i: nat, j: nat, deltaI: int, deltaJ: int, deltaInner: int) returns (r: seq<Instr>)
    requires i < j < |code|
    ensures |r| == |code|
    ensures forall k {:trigger r[k]} :: 0 <= k < |r| ==>
      r[k] == if k == i then Patch(code[j], -deltaJ) else if k == j then Patch(code[i], -deltaI)
              else if i < k < j then Patch(code[k], -deltaInner) else code[k]
  {
    r := code[i := code[j]][j := code[i]];
    r := RescaleRips(r, i, i + 1, -deltaJ);
    if deltaInner != 0 {
      r := RescaleRips(r, i + 1, j, -deltaInner);
    }
    r := RescaleRips(r, j, j + 1, -deltaI);
  }

  lemma SwapAt(a: seq<Instr>, offsets: seq<int>, sizes: seq<int>,
               b: seq<Instr>, o: seq<int>, s: seq<int>, i: nat, j: nat, k: nat)
    requires Tables(a, offsets, sizes) && i < j < |a| && |b| == |o| == |s| == |a| && k < |a|
    requires var span, inner := offsets[j] - offsets[i + 1], sizes[j] - sizes[i];
             && b[k] == (if k == i then Patch(a[j], -(0 - span - sizes[i]))
                  else if k == j then Patch(a[i], -(span + sizes[j]))
                         else if i < k < j then Patch(a[k], -inner) else a[k])
             && o[k] == (if i < k <= j then offsets[k] + inner else offsets[k])
             && s[k] == sizes[if k == i then j else if k == j then i else k]
    ensures SwappedAt(a, b, i, j, o, s, k)
  {
    OffsetNext(a, i);
    OffsetNext(a, j);
    hide Offset;
  }

  lemma RotateLeftAt(a: seq<Instr>, offsets: seq<int>, sizes: seq<int>, b: seq<Instr>,
                     o: seq<int>, s: seq<int>, i: nat, j: nat, small: int, large: int, k: nat)
    requires Tables(a, offsets, sizes) && i < j < |a| && |b| == |o| == |s| == |a| && k < |a|
    requires small == 0 - sizes[i] && large == offsets[j] - offsets[i + 1] + sizes[j]
    requires LeftCodeAt(a, b, i, j, small, large, k) && LeftTablesAt(offsets, sizes, o, s, i, j, small, large, k)
    ensures RotatedAt(a, b, i, j, o, s, k)
  {
    OffsetNext(a, i);
    OffsetNext(a, j);
    hide Offset;
  }

  lemma RotateRightAt(a: seq<Instr>, offsets: seq<int>, sizes: seq<int>, b: seq<Instr>,
                      o: seq<int>, s: seq<int>, i: nat, j: nat, small: int, large: int, k: nat)
    requires Tables(a, offsets, sizes) && i < j < |a| && |b| == |o| == |s| == |a| && k < |a|
    requires small == sizes[j] && large == 0 - (offsets[j] - offsets[i + 1]) - sizes[i]
    requires RightCodeAt(a, b, i, j, small, large, k) && RightTablesAt(offsets, sizes, o, s, i, j, small, large, k)
    ensures RotatedBack(a, b, i, j, o, s, k)
  {
    OffsetNext(a, i);
    OffsetNext(a, j);
    hide Offset;
  }

  lemma RotateLeftDone(a: seq<Instr>, offsets: seq<int>, sizes: seq<int>, b: seq<Instr>,
                       o: seq<int>, s: seq<int>, i: nat, j: nat, small: int, large: int)
    requires Tables(a, offsets, sizes) && i < j < |a| && |b| == |o| == |s| == |a|
    requires small == 0 - sizes[i] && large == offsets[j] - offsets[i + 1] + sizes[j]
    requires forall k: nat :: k < |a| ==> LeftCodeAt(a, b, i, j, small, large, k)
    requires forall k: nat :: k < |a| ==> LeftTablesAt(offsets, sizes, o, s, i, j, small, large, k)
    ensures Tables(b, o, s) && Relocated(a, b, RotatedLeft(|a|, i, j))
  {
    assert |offsets| == |sizes| == |a|;
    hide *;
    forall k: nat | k < |b|
      ensures RotatedAt(a, b, i, j, o, s, k)
    {
      RotateLeftAt(a, offsets, sizes, b, o, s, i, j, small, large, k);
    }
    RotateLeftCorrect(a, b, i, j, o, s);
  }

  lemma RotateRightDone(a: seq<Instr>, offsets: seq<int>, sizes: seq<int>, b: seq<Instr>,
                        o: seq<int>, s: seq<int>, i: nat, j: nat, small: int, large: int)
    requires Tables(a, offsets, sizes) && i < j < |a| && |b| == |o| == |s| == |a|
    requires small == sizes[j] && large == 0 - (offsets[j] - offsets[i + 1]) - sizes[i]
    requires forall k: nat :: k < |a| ==> RightCodeAt(a, b, i, j, small, large, k)
    requires forall k: nat :: k < |a| ==> RightTablesAt(offsets, sizes, o, s, i, j, small, large, k)
    ensures Tables(b, o, s) && Relocated(a, b, RotatedRight(|a|, i, j))
  {
    assert |offsets| == |sizes| == |a|;
    hide *;
    forall k: nat | k < |b|
      ensures RotatedBack(a, b, i, j, o, s, k)
    {
      RotateRightAt(a, offsets, sizes, b, o, s, i, j, small, large, k);
    }
    RotateRightCorrect(a, b, i, j, o, s);
  }

  method RotateAllLeft(code: seq<Instr>, offsets: seq<int>, sizes: seq<int>, i: nat, j: nat)
    returns (r: seq<Instr>, o: seq<int>, s: seq<int>)
    requires Tables(code, offsets, sizes) && i < j < |code|
    ensures Tables(r, o, s) && Relocated(code, r, RotatedLeft(|code|, i, j))
  {
    var span := offsets[j] - offsets[i + 1];
    var deltaSmall := 0 - sizes[i];
    var deltaLarge := span + sizes[j];
    hide LeftCodeAt, LeftTablesAt, RotatedLeft, Relocated;
    o, s := RotateTablesLeft(offsets, sizes, i, j, deltaSmall, deltaLarge);
    r := RotateCodeLeft(code, i, j, deltaSmall, deltaLarge);
    assert |r| == |o| == |s| == |code|;
    hide Tables;
    RotateLeftDone(code, offsets, sizes, r, o, s, i, j, deltaSmall, deltaLarge);
  }

  method RotateAllRight(code: seq<Instr>, offsets: seq<int>, sizes: seq<int>, i: nat, j: nat)
    returns (r: seq<Instr>, o: seq<int>, s: seq<int>)
    requires Tables(code, offsets, sizes) && i < j < |code|
    ensures Tables(r, o, s) && Relocated(code, r, RotatedRight(|code|, i, j))
  {
    var span := offsets[j] - offsets[i + 1];
    var deltaSmall := sizes[j];
    var deltaLarge := 0 - span - sizes[i];
    hide RightCodeAt, RightTablesAt, RotatedRight, Relocated;
    o, s := RotateTablesRight(offsets, sizes, i, j, deltaSmall, deltaLarge);
    r := RotateCodeRight(code, i, j, deltaSmall, deltaLarge);
    assert |r| == |o| == |s| == |code|;
    hide Tables;
    RotateRightDone(code, offsets, sizes, r, o, s, i, j, deltaSmall, deltaLarge);
  }

  method SwapAll(code: seq<Instr>, offsets: seq<int>, sizes: seq<int>, i: nat, j: nat)
    returns (r: seq<Instr>, o: seq<int>, s: seq<int>)
    requires Tables(code, offsets, sizes) && i < j < |code|
    ensures Tables(r, o, s) && Relocated(code, r, Swapped(|code|, i, j))
  {
    var span := offsets[j] - offsets[i + 1];
    var deltaI := span + sizes[j];
    var deltaJ := 0 - span - sizes[i];
    var deltaInner := sizes[j] - sizes[i];
    OffsetNext(code, i);
    hide Offset, Patch, Swapped, Relocated;
    o, s := SwapTables(offsets, sizes, i, j, deltaI, deltaJ, deltaInner);
    r := SwapCode(code, i, j, deltaI, deltaJ, deltaInner);
    hide SwappedAt, Tables;
    forall k: nat | k < |code|
      ensures SwappedAt(code, r, i, j, o, s, k)
    {
      SwapAt(code, offsets, sizes, r, o, s, i, j, k);
    }
    SwapCorrect(code, r, i, j, o, s);
  }

  // ----- The editor -----

  class TUnit {
    var code: seq<Instr>
    var offsets: seq<int>
    var sizes: seq<int>
    var ripTargets: set<int>
    const ripOffset: int

    /** The tables are those recompute would build. */
    ghost predicate Valid()
      reads this
    {
      Tables(code, offsets, sizes)
    }

    constructor (code: seq<Instr>, ripOffset: int)
      ensures this.code == code && this.ripOffset == ripOffset && (code != [] ==> Valid())
    {
      this.code, offsets, sizes, ripTargets, this.ripOffset := code, [], [], {}, ripOffset;
      new;
      Recompute();
    }

    /** Rebuild the tables and the set of RIP targets; empty code gets one offset too many. */
    method Recompute()
      modifies this`offsets, this`sizes, this`ripTargets
      ensures code != [] ==> Valid()
      ensures code == [] ==> offsets == [0] && sizes == []
      ensures ripTargets == TargetsOf(ripOffset, code)
      ensures forall a: int :: a in ripTargets <==>
                exists k: nat :: k < |code| && code[k].deref && code[k].rip &&
                                 a == ripOffset + Offset(code, k) + code[k].size + code[k].disp
    {
      sizes := ComputeSizes(code);
      offsets := ComputeOffsets(code, sizes);
      if code == [] {
        ripTargets := {};
      } else {
        ripTargets := ComputeTargets(ripOffset, code, offsets, sizes);
      }
    }

    /** Delete an instruction. */
    method Remove(index: nat)
      requires Valid() && index < |code|
      modifies this
      ensures Valid() && Relocated(old(code), code, Without(old(|code|), index))
      ensures var c := old(Bare(code)); Bare(code) == c[..index] + c[index + 1..]
    {
      ghost var a := code;
      var offsetDelta := 0 - sizes[index];
      hide Offset, Patch;
      offsets, sizes := ShrinkTables(offsets, sizes, index, offsetDelta);
      code := RemoveCode(code, index, -offsetDelta);
      RemoveCorrect(a, code, index, offsets, sizes);
      WithoutBare(a, code, index);
    }

    /** Insert an instruction, as given or with an absolute address to be made relative. */
    method Insert(index: nat, instr: Instr, rescaleRip: bool)
      requires Valid() && index <= |code|
      modifies this
      ensures Valid() && Relocated(old(code), code, With(old(|code|), index))
      ensures var c := old(Bare(code)); Bare(code) == c[..index] + [instr.(disp := 0)] + c[index..]
      ensures code[index] == instr.(disp := code[index].disp)
      ensures if rescaleRip && instr.rip then Target(ripOffset, code, index) == instr.disp
              else code[index].disp == instr.disp
    {
      ghost var a := code;
      assert index > 0 ==> Offset(a, index) == Offset(a, index - 1) + a[index - 1].size;
      var offsetDelta: int := instr.size;
      offsets, sizes := GrowTables(offsets, sizes, index, offsetDelta);
      assert offsets[index] == Offset(a, index);
      hide Offset;
      var first := instr;
      if rescaleRip && instr.rip {
        first := Patch(instr, 0 - ripOffset - offsets[index] - sizes[index]);
      }
      code := InsertCode(code, index, first, offsetDelta);
      InsertCorrect(a, code, index, offsets, sizes);
      WithBare(a, code, index);
    }

    /** Replace an instruction.  Unless told to skip or rescale it, the new instruction keeps the
        address its displacement named at the old size. */
    method Replace(index: nat, instr: Instr, skipFirst: bool, rescaleRip: bool)
      requires Valid() && index < |code| && !(skipFirst && rescaleRip)
      modifies this
      ensures ripTargets == TargetsOf(ripOffset, code)
      ensures Valid() && Relocated(old(code), code, Except(old(|code|), index))
      ensures Bare(code) == old(Bare(code))[index := instr.(disp := 0)]
      ensures code[index] == instr.(disp := code[index].disp)
      ensures if rescaleRip && instr.rip then Target(ripOffset, code, index) == instr.disp
              else if skipFirst || !instr.rip then code[index].disp == instr.disp
              else Target(ripOffset, code, index) ==
                   ripOffset + Offset(old(code), index) + old(code)[index].size + instr.disp
    {
      ghost var a := code;
      var offsetDelta := instr.size - sizes[index];
      if offsetDelta != 0 {
        offsets := AddTo(offsets, index + 1, |offsets|, offsetDelta);
        sizes := sizes[index := instr.size];
      }
      var first := if !skipFirst && instr.rip &&
        rescaleRip then Patch(instr, 0 - ripOffset - offsets[index] - sizes[index]) else instr;
      hide Offset, Target, TargetsOf;
      code := ReplaceCode(code, index, first, skipFirst || rescaleRip, offsetDelta);
      ReplaceSame(a, code, index);
      ReplaceCorrect(a, code, index);
      ExceptBare(a, code, index);
      Recompute();
    }

    /** Exchange two instructions. */
    method Swap(x: nat, y: nat)
      requires Valid() && x < |code| && y < |code|
      modifies this
      ensures Valid() && Relocated(old(code), code, Swapped(old(|code|), x, y))
      ensures var c := old(Bare(code)); Bare(code) == c[x := c[y]][y := c[x]]
    {
      ghost var a := code;
      if x == y {
        NothingMoved(code, x);
        SwappedBare(a, code, x, y);
        return;
      }
      SwappedEither(|code|, x, y);
      var i, j := Min(x, y), Max(x, y);
      code, offsets, sizes := SwapAll(code, offsets, sizes, i, j);
      SwappedBare(a, code, x, y);
    }

    /** Move the first of two instructions behind the second. */
    method RotateLeft(x: nat, y: nat)
      requires Valid() && x < |code| && y < |code|
      modifies this
      ensures Valid() && Relocated(old(code), code, RotatedLeft(old(|code|), Min(x, y), Max(x, y)))
      ensures var c := old(Bare(code));
              && (x <= y ==> Bare(code) == c[..x] + c[x + 1..y + 1] + [c[x]] + c[y + 1..])
              && (y <= x ==> Bare(code) == c[..y] + c[y + 1..x + 1] + [c[y]] + c[x + 1..])
    {
      ghost var a := code;
      if x == y {
        NothingMoved(code, x);
        RotatedLeftBare(a, code, Min(x, y), Max(x, y));
        return;
      }
      var i, j := Min(x, y), Max(x, y);
      code, offsets, sizes := RotateAllLeft(code, offsets, sizes, i, j);
      RotatedLeftBare(a, code, Min(x, y), Max(x, y));
    }

    /** Move the second of two instructions in front of the first. */
    method RotateRight(x: nat, y: nat)
      requires Valid() && x < |code| && y < |code|
      modifies this
      ensures Valid() && Relocated(old(code), code, RotatedRight(old(|code|), Min(x, y), Max(x, y)))
      ensures var c := old(Bare(code));
              && (x <= y ==> Bare(code) == c[..x] + [c[y]] + c[x..y] + c[y + 1..])
              && (y <= x ==> Bare(code) == c[..y] + [c[x]] + c[y..x] + c[x + 1..])
    {
      ghost var a := code;
      if x == y {
        NothingMoved(code, x);
        RotatedRightBare(a, code, Min(x, y), Max(x, y));
        return;
      }
      var i, j := Min(x, y), Max(x, y);
      code, offsets, sizes := RotateAllRight(code, offsets, sizes, i, j);
      RotatedRightBare(a, code, Min(x, y), Max(x, y));
    }
  }

  function Min(x: nat, y: nat): nat { if x < y then x else y }
  function Max(x: nat, y: nat): nat { if x < y then y else x }

  lemma NothingMoved(a: seq<Instr>, x: nat)
    ensures Relocated(a, a, Swapped(|a|, x, x))
    ensures Relocated(a, a, RotatedLeft(|a|, x, x)) && Relocated(a, a, RotatedRight(|a|, x, x))
  {
  }

  lemma SwappedEither(n: nat, x: nat, y: nat)
    ensures Swapped(n, x, y) == Swapped(n, y, x)
  {
  }

  method SwapTables(offsets: seq<int>, sizes: seq<int>, i: nat, j: nat, deltaI: int, deltaJ: int, deltaInner: int)
    returns (o: seq<int>, s: seq<int>)
    requires |offsets| == |sizes| && i < j < |offsets| && deltaInner == sizes[j] - sizes[i]
    requires offsets[j] + deltaJ == offsets[i] && offsets[i] + deltaI == offsets[j] + deltaInner
    ensures |o| == |s| == |offsets|
    ensures forall k {:trigger o[k]} :: 0 <= k < |o| ==>
            o[k] == if i < k <= j then offsets[k] + deltaInner else offsets[k]
    ensures forall k {:trigger s[k]} :: 0 <= k < |o| ==> s[k] == sizes[if k == i then j else if k == j then i else k]
  {
    o, s := offsets, sizes;
    if deltaInner != 0 {
      s := s[i := sizes[j]][j := sizes[i]];
      o := o[i := offsets[j]][j := offsets[i]];
      o := o[i := o[i] + deltaJ];
      o := AddTo(o, i + 1, j, deltaInner);
      o := o[j := o[j] + deltaI];
    }
  }
}
