/** Bit-vectors as sequences of bits, least significant first, in the sense of the SMT-LIB theory
    FixedSizeBitVectors, and the 64-bit machine words constants are computed in. */
module Bits {

  function Pow2(n: nat): (r: nat)
    ensures r > n
  {
    if n == 0 then 1 else 2 * Pow2(n - 1)
  }

  lemma MulTwo(a: int, b: int, c: int)
    requires c == 2 * a
    ensures c * b == 2 * (a * b)
  {
  }

  lemma {:induction false} Pow2Add(m: nat, n: nat)
    ensures Pow2(m + n) == Pow2(m) * Pow2(n)
  {
    if m > 0 {
      Pow2Add(m - 1, n);
      MulTwo(Pow2(m - 1), Pow2(n), Pow2(m));
    }
  }

  lemma {:induction false} Pow2Mono(m: nat, n: nat)
    requires m <= n
    ensures Pow2(m) <= Pow2(n)
  {
    if m < n {
      Pow2Mono(m, n - 1);
    }
  }

  // ----- Bits and numbers -----

  /** The w low bits of x in two's complement. */
  function ToBits(x: int, w: nat): (r: seq<bool>)
    ensures |r| == w
    decreases w
  {
    if w == 0 then [] else [x % 2 == 1] + ToBits(x / 2, w - 1)
  }

  /** The unsigned value. */
  function FromBits(b: seq<bool>): nat {
    if b == [] then 0 else (if b[0] then 1 else 0) + 2 * FromBits(b[1..])
  }

  /** The two's complement value. */
  function SignedOf(b: seq<bool>): int {
    if b == [] then 0
    else if |b| == 1 then (if b[0] then -1 else 0)
    else (if b[0] then 1 else 0) + 2 * SignedOf(b[1..])
  }

  lemma {:induction false} FromToBits(x: int, w: nat)
    ensures FromBits(ToBits(x, w)) == x % Pow2(w)
    decreases w
  {
    if w > 0 {
      FromToBits(x / 2, w - 1);
      assert ToBits(x, w)[1..] == ToBits(x / 2, w - 1);
      ModTwice(x, Pow2(w - 1));
    }
  }

  lemma ModTwice(x: int, p: nat)
    requires p > 0
    ensures x % (2 * p) == x % 2 + 2 * ((x / 2) % p)
  {
    var q := x / 2 / p;
    assert x / 2 == q * p + (x / 2) % p;
    var r := x % 2 + 2 * ((x / 2) % p);
    assert x == q * (2 * p) + r;
    ModUnique(x, 2 * p, q, r);
  }

  lemma MulLe(a: int, b: int, d: nat)
    requires a <= b
    ensures a * d <= b * d
  {
  }

  lemma ModUnique(x: int, d: nat, q: int, r: nat)
    requires x == q * d + r && r < d
    ensures x % d == r && x / d == q
  {
    var q' := x / d;
    assert x == q' * d + x % d;
    assert (q + 1) * d == q * d + d && (q' + 1) * d == q' * d + d;
    if q < q' {
      MulLe(q + 1, q', d);
    } else if q' < q {
      MulLe(q' + 1, q, d);
    }
  }

  lemma {:induction false} ToFromBits(b: seq<bool>)
    ensures ToBits(FromBits(b), |b|) == b && FromBits(b) < Pow2(|b|)
  {
    if b != [] {
      ToFromBits(b[1..]);
      assert FromBits(b) / 2 == FromBits(b[1..]) && (FromBits(b) % 2 == 1) == b[0];
      assert b == [b[0]] + b[1..];
    }
  }

  /** Only the value modulo 2^w matters. */
  lemma {:induction false} ToBitsShift(x: int, k: int, w: nat)
    ensures ToBits(x + k * Pow2(w), w) == ToBits(x, w)
    decreases w
  {
    if w > 0 {
      ToBitsShift(x / 2, k, w - 1);
      TwiceTimes(k, Pow2(w - 1));
      Halved(x, k * Pow2(w - 1));
    }
  }

  lemma TwiceTimes(k: int, p: int)
    ensures k * (2 * p) == 2 * (k * p)
  {
  }

  lemma Halved(x: int, y: int)
    ensures (x + 2 * y) / 2 == x / 2 + y && (x + 2 * y) % 2 == x % 2
  {
  }

  lemma ModSplit(x: int, p: nat, r: nat, d: nat)
    requires d == p * r && d > 0
    ensures x == x % d + ((x / d) * p) * r
  {
    assert x == x % d + d * (x / d);
    MulAssoc(p, r, x / d);
  }

  lemma ToBitsMod(x: int, w: nat, m: nat)
    requires w <= m
    ensures ToBits(x % Pow2(m), w) == ToBits(x, w)
  {
    hide Pow2, ToBits;
    Pow2Add(m - w, w);
    ModSplit(x, Pow2(m - w), Pow2(w), Pow2(m));
    ToBitsShift(x % Pow2(m), (x / Pow2(m)) * Pow2(m - w), w);
  }

  lemma MulAssoc(a: int, b: int, c: int)
    ensures a * b * c == (a * c) * b
  {
  }

  /** Congruent numbers have the same bits. */
  lemma ToBitsCongruent(x: int, y: int, k: int, w: nat)
    requires x == y + k * Pow2(w)
    ensures ToBits(x, w) == ToBits(y, w)
  {
    ToBitsShift(y, k, w);
  }

  lemma {:induction false} ToBitsSlice(x: int, w: nat, l: nat, n: nat)
    requires l + n <= w
    ensures ToBits(x, w)[l..l + n] == ToBits(x / Pow2(l), n)
    decreases w
  {
    if l > 0 {
      ToBitsSlice(x / 2, w - 1, l - 1, n);
      DivDiv(x, 2, Pow2(l - 1));
      assert ToBits(x, w)[l..l + n] == ToBits(x / 2, w - 1)[l - 1..l - 1 + n];
    } else if n > 0 {
      ToBitsSlice(x / 2, w - 1, 0, n - 1);
      assert ToBits(x, w)[..n] == [x % 2 == 1] + ToBits(x / 2, w - 1)[..n - 1];
      assert x / 1 == x && x / 2 / 1 == x / 2;
    }
  }

  lemma Nested(x: int, c: nat, d: nat, y: int, s: int, q: int, z: int)
    requires x == c * y + s && 0 <= s < c && y == q * d + z && 0 <= z < d
    ensures x == q * (c * d) + (s + c * z) && 0 <= s + c * z < c * d
  {
    assert c * (q * d + z) == q * (c * d) + c * z;
    MulLe(z, d - 1, c);
    MulLe(0, z, c);
    assert (d - 1) * c == c * d - c;
  }

  lemma DivDiv(x: int, c: nat, d: nat)
    requires c > 0 && d > 0
    ensures c * d > 0 && x / c / d == x / (c * d)
  {
    var y := x / c;
    var s, q, z := x % c, y / d, y % d;
    assert x == c * y + s && y == d * q + z;
    Nested(x, c, d, y, s, q, z);
    ModUnique(x, c * d, q, s + c * z);
  }

  // ----- Signed values -----

  lemma {:induction false} SignedValue(b: seq<bool>)
    requires b != []
    ensures SignedOf(b) == FromBits(b) - (if b[|b| - 1] then Pow2(|b|) else 0)
    ensures b[|b| - 1] <==> FromBits(b) >= Pow2(|b| - 1)
  {
    if |b| > 1 {
      SignedValue(b[1..]);
    } else {
      assert b[1..] == [];
    }
  }

  lemma {:induction false} ToBitsConstant(s: bool, n: nat)
    ensures ToBits(if s then -1 else 0, n) == seq(n, i => s)
  {
    if n > 0 {
      ToBitsConstant(s, n - 1);
      assert [s] + seq(n - 1, i => s) == seq(n, i => s);
    }
  }

  function SignExt(b: seq<bool>, n: nat): (r: seq<bool>)
    ensures |r| == n
  {
    seq(n, i => if 0 <= i < |b| then b[i] else b != [] && b[|b| - 1])
  }

  /** Sign extension keeps the signed value. */
  lemma {:induction false} ToBitsSigned(b: seq<bool>, n: nat)
    requires 0 < |b| <= n
    ensures ToBits(SignedOf(b), n) == SignExt(b, n)
  {
    if |b| == 1 {
      ToBitsConstant(b[0], n);
      assert SignExt(b, n) == seq(n, i => b[0]);
    } else {
      ToBitsSigned(b[1..], n - 1);
      assert SignedOf(b) / 2 == SignedOf(b[1..]) && (SignedOf(b) % 2 == 1) == b[0];
      assert SignExt(b, n) == [b[0]] + SignExt(b[1..], n - 1);
    }
  }

  /** The signed value differs from the unsigned one by k * 2^n. */
  lemma SignedGap(b: seq<bool>) returns (k: int)
    requires b != []
    ensures SignedOf(b) == FromBits(b) + k * Pow2(|b|)
  {
    SignedValue(b);
    k := if b[|b| - 1] then -1 else 0;
  }

  lemma MulGap(x: int, y: int, j: int, k: int, p: int)
    ensures (x + j * p) * (y + k * p) == x * y + (x * k + j * y + j * k * p) * p
  {
    var u, v := j * p, k * p;
    assert (x + u) * (y + v) == x * y + x * v + u * y + u * v;
    assert x * v == x * k * p && u * y == j * y * p && u * v == j * k * p * p;
  }

  lemma SumGap(x: int, y: int, j: int, k: int, p: int)
    ensures (x + j * p) + (y + k * p) == (x + y) + (j + k) * p
    ensures (x + j * p) - (y + k * p) == (x - y) + (j - k) * p
  {
  }

  /** Arithmetic on signed values gives the same low bits as arithmetic on unsigned ones. */
  lemma SignedArithmetic(a: seq<bool>, b: seq<bool>)
    requires |a| == |b| > 0
    ensures ToBits(SignedOf(a) + SignedOf(b), |a|) == ToBits(FromBits(a) + FromBits(b), |a|)
    ensures ToBits(SignedOf(a) - SignedOf(b), |a|) == ToBits(FromBits(a) - FromBits(b), |a|)
    ensures ToBits(SignedOf(a) * SignedOf(b), |a|) == ToBits(FromBits(a) * FromBits(b), |a|)
  {
    hide ToBits, FromBits, SignedOf, Pow2;
    var j := SignedGap(a);
    var k := SignedGap(b);
    var x: int, y: int, p := FromBits(a), FromBits(b), Pow2(|a|);
    SumGap(x, y, j, k, p);
    ToBitsCongruent(SignedOf(a) + SignedOf(b), x + y, j + k, |a|);
    ToBitsCongruent(SignedOf(a) - SignedOf(b), x - y, j - k, |a|);
    SignedProduct(a, b, j, k);
  }

  lemma SignedProduct(a: seq<bool>, b: seq<bool>, j: int, k: int)
    requires SignedOf(a) == FromBits(a) + j * Pow2(|a|) && SignedOf(b) == FromBits(b) + k * Pow2(|a|)
    ensures ToBits(SignedOf(a) * SignedOf(b), |a|) == ToBits(FromBits(a) * FromBits(b), |a|)
  {
    hide ToBits, FromBits, SignedOf, Pow2;
    var x: int, y: int, p := FromBits(a), FromBits(b), Pow2(|a|);
    MulGap(x, y, j, k, p);
    var m := x * k + j * y + j * k * p;
    ToBitsCongruent(SignedOf(a) * SignedOf(b), x * y, m, |a|);
  }

  lemma SignedNegation(a: seq<bool>)
    requires |a| > 0
    ensures ToBits(0 - SignedOf(a), |a|) == ToBits(0 - FromBits(a), |a|)
  {
    hide ToBits, FromBits, SignedOf, Pow2;
    var j := SignedGap(a);
    SumGap(0, FromBits(a), 0, j, Pow2(|a|));
    ToBitsCongruent(0 - SignedOf(a), 0 - FromBits(a), 0 - j, |a|);
  }

  // ----- Bitwise operators -----

  predicate Bit(b: seq<bool>, i: int) { 0 <= i < |b| && b[i] }

  function Fit(b: seq<bool>, n: nat): (r: seq<bool>)
    ensures |r| == n
  {
    seq(n, i => Bit(b, i))
  }

  function AndBits(a: seq<bool>, b: seq<bool>): (r: seq<bool>)
    ensures |r| == |a|
  {
    seq(|a|, i => Bit(a, i) && Bit(b, i))
  }

  function OrBits(a: seq<bool>, b: seq<bool>): (r: seq<bool>)
    ensures |r| == |a|
  {
    seq(|a|, i => Bit(a, i) || Bit(b, i))
  }

  function XorBits(a: seq<bool>, b: seq<bool>): (r: seq<bool>)
    ensures |r| == |a|
  {
    seq(|a|, i => Bit(a, i) != Bit(b, i))
  }

  function NotBits(a: seq<bool>): (r: seq<bool>)
    ensures |r| == |a|
  {
    seq(|a|, i => !Bit(a, i))
  }

  /** Bits high down to low. */
  function Slice(b: seq<bool>, high: nat, low: nat): (r: seq<bool>)
    ensures |r| == if low <= high then high + 1 - low else 0
    ensures forall i :: 0 <= i < |r| ==> (r[i] <==> Bit(b, low + i))
  {
    seq(if low <= high then high + 1 - low else 0, i => Bit(b, low + i))
  }

  lemma SliceJoin(b: seq<bool>, high: nat, mid: nat, low: nat)
    requires low <= mid < high
    ensures Slice(b, mid, low) + Slice(b, high, mid + 1) == Slice(b, high, low)
  {
  }

  /** Slices of y + x, the concatenation with x on top. */
  lemma SliceConcat(x: seq<bool>, y: seq<bool>, high: nat, low: nat)
    requires low <= high < |x| + |y|
    ensures low >= |y| ==> Slice(y + x, high, low) == Slice(x, high - |y|, low - |y|)
    ensures high < |y| ==> Slice(y + x, high, low) == Slice(y, high, low)
    ensures low < |y| <= high ==> Slice(y + x, high, low) == Slice(y, |y| - 1, low) + Slice(x, high - |y|, 0)
  {
    var r := Slice(y + x, high, low);
    forall i | 0 <= i < |r|
      ensures r[i] == if low + i < |y| then y[low + i] else x[low + i - |y|]
    {
      assert Bit(y + x, low + i) == (y + x)[low + i];
    }
    if low >= |y| {
      assert forall i :: 0 <= i < |r| ==> r[i] == Slice(x, high - |y|, low - |y|)[i];
    } else if high < |y| {
      assert forall i :: 0 <= i < |r| ==> r[i] == Slice(y, high, low)[i];
    } else {
      var u, v := Slice(y, |y| - 1, low), Slice(x, high - |y|, 0);
      forall i | 0 <= i < |r|
        ensures r[i] == (u + v)[i]
      {
        if low + i >= |y| {
          assert v[i - |u|] == x[low + i - |y|];
        }
      }
    }
  }

  lemma SliceBitwise(a: seq<bool>, b: seq<bool>, high: nat, low: nat)
    requires low <= high < |a| == |b|
    ensures Slice(AndBits(a, b), high, low) == AndBits(Slice(a, high, low), Slice(b, high, low))
    ensures Slice(OrBits(a, b), high, low) == OrBits(Slice(a, high, low), Slice(b, high, low))
    ensures Slice(XorBits(a, b), high, low) == XorBits(Slice(a, high, low), Slice(b, high, low))
    ensures Slice(NotBits(a), high, low) == NotBits(Slice(a, high, low))
  {
    forall i | 0 <= i <= high - low
      ensures Slice(AndBits(a, b), high, low)[i] == AndBits(Slice(a, high, low), Slice(b, high, low))[i]
      ensures Slice(OrBits(a, b), high, low)[i] == OrBits(Slice(a, high, low), Slice(b, high, low))[i]
      ensures Slice(XorBits(a, b), high, low)[i] == XorBits(Slice(a, high, low), Slice(b, high, low))[i]
      ensures Slice(NotBits(a), high, low)[i] == NotBits(Slice(a, high, low))[i]
    {
      assert Slice(a, high, low)[i] == a[low + i] && Slice(b, high, low)[i] == b[low + i];
    }
  }

  lemma SliceSlice(b: seq<bool>, h: nat, l: nat, high: nat, low: nat)
    requires low <= high && high <= h - l
    ensures Slice(Slice(b, h, l), high, low) == Slice(b, high + l, low + l)
  {
  }

  lemma SliceAll(b: seq<bool>, high: nat, low: nat)
    requires low <= high < |b| && high + 1 - low == |b|
    ensures Slice(b, high, low) == b
  {
    assert low == 0;
    assert Slice(b, high, 0) == b;
  }

  // ----- Machine words -----

  /** The operators & | ^ and ~ on words of m bits. */
  function AndWord(x: int, y: int, m: nat): nat { FromBits(AndBits(ToBits(x, m), ToBits(y, m))) }
  function OrWord(x: int, y: int, m: nat): nat { FromBits(OrBits(ToBits(x, m), ToBits(y, m))) }
  function XorWord(x: int, y: int, m: nat): nat { FromBits(XorBits(ToBits(x, m), ToBits(y, m))) }
  function NotWord(x: int, m: nat): nat { FromBits(NotBits(ToBits(x, m))) }

  lemma Prefix(x: int, w: nat, m: nat)
    requires w <= m
    ensures ToBits(x, m)[..w] == ToBits(x, w)
  {
    ToBitsSlice(x, m, 0, w);
    assert x / 1 == x;
  }

  lemma BitwiseWords(x: int, y: int, w: nat, m: nat)
    requires w <= m
    ensures ToBits(AndWord(x, y, m), w) == AndBits(ToBits(x, w), ToBits(y, w))
    ensures ToBits(OrWord(x, y, m), w) == OrBits(ToBits(x, w), ToBits(y, w))
    ensures ToBits(XorWord(x, y, m), w) == XorBits(ToBits(x, w), ToBits(y, w))
    ensures ToBits(NotWord(x, m), w) == NotBits(ToBits(x, w))
  {
    hide ToBits, FromBits;
    var a, b := ToBits(x, m), ToBits(y, m);
    Prefix(x, w, m);
    Prefix(y, w, m);
    WordPrefix(AndBits(a, b), w);
    WordPrefix(OrBits(a, b), w);
    WordPrefix(XorBits(a, b), w);
    WordPrefix(NotBits(a), w);
    assert AndBits(a, b)[..w] == AndBits(a[..w], b[..w]);
    assert OrBits(a, b)[..w] == OrBits(a[..w], b[..w]);
    assert XorBits(a, b)[..w] == XorBits(a[..w], b[..w]);
    assert NotBits(a)[..w] == NotBits(a[..w]);
  }

  lemma WordPrefix(b: seq<bool>, w: nat)
    requires w <= |b|
    ensures ToBits(FromBits(b), w) == b[..w]
  {
    ToFromBits(b);
    Prefix(FromBits(b), w, |b|);
  }

  /** A word of m bits read as a signed integer. */
  function SignedWord(x: int, m: nat): int
    requires m > 0
  {
    var u := x % Pow2(m);
    if u >= Pow2(m - 1) then u - Pow2(m) else u
  }

  lemma ShiftArith(x: nat, p: nat, h: nat, y: nat, half: nat)
    requires p > 0 && x < 2 * h && half == h * p && y == x * p
    ensures y < 2 * half
    ensures x >= h <==> y >= half
    ensures (y - 2 * half) / p == x - 2 * h && y / p == x
  {
    MulLe(x + 1, 2 * h, p);
    assert (x + 1) * p == y + p && 2 * h * p == 2 * half;
    if x >= h {
      MulLe(h, x, p);
    } else {
      MulLe(x + 1, h, p);
    }
    assert (x - 2 * h) * p == y - 2 * half;
    ModUnique(y - 2 * half, p, x - 2 * h, 0);
    ModUnique(y, p, x, 0);
  }

  lemma SmallMod(y: nat, d: nat)
    requires y < d
    ensures y % d == y
  {
    ModUnique(y, d, 0, y);
  }

  /** Shifting up by m - w and back down with the sign gives the signed value of w bits. */
  lemma ShiftPair(x: nat, w: nat, m: nat)
    requires 0 < w <= m && x < Pow2(w)
    ensures SignedWord(x * Pow2(m - w), m) / Pow2(m - w) == SignedOf(ToBits(x, w))
  {
    FromToBits(x, w);
    SignedValue(ToBits(x, w));
    SmallMod(x, Pow2(w));
    Pow2Add(w - 1, m - w);
    var y := x * Pow2(m - w);
    MulLe(0, x, Pow2(m - w));
    ShiftArith(x, Pow2(m - w), Pow2(w - 1), y, Pow2(m - 1));
    SmallMod(y, Pow2(m));
    hide ToBits, FromBits, SignedOf, Pow2;
  }

  // ----- Concatenation of constants -----

  lemma {:induction false} ToBitsScaled(x: int, k: nat, n: nat)
    ensures ToBits(x * Pow2(k), k + n) == seq(k, i => false) + ToBits(x, n)
  {
    if k > 0 {
      ToBitsScaled(x, k - 1, n);
      MulTwo(Pow2(k - 1), x, Pow2(k));
      ScaledStep(x * Pow2(k - 1), x * Pow2(k), k, ToBits(x, n), n);
    } else {
      assert seq(0, i => false) + ToBits(x, n) == ToBits(x, n);
    }
  }

  lemma ScaledStep(y: int, z: int, k: nat, b: seq<bool>, n: nat)
    requires k > 0 && z == 2 * y && ToBits(y, k - 1 + n) == seq(k - 1, i => false) + b
    ensures ToBits(z, k + n) == seq(k, i => false) + b
  {
    ToBitsEven(y, k - 1 + n);
    hide ToBits;
    var zeros := seq(k - 1, i => false);
    assert seq(k, i => false) == [false] + zeros;
    assert [false] + (zeros + b) == ([false] + zeros) + b;
  }

  lemma ToBitsEven(y: int, n: nat)
    ensures ToBits(2 * y, n + 1) == [false] + ToBits(y, n)
  {
  }

  lemma {:induction false} ToBitsSmall(x: nat, k: nat, n: nat)
    requires x < Pow2(k)
    ensures ToBits(x, k + n) == ToBits(x, k) + seq(n, i => false)
    decreases k
  {
    if k > 0 {
      ToBitsSmall(x / 2, k - 1, n);
      assert ToBits(x, k) + seq(n, i => false) == [x % 2 == 1] + (ToBits(x / 2, k - 1) + seq(n, i => false));
    } else {
      ToBitsConstant(false, n);
      assert ToBits(x, 0) + seq(n, i => false) == seq(n, i => false);
    }
  }

  lemma OrDisjoint(low: seq<bool>, high: seq<bool>)
    ensures OrBits(seq(|low|, i => false) + high, low + seq(|high|, i => false)) == low + high
  {
  }

  /** The word (l << k) | r holds the bits of r below those of l. */
  lemma ConcatWords(l: nat, r: nat, n: nat, k: nat, m: nat)
    requires n + k <= m && r < Pow2(k)
    ensures ToBits(OrWord((l * Pow2(k)) % Pow2(m), r, m), n + k) == ToBits(r, k) + ToBits(l, n)
  {
    BitwiseWords((l * Pow2(k)) % Pow2(m), r, n + k, m);
    ToBitsMod(l * Pow2(k), n + k, m);
    ToBitsScaled(l, k, n);
    ToBitsSmall(r, k, n);
    OrDisjoint(ToBits(r, k), ToBits(l, n));
    hide ToBits, Pow2, OrBits;
  }

  // ----- Remainders -----

  /** Remainder with the sign of the dividend, as C++ computes it; b is not zero. */
  function SignedRem(a: int, b: int): int {
    if b == 0 then 0
    else
      var m := (if a < 0 then -a else a) % (if b < 0 then -b else b);
      if a < 0 then -m else m
  }

  /** When the signed remainder of two words below p = 2h has the bits of the unsigned one. */
  predicate RemAgrees(l: nat, r: nat, h: nat)
    requires r > 0
  {
    if l < h && r < h then true
    else if l < h then l < 2 * h - r
    else if r < h then l % r == 0 && 2 * h % r == 0
    else l == r
  }

  lemma ModBounds(x: nat, d: nat)
    requires d > 0
    ensures 0 <= x % d < d && (x < d ==> x % d == x) && (d <= x < 2 * d ==> x % d == x - d)
  {
    if x < d {
      SmallMod(x, d);
    } else if x < 2 * d {
      ModUnique(x, d, 1, x - d);
    }
  }

  lemma Divides(x: nat, y: nat, d: nat)
    requires d > 0 && x <= y && x % d == 0
    ensures (y - x) % d == 0 <==> y % d == 0
  {
    var q := x / d;
    assert x == q * d;
    var z := y - x;
    assert y == (q + z / d) * d + z % d by {
      assert z == (z / d) * d + z % d;
    }
    ModUnique(y, d, q + z / d, z % d);
  }

  lemma RemCases(l: nat, r: nat, h: nat, p: nat)
    requires 0 < r < p && l < p == 2 * h
    ensures var ls, rs := (if l >= h then l - p else l), (if r >= h then r - p else r);
            SignedRem(ls, rs) % p == l % r <==> RemAgrees(l, r, h)
  {
    ModBounds(l, r);
    if l < h && r < h {
      SmallMod(l % r, p);
    } else if l < h {
      ModBounds(l, p - r);
      SmallMod(l % (p - r), p);
    } else if r < h {
      NegativeOverPositive(l, r, h, p);
    } else {
      NegativeOverNegative(l, r, h, p);
    }
  }

  lemma NegateMod(m: nat, p: nat)
    requires m < p
    ensures (0 - m) % p == if m == 0 then 0 else p - m
  {
    if m > 0 {
      ModUnique(0 - m, p, -1, p - m);
    }
  }

  lemma NegativeOverPositive(l: nat, r: nat, h: nat, p: nat)
    requires 0 < r < h <= l < p == 2 * h
    ensures SignedRem(l - p, r) % p == l % r <==> l % r == 0 && p % r == 0
  {
    var m := (p - l) % r;
    NegateMod(m, p);
    if l % r == 0 {
      Divides(l, p, r);
    }
  }

  lemma NegativeOverNegative(l: nat, r: nat, h: nat, p: nat)
    requires h <= l < p == 2 * h && h <= r < p
    ensures SignedRem(l - p, r - p) % p == l % r <==> l == r
  {
    var m := (p - l) % (p - r);
    NegateMod(m, p);
    ModBounds(l, r);
    ModBounds(p - l, p - r);
  }
}
