/** The multiply-accumulate step of Montgomery multiplication in 32-bit halves
    (examples/montmul/mont_mul.cc). */
module MontMuls {
  import Bits

  /** 2^32 and 2^64. */
  const HALF: nat := 0x1_0000_0000
  const WORD: nat := 0x1_0000_0000_0000_0000

  lemma MulMono(a: nat, b: nat, c: nat, d: nat)
    requires a <= c && b <= d
    ensures a * b <= c * d
  {
    Bits.MulLe(a, c, b);
    Bits.MulLe(b, d, c);
  }

  lemma Distribute(a: int, b: int, c: int, d: int)
    ensures (a + b) * (c + d) == a * c + a * d + b * c + b * d
  {
  }

  /** The schoolbook product of two numbers in 32-bit halves. */
  lemma Expand(mh: nat, ml: nat, nh: nat, nl: nat)
    ensures (mh * HALF + ml) * (nh * HALF + nl) == mh * nh * WORD + (mh * nl + ml * nh) * HALF + ml * nl
  {
    Distribute(mh * HALF, ml, nh * HALF, nl);
    assert mh * HALF * (nh * HALF) == mh * nh * WORD;
    assert mh * HALF * nl == mh * nl * HALF && ml * (nh * HALF) == ml * nh * HALF;
  }

  /** Unsigned addition with its carry, detected by comparing the result with an operand. */
  lemma Carry(x: nat, y: nat)
    requires x < WORD && y < WORD
    ensures var r := (x + y) % WORD; x + y == r + (if r < y then WORD else 0)
  {
  }

  /** Where the carries of the middle products end up. */
  lemma Assemble(p11: nat, p10: nat, p01: nat, p00: nat, c: nat, m: nat, d: nat, l: nat)
    requires p10 + p01 == m + c * WORD && m < WORD && p00 + m * HALF % WORD == l + d * WORD && l < WORD
    ensures (p11 + c * HALF + m / HALF + d) * WORD + l == p11 * WORD + (p10 + p01) * HALF + p00
  {
    assert m * HALF == m / HALF * WORD + m % HALF * HALF;
    assert m * HALF % WORD == m % HALF * HALF;
  }

  /** The largest product of two halves, and of two words. */
  const HALF_MAX: nat := 0xfffffffe_00000001
  const WORD_MAX: nat := (WORD - 1) * (WORD - 1)

  lemma HighBound(h: nat, l: nat)
    requires h * WORD + l <= WORD_MAX
    ensures h <= WORD - 2
  {
  }

  /** Combine four partial products into two words; the sum of the parts fits. */
  method Combine(p11: nat, p10: nat, p01: nat, p00: nat) returns (h: nat, l: nat)
    requires p11 <= HALF_MAX && p10 <= HALF_MAX && p01 <= HALF_MAX && p00 <= HALF_MAX
    requires p11 * WORD + (p10 + p01) * HALF + p00 <= WORD_MAX
    ensures l < WORD && h * WORD + l == p11 * WORD + (p10 + p01) * HALF + p00 && h <= WORD - 2
  {
    Carry(p10, p01);
    var m := (p10 + p01) % WORD;
    ghost var c := if m < p01 then 1 else 0;
    var m1 := m * HALF % WORD;
    Carry(p00, m1);
    var lt := (p00 + m1) % WORD;
    ghost var d := if lt < m1 then 1 else 0;
    Assemble(p11, p10, p01, p00, c, m, d, lt);
    ghost var top := p11 + c * HALF + m / HALF + d;
    HighBound(top, lt);
    h := High(p11, m < p01, m / HALF % HALF, lt < m1);
    l := lt;
  }

  /** The high word with the two carries. */
  method High(p11: nat, first: bool, mid: nat, second: bool) returns (ht: nat)
    requires p11 + (if first then HALF else 0) + mid + (if second then 1 else 0) < WORD
    ensures ht == p11 + (if first then HALF else 0) + mid + (if second then 1 else 0)
  {
    ht := p11;
    if first {
      ht := (ht + HALF) % WORD;
    }
    ht := (ht + mid) % WORD;
    if second {
      ht := (ht + 1) % WORD;
    }
  }

  /** The full product: (h, l) is the 128-bit value (mh * 2^32 + ml) * np. */
  method Multiply(np: nat, ml: nat, mh: nat) returns (h: nat, l: nat)
    requires np < WORD && ml < HALF && mh < HALF
    ensures l < WORD && h * WORD + l == (mh * HALF + ml) * np && h <= WORD - 2
  {
    l, h := np % HALF, np / HALF % HALF;
    HalfProduct(mh, l);
    HalfProduct(ml, l);
    HalfProduct(ml, h);
    HalfProduct(mh, h);
    Parts(np, ml, mh, h, l);
    h, l := Combine(mh * h % WORD, mh * l % WORD, ml * h % WORD, ml * l % WORD);
  }

  /** A product of two halves fits in a word. */
  lemma HalfProduct(a: nat, b: nat)
    requires a < HALF && b < HALF
    ensures a * b <= HALF_MAX && a * b % WORD == a * b
  {
    MulMono(a, b, HALF - 1, HALF - 1);
    MulMono(0, 0, a, b);
    var p: nat := a * b;
    Bits.SmallMod(p, WORD);
  }

  lemma Parts(np: nat, ml: nat, mh: nat, h: nat, l: nat)
    requires np < WORD && ml < HALF && mh < HALF && l == np % HALF && h == np / HALF
    ensures (mh * HALF + ml) * np == mh * h * WORD + (mh * l + ml * h) * HALF + ml * l <= WORD_MAX
  {
    assert np == h * HALF + l;
    Expand(mh, ml, h, l);
    MulMono(mh * HALF + ml, np, WORD - 1, WORD - 1);
  }

  /** For all inputs, h * 2^64 + l is the product plus both addends, exactly: no carry is lost and h
      does not overflow.  The function returns h xor l. */
  method MontMul(c1: nat, np: nat, ml: nat, mh: nat, c0: nat) returns (h: nat, l: nat, result: nat)
    requires c1 < WORD && np < WORD && c0 < WORD && ml < HALF && mh < HALF
    ensures h < WORD && l < WORD && h * WORD + l == (mh * HALF + ml) * np + c0 + c1
    ensures result == Bits.XorWord(h, l, 64)
  {
    h, l := Multiply(np, ml, mh);
    MulMono(mh * HALF + ml, np, WORD - 1, WORD - 1);
    h, l := Accumulate(h, l, c0);
    h, l := Accumulate(h, l, c1);
    result := Bits.XorWord(h, l, 64);
  }

  /** Add a word to (h, l). */
  method Accumulate(h0: nat, l0: nat, c: nat) returns (h: nat, l: nat)
    requires h0 < WORD && l0 < WORD && c < WORD && h0 * WORD + l0 + c < WORD * WORD
    ensures h < WORD && l < WORD && h * WORD + l == h0 * WORD + l0 + c
  {
    Carry(l0, c);
    h, l := h0, (l0 + c) % WORD;
    if l < c {
      h := (h + 1) % WORD;
    }
  }
}
