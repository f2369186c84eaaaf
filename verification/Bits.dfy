/** Bits of natural numbers, as the shift and mask operators of the source see them. */
module Bits {
  import opened Arith

  /** (x >> k) & 1 */
  function Bit(x: nat, k: nat): nat {
    (x / Pow2(k)) % 2
  }

  /** The number of bits up to the most significant one. */
  function BitLen(x: nat): nat {
    if x == 0 then 0 else 1 + BitLen(x / 2)
  }

  lemma {:induction false} BitLenBounds(x: nat)
    ensures x < Pow2(BitLen(x))
    ensures x > 0 ==> BitLen(x) > 0 && Pow2(BitLen(x) - 1) <= x
  {
    if x > 0 { BitLenBounds(x / 2); }
  }

  /** The two bounds pin the length down. */
  lemma BitLenUnique(x: nat, r: nat)
    requires x < Pow2(r) && (r > 0 ==> Pow2(r - 1) <= x)
    ensures BitLen(x) == r
  {
    BitLenBounds(x);
    if BitLen(x) < r { Pow2Mono(BitLen(x), r - 1); }
    if r < BitLen(x) { Pow2Mono(r, BitLen(x) - 1); }
  }

  lemma BitLenShift(x: nat, k: nat)
    requires x > 0
    ensures BitLen(x * Pow2(k)) == BitLen(x) + k
  {
    var n := BitLen(x);
    BitLenBounds(x);
    MulLt(x, Pow2(n), Pow2(k));
    MulLe(Pow2(n - 1), x, Pow2(k));
    Pow2Split(n, k, n + k);
    Pow2Split(n - 1, k, n + k - 1);
    BitLenUnique(x * Pow2(k), n + k);
  }

  /** Testing bits downwards: a clear top bit lowers the bound. */
  lemma TopBit(x: nat, j: nat)
    requires j > 0 && x < Pow2(j)
    ensures Bit(x, j - 1) == 0 ==> x < Pow2(j - 1)
    ensures Bit(x, j - 1) != 0 ==> Pow2(j - 1) <= x
  {
    var p := Pow2(j - 1);
    if x < p {
      DivUnique(x, p, 0, x);
    } else {
      DivUnique(x, p, 1, x - p);
    }
  }

  /** Testing bits upwards: one more clear bit doubles the divisor. */
  lemma LowBit(x: nat, j: nat)
    requires x % Pow2(j) == 0 && Bit(x, j) == 0
    ensures x % Pow2(j + 1) == 0
  {
    var q := x / Pow2(j);
    DivMod(x, Pow2(j));
    MulAssoc(q / 2, 2, Pow2(j));
    MulMod(q / 2, Pow2(j + 1));
  }

  /** Shifting an n-bit x left by k: the top k bits leave, the low j = n - k bits move up. */
  lemma ShiftOut(x: nat, n: nat, k: nat, j: nat)
    requires n == j + k && x < Pow2(n)
    ensures 0 <= x / Pow2(j) < Pow2(k) <= Pow2(n)
    ensures x * Pow2(k) == (x / Pow2(j)) * Pow2(n) + (x * Pow2(k)) % Pow2(n)
    ensures (x * Pow2(k)) % Pow2(n) == (x % Pow2(j)) * Pow2(k)
    ensures 0 <= (x * Pow2(k)) % Pow2(n) < Pow2(n)
  {
    var low, high := Pow2(j), Pow2(k);
    Pow2Split(j, k, n);
    var q, r := x / low, x % low;
    DivMod(x, low);
    MulDist(q * low, r, high);
    MulAssoc(q, low, high);
    MulLt(r, low, high);
    MulNat(r, high);
    DivUnique(x * high, Pow2(n), q, r * high);
    DivNat(x, low);
    if q >= high { MulLe(high, q, low); }
    Pow2Mono(k, n);
  }

  /** r, below 2^k, fits under what a left shift by k leaves, so `|` adds the two. */
  lemma ShiftIn(x: nat, n: nat, k: nat, j: nat, r: nat)
    requires n == j + k && x < Pow2(n) && r < Pow2(k)
    ensures (x * Pow2(k)) % Pow2(n) + r < Pow2(n)
  {
    ShiftOut(x, n, k, j);
    Pow2Split(j, k, n);
    DigitBound(r, x % Pow2(j), Pow2(j), Pow2(k));
  }

  /** Trailing zeros of a number whose low e bits are clear and whose next b bits are x. */
  lemma TrailingZeros(x: nat, j: nat, b: nat, e: nat, rest: nat)
    requires j < b && x % Pow2(j) == 0 && Bit(x, j) != 0
    ensures var v := (x + rest * Pow2(b)) * Pow2(e);
            v > 0 && v % Pow2(e + j) == 0 && Bit(v, e + j) == 1
  {
    var q, odd, even := Pow2(j), x / Pow2(j), Pow2(b - j);
    DivMod(x, q);
    Pow2Split(b - j, j, b);
    Pow2Split(e, j, e + j);
    var k := odd + even * rest;
    TrailingZerosAlgebra(Pow2(e), q, odd, even, rest);
    MulMod(k, Pow2(e + j));
    MulAssoc(Pow2(b - j - 1), 2, rest);
    ModMultiple(odd, Pow2(b - j - 1) * rest, 2);
    if k <= 0 { MulNat(even, rest); }
    MulPos(k, Pow2(e + j));
  }

  lemma TrailingZerosAlgebra(p: int, q: int, odd: int, even: int, rest: int)
    ensures (odd * q + rest * (even * q)) * p == (odd + even * rest) * (p * q)
  {}

  /** Length of a number whose low e bits are v and whose bits above are x. */
  lemma LeadingBits(v: nat, x: nat, j: nat, e: nat)
    requires v < Pow2(e) && x < Pow2(j) && (j > 0 ==> Pow2(j - 1) <= x)
    requires x > 0 || e == 0
    ensures v + x * Pow2(e) >= 0 && BitLen(v + x * Pow2(e)) == e + j
  {
    MulNat(x, Pow2(e));
    DigitBound(v, x, Pow2(j), Pow2(e));
    Pow2Split(j, e, e + j);
    if j > 0 {
      MulLe(Pow2(j - 1), x, Pow2(e));
      Pow2Split(j - 1, e, e + j - 1);
    }
    BitLenUnique(v + x * Pow2(e), e + j);
  }

  /** The w bits of x at bit e do not depend on what lies above its n bits. */
  lemma FieldOf(x: nat, hi: nat, n: nat, e: nat, w: nat)
    requires e + w <= n
    ensures ((x + hi * Pow2(n)) / Pow2(e)) % Pow2(w) == (x / Pow2(e)) % Pow2(w)
  {
    hide Pow2;
    Pow2Split(n - e - w, w, n - e);
    Pow2Split(n - e, e, n);
    FieldAlgebra(x, hi, Pow2(n - e - w), Pow2(w), Pow2(e), Pow2(n));
  }

  lemma FieldAlgebra(x: int, hi: int, c: int, f: int, p: int, m: int)
    requires f > 0 && p > 0 && m == (c * f) * p
    ensures ((x + hi * m) / p) % f == (x / p) % f
  {
    var k, l := hi * (c * f), hi * c;
    assert hi * m == k * p by { MulAssoc(hi, c * f, p); }
    assert (x + hi * m) / p == x / p + k by { ModMultiple(x, k, p); }
    assert k == l * f by { MulAssoc(hi, c, f); }
    ModMultiple(x / p, l, f);
  }
}
