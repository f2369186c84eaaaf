/** Integer arithmetic used throughout: powers, exact division, and the few
    product facts that are kept out of the larger proofs. */
module Arith {

  function Pow2(n: nat): (r: nat)
    ensures r > 0
  {
    if n == 0 then 1 else 2 * Pow2(n - 1)
  }

  /** b to the power e. */
  function Pow(b: int, e: nat): int
  {
    if e == 0 then 1 else b * Pow(b, e - 1)
  }

  function Abs(x: int): nat {
    if x < 0 then -x else x
  }

  function Min(a: int, b: int): int {
    if a < b then a else b
  }

  function Max(a: int, b: int): int {
    if a < b then b else a
  }

  // ----- products -----

  lemma MulPos(a: int, b: int)
    requires a > 0 && b > 0
    ensures a * b > 0
  {}

  lemma MulNat(a: int, b: int)
    requires a >= 0 && b >= 0
    ensures a * b >= 0
  {}

  lemma MulComm(a: int, b: int)
    ensures a * b == b * a
  {}

  lemma MulAssoc(a: int, b: int, c: int)
    ensures a * (b * c) == (a * b) * c == (a * c) * b
  {}

  lemma MulDist(a: int, b: int, c: int)
    ensures (a + b) * c == a * c + b * c
    ensures c * (a + b) == c * a + c * b
  {}

  lemma MulDistSub(a: int, b: int, c: int)
    ensures (a - b) * c == a * c - b * c
    ensures c * (a - b) == c * a - c * b
  {}

  lemma MulLe(a: int, b: int, c: int)
    requires a <= b && 0 <= c
    ensures a * c <= b * c && c * a <= c * b
  {}

  lemma MulLt(a: int, b: int, c: int)
    requires a < b && 0 < c
    ensures a * c < b * c && c * a < c * b
  {}

  lemma MulLtCancel(a: int, b: int, c: int)
    requires a * c < b * c && 0 <= c
    ensures a < b
  {
    if a >= b { MulLe(b, a, c); }
  }

  /** A number below `p` under a digit below `w` stays below `w * p`. */
  lemma DigitBound(v: int, x: int, w: int, p: int)
    requires 0 <= v < p && 0 <= x < w
    ensures v + x * p < w * p
  {
    MulLe(x, w - 1, p);
    MulDistSub(w, 1, p);
  }

  // ----- division -----

  /** Quotient and remainder are determined by their defining equation. */
  lemma DivUnique(a: int, d: int, q: int, r: int)
    requires d > 0 && a == q * d + r && 0 <= r < d
    ensures a / d == q && a % d == r
  {
    var q', r' := a / d, a % d;
    assert a == q' * d + r';
    MulDistSub(q, q', d);
    if q > q' { MulLe(1, q - q', d); }
    if q < q' { MulLe(q - q', -1, d); }
  }

  lemma DivMod(a: int, d: int)
    requires d > 0
    ensures a == (a / d) * d + a % d && 0 <= a % d < d
  {}

  lemma DivNat(a: int, d: int)
    requires a >= 0 && d > 0
    ensures 0 <= a / d <= a
  {
    var q := a / d;
    DivMod(a, d);
    if q < 0 { MulLe(q, -1, d); }
    MulLe(1, d, if q < 0 then 0 else q);
  }

  lemma ModMultiple(a: int, k: int, d: int)
    requires d > 0
    ensures (a + k * d) % d == a % d
    ensures (a + k * d) / d == a / d + k
  {
    DivMod(a, d);
    MulDist(a / d, k, d);
    DivUnique(a + k * d, d, a / d + k, a % d);
  }

  lemma AddMod(a: nat, c: nat, m: nat)
    requires m > 0
    ensures (a % m + c) % m == (a + c) % m
  {
    var q, r := a / m, a % m;
    DivMod(a, m);
    var q', r' := (r + c) / m, (r + c) % m;
    DivMod(r + c, m);
    MulDist(q, q', m);
    DivUnique(a + c, m, q + q', r');
  }

  lemma MulMod(k: int, d: int)
    requires d > 0
    ensures (k * d) % d == 0 && (k * d) / d == k
  {
    DivUnique(k * d, d, k, 0);
  }

  // ----- powers -----

  lemma {:induction false} Pow2Add(a: nat, b: nat)
    ensures Pow2(a + b) == Pow2(a) * Pow2(b)
  {
    if a > 0 {
      Pow2Add(a - 1, b);
      assert a + b - 1 == a - 1 + b;
      MulAssoc(2, Pow2(a - 1), Pow2(b));
    }
  }

  lemma {:induction false} Pow2Mono(a: nat, b: nat)
    requires a <= b
    ensures Pow2(a) <= Pow2(b)
    decreases b
  {
    if a < b { Pow2Mono(a, b - 1); }
  }

  lemma Pow2Split(a: nat, b: nat, c: nat)
    requires c == a + b
    ensures Pow2(c) == Pow2(a) * Pow2(b)
  {
    Pow2Add(a, b);
  }

  lemma Pow2Even(n: nat)
    requires n >= 8
    ensures Pow2(n) >= 256 && Pow2(n) % 2 == 0 && Pow2(n) == 2 * (Pow2(n) / 2)
  {
    Pow2Mono(8, n);
    assert Pow2(4) == 16;
    Pow2Add(4, 4);
  }

  lemma Pow2Double(n: nat)
    ensures Pow2(n + 1) == 2 * Pow2(n) && Pow2(0) == 1 && Pow2(1) == 2
  {}

  lemma {:induction false} Pow2Pow(b: nat, n: nat)
    ensures b * n >= 0 && Pow(Pow2(b), n) == Pow2(b * n)
  {
    if n > 0 {
      MulNat(b, n - 1);
      Pow2Pow(b, n - 1);
      MulDistSub(n, 1, b);
      Pow2Split(b, b * (n - 1), b * n);
    }
  }

  lemma {:induction false} PowAdd(b: int, m: nat, n: nat)
    ensures Pow(b, m + n) == Pow(b, m) * Pow(b, n)
  {
    if m > 0 {
      PowAdd(b, m - 1, n);
      assert m + n - 1 == m - 1 + n;
      MulAssoc(b, Pow(b, m - 1), Pow(b, n));
    }
  }
}
