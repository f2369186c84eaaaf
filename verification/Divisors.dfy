/** Divisibility and greatest common divisors of natural numbers. */
module Divisors {
  import opened Arith

  predicate Divides(d: nat, a: nat) {
    d > 0 && a % d == 0
  }

  predicate CommonDivisor(d: nat, a: nat, b: nat) {
    Divides(d, a) && Divides(d, b)
  }

  /** Euclid's definition. */
  function Gcd(a: nat, b: nat): nat
    decreases b
  {
    if b == 0 then a else Gcd(b, a % b)
  }

  lemma DividesFrom(d: nat, q: int, a: nat)
    requires d > 0 && a == q * d
    ensures Divides(d, a)
  {
    MulMod(q, d);
  }

  lemma DividesWitness(d: nat, a: nat) returns (q: nat)
    requires Divides(d, a)
    ensures a == q * d
  {
    DivNat(a, d);
    q := a / d;
    DivMod(a, d);
  }

  lemma DividesAdd(d: nat, a: nat, b: nat)
    requires Divides(d, a) && Divides(d, b)
    ensures Divides(d, a + b) && (a >= b ==> Divides(d, a - b))
  {
    var q := DividesWitness(d, a);
    var r := DividesWitness(d, b);
    MulDist(q, r, d);
    MulDistSub(q, r, d);
    DividesFrom(d, q + r, a + b);
    if a >= b { DividesFrom(d, q - r, a - b); }
  }

  lemma DividesMul(d: nat, a: nat, k: nat)
    requires Divides(d, a)
    ensures a * k >= 0 && Divides(d, a * k)
  {
    var q := DividesWitness(d, a);
    MulNat(a, k);
    MulAssoc(k, q, d);
    DividesFrom(d, k * q, a * k);
  }

  lemma DividesLe(d: nat, a: nat)
    requires Divides(d, a) && a > 0
    ensures d <= a
  {
    var q := DividesWitness(d, a);
    if q > 0 { MulLe(1, q, d); }
  }

  /** Reduction modulo b keeps the common divisors. */
  lemma EuclidStep(d: nat, a: nat, b: nat)
    requires b > 0
    ensures CommonDivisor(d, a, b) <==> CommonDivisor(d, b, a % b)
  {
    DivMod(a, b);
    DivNat(a, b);
    var q := a / b;
    if Divides(d, b) {
      DividesMul(d, b, q);
      MulComm(b, q);
      if Divides(d, a) { DividesAdd(d, a, b * q); }
      if Divides(d, a % b) { DividesAdd(d, b * q, a % b); }
    }
  }

  /** The defining property: the common divisors of a and b are the divisors of their gcd. */
  lemma {:induction false} GcdDivisors(d: nat, a: nat, b: nat)
    requires d > 0
    ensures CommonDivisor(d, a, b) <==> Divides(d, Gcd(a, b))
    decreases b
  {
    if b == 0 {
      DividesFrom(d, 0, 0);
    } else {
      EuclidStep(d, a, b);
      GcdDivisors(d, b, a % b);
    }
  }

  lemma {:induction false} GcdPositive(a: nat, b: nat)
    requires a > 0 || b > 0
    ensures Gcd(a, b) > 0
    decreases b
  {
    if b > 0 { GcdPositive(b, a % b); }
  }

  /** Pairs with the same common divisors have the same gcd. */
  lemma SameDivisors(a: nat, b: nat, c: nat, e: nat)
    requires (a > 0 || b > 0) && (c > 0 || e > 0)
    requires forall d: nat :: d > 0 ==> (CommonDivisor(d, a, b) <==> CommonDivisor(d, c, e))
    ensures Gcd(a, b) == Gcd(c, e)
  {
    var g, h := Gcd(a, b), Gcd(c, e);
    GcdPositive(a, b);
    GcdPositive(c, e);
    DividesFrom(g, 1, g);
    DividesFrom(h, 1, h);
    GcdDivisors(g, a, b);
    GcdDivisors(h, c, e);
    GcdDivisors(g, c, e);
    GcdDivisors(h, a, b);
    DividesLe(g, h);
    DividesLe(h, g);
  }

  lemma GcdSym(a: nat, b: nat)
    ensures Gcd(a, b) == Gcd(b, a)
  {
    if a > 0 || b > 0 { SameDivisors(a, b, b, a); }
  }

  lemma GcdSub(a: nat, b: nat)
    requires a >= b > 0
    ensures Gcd(a - b, b) == Gcd(a, b)
  {
    forall d: nat | d > 0
      ensures CommonDivisor(d, a - b, b) <==> CommonDivisor(d, a, b)
    {
      if CommonDivisor(d, a, b) { DividesAdd(d, a, b); }
      if CommonDivisor(d, a - b, b) { DividesAdd(d, a - b, b); }
    }
    SameDivisors(a - b, b, a, b);
  }

  /** A factor two of one number is not shared with an odd one. */
  lemma GcdHalf(a: nat, b: nat)
    requires b % 2 == 1
    ensures Gcd(2 * a, b) == Gcd(a, b)
  {
    forall d: nat | d > 0
      ensures CommonDivisor(d, 2 * a, b) <==> CommonDivisor(d, a, b)
    {
      if CommonDivisor(d, a, b) { DividesMul(d, a, 2); }
      if CommonDivisor(d, 2 * a, b) { OddDivisor(d, a, b); }
    }
    SameDivisors(2 * a, b, a, b);
  }

  lemma OddDivisor(d: nat, a: nat, b: nat)
    requires b % 2 == 1 && CommonDivisor(d, 2 * a, b)
    ensures Divides(d, a)
  {
    var q := DividesWitness(d, 2 * a);
    var r := DividesWitness(d, b);
    OddFactors(r, d);
    EvenProduct(q, d);
    MulAssoc(2, q / 2, d);
    DividesFrom(d, q / 2, a);
  }

  lemma OddFactors(r: nat, d: nat)
    requires r * d >= 0 && (r * d) % 2 == 1
    ensures d % 2 == 1
  {
    if d % 2 == 0 {
      MulAssoc(r, d / 2, 2);
      MulMod(r * (d / 2), 2);
    }
  }

  lemma EvenProduct(q: nat, d: nat)
    requires d % 2 == 1 && q * d >= 0 && (q * d) % 2 == 0
    ensures q % 2 == 0
  {
    if q % 2 == 1 {
      var h := d / 2;
      MulDist(2 * h, 1, q);
      MulAssoc(q, h, 2);
      ModMultiple(q, q * h, 2);
    }
  }

  lemma {:induction false} GcdStrip(a: nat, k: nat, b: nat)
    requires b % 2 == 1
    ensures a * Pow2(k) >= 0 && Gcd(a * Pow2(k), b) == Gcd(a, b)
    decreases k
  {
    MulNat(a, Pow2(k));
    if k > 0 {
      GcdStrip(a, k - 1, b);
      MulAssoc(2, a, Pow2(k - 1));
      MulComm(a, Pow2(k - 1));
      MulComm(a, Pow2(k));
      MulAssoc(2, Pow2(k - 1), a);
      GcdHalf(a * Pow2(k - 1), b);
    }
  }

  /** A common factor comes out in front. */
  lemma {:induction false} GcdScale(a: nat, b: nat, f: nat)
    requires f > 0
    ensures a * f >= 0 && b * f >= 0 && Gcd(a * f, b * f) == Gcd(a, b) * f
    decreases b
  {
    MulNat(a, f);
    MulNat(b, f);
    if b > 0 {
      MulPos(b, f);
      ScaledMod(a, b, f);
      GcdScale(b, a % b, f);
    }
  }

  lemma ScaledMod(a: nat, b: nat, f: nat)
    requires b > 0 && f > 0
    ensures b * f > 0 && (a * f) % (b * f) == (a % b) * f
  {
    var q, r := a / b, a % b;
    DivMod(a, b);
    MulPos(b, f);
    MulDist(q * b, r, f);
    MulAssoc(q, b, f);
    MulNat(r, f);
    MulLt(r, b, f);
    DivUnique(a * f, b * f, q, r * f);
  }
}
