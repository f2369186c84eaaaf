/** Congruences. */
module Modular {
  import opened Arith

  /** a and b leave the same remainder modulo n. */
  predicate Cong(a: int, b: int, n: int)
    requires n > 0
  {
    (a - b) % n == 0
  }

  lemma CongFrom(a: int, b: int, k: int, n: int)
    requires n > 0 && a == b + k * n
    ensures Cong(a, b, n)
  {
    MulMod(k, n);
  }

  lemma CongWitness(a: int, b: int, n: int) returns (k: int)
    requires n > 0 && Cong(a, b, n)
    ensures a == b + k * n
  {
    k := (a - b) / n;
    DivMod(a - b, n);
  }

  lemma CongRefl(a: int, n: int)
    requires n > 0
    ensures Cong(a, a, n)
  {
    CongFrom(a, a, 0, n);
  }

  lemma CongSym(a: int, b: int, n: int)
    requires n > 0 && Cong(a, b, n)
    ensures Cong(b, a, n)
  {
    var k := CongWitness(a, b, n);
    MulDistSub(0, k, n);
    CongFrom(b, a, -k, n);
  }

  lemma CongTrans(a: int, b: int, c: int, n: int)
    requires n > 0 && Cong(a, b, n) && Cong(b, c, n)
    ensures Cong(a, c, n)
  {
    var k := CongWitness(a, b, n);
    var l := CongWitness(b, c, n);
    MulDist(k, l, n);
    CongFrom(a, c, k + l, n);
  }

  lemma CongMulLeft(a: int, b: int, m: int, n: int)
    requires n > 0 && Cong(a, b, n)
    ensures Cong(m * a, m * b, n)
  {
    var k := CongWitness(a, b, n);
    MulDist(b, k * n, m);
    MulAssoc(m, k, n);
    CongFrom(m * a, m * b, m * k, n);
  }

  lemma CongMul(a: int, b: int, c: int, d: int, n: int)
    requires n > 0 && Cong(a, b, n) && Cong(c, d, n)
    ensures Cong(a * c, b * d, n)
  {
    CongMulLeft(c, d, a, n);
    CongMulLeft(a, b, d, n);
    CongTrans(a * c, a * d, b * d, n);
  }

  lemma CongAdd(a: int, b: int, c: int, d: int, n: int)
    requires n > 0 && Cong(a, b, n) && Cong(c, d, n)
    ensures Cong(a + c, b + d, n)
  {
    var k := CongWitness(a, b, n);
    var l := CongWitness(c, d, n);
    MulDist(k, l, n);
    CongFrom(a + c, b + d, k + l, n);
  }

  lemma CongMod(a: int, n: int)
    requires n > 0
    ensures Cong(a % n, a, n)
  {
    DivMod(a, n);
    MulDistSub(0, a / n, n);
    CongFrom(a % n, a, -(a / n), n);
  }

  /** Congruent numbers have equal remainders. */
  lemma CongSameMod(a: int, b: int, n: int)
    requires n > 0 && Cong(a, b, n)
    ensures a % n == b % n
  {
    var k := CongWitness(a, b, n);
    ModMultiple(b, k, n);
  }

  /** A factor that is invertible modulo n cancels. */
  lemma CongCancel(a: int, b: int, r: int, r': int, n: int)
    requires n > 0 && Cong(r * r', 1, n) && Cong(a * r, b * r, n)
    ensures Cong(a, b, n)
  {
    CongMulLeft(a * r, b * r, r', n);
    MulAssoc(r', a, r);
    MulAssoc(r', b, r);
    CancelOne(a, r, r', n);
    CancelOne(b, r, r', n);
    CongSym(r' * (a * r), a, n);
    CongTrans(a, r' * (a * r), r' * (b * r), n);
    CongTrans(a, r' * (b * r), b, n);
  }

  lemma CancelOne(a: int, r: int, r': int, n: int)
    requires n > 0 && Cong(r * r', 1, n)
    ensures Cong(r' * (a * r), a, n)
  {
    CongMulLeft(r * r', 1, a, n);
    assert a * (r * r') == r' * (a * r) by { MulAssoc(r', a, r); MulAssoc(a, r, r'); }
  }
}
