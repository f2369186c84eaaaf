/** Binary greatest common divisor. */
module BinaryGcd {
  import opened Arith
  import opened Bits
  import opened Divisors
  import opened Limbs
  import opened MpiBase
  import opened Compare
  import opened Shift
  import opened AddSub

  /** T >>= lsb(T): takes out all factors of two, which an odd number does not share. */
  method StripTwos(T: Mpi, ghost other: nat)
    requires T.s == 1 && |T.p| > 0
    modifies T
    ensures T.s == 1 && |T.p| > 0 && T.Mag() <= old(T.Mag())
    ensures T.Mag() == 0 <==> old(T.Mag()) == 0
    ensures T.Mag() > 0 ==> T.Mag() % 2 == 1
    ensures old(T.Mag()) % 2 == 1 ==> T.Mag() == old(T.Mag())
    ensures other % 2 == 1 ==> Gcd(T.Mag(), other) == Gcd(old(T.Mag()), other)
  {
    var k := T.Lsb();
    Stripped(T.Mag(), k, other);
    ShiftR(T, k);
  }

  /** mpi_gcd: G := gcd(|A|, |B|), except that B = 0 gives 0. */
  method GcdMpi(G: Mpi, A: Mpi, B: Mpi)
    requires |A.p| > 0 && |B.p| > 0
    modifies G
    ensures G.Value() == if old(B.Mag()) == 0 then 0 else Gcd(old(A.Mag()), old(B.Mag()))
    ensures |G.p| >= old(|G.p|) && |G.p| > 0
  {
    hide V, P, Pow2, Gcd, BitLen, BitsToLimbs;
    var TA := new Mpi();
    var TB := new Mpi();
    TA.Copy(A);
    TB.Copy(B);
    var lz := StripShared(TA, TB);
    TA.s := 1;
    TB.s := 1;
    Subtractions(TA, TB);
    ShiftL(TB, lz);
    G.Copy(TB);
  }

  /** Takes the common power of two out of both. */
  method StripShared(TA: Mpi, TB: Mpi) returns (lz: nat)
    requires TA != TB && |TA.p| > 0 && |TB.p| > 0
    modifies TA, TB
    ensures |TA.p| > 0 && |TB.p| > 0
    ensures TB.Mag() == 0 <==> old(TB.Mag()) == 0
    ensures TB.Mag() == 0 || TA.Mag() == 0 || TA.Mag() % 2 == 1 || TB.Mag() % 2 == 1
    ensures Gcd(old(TA.Mag()), old(TB.Mag())) == Gcd(TA.Mag(), TB.Mag()) * Pow2(lz)
  {
    hide V, P, Pow2, Bit, Gcd, BitLen;
    ghost var a, b := TA.Mag(), TB.Mag();
    lz := TA.Lsb();
    var lzt := TB.Lsb();
    ghost var la := lz;
    if lzt < lz { lz := lzt; }
    SharedTwos(a, b, la, lzt, lz);
    ShiftR(TA, lz);
    ShiftR(TB, lz);
  }

  /** The main loop, on numbers that are not both even. */
  method Subtractions(TA: Mpi, TB: Mpi)
    requires TA != TB && TA.s == 1 && TB.s == 1 && |TA.p| > 0 && |TB.p| > 0
    requires TB.Mag() == 0 || TA.Mag() == 0 || TA.Mag() % 2 == 1 || TB.Mag() % 2 == 1
    modifies TA, TB
    ensures TB.s == 1 && |TB.p| > 0
    ensures TB.Mag() == if old(TB.Mag()) == 0 then 0 else Gcd(old(TA.Mag()), old(TB.Mag()))
  {
    ghost var a, b := TA.Mag(), TB.Mag();
    WFacts();
    var order := CmpInt(TA, 0);
    while order != 0
      invariant TA.s == 1 && TB.s == 1 && |TA.p| > 0 && |TB.p| > 0
      invariant order == Sgn(TA.Value())
      invariant TB.Mag() == 0 <==> b == 0
      invariant b > 0 ==> Gcd(TA.Mag(), TB.Mag()) == Gcd(a, b)
      invariant b > 0 ==> TA.Mag() == 0 || TA.Mag() % 2 == 1 || TB.Mag() % 2 == 1
      decreases TA.Mag() + TB.Mag()
    {
      Reduce(TA, TB);
      order := CmpInt(TA, 0);
    }
    if b > 0 { GcdSym(0, TB.Mag()); }
  }

  /** One round: both made odd, the smaller taken from the larger, the difference halved. */
  method Reduce(TA: Mpi, TB: Mpi)
    requires TA != TB && TA.s == 1 && TB.s == 1 && |TA.p| > 0 && |TB.p| > 0
    requires TA.Mag() > 0
    requires TB.Mag() > 0 ==> TA.Mag() % 2 == 1 || TB.Mag() % 2 == 1
    modifies TA, TB
    ensures TA.s == 1 && TB.s == 1 && |TA.p| > 0 && |TB.p| > 0
    ensures TA.Mag() + TB.Mag() < old(TA.Mag()) + old(TB.Mag())
    ensures TB.Mag() == 0 <==> old(TB.Mag()) == 0
    ensures TB.Mag() > 0 ==> Gcd(TA.Mag(), TB.Mag()) == Gcd(old(TA.Mag()), old(TB.Mag()))
    ensures TB.Mag() > 0 ==> TA.Mag() % 2 == 1 || TB.Mag() % 2 == 1
  {
    hide Gcd, V, P, Pow2, BitLen, Bit;
    ghost var a, b := TA.Mag(), TB.Mag();
    StripTwos(TA, b);
    ghost var c := TA.Mag();
    StripTwos(TB, c);
    ghost var e := TB.Mag();
    GcdSym(b, c);
    GcdSym(e, c);
    var order := CmpMpi(TA, TB);
    if order >= 0 {
      HalveDifference(TA, TB);
    } else {
      HalveDifference(TB, TA);
      GcdSym(TB.Mag(), c);
    }
  }

  /** X := (X - Y) / 2 */
  method HalveDifference(X: Mpi, Y: Mpi)
    requires X != Y && X.s == 1 && Y.s == 1 && |X.p| > 0 && |Y.p| > 0
    requires X.Mag() >= Y.Mag() && X.Mag() > 0 && X.Mag() % 2 == 1
    modifies X
    ensures X.s == 1 && |X.p| > 0 && X.Mag() < old(X.Mag())
    ensures Y.Mag() % 2 == 1 ==> Gcd(X.Mag(), Y.Mag()) == Gcd(old(X.Mag()), Y.Mag())
    ensures Y.Mag() % 2 == 1 && old(X.Mag()) > Y.Mag() ==> X.Mag() > 0
  {
    hide Gcd, V, P, Pow2, BitLen, Bit;
    ghost var c, e := X.Mag(), Y.Mag();
    Pow2Double(0);
    var _ := SubAbs(X, X, Y);
    ShiftR(X, 1);
    if e % 2 == 1 { HalvedDifference(c, e); }
  }

  /** The result is the gcd exactly when B is not zero, or nothing is left to divide. */
  lemma GcdIff(a: nat, b: nat)
    ensures (if b == 0 then 0 else Gcd(a, b)) == Gcd(a, b) <==> b != 0 || a == 0
  {}

  lemma SharedTwos(a: nat, b: nat, la: nat, lb: nat, lz: nat)
    requires if a == 0 then la == 0 else a % Pow2(la) == 0 && Bit(a, la) == 1
    requires if b == 0 then lb == 0 else b % Pow2(lb) == 0 && Bit(b, lb) == 1
    requires lz == Min(la, lb)
    ensures 0 <= a / Pow2(lz) && 0 <= b / Pow2(lz)
    ensures Gcd(a, b) == Gcd(a / Pow2(lz), b / Pow2(lz)) * Pow2(lz)
    ensures a / Pow2(lz) == 0 <==> a == 0
    ensures b / Pow2(lz) == 0 <==> b == 0
    ensures a > 0 && b > 0 ==> (a / Pow2(lz)) % 2 == 1 || (b / Pow2(lz)) % 2 == 1
  {
    FewerTwos(a, la, lz);
    FewerTwos(b, lb, lz);
    GcdScale(a / Pow2(lz), b / Pow2(lz), Pow2(lz));
  }

  lemma FewerTwos(a: nat, la: nat, lz: nat)
    requires lz <= la && (a == 0 || a % Pow2(la) == 0)
    ensures 0 <= a / Pow2(lz) && a == (a / Pow2(lz)) * Pow2(lz)
    ensures a / Pow2(lz) == 0 <==> a == 0
  {
    DivNat(a, Pow2(lz));
    if a == 0 {
      DivUnique(0, Pow2(lz), 0, 0);
    } else {
      Pow2Split(la - lz, lz, la);
      DivMod(a, Pow2(la));
      MulAssoc(a / Pow2(la), Pow2(la - lz), Pow2(lz));
      MulMod((a / Pow2(la)) * Pow2(la - lz), Pow2(lz));
    }
  }

  lemma Stripped(m: nat, k: nat, other: nat)
    requires if m == 0 then k == 0 else m % Pow2(k) == 0 && Bit(m, k) == 1
    ensures 0 <= m / Pow2(k) <= m
    ensures m / Pow2(k) == 0 <==> m == 0
    ensures m % 2 == 1 ==> m / Pow2(k) == m
    ensures other % 2 == 1 ==> Gcd(m / Pow2(k), other) == Gcd(m, other)
  {
    DivNat(m, Pow2(k));
    DivMod(m, Pow2(k));
    if m > 0 && other % 2 == 1 { GcdStrip(m / Pow2(k), k, other); }
    if m % 2 == 1 && k > 0 {
      MulAssoc(m / Pow2(k), 2, Pow2(k - 1));
      MulMod((m / Pow2(k)) * Pow2(k - 1), 2);
    }
  }

  lemma HalvedDifference(c: nat, e: nat)
    requires c >= e && c % 2 == 1 && e % 2 == 1
    ensures Gcd((c - e) / 2, e) == Gcd(c, e)
  {
    hide Gcd;
    var x := (c - e) / 2;
    assert c - e == 2 * x;
    GcdSub(c, e);
    GcdHalf(x, e);
  }
}
