/** Modular inverse by the binary extended gcd. */
module InvMod {
  import opened Arith
  import opened Modular
  import opened Divisors
  import opened Limbs
  import opened MpiBase
  import opened Compare
  import opened Shift
  import opened AddSub
  import opened Modulo
  import opened BinaryGcd

  /** mpi_inv_mod: X := A^-1 mod N. For N = 1 the first inner loop below would halve zero
      forever, so N = 1 is excluded. */
  method Invert(X: Mpi, A: Mpi, N: Mpi) returns (ret: Status)
    requires |A.p| > 0 && N.Value() != 1
    modifies X
    ensures ret == if old(N.Value()) <= 0 then BadInputData
                   else if Gcd(old(A.Mag()), old(N.Mag())) != 1 then NotAcceptable
                   else Ok
    ensures !ret.Ok? ==> X.s == old(X.s) && X.p == old(X.p)
    ensures ret.Ok? ==> 0 <= X.Value() < old(N.Value())
    ensures ret.Ok? ==> (X.Value() * old(A.Value())) % old(N.Value()) == 1
  {
    WFacts();
    var order := CmpInt(N, 0);
    if order <= 0 { return BadInputData; }
    ghost var a, n := A.Value(), N.Value();
    var G := new Mpi();
    GcdMpi(G, A, N);
    order := CmpInt(G, 1);
    if order != 0 { return NotAcceptable; }
    var TA := new Mpi();
    var _ := ModMpi(TA, A, N);
    ReducedCoprime(a, n);
    var V1 := ExtendedGcd(TA, N);
    ghost var v := V1.Value();
    IntoRange(V1, N);
    InverseOf(V1.Value(), v, a, n);
    X.Copy(V1);
    ret := Ok;
  }

  /** V1 moved by multiples of N into [0, N). */
  method IntoRange(V1: Mpi, N: Mpi)
    requires V1 != N && |V1.p| > 0 && N.Value() > 0
    modifies V1
    ensures |V1.p| > 0 && 0 <= V1.Value() < N.Value()
    ensures Cong(V1.Value(), old(V1.Value()), N.Value())
  {
    ghost var v, n := V1.Value(), N.Value();
    CongRefl(v, n);
    WFacts();
    var order := CmpInt(V1, 0);
    while order < 0
      invariant |V1.p| > 0 && |N.p| > 0 && order == Sgn(V1.Value())
      invariant Cong(V1.Value(), v, n)
      decreases -V1.Value()
    {
      ByModulus(V1.Value(), v, n);
      AddMpi(V1, V1, N);
      order := CmpInt(V1, 0);
    }
    order := CmpMpi(V1, N);
    ghost var bound := V1.Value() + n;
    while order >= 0
      invariant |V1.p| > 0 && order == Sgn(V1.Value() - n) && 0 <= V1.Value() <= bound
      invariant Cong(V1.Value(), v, n)
      decreases bound
    {
      ByModulus(V1.Value(), v, n);
      SubMpi(V1, V1, N);
      bound := bound - n;
      order := CmpMpi(V1, N);
    }
  }

  /** The six numbers of the algorithm: U1 * TA + U2 * TB = TU and V1 * TA + V2 * TB = TV. */
  ghost predicate Combination(U1: int, U2: int, ta: int, tb: int, TU: int) {
    U1 * ta + U2 * tb == TU
  }

  /** From TA coprime to N: a V1 with V1 * TA = 1 modulo N. */
  method ExtendedGcd(TA: Mpi, N: Mpi) returns (V1: Mpi)
    requires TA != N && TA.Value() > 0 && N.Value() > 0 && |TA.p| > 0
    requires Gcd(TA.Mag(), N.Mag()) == 1
    ensures fresh(V1) && |V1.p| > 0
    ensures Cong(V1.Value() * TA.Value(), 1, N.Value())
  {
    hide Combination, P;
    var TB := new Mpi();
    var TU, TV := NewPair();
    var U1, U2 := NewPair();
    var V2;
    V1, V2 := NewPair();
    WFacts();
    TU.Copy(TA);
    TB.Copy(N);
    TV.Copy(N);
    U1.Lset(1);
    U2.Lset(0);
    V1.Lset(0);
    V2.Lset(1);
    Unit(TA.Value(), TB.Value());
    Rounds(TU, U1, U2, TV, V1, V2, TA, TB);
    LastCombination(V1.Value(), V2.Value(), TA.Value(), TB.Value());
  }

  /** The main loop: TU falls to zero, and TV, the gcd, is then 1. */
  method Rounds(TU: Mpi, U1: Mpi, U2: Mpi, TV: Mpi, V1: Mpi, V2: Mpi, TA: Mpi, TB: Mpi)
    requires TU !in {U1, U2, TV, V1, V2, TA, TB} && TV !in {U1, U2, V1, V2, TA, TB}
    requires U1 !in {U2, V1, V2, TA, TB} && U2 !in {V1, V2, TA, TB} && V1 !in {V2, TA, TB} && V2 !in {TA, TB}
    requires |TU.p| > 0 && |U1.p| > 0 && |U2.p| > 0 && |TV.p| > 0 && |V1.p| > 0 && |V2.p| > 0
    requires |TA.p| > 0 && |TB.p| > 0 && Gcd(TA.Mag(), TB.Mag()) == 1
    requires TU.Value() > 0 && TV.Value() > 0 && Gcd(TU.Mag(), TV.Mag()) == 1
    requires Combination(U1.Value(), U2.Value(), TA.Value(), TB.Value(), TU.Value())
    requires Combination(V1.Value(), V2.Value(), TA.Value(), TB.Value(), TV.Value())
    modifies TU, U1, U2, TV, V1, V2
    ensures |V1.p| > 0 && Combination(V1.Value(), V2.Value(), TA.Value(), TB.Value(), 1)
  {
    WFacts();
    while true
      invariant |TU.p| > 0 && |U1.p| > 0 && |U2.p| > 0 && |TV.p| > 0 && |V1.p| > 0 && |V2.p| > 0
      invariant TU.Value() > 0 && TV.Value() > 0 && Gcd(TU.Mag(), TV.Mag()) == 1
      invariant Combination(U1.Value(), U2.Value(), TA.Value(), TB.Value(), TU.Value())
      invariant Combination(V1.Value(), V2.Value(), TA.Value(), TB.Value(), TV.Value())
      decreases TU.Value() + TV.Value()
    {
      Round(TU, U1, U2, TV, V1, V2, TA, TB);
      var order := CmpInt(TU, 0);
      if order == 0 { break; }
    }
    GcdSym(0, TV.Mag());
  }

  /** One round of the main loop. */
  method Round(TU: Mpi, U1: Mpi, U2: Mpi, TV: Mpi, V1: Mpi, V2: Mpi, TA: Mpi, TB: Mpi)
    requires TU !in {U1, U2, TV, V1, V2, TA, TB} && TV !in {U1, U2, V1, V2, TA, TB}
    requires U1 !in {U2, V1, V2, TA, TB} && U2 !in {V1, V2, TA, TB} && V1 !in {V2, TA, TB} && V2 !in {TA, TB}
    requires |TU.p| > 0 && |U1.p| > 0 && |U2.p| > 0 && |TV.p| > 0 && |V1.p| > 0 && |V2.p| > 0
    requires |TA.p| > 0 && |TB.p| > 0 && Gcd(TA.Mag(), TB.Mag()) == 1
    requires TU.Value() > 0 && TV.Value() > 0 && Gcd(TU.Mag(), TV.Mag()) == 1
    requires Combination(U1.Value(), U2.Value(), TA.Value(), TB.Value(), TU.Value())
    requires Combination(V1.Value(), V2.Value(), TA.Value(), TB.Value(), TV.Value())
    modifies TU, U1, U2, TV, V1, V2
    ensures |TU.p| > 0 && |U1.p| > 0 && |U2.p| > 0 && |TV.p| > 0 && |V1.p| > 0 && |V2.p| > 0
    ensures TU.Value() >= 0 && TV.Value() > 0 && Gcd(TU.Mag(), TV.Mag()) == 1
    ensures TU.Value() + TV.Value() < old(TU.Value()) + old(TV.Value())
    ensures Combination(U1.Value(), U2.Value(), TA.Value(), TB.Value(), TU.Value())
    ensures Combination(V1.Value(), V2.Value(), TA.Value(), TB.Value(), TV.Value())
  {
    hide V, P, Pow2;
    ghost var ta, tb := TA.Value(), TB.Value();
    MakeOdd(TU, U1, U2, TA, TB, TV.Mag());
    ghost var u := TU.Mag();
    GcdSym(u, TV.Mag());
    MakeOdd(TV, V1, V2, TA, TB, u);
    ghost var v := TV.Mag();
    GcdSym(u, v);
    var order := CmpMpi(TU, TV);
    if order >= 0 {
      GcdSub(u, v);
      TakeAway(TU, U1, U2, TV, V1, V2, ta, tb);
      assert TU.Mag() == u - v;
    } else {
      CoprimeSub(v, u);
      TakeAway(TV, V1, V2, TU, U1, U2, ta, tb);
      assert TV.Mag() == v - u;
    }
  }

  method NewPair() returns (P: Mpi, Q: Mpi)
    ensures fresh(P) && fresh(Q) && P != Q && P.p == [] && Q.p == []
  {
    P := new Mpi();
    Q := new Mpi();
  }

  /** Halves TU until it is odd, with its coefficients. */
  method MakeOdd(TU: Mpi, U1: Mpi, U2: Mpi, TA: Mpi, TB: Mpi, ghost other: nat)
    requires U1 != U2 && TU !in {U1, U2, TA, TB} && U1 !in {TA, TB} && U2 !in {TA, TB}
    requires TU.Value() > 0 && Gcd(TA.Mag(), TB.Mag()) == 1
    requires |TU.p| > 0 && |U1.p| > 0 && |U2.p| > 0 && |TA.p| > 0 && |TB.p| > 0
    requires Combination(U1.Value(), U2.Value(), TA.Value(), TB.Value(), TU.Value())
    requires Gcd(TU.Mag(), other) == 1
    modifies TU, U1, U2
    ensures 0 < TU.Value() <= old(TU.Value()) && TU.Mag() % 2 == 1
    ensures |TU.p| > 0 && |U1.p| > 0 && |U2.p| > 0
    ensures Combination(U1.Value(), U2.Value(), TA.Value(), TB.Value(), TU.Value())
    ensures Gcd(TU.Mag(), other) == 1
  {
    Parity(TU.p);
    while TU.p[0] % 2 == 0
      invariant 0 < TU.Value() <= old(TU.Value()) && |TU.p| > 0
      invariant TU.p[0] % 2 == TU.Mag() % 2
      invariant |U1.p| > 0 && |U2.p| > 0
      invariant Combination(U1.Value(), U2.Value(), TA.Value(), TB.Value(), TU.Value())
      invariant Gcd(TU.Mag(), other) == 1
      decreases TU.Mag()
    {
      HalveCombination(TU, U1, U2, TA, TB, other);
      Parity(TU.p);
    }
  }

  /** One halving; both coefficients come out even first, so nothing is rounded. */
  method HalveCombination(TU: Mpi, U1: Mpi, U2: Mpi, TA: Mpi, TB: Mpi, ghost other: nat)
    requires U1 != U2 && TU !in {U1, U2, TA, TB} && U1 !in {TA, TB} && U2 !in {TA, TB}
    requires TU.Value() > 0 && TU.Mag() % 2 == 0 && Gcd(TA.Mag(), TB.Mag()) == 1
    requires |TU.p| > 0 && |U1.p| > 0 && |U2.p| > 0 && |TA.p| > 0 && |TB.p| > 0
    requires Combination(U1.Value(), U2.Value(), TA.Value(), TB.Value(), TU.Value())
    requires Gcd(TU.Mag(), other) == 1
    modifies TU, U1, U2
    ensures 2 * TU.Value() == old(TU.Value()) && TU.Value() > 0
    ensures |TU.p| > 0 && |U1.p| > 0 && |U2.p| > 0
    ensures Combination(U1.Value(), U2.Value(), TA.Value(), TB.Value(), TU.Value())
    ensures Gcd(TU.Mag(), other) == 1
  {
    ghost var ta, tb, u := TA.Value(), TB.Value(), TU.Value();
    HalfCoprime(TU.Mag(), other);
    HalveEven(TU);
    Parity(U1.p);
    Parity(U2.p);
    Parity(TA.p);
    Parity(TB.p);
    NotBothEven(TA.Mag(), TB.Mag());
    EvenCoefficients(U1.Value(), U2.Value(), ta, tb, u);
    if U1.p[0] % 2 != 0 || U2.p[0] % 2 != 0 {
      AddMpi(U1, U1, TB);
      SubMpi(U2, U2, TA);
    }
    HalfEquation(U1.Value(), U2.Value(), ta, tb, u);
    HalveEven(U1);
    HalveEven(U2);
  }

  /** The shift of an even number, of either sign, is its exact half. */
  method HalveEven(U: Mpi)
    requires U.Value() % 2 == 0 && |U.p| > 0
    modifies U
    ensures U.Value() == old(U.Value()) / 2 && |U.p| > 0
  {
    assert Pow2(1) == 2;
    ShiftR(U, 1);
  }

  /** TU -= TV, and the coefficients with it. */
  method TakeAway(TU: Mpi, U1: Mpi, U2: Mpi, TV: Mpi, V1: Mpi, V2: Mpi, ghost ta: int, ghost tb: int)
    requires TU !in {U1, U2, TV, V1, V2} && U1 !in {U2, TV, V1, V2} && U2 !in {TV, V1, V2}
    requires |TU.p| > 0 && |TV.p| > 0 && |U1.p| > 0 && |U2.p| > 0 && |V1.p| > 0 && |V2.p| > 0
    requires Combination(U1.Value(), U2.Value(), ta, tb, TU.Value())
    requires Combination(V1.Value(), V2.Value(), ta, tb, TV.Value())
    modifies TU, U1, U2
    ensures TU.Value() == old(TU.Value()) - TV.Value()
    ensures |TU.p| > 0 && |U1.p| > 0 && |U2.p| > 0
    ensures Combination(U1.Value(), U2.Value(), ta, tb, TU.Value())
  {
    Difference(U1.Value(), U2.Value(), TU.Value(), V1.Value(), V2.Value(), TV.Value(), ta, tb);
    SubMpi(TU, TU, TV);
    SubMpi(U1, U1, V1);
    SubMpi(U2, U2, V2);
  }

  // ----- lemmas -----

  lemma ReducedCoprime(a: int, n: int)
    requires n > 1 && Gcd(Abs(a), n) == 1
    ensures 0 < a % n < n && Gcd(a % n, n) == 1
  {
    DivMod(a, n);
    var r := a % n;
    if r == 0 { MultipleNotCoprime(a, n); }
    forall d: nat | d > 0 && CommonDivisor(d, r, n)
      ensures d == 1
    {
      CarriesOver(d, a, n);
      GcdDivisors(d, Abs(a), n);
      DividesLe(d, 1);
    }
    OnlyOne(r, n);
  }

  lemma MultipleNotCoprime(a: int, n: int)
    requires n > 1 && a % n == 0
    ensures Gcd(Abs(a), n) > 1
  {
    DivMod(a, n);
    MulDistSub(0, a / n, n);
    DividesFrom(n, if a < 0 then -(a / n) else a / n, Abs(a));
    DividesFrom(n, 1, n);
    GcdDivisors(n, Abs(a), n);
    GcdPositive(Abs(a), n);
    DividesLe(n, Gcd(Abs(a), n));
  }

  lemma CarriesOver(d: nat, a: int, n: int)
    requires n > 0 && d > 0 && CommonDivisor(d, a % n, n)
    ensures CommonDivisor(d, Abs(a), n)
  {
    DivMod(a, n);
    var k := DividesWitness(d, a % n);
    var l := DividesWitness(d, n);
    var q := a / n;
    MulAssoc(q, l, d);
    MulDist(q * l, k, d);
    var m := q * l + k;
    assert a == m * d;
    MulDistSub(0, m, d);
    DividesFrom(d, if a < 0 then -m else m, Abs(a));
  }

  lemma OnlyOne(a: nat, b: nat)
    requires a > 0 || b > 0
    requires forall d: nat :: d > 0 && CommonDivisor(d, a, b) ==> d == 1
    ensures Gcd(a, b) == 1
  {
    GcdPositive(a, b);
    DividesFrom(Gcd(a, b), 1, Gcd(a, b));
    GcdDivisors(Gcd(a, b), a, b);
  }

  lemma HalfCoprime(m: nat, other: nat)
    requires m > 0 && m % 2 == 0 && Gcd(m, other) == 1
    ensures Gcd(m / 2, other) == 1
  {
    forall d: nat | d > 0 && CommonDivisor(d, m / 2, other)
      ensures d == 1
    {
      DividesMul(d, m / 2, 2);
      GcdDivisors(d, m, other);
      DividesLe(d, 1);
    }
    OnlyOne(m / 2, other);
  }

  lemma NotBothEven(a: nat, b: nat)
    requires Gcd(a, b) == 1
    ensures a % 2 == 1 || b % 2 == 1
  {
    if a % 2 == 0 && b % 2 == 0 {
      GcdDivisors(2, a, b);
      DividesLe(2, 1);
    }
  }

  /** Where the combination is even, the adjusted coefficients are both even. */
  lemma EvenCoefficients(u1: int, u2: int, a: int, b: int, u: int)
    requires Combination(u1, u2, a, b, u) && u % 2 == 0 && (a % 2 == 1 || b % 2 == 1)
    ensures u1 % 2 != 0 || u2 % 2 != 0 ==> (u1 + b) % 2 == 0 && (u2 - a) % 2 == 0
    ensures Combination(u1 + b, u2 - a, a, b, u)
  {
    MulDist(u1, b, a);
    MulDistSub(u2, a, b);
    MulComm(a, b);
    ParityOfProduct(u1, a);
    ParityOfProduct(u2, b);
    EvenSum(u1, u2, a, b, u1 * a, u2 * b);
  }

  lemma EvenSum(u1: int, u2: int, a: int, b: int, x: int, y: int)
    requires x % 2 == (if u1 % 2 == 1 && a % 2 == 1 then 1 else 0)
    requires y % 2 == (if u2 % 2 == 1 && b % 2 == 1 then 1 else 0)
    requires (x + y) % 2 == 0 && (a % 2 == 1 || b % 2 == 1)
    ensures u1 % 2 != 0 || u2 % 2 != 0 ==> (u1 + b) % 2 == 0 && (u2 - a) % 2 == 0
  {}

  lemma CoprimeSub(a: nat, b: nat)
    requires a >= b > 0 && Gcd(b, a) == 1
    ensures Gcd(b, a - b) == 1
  {
    GcdSym(b, a);
    GcdSub(a, b);
    GcdSym(b, a - b);
  }

  lemma ParityOfProduct(x: int, y: int)
    ensures (x * y) % 2 == (if x % 2 == 1 && y % 2 == 1 then 1 else 0)
  {
    var i, a, j, b := x / 2, x % 2, y / 2, y % 2;
    ProductOfParts(i, a, j, b);
    assert a * b == if a == 1 && b == 1 then 1 else 0;
    DivUnique(x * y, 2, 2 * (i * j) + i * b + a * j, a * b);
  }

  lemma ProductOfParts(i: int, a: int, j: int, b: int)
    ensures (2 * i + a) * (2 * j + b) == (2 * (i * j) + i * b + a * j) * 2 + a * b
  {}

  lemma HalfEquation(u1: int, u2: int, a: int, b: int, u: int)
    requires Combination(u1, u2, a, b, u) && u1 % 2 == 0 && u2 % 2 == 0 && u % 2 == 0
    ensures Combination(u1 / 2, u2 / 2, a, b, u / 2)
  {
    MulAssoc(2, u1 / 2, a);
    MulAssoc(2, u2 / 2, b);
  }

  lemma ByModulus(x: int, v: int, n: int)
    requires n > 0 && Cong(x, v, n)
    ensures Cong(x + n, v, n) && Cong(x - n, v, n)
  {
    CongFrom(x + n, x, 1, n);
    CongFrom(x - n, x, -1, n);
    CongTrans(x + n, x, v, n);
    CongTrans(x - n, x, v, n);
  }

  lemma Unit(a: int, b: int)
    ensures Combination(1, 0, a, b, a) && Combination(0, 1, a, b, b)
  {}

  lemma Difference(u1: int, u2: int, u: int, v1: int, v2: int, v: int, a: int, b: int)
    requires Combination(u1, u2, a, b, u) && Combination(v1, v2, a, b, v)
    ensures Combination(u1 - v1, u2 - v2, a, b, u - v)
  {
    MulDistSub(u1, v1, a);
    MulDistSub(u2, v2, b);
  }

  lemma LastCombination(v1: int, v2: int, a: int, b: int)
    requires b > 0 && Combination(v1, v2, a, b, 1)
    ensures Cong(v1 * a, 1, b)
  {
    MulDistSub(0, v2, b);
    CongFrom(v1 * a, 1, -v2, b);
  }

  lemma InverseOf(x: int, v: int, a: int, n: int)
    requires n > 1 && Cong(x, v, n) && Cong(v * (a % n), 1, n)
    ensures (x * a) % n == 1
  {
    CongMod(a, n);
    CongSym(a % n, a, n);
    CongMul(x, v, a, a % n, n);
    CongTrans(x * a, v * (a % n), 1, n);
    CongSameMod(x * a, 1, n);
    DivUnique(1, n, 0, 1);
  }
}
