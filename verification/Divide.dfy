/** Long division with estimated quotient digits. */
module Divide {
  import opened Arith
  import opened Bits
  import opened Limbs
  import opened MpiBase
  import opened Compare
  import opened Shift
  import opened AddSub
  import opened Multiply

  /** The quotient rounded toward zero. */
  function TDiv(a: int, b: int): int
    requires b != 0
  {
    var q := Abs(a) / Abs(b);
    if (a < 0) == (b < 0) then q else -q
  }

  /** The remainder of that division; it has the sign of a. */
  function TRem(a: int, b: int): int
    requires b != 0
  {
    var r := Abs(a) % Abs(b);
    if a < 0 then -r else r
  }

  /** What is left as the remainder when the quotient has been stored over the dividend: nothing if
      the dividend was the smaller number, otherwise the sign is the divisor's. */
  function RemainderOver(a: int, b: int): int
    requires b != 0
  {
    var r := Abs(a) % Abs(b);
    if Abs(a) < Abs(b) then 0 else if b < 0 then -r else r
  }

  /** The digits from limb d up are settled: dividend = Z * divisor + x, and x has room for
      exactly the digits below. */
  ghost predicate Settled(Z: seq<Limb>, x: int, xv: nat, yv: nat, d: nat)
  {
    && d <= |Z| && 0 <= x < yv * P(d)
    && xv == Val(Z) * yv + x
    && forall k :: 0 <= k < d ==> Z[k] == 0
  }

  /** Numbers made equal in length by the normalising shift: Y has limb t on top, with its
      second highest bit set at least. */
  ghost predicate Normalised(Y: seq<Limb>, t: nat, yv: nat)
  {
    && t < |Y| && Val(Y) == yv && yv < P(t + 1) && 4 * (yv / P(t)) >= W
  }

  /** mpi_div_mpi: Q and R, either of which may be absent; if they are one object, the remainder
      overwrites the quotient. */
  method DivMpi(Q: Mpi?, R: Mpi?, A: Mpi, B: Mpi) returns (ret: Status)
    requires |A.p| > 0
    modifies Q, R
    ensures ret == if old(B.Value()) == 0 then DivisionByZero else Ok
    ensures ret.DivisionByZero? ==> (Q != null ==> unchanged(Q)) && (R != null ==> unchanged(R))
    ensures ret.Ok? && Q != null && Q != R ==>
              Q.Value() == TDiv(if Q == A then old(A.Mag()) else old(A.Value()),
                                if Q == B then old(B.Mag()) else old(B.Value()))
    ensures ret.Ok? && R != null ==>
              R.Value() == if Q == A then RemainderOver(old(A.Value()), old(B.Value()))
                           else TRem(old(A.Value()), old(B.Value()))
    ensures ret.Ok? && R != null && Q != A ==> R.s == old(A.s) || (R.Value() == 0 && R.s == 1)
    ensures ret.Ok? && Q != null ==> |Q.p| >= old(|Q.p|) && |Q.p| > 0
    ensures ret.Ok? && R != null ==> |R.p| >= old(|R.p|) && |R.p| > 0
  {
    hide P, V, Pow2, TDiv, TRem, RemainderOver;
    WFacts();
    var zero := CmpInt(B, 0);
    if zero == 0 { return DivisionByZero; }
    NoLimbs(B.p);
    SmallerDividend(A.s, A.Mag(), B.s, B.Mag());
    SignedRemainders(A.s, A.Mag(), B.s, B.Mag());
    var order := CmpAbs(A, B);
    if order < 0 {
      if Q != null { Q.Lset(0); }
      if R != null { R.Copy(A); }
      return Ok;
    }
    var Z, X, k := DivAbs(A, B);
    if Q != null { StoreQuotient(Q, A, B, Z); }
    if R != null { StoreRemainder(R, A, X, k); }
    ret := Ok;
  }

  lemma NoLimbs(s: seq<Limb>)
    ensures |s| == 0 ==> Val(s) == 0
  {}

  lemma SmallerDividend(s: Sign, a: nat, t: Sign, b: nat)
    requires b > 0
    ensures a < b ==> TRem(Signed(s, a), Signed(t, b)) == Signed(s, a) && RemainderOver(Signed(s, a), Signed(t, b)) == 0
    ensures a < b ==>
              TDiv(a, Signed(t, b)) == TDiv(a, b) == TDiv(Signed(s, a), Signed(t, b)) == TDiv(Signed(s, a), b) == 0
  {
    if a < b { DivUnique(a, b, 0, a); }
  }

  lemma SignedRemainders(s: Sign, a: nat, t: Sign, b: nat)
    requires b > 0
    ensures TRem(Signed(s, a), Signed(t, b)) == Signed(s, a % b)
    ensures a >= b ==> RemainderOver(Signed(s, a), Signed(t, b)) == Signed(t, a % b)
    ensures a == b ==> a % b == 0
  {
    if a == b { DivUnique(a, b, 1, 0); }
    if a == 0 { DivUnique(0, b, 0, 0); }
  }

  /** mpi_div_int */
  method DivInt(Q: Mpi?, R: Mpi?, A: Mpi, b: SLimb) returns (ret: Status)
    requires |A.p| > 0
    modifies Q, R
    ensures ret == if b == 0 then DivisionByZero else Ok
    ensures ret.Ok? && Q != null && Q != R ==>
              Q.Value() == TDiv(if Q == A then old(A.Mag()) else old(A.Value()), b)
    ensures ret.Ok? && R != null ==>
              R.Value() == if Q == A then RemainderOver(old(A.Value()), b) else TRem(old(A.Value()), b)
    ensures ret.Ok? && Q != null ==> |Q.p| >= old(|Q.p|) && |Q.p| > 0
    ensures ret.Ok? && R != null ==> |R.p| >= old(|R.p|) && |R.p| > 0
  {
    var B := SmallMpi(b);
    ret := DivMpi(Q, R, A, B);
  }

  /** The sign is computed after the quotient has been copied. */
  method StoreQuotient(Q: Mpi, A: Mpi, B: Mpi, Z: Mpi)
    requires Q != Z && |Z.p| > 0 && B.Mag() > 0 && Z.s == 1
    requires Z.Mag() == A.Mag() / B.Mag()
    modifies Q
    ensures Q.Value() == TDiv(if Q == A then old(A.Mag()) else old(A.Value()),
                              if Q == B then old(B.Mag()) else old(B.Value()))
    ensures Q == A ==> Q.s == if Q == B then 1 else old(B.s)
    ensures |Q.p| >= old(|Q.p|) && |Q.p| > 0
  {
    ghost var am, bm := A.Mag(), B.Mag();
    Q.Copy(Z);
    Q.s := if A.s == B.s then 1 else -1;
    DivNat(am, bm);
    if am == 0 { DivUnique(am, bm, 0, 0); }
  }

  method StoreRemainder(R: Mpi, A: Mpi, X: Mpi, k: nat)
    requires R != X && A != X && |X.p| > 0
    modifies R, X
    ensures R.Value() == Signed(old(A.s), old(X.Mag()) / Pow2(k))
    ensures R.s == old(A.s) || (R.Value() == 0 && R.s == 1)
    ensures |R.p| >= old(|R.p|) && |R.p| > 0
  {
    ShiftR(X, k);
    X.s := A.s;
    R.Copy(X);
    WFacts();
    var zero := CmpInt(R, 0);
    if zero == 0 { R.s := 1; }
  }

  /** The quotient of magnitudes, and their remainder scaled by 2^k. */
  method DivAbs(A: Mpi, B: Mpi) returns (Z: Mpi, X: Mpi, k: nat)
    requires |A.p| > 0 && |B.p| > 0 && 0 < B.Mag() <= A.Mag()
    ensures fresh(Z) && fresh(X) && Z != X && |Z.p| > 0 && |X.p| > 0 && Z.s == 1
    ensures Z.Mag() == A.Mag() / B.Mag()
    ensures X.Mag() / Pow2(k) == A.Mag() % B.Mag()
  {
    hide V, P, Pow2, BitLen;
    X := new Mpi();
    var Y := new Mpi();
    Z := new Mpi();
    ghost var am, bm := A.Mag(), B.Mag();
    X.Copy(A);
    Y.Copy(B);
    SigVal(B.p, |B.p|);
    X.s := 1;
    Y.s := 1;
    WFacts();
    Z.Grow(|A.p| + 2);
    Z.Lset(0);
    k := Normalise(X, Y);
    var n, t := |X.p| - 1, |Y.p| - 1;
    ghost var xv, yv := X.Mag(), Y.Mag();
    TopOfZ(A.p, k, n);
    var _ := FirstDigit(X, Y, Z, n, t);
    Digits(X, Y, Z, n, t, xv, yv);
    DivUnique(xv, yv, Z.Mag(), X.Mag());
    ScaledDivision(am, bm, Pow2(k));
  }

  /** Shifts both numbers so that the divisor's top bit is the second highest of a limb. */
  method Normalise(X: Mpi, Y: Mpi) returns (k: nat)
    requires X != Y && |X.p| > 0 && |Y.p| > 0 && 0 < Y.Mag() <= X.Mag()
    requires P(|Y.p| - 1) <= Y.Mag()
    modifies X, Y
    ensures X.s == old(X.s) && Y.s == old(Y.s) && k < BIL
    ensures X.Mag() == old(X.Mag()) * Pow2(k) && Y.Mag() == old(Y.Mag()) * Pow2(k)
    ensures |Y.p| > 0 && Normalised(Y.p, |Y.p| - 1, Y.Mag())
    ensures |X.p| == Max(old(|X.p|), BitsToLimbs(BitLen(old(X.Mag())) + k))
    ensures |X.p| >= |Y.p|
  {
    hide V, P, Pow2, BitLen, BitsToLimbs;
    ghost var xv, yv := X.Mag(), Y.Mag();
    k := Y.Msb();
    ghost var len := k;
    k := k % BIL;
    DivMod(len, BIL);
    if k < BIL - 1 {
      k := BIL - 1 - k;
      ShiftL(X, k);
      ShiftL(Y, k);
    } else {
      k := 0;
      Pow2Double(0);
      EnoughAlready(X.p);
      EnoughAlready(Y.p);
    }
    ShiftedTop(old(Y.p), Y.p, len, k);
    MulLe(yv, xv, Pow2(k));
    LongerDividend(X.p, Y.p);
  }

  lemma ShiftedTop(was: seq<Limb>, y: seq<Limb>, len: nat, k: nat)
    requires |was| > 0 && P(|was| - 1) <= Val(was) && len == BitLen(Val(was))
    requires k == BIL - 1 - len % BIL
    requires Val(y) == Val(was) * Pow2(k) && |y| == Max(|was|, BitsToLimbs(len + k))
    ensures |y| > 0 && Normalised(y, |y| - 1, Val(y))
  {
    hide V, Pow2, BitLen, BitsToLimbs, Normalised, P;
    TightLength(was, len);
    BitLenShift(Val(was), k);
    BitLenBounds(Val(was));
    Pow2Double(0);
    LimbsForBits(len, k, |was|);
    DivNat(len, BIL);
    TopIsLarge(y, len + k);
  }

  /** Subtracts the divisor, moved up to the top of the dividend, while it fits: at most three
      times. */
  method FirstDigit(X: Mpi, Y: Mpi, Z: Mpi, n: nat, t: nat) returns (c: Limb)
    requires X != Y && Y != Z && X != Z && X.s == 1 && Y.s == 1
    requires |X.p| == n + 1 && |Y.p| == t + 1 && t <= n && n - t < |Z.p|
    requires Normalised(Y.p, t, Y.Mag())
    requires forall k :: 0 <= k < |Z.p| ==> Z.p[k] == 0
    modifies X, Y, Z
    ensures c <= 3 && Z.p == old(Z.p)[n - t := c] && Z.s == old(Z.s)
    ensures |X.p| > n && Y.s == 1
    ensures Normalised(Y.p, t, old(Y.Mag()))
    ensures Settled(Z.p, X.Value(), old(X.Mag()), old(Y.Mag()), n - t)
  {
    hide V, P, Pow2, BitLen, BitsToLimbs;
    ghost var xv, yv := X.Mag(), Y.Mag();
    var d := n - t;
    WFacts();
    MulNat(BIL, d);
    PPow2(d);
    DivisorTop(yv, t, d);
    VBound(X.p, 0, n + 1);
    ShiftL(Y, BIL * d);
    ghost var y := yv * P(d);
    c := 0;
    assert Z.p[d := 0] == Z.p;
    while true
      invariant X.Value() == xv - c * y >= 0 && c <= 3 && |X.p| > n
      invariant Z.p == old(Z.p)[d := c] && Z.s == old(Z.s)
      invariant Y.Mag() == y && Y.s == 1 && |Y.p| > t
      decreases 3 - c
    {
      var order := CmpMpi(X, Y);
      if order < 0 { break; }
      ThreeTimes(xv, y, c, P(n + 1));
      c := c + 1;
      Z.p := Z.p[d := WAdd(Z.p[d], 1)];
      SubMpi(X, X, Y);
    }
    ShiftR(Y, BIL * d);
    MulMod(yv, P(d));
    FirstSettled(old(Z.p), d, c, xv, yv, X.Value());
  }

  /** The remaining digits, from the top. */
  method Digits(X: Mpi, Y: Mpi, Z: Mpi, n: nat, t: nat, ghost xv: nat, ghost yv: nat)
    requires X != Y && Y != Z && X != Z && Y.s == 1
    requires |X.p| > n >= t && Normalised(Y.p, t, yv)
    requires Settled(Z.p, X.Value(), xv, yv, n - t)
    modifies X, Z
    ensures |X.p| > n && Z.s == old(Z.s) && |Z.p| == old(|Z.p|)
    ensures xv == Z.Mag() * yv + X.Mag() && X.Mag() < yv
  {
    var T1 := new Mpi();
    var T2 := new Mpi();
    T1.Grow(2);
    T2.Grow(3);
    var i := n;
    while i > t
      invariant t <= i <= n < |X.p| && |T1.p| >= 2 && |T2.p| >= 3
      invariant Z.s == old(Z.s) && |Z.p| == old(|Z.p|)
      invariant Settled(Z.p, X.Value(), xv, yv, i - t)
    {
      OneDigit(X, Y, Z, T1, T2, i, t, xv, yv);
      i := i - 1;
    }
    assert yv * P(0) == yv;
  }

  /** One digit: estimate, correct by the top limbs, subtract, and add back at most once. */
  method OneDigit(X: Mpi, Y: Mpi, Z: Mpi, T1: Mpi, T2: Mpi, i: nat, t: nat, ghost xv: nat, ghost yv: nat)
    requires X != Y && Y != Z && X != Z && T1 != T2 && T1 !in {X, Y, Z} && T2 !in {X, Y, Z}
    requires t < i < |X.p| && Y.s == 1 && |T1.p| >= 2 && |T2.p| >= 3
    requires Normalised(Y.p, t, yv) && Settled(Z.p, X.Value(), xv, yv, i - t)
    modifies X, Z, T1, T2
    ensures Z.s == old(Z.s) && |Z.p| == old(|Z.p|) && |X.p| >= old(|X.p|)
    ensures |T1.p| >= 2 && |T2.p| >= 3
    ensures Settled(Z.p, X.Value(), xv, yv, i - t - 1)
  {
    var d := i - t - 1;
    ghost var x, z := X.Mag(), Z.p;
    MulPos(yv, P(d));
    ghost var q0 := x / (yv * P(d));
    DigitIsLimb(x, yv, d);
    var q := Estimate(X.p, Y.p, i, t, yv);
    Z.p := Z.p[d := q];
    Z.p := Z.p[d := WAdd(Z.p[d], 1)];
    Refine(X, Y, Z, T1, T2, i, t, q, yv);
    q := Z.p[d];
    OneOff(X.p, Y.p, i, t, x, yv, q);
    DigitOutcome(x, yv * P(d), q);
    SubtractDigit(X, Y, T1, q, d, yv);
    WFacts();
    var order := CmpInt(X, 0);
    if order < 0 {
      AddBack(X, Y, T1, d, yv);
      Z.p := Z.p[d := WSub(Z.p[d], 1)];
    }
    DigitSettled(z, Z.p, d, x, X.Value(), xv, yv, Z.p[d]);
  }

  /** The first guess at a digit, from the top limbs; never too small. */
  method Estimate(x: seq<Limb>, y: seq<Limb>, i: nat, t: nat, ghost yv: nat) returns (q: Limb)
    requires t < i < |x| && Normalised(y, t, yv)
    requires Val(x) < yv * P(i - t)
    ensures yv * P(i - t - 1) > 0 && Val(x) / (yv * P(i - t - 1)) <= q
  {
    DividendTop(x, yv, i, t);
    TopTwoLimbs(x, i);
    TopLimbOf(y, t);
    MulPos(yv, P(i - t - 1));
    DigitIsLimb(Val(x), yv, i - t - 1);
    if x[i] >= y[t] {
      q := W - 1;
    } else {
      var r := x[i] * W + x[i - 1];
      EstimateEnough(x, yv, i, t, r, y[t]);
      QuotientIsLimb(x[i], x[i - 1], y[t]);
      r := r / y[t];
      if r > W - 1 { r := W - 1; }
      q := r;
    }
  }

  /** The top three limbs of x, and the top two of y, with zeros below the end. */
  function Three(x: seq<Limb>, i: nat): nat
    requires 0 < i < |x|
  {
    MulNat(x[i - 1], W);
    MulNat(x[i], W * W);
    (if i < 2 then 0 else x[i - 2]) + x[i - 1] * W + x[i] * (W * W)
  }

  function Two(y: seq<Limb>, t: nat): nat
    requires t < |y|
  {
    MulNat(y[t], W);
    (if t < 1 then 0 else y[t - 1]) + y[t] * W
  }

  /** Lowers the digit while its product with the top two limbs of Y exceeds the top three
      of X; it never goes below the true digit. */
  method Refine(X: Mpi, Y: Mpi, Z: Mpi, T1: Mpi, T2: Mpi, i: nat, t: nat, ghost first: Limb, ghost yv: nat)
    requires X != Z && Y != Z && T1 != T2 && T1 !in {X, Y, Z} && T2 !in {X, Y, Z}
    requires t < i < |X.p| && i - t - 1 < |Z.p| && |T1.p| >= 2 && |T2.p| >= 3
    requires Normalised(Y.p, t, yv) && X.Mag() < yv * P(i - t)
    requires yv * P(i - t - 1) > 0 && X.Mag() / (yv * P(i - t - 1)) <= first
    requires Z.p[i - t - 1] == if first == W - 1 then 0 else first + 1
    modifies Z, T1, T2
    ensures Z.s == old(Z.s) && |T1.p| >= 2 && |T2.p| >= 3
    ensures |Z.p| == old(|Z.p|) && Z.p == old(Z.p)[i - t - 1 := Z.p[i - t - 1]]
    ensures X.Mag() / (yv * P(i - t - 1)) <= Z.p[i - t - 1]
    ensures Two(Y.p, t) * Z.p[i - t - 1] <= Three(X.p, i)
  {
    var d := i - t - 1;
    ghost var q := first;
    WFacts();
    while true
      invariant Z.s == old(Z.s) && |T1.p| >= 2 && |T2.p| >= 3
      invariant |Z.p| == old(|Z.p|) && Z.p == old(Z.p)[d := Z.p[d]]
      invariant Z.p[d] == if q == W - 1 then 0 else q + 1
      invariant X.Mag() / (yv * P(d)) <= q
      decreases q
    {
      Z.p := Z.p[d := WSub(Z.p[d], 1)];
      var above := TopTest(X, Y, T1, T2, i, t, Z.p[d]);
      if !above { break; }
      NeverLow(X.p, Y.p, i, t, yv, q);
      q := q - 1;
    }
  }

  /** Compares q times the top two limbs of Y with the top three of X. */
  method TopTest(X: Mpi, Y: Mpi, T1: Mpi, T2: Mpi, i: nat, t: nat, q: Limb) returns (above: bool)
    requires T1 != T2 && T1 != X && T1 != Y && T2 != X && T2 != Y
    requires 0 < i < |X.p| && t < |Y.p| && |T1.p| >= 2 && |T2.p| >= 3
    modifies T1, T2
    ensures |T1.p| >= 2 && |T2.p| >= 3
    ensures above <==> Two(Y.p, t) * q > Three(X.p, i)
  {
    WFacts();
    T1.Lset(0);
    T1.p := T1.p[0 := if t < 1 then 0 else Y.p[t - 1]][1 := Y.p[t]];
    TwoLimbs(T1.p);
    MulInt(T1, T1, ToSigned(q));
    T2.Lset(0);
    T2.p := T2.p[0 := if i < 2 then 0 else X.p[i - 2]][1 := X.p[i - 1]][2 := X.p[i]];
    ThreeLimbs(T2.p);
    var order := CmpMpi(T1, T2);
    above := order > 0;
  }

  /** X := X - q * Y * W^d, using T1 for the product. */
  method SubtractDigit(X: Mpi, Y: Mpi, T1: Mpi, q: Limb, d: nat, ghost yv: nat)
    requires X != Y && T1 != X && T1 != Y && Y.s == 1 && Y.Mag() == yv && |X.p| > 0
    modifies X, T1
    ensures X.Value() == old(X.Value()) - q * (yv * P(d))
    ensures |X.p| >= old(|X.p|) && |T1.p| >= old(|T1.p|)
  {
    MulInt(T1, Y, ToSigned(q));
    MulNat(yv, q);
    MulNat(BIL, d);
    PPow2(d);
    ShiftL(T1, BIL * d);
    MulAssoc(q, yv, P(d));
    SubMpi(X, X, T1);
  }

  /** X := X + Y * W^d. */
  method AddBack(X: Mpi, Y: Mpi, T1: Mpi, d: nat, ghost yv: nat)
    requires X != Y && T1 != X && T1 != Y && Y.s == 1 && Y.Mag() == yv && |X.p| > 0 && |Y.p| > 0
    modifies X, T1
    ensures X.Value() == old(X.Value()) + yv * P(d)
    ensures |X.p| >= old(|X.p|) && |T1.p| >= old(|T1.p|)
  {
    T1.Copy(Y);
    MulNat(BIL, d);
    PPow2(d);
    ShiftL(T1, BIL * d);
    AddMpi(X, X, T1);
  }

  // ----- what the aliasing of Q with A or B costs -----

  /** Division in place loses the sign of the dividend: right exactly when there is none to lose. */
  lemma InPlaceQuotientIff(a: int, b: int)
    requires b != 0
    ensures TDiv(Abs(a), b) == TDiv(a, b) <==> a >= 0 || Abs(a) < Abs(b)
  {
    DivMod(Abs(a), Abs(b));
    DivNat(Abs(a), Abs(b));
    if Abs(a) / Abs(b) == 0 { DivUnique(Abs(a), Abs(b), 0, Abs(a) % Abs(b)); }
    if Abs(a) < Abs(b) { DivUnique(Abs(a), Abs(b), 0, Abs(a)); }
  }

  /** A quotient stored over the divisor loses the divisor's sign. */
  lemma OverDivisorIff(a: int, b: int)
    requires b != 0
    ensures TDiv(a, Abs(b)) == TDiv(a, b) <==> b > 0 || Abs(a) < Abs(b)
  {
    DivMod(Abs(a), Abs(b));
    DivNat(Abs(a), Abs(b));
    if Abs(a) / Abs(b) == 0 { DivUnique(Abs(a), Abs(b), 0, Abs(a) % Abs(b)); }
    if Abs(a) < Abs(b) { DivUnique(Abs(a), Abs(b), 0, Abs(a)); }
  }

  /** The remainder beside a quotient stored over the dividend is right exactly for a dividend of
      zero, and for one not below the divisor that it divides or whose sign it shares. */
  lemma RemainderOverIff(a: int, b: int)
    requires b != 0
    ensures RemainderOver(a, b) == TRem(a, b) <==>
            a == 0 || (Abs(a) >= Abs(b) && (Abs(a) % Abs(b) == 0 || (a < 0) == (b < 0)))
  {
    DivMod(Abs(a), Abs(b));
    if Abs(a) < Abs(b) { DivUnique(Abs(a), Abs(b), 0, Abs(a)); }
  }

  /** 7 by -2: the quotient over -2 comes out as 3, the remainder beside a quotient over 7 as -1;
      and -7 by 2: the quotient over -7 comes out as 3. */
  lemma OverwrittenCounterexample()
    ensures TDiv(7, Abs(-2)) == 3 && TDiv(7, -2) == -3
    ensures RemainderOver(7, -2) == -1 && TRem(7, -2) == 1
    ensures TDiv(Abs(-7), 2) == 3 && TDiv(-7, 2) == -3
  {}

  /** What a truncated division promises. */
  lemma TruncatedDivision(a: int, b: int)
    requires b != 0
    ensures a == TDiv(a, b) * b + TRem(a, b)
    ensures Abs(TRem(a, b)) < Abs(b)
    ensures TRem(a, b) != 0 ==> (TRem(a, b) < 0 <==> a < 0)
  {
    DivMod(Abs(a), Abs(b));
    MulDistSub(0, Abs(a) / Abs(b), Abs(b));
  }

  // ----- normalisation -----

  lemma BitsToLimbsUnique(i: nat, n: nat)
    requires BIL * n >= i && (n > 0 ==> BIL * (n - 1) < i)
    ensures BitsToLimbs(i) == n
  {
    var k := BitsToLimbs(i);
    if k < n { MulLe(k, n - 1, BIL); }
    if n < k { MulLe(n, k - 1, BIL); }
  }

  /** A number without zero limbs on top has exactly the limbs its bits need. */
  lemma TightLength(s: seq<Limb>, len: nat)
    requires |s| > 0 && P(|s| - 1) <= Val(s) && len == BitLen(Val(s))
    ensures |s| == BitsToLimbs(len)
  {
    hide V, P, Pow2, BitLen;
    var n := |s|;
    VBound(s, 0, n);
    MulNat(BIL, n);
    MulNat(BIL, n - 1);
    PPow2(n);
    PPow2(n - 1);
    BitLenBounds(Val(s));
    BetweenPowers(Val(s), len, BIL * (n - 1), BIL * n);
    BitsToLimbsUnique(len, n);
  }

  lemma EnoughAlready(s: seq<Limb>)
    ensures BitsToLimbs(BitLen(Val(s))) <= |s|
  {
    VBound(s, 0, |s|);
    MulNat(BIL, |s|);
    PPow2(|s|);
    if Val(s) > 0 { BetweenPowers(Val(s), BitLen(Val(s)), 0, BIL * |s|); }
    var m := BitsToLimbs(BitLen(Val(s)));
    if m > |s| { MulLe(|s|, m - 1, BIL); }
  }

  lemma BetweenPowers(v: nat, len: nat, lo: nat, hi: nat)
    requires v > 0 && len == BitLen(v) && Pow2(lo) <= v < Pow2(hi)
    ensures lo < len <= hi
  {
    BitLenBounds(v);
    if len <= lo { Pow2Mono(len, lo); }
    if hi < len { Pow2Mono(hi, len - 1); }
  }

  lemma LimbsForBits(len: nat, k: nat, n: nat)
    requires len > 0 && n == BitsToLimbs(len)
    requires k == BIL - 1 - len % BIL
    ensures Max(n, BitsToLimbs(len + k)) == BitsToLimbs(len + k) == len / BIL + 1
    ensures len + k == BIL * (len / BIL) + BIL - 1
  {
    DivMod(len, BIL);
    DivNat(len, BIL);
    MulDist(len / BIL, 1, BIL);
    BitsToLimbsUnique(len + k, len / BIL + 1);
    if n > len / BIL + 1 { MulLe(len / BIL + 1, n - 1, BIL); }
  }

  lemma TopIsLarge(s: seq<Limb>, len: nat)
    requires |s| > 0 && Val(s) > 0 && BitLen(Val(s)) == len
    requires len == BIL * (|s| - 1) + BIL - 1
    ensures Normalised(s, |s| - 1, Val(s))
  {
    hide V, P, Pow2, BitLen;
    var t := |s| - 1;
    VBound(s, 0, |s|);
    BitLenBounds(Val(s));
    PPow2(t);
    var e: nat := BIL * t;
    Pow2Split(BIL - 2, e, len - 1);
    QuarterLimb();
    if Val(s) / P(t) < Pow2(BIL - 2) {
      DivMod(Val(s), P(t));
      MulLe(Val(s) / P(t) + 1, Pow2(BIL - 2), P(t));
      MulDist(Val(s) / P(t), 1, P(t));
    }
  }

  lemma QuarterLimb()
    ensures W == 4 * Pow2(BIL - 2)
  {
    assert Pow2(BIL) == 2 * Pow2(BIL - 1);
    assert Pow2(BIL - 1) == 2 * Pow2(BIL - 2);
  }

  lemma LongerDividend(x: seq<Limb>, y: seq<Limb>)
    requires |y| > 0 && Normalised(y, |y| - 1, Val(y)) && Val(y) <= Val(x)
    ensures |x| >= |y|
  {
    TopAtLeast(Val(y), |y| - 1);
    VBound(x, 0, |x|);
    if |x| < |y| { PMono(|x|, |y| - 1); }
  }

  lemma TopAtLeast(yv: nat, t: nat)
    requires 4 * (yv / P(t)) >= W
    ensures yv >= P(t)
  {
    WFacts();
    if yv < P(t) { DivUnique(yv, P(t), 0, yv); }
  }

  lemma TopOfZ(a: seq<Limb>, k: nat, n: nat)
    requires |a| > 0 && k < BIL
    requires n + 1 == Max(Max(1, Sig(a, |a|)), BitsToLimbs(BitLen(Val(a)) + k))
    ensures n <= |a|
  {
    VBound(a, 0, |a|);
    MulNat(BIL, |a|);
    PPow2(|a|);
    if Val(a) > 0 { BetweenPowers(Val(a), BitLen(Val(a)), 0, BIL * |a|); }
    var m := BitsToLimbs(BitLen(Val(a)) + k);
    if m > |a| + 1 { MulLe(|a| + 1, m - 1, BIL); MulDist(|a|, 1, BIL); }
  }

  lemma ScaledDivision(a: nat, b: nat, f: nat)
    requires b > 0 && f > 0
    ensures b * f > 0 && (a * f) / (b * f) == a / b && (a * f) % (b * f) == (a % b) * f
    ensures ((a % b) * f) / f == a % b
  {
    var q, r := a / b, a % b;
    DivMod(a, b);
    MulPos(b, f);
    MulDist(q * b, r, f);
    MulAssoc(q, b, f);
    MulNat(r, f);
    MulLt(r, b, f);
    DivUnique(a * f, b * f, q, r * f);
    MulMod(r, f);
  }

  // ----- the first digit -----

  /** Four copies of the divisor, moved to the top, do not fit. */
  lemma DivisorTop(yv: nat, t: nat, d: nat)
    requires 4 * (yv / P(t)) >= W
    ensures 4 * (yv * P(d)) >= P(t + d + 1) && yv > 0
  {
    TopAtLeast(yv, t);
    DivMod(yv, P(t));
    MulLe(W, 4 * (yv / P(t)), P(t));
    MulAssoc(4, yv / P(t), P(t));
    assert P(t + 1) == W * P(t);
    MulLe(P(t + 1), 4 * yv, P(d));
    MulAssoc(4, yv, P(d));
    PAdd(t + 1, d);
    assert t + 1 + d == t + d + 1;
  }

  lemma ThreeTimes(xv: nat, y: nat, c: nat, top: nat)
    requires xv - c * y >= y && xv < top <= 4 * y && c <= 3
    ensures c < 3 && c * y + y == (c + 1) * y
  {
    MulDist(c, 1, y);
    if c == 3 { MulAssoc(1, c, y); }
  }

  lemma FirstSettled(z: seq<Limb>, d: nat, c: Limb, xv: nat, yv: nat, x: int)
    requires d < |z| && forall k :: 0 <= k < |z| ==> z[k] == 0
    requires x == xv - c * (yv * P(d)) && 0 <= x < yv * P(d)
    ensures Settled(z[d := c], x, xv, yv, d)
  {
    VZeros(z, 0, |z|);
    VUpdate(z, 0, |z|, d, c);
    DigitEquation(0, c, P(d), yv, xv);
  }

  // ----- one digit -----

  lemma DigitIsLimb(x: nat, yv: nat, d: nat)
    requires x < yv * P(d + 1)
    ensures yv * P(d) > 0 && 0 <= x / (yv * P(d)) < W
  {
    if yv <= 0 { MulLe(yv, 0, P(d + 1)); }
    MulPos(yv, P(d));
    var m := yv * P(d);
    MulAssoc(W, yv, P(d));
    assert x < W * m;
    DivMod(x, m);
    DivNat(x, m);
    if x / m >= W { MulLe(W, x / m, m); }
  }

  lemma DividendTop(x: seq<Limb>, yv: nat, i: nat, t: nat)
    requires t < i < |x| && yv < P(t + 1) && Val(x) < yv * P(i - t)
    ensures Val(x) < P(i + 1)
    ensures V(x, 0, i + 1) == Val(x)
  {
    MulLe(yv, P(t + 1), P(i - t));
    PAdd(t + 1, i - t);
    assert t + 1 + (i - t) == i + 1;
    VHighZero(x, 0, i + 1, |x|);
    VDropZeros(x, 0, i + 1, |x|);
  }

  lemma TopLimbOf(y: seq<Limb>, t: nat)
    requires t < |y| && Val(y) < P(t + 1)
    ensures y[t] == Val(y) / P(t) && Val(y) >= y[t] * P(t)
  {
    VHighZero(y, 0, t + 1, |y|);
    VDropZeros(y, 0, t + 1, |y|);
    VBound(y, 0, t);
    DivUnique(Val(y), P(t), y[t], V(y, 0, t));
  }

  lemma TopTwoLimbs(x: seq<Limb>, i: nat)
    requires 0 < i < |x| && V(x, 0, i + 1) == Val(x)
    ensures Val(x) < (x[i] * W + x[i - 1] + 1) * P(i - 1)
  {
    VBound(x, 0, i - 1);
    assert P(i) == W * P(i - 1);
    MulAssoc(x[i], W, P(i - 1));
    MulDist(x[i] * W + x[i - 1], 1, P(i - 1));
    MulDist(x[i] * W, x[i - 1], P(i - 1));
  }

  lemma EstimateEnough(x: seq<Limb>, yv: nat, i: nat, t: nat, r: nat, top: nat)
    requires t < i < |x| && top > 0 && yv >= top * P(t)
    requires Val(x) < (r + 1) * P(i - 1)
    requires yv * P(i - t - 1) > 0
    ensures Val(x) / (yv * P(i - t - 1)) <= r / top
  {
    var d, m := i - t - 1, P(i - 1);
    var D := yv * P(d);
    var q := Val(x) / D;
    PAdd(t, d);
    assert t + d == i - 1;
    MulLe(top * P(t), yv, P(d));
    MulAssoc(top, P(t), P(d));
    DivNat(Val(x), D);
    DivMod(Val(x), D);
    MulLe(top * m, D, q);
    MulAssoc(q, top, m);
    MulLtCancel(q * top, r + 1, m);
    DivMod(r, top);
    if q > r / top {
      MulLe(r / top + 1, q, top);
      MulDist(r / top, 1, top);
    }
  }

  lemma QuotientIsLimb(hi: Limb, lo: Limb, top: Limb)
    requires hi < top
    ensures 0 <= (hi * W + lo) / top < W
  {
    var r := hi * W + lo;
    MulNat(hi, W);
    MulLe(hi + 1, top, W);
    MulDist(hi, 1, W);
    DivNat(r, top);
    DivMod(r, top);
    if r / top >= W { MulLe(W, r / top, top); }
  }

  lemma TwoLimbs(s: seq<Limb>)
    requires |s| >= 2 && forall k :: 2 <= k < |s| ==> s[k] == 0
    ensures Val(s) == s[0] + s[1] * W
  {
    VDropZeros(s, 0, 2, |s|);
    LowTwo(s);
  }

  lemma ThreeLimbs(s: seq<Limb>)
    requires |s| >= 3 && forall k :: 3 <= k < |s| ==> s[k] == 0
    ensures Val(s) == s[0] + s[1] * W + s[2] * (W * W)
  {
    VDropZeros(s, 0, 3, |s|);
    LowTwo(s);
    assert P(2) == W * P(1) && P(1) == W;
  }

  lemma LowTwo(s: seq<Limb>)
    requires |s| >= 2
    ensures V(s, 0, 2) == s[0] + s[1] * W
  {
    assert V(s, 0, 1) == s[0] * P(0);
    assert P(1) == W * P(0);
  }

  /** W * x and its top three limbs, W * y and its top two. */
  lemma ThreeOf(x: seq<Limb>, i: nat) returns (a: nat)
    requires 0 < i < |x| && V(x, 0, i + 1) == Val(x)
    ensures Val(x) * W == Three(x, i) * P(i - 1) + a && a < P(i - 1)
  {
    hide V, P;
    PStep(i - 1);
    if i == 1 {
      LowTwo(x);
      MulDist(x[0], x[1] * W, W);
      MulAssoc(x[1], W, W);
      a := 0;
    } else {
      var p := P(i - 2);
      VBound(x, 0, i - 2);
      a := V(x, 0, i - 2) * W;
      MulLt(V(x, 0, i - 2), p, W);
      MulNat(V(x, 0, i - 2), W);
      PStep(i - 2);
      VStep(x, 0, i);
      VStep(x, 0, i - 1);
      VStep(x, 0, i - 2);
      ThreeAlgebra(V(x, 0, i - 2), x[i - 2], x[i - 1], x[i], p);
    }
  }

  lemma ThreeAlgebra(v: int, x0: int, x1: int, x2: int, p: int)
    ensures (v + x0 * p + x1 * (W * p) + x2 * (W * (W * p))) * W == (x0 + x1 * W + x2 * (W * W)) * (W * p) + v * W
  {
    calc {
      (x0 + x1 * W + x2 * (W * W)) * (W * p) + v * W;
      { MulDist(x0 + x1 * W, x2 * (W * W), W * p); MulDist(x0, x1 * W, W * p); }
      x0 * (W * p) + (x1 * W) * (W * p) + (x2 * (W * W)) * (W * p) + v * W;
      { ScaleTerm(x0, p); ScaleTerm(x1, W * p); ScaleTwice(x2, p); }
      (x0 * p) * W + (x1 * (W * p)) * W + (x2 * (W * (W * p))) * W + v * W;
      { MulDist(v, x0 * p, W); MulDist(v + x0 * p, x1 * (W * p), W);
        MulDist(v + x0 * p + x1 * (W * p), x2 * (W * (W * p)), W); }
      (v + x0 * p + x1 * (W * p) + x2 * (W * (W * p))) * W;
    }
  }

  lemma ScaleTerm(x: int, p: int)
    ensures x * (W * p) == (x * p) * W
    ensures (x * W) * p == (x * p) * W
  {}

  lemma ScaleTwice(x: int, p: int)
    ensures (x * (W * W)) * (W * p) == (x * (W * (W * p))) * W
  {}

  lemma TwoOf(y: seq<Limb>, t: nat) returns (b: nat)
    requires t < |y| && V(y, 0, t + 1) == Val(y)
    ensures Val(y) * W == Two(y, t) * P(t) + b && b < P(t)
  {
    if t == 0 {
      b := 0;
      assert V(y, 0, 1) == y[0] * P(0);
    } else {
      var p := P(t - 1);
      VBound(y, 0, t - 1);
      b := V(y, 0, t - 1) * W;
      MulLt(V(y, 0, t - 1), p, W);
      MulNat(V(y, 0, t - 1), W);
      assert P(t) == W * p;
      TwoAlgebra(V(y, 0, t - 1), y[t - 1], y[t], p);
    }
  }

  lemma TwoAlgebra(v: int, y0: int, y1: int, p: int)
    ensures (v + y0 * p + y1 * (W * p)) * W == (y0 + y1 * W) * (W * p) + v * W
  {
    calc {
      (y0 + y1 * W) * (W * p) + v * W;
      { MulDist(y0, y1 * W, W * p); }
      y0 * (W * p) + (y1 * W) * (W * p) + v * W;
      { ScaleTerm(y0, p); ScaleTerm(y1, W * p); }
      (y0 * p) * W + (y1 * (W * p)) * W + v * W;
      { MulDist(v, y0 * p, W); MulDist(v + y0 * p, y1 * (W * p), W); }
      (v + y0 * p + y1 * (W * p)) * W;
    }
  }

  /** Both scaled: M = W^(i - 1), W * x = Three * M + a and W * D = Two * M + b. */
  lemma Scaled(x: seq<Limb>, y: seq<Limb>, i: nat, t: nat, yv: nat) returns (a: nat, b: nat)
    requires t < i < |x| && Normalised(y, t, yv) && Val(x) < yv * P(i - t)
    ensures Val(x) * W == Three(x, i) * P(i - 1) + a && a < P(i - 1)
    ensures (yv * P(i - t - 1)) * W == Two(y, t) * P(i - 1) + b && b < P(i - 1)
  {
    DividendTop(x, yv, i, t);
    a := ThreeOf(x, i);
    VHighZero(y, 0, t + 1, |y|);
    VDropZeros(y, 0, t + 1, |y|);
    var b' := TwoOf(y, t);
    var p := P(i - t - 1);
    b := b' * p;
    MulNat(b', p);
    MulLt(b', P(t), p);
    PAdd(t, i - t - 1);
    assert t + (i - t - 1) == i - 1;
    MulAssoc(yv, p, W);
    MulDist(Two(y, t) * P(t), b', p);
    MulAssoc(Two(y, t), P(t), p);
  }

  /** A digit whose top product exceeds the top limbs is above the true digit. */
  lemma NeverLow(x: seq<Limb>, y: seq<Limb>, i: nat, t: nat, yv: nat, q: nat)
    requires t < i < |x| && Normalised(y, t, yv) && Val(x) < yv * P(i - t)
    requires yv * P(i - t - 1) > 0
    requires Two(y, t) * q > Three(x, i)
    ensures Val(x) / (yv * P(i - t - 1)) < q
  {
    var a, b := Scaled(x, y, i, t, yv);
    var D, M := yv * P(i - t - 1), P(i - 1);
    DivMod(Val(x), D);
    MulComm(q, Two(y, t));
    if Val(x) / D >= q {
      MulLe(q, Val(x) / D, D);
      TooLarge(Val(x), D, M, q, Three(x, i), Two(y, t), a, b);
    }
  }

  lemma TooLarge(x: nat, D: nat, M: nat, q: nat, x3: nat, y2: nat, a: nat, b: nat)
    requires x * W == x3 * M + a && a < M && D * W == y2 * M + b
    requires q * y2 > x3
    ensures q * D > x
  {
    MulLe(x3 + 1, q * y2, M);
    MulDist(x3, 1, M);
    MulAssoc(q, y2, M);
    MulDist(y2 * M, b, q);
    MulNat(q, b);
    MulAssoc(q, D, W);
    MulLtCancel(x, q * D, W);
  }

  /** A digit that passes the test is the true one or one more. */
  lemma OneOff(x: seq<Limb>, y: seq<Limb>, i: nat, t: nat, xv: nat, yv: nat, q: Limb)
    requires t < i < |x| && Normalised(y, t, yv) && xv == Val(x) < yv * P(i - t)
    requires Two(y, t) * q <= Three(x, i)
    ensures yv * P(i - t - 1) > 0
    ensures q * (yv * P(i - t - 1)) < xv + yv * P(i - t - 1)
  {
    var a, b := Scaled(x, y, i, t, yv);
    var D, M := yv * P(i - t - 1), P(i - 1);
    TopAtLeast(yv, t);
    MulPos(yv, P(i - t - 1));
    MulLe(P(t), yv, P(i - t - 1));
    PAdd(t, i - t - 1);
    assert t + (i - t - 1) == i - 1;
    MulComm(q, Two(y, t));
    NotFarAbove(xv, D, M, q, Three(x, i), Two(y, t), a, b);
  }

  lemma NotFarAbove(x: nat, D: nat, M: nat, q: nat, x3: nat, y2: nat, a: nat, b: nat)
    requires x * W == x3 * M + a && D * W == y2 * M + b && b < M <= D
    requires q * y2 <= x3 && q < W
    ensures q * D < x + D
  {
    MulLe(q * y2, x3, M);
    MulAssoc(q, y2, M);
    MulDist(y2 * M, b, q);
    MulAssoc(q, D, W);
    MulLe(q, W - 1, b);
    MulDistSub(W, 1, b);
    MulLt(b, D, W);
    assert q * b < D * W by { if b == 0 { MulPos(D, W); } }
    MulDist(x, D, W);
    MulLtCancel(q * D, x + D, W);
  }

  /** The remainder after subtracting the digit, or after adding back once. */
  lemma DigitOutcome(x: nat, D: nat, q: nat)
    requires D > 0 && q >= x / D && q * D < x + D
    ensures q * D <= x ==> x - q * D < D
    ensures q * D > x ==> q > 0 && x - (q - 1) * D == x - q * D + D && 0 <= x - (q - 1) * D < D
  {
    DivMod(x, D);
    MulLe(x / D, q, D);
    MulDistSub(q, 1, D);
  }

  lemma DigitSettled(z: seq<Limb>, z': seq<Limb>, d: nat, x: nat, x': int, xv: nat, yv: nat, q: Limb)
    requires Settled(z, x, xv, yv, d + 1) && d < |z| && z' == z[d := q]
    requires x' == x - q * (yv * P(d)) && 0 <= x' < yv * P(d)
    ensures Settled(z', x', xv, yv, d)
  {
    VUpdate(z, 0, |z|, d, q);
    DigitEquation(Val(z), q, P(d), yv, x);
  }

  lemma DigitEquation(v: int, q: int, p: int, y: int, x: int)
    ensures v * y + x == (v + q * p) * y + (x - q * (y * p))
  {
    MulDist(v, q * p, y);
    MulAssoc(q, p, y);
    MulComm(p, y);
  }
}
