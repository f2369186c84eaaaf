/** Montgomery multiplication over a sliding window of a scratch number. */
module Montgomery {
  import opened Arith
  import opened Limbs
  import opened MpiBase
  import opened Compare
  import opened AddSub
  import opened Multiply
  import opened Modular

  /** t_uint multiplication, which wraps around at W. */
  function WMul(x: Limb, y: Limb): Limb {
    DivMod(x * y, W);
    (x * y) % W
  }

  /** One Newton step x * (2 - m0 * x) in t_uint arithmetic. */
  function Newton(m0: Limb, x: Limb): Limb {
    WFacts();
    WMul(x, WSub(2, WMul(m0, x)))
  }

  /** m0 + (((m0 + 2) & 4) << 1), the inverse modulo 16 of an odd m0. */
  function Guess(m0: Limb): Limb {
    WFacts();
    WAdd(m0, ((WAdd(m0, 2) / 4) % 2) * 8)
  }

  /** mpi_montg_init: minus the inverse of an odd limb modulo W. */
  method MontgInit(m0: Limb) returns (mm: Limb)
    requires m0 % 2 == 1
    ensures Cong(m0 * mm, -1, W)
  {
    hide V, P, Pow2;
    WFacts();
    var x := Guess(m0);
    FourBits(m0);
    NewtonDoubles(m0, x, 4);
    x := Newton(m0, x);
    if BIL >= 16 { NewtonDoubles(m0, x, 8); x := Newton(m0, x); }
    if BIL >= 32 { NewtonDoubles(m0, x, 16); x := Newton(m0, x); }
    if BIL >= 64 { NewtonDoubles(m0, x, 32); x := Newton(m0, x); }
    Widths();
    mm := WSub(0, x);
    NegatedInverse(m0, x, mm);
  }

  /** What a Montgomery call needs of its operands: n limbs of modulus, an extra limb in A,
      and a scratch number of twice that. */
  ghost predicate MontReady(A: Mpi, B: Mpi, N: Mpi, mm: Limb, T: Mpi)
    reads A, B, N, T
  {
    && |N.p| > 0 && |B.p| > 0 && |A.p| >= |N.p| + 1 && |T.p| >= 2 * |N.p| + 2
    && T != A && T != B && T != N && N != A
    && N.Mag() > 0 && B.Mag() <= N.Mag()
    && (forall k :: |N.p| < k < |A.p| ==> A.p[k] == 0)
    && Cong(N.p[0] * mm, -1, W)
  }

  /** mpi_montmul: A := A * B / W^n mod N, where A and B may be the same object. */
  method MontMul(A: Mpi, B: Mpi, N: Mpi, mm: Limb, T: Mpi)
    requires MontReady(A, B, N, mm, T)
    modifies A, T
    ensures A.s == old(A.s) && |A.p| == old(|A.p|) && |T.p| == old(|T.p|)
    ensures A.Mag() < N.Mag()
    ensures Cong(A.Mag() * P(|N.p|), old(V(A.p, 0, |N.p|)) * old(B.Mag()), N.Mag())
    ensures forall k :: |N.p| < k < |A.p| ==> A.p[k] == 0
  {
    hide V, P, Pow2;
    var n := |N.p|;
    ghost var a, bv, nv := A.p, B.Mag(), N.Mag();
    T.p := Zeros(|T.p|);
    var m := if |B.p| < n then |B.p| else n;
    VBound(N.p, 0, n);
    LowLimbsOf(B.p, m, n, nv);
    ghost var t, K := MontLoop(A, B, m, N, mm, T);
    WindowFits(T.p, n, t, nv);
    A.p := T.p[n..2 * n + 1] + A.p[n + 1..];
    WindowCopied(T.p, A.p, n);
    var order := CmpAbs(A, N);
    if order >= 0 {
      SubHlp(n, N.p, A);
      Reduced(t, a, n, bv, K, nv);
    } else {
      CongFrom(t * P(n), V(a, 0, n) * bv, K, nv);
      DummyInside(T.p, A.p, n, t);
      SubHlp(n, A.p, T);
    }
    HighLimbsZero(A.p, n, nv);
  }

  /** All rounds: the window of T ends at limb n, holding t with t * W^n = A * B + K * N. */
  method MontLoop(A: Mpi, B: Mpi, m: nat, N: Mpi, mm: Limb, T: Mpi) returns (ghost t: nat, ghost K: int)
    requires MontReady(A, B, N, mm, T)
    requires 0 < m <= |B.p| && m <= |N.p| && V(B.p, 0, m) == B.Mag()
    requires forall k :: 0 <= k < |T.p| ==> T.p[k] == 0
    modifies T
    ensures T.s == old(T.s) && |T.p| == old(|T.p|)
    ensures t == V(T.p, |N.p|, |T.p| - |N.p|) < N.Mag() + B.Mag()
    ensures t * P(|N.p|) == V(A.p, 0, |N.p|) * B.Mag() + K * N.Mag()
  {
    ghost var bv, nv, len := B.Mag(), N.Mag(), |T.p|;
    K := 0;
    VZeros(T.p, 0, |T.p|);
    t := 0;
    var i := 0;
    while i < |N.p|
      invariant 0 <= i <= |N.p| && |T.p| == len && T.s == old(T.s)
      invariant t == V(T.p, i, len - i) < nv + bv
      invariant t * P(i) == V(A.p, 0, i) * bv + K * nv
    {
      var u0 := A.p[i];
      ghost var u1 := MontRound(T, B.p, m, N.p, mm, i, u0);
      ghost var t' := V(T.p, i + 1, len - i - 1);
      RoundEquation(t, t', V(A.p, 0, i), bv, K, nv, u0, u1, P(i));
      K := K + u1 * P(i);
      t := t';
      i := i + 1;
    }
  }

  /** One round: the window moves up a limb and holds (t + u0 * B + u1 * N) / W,
      where u1 makes the sum divisible by W; u0 is left behind in the limb given up. */
  method MontRound(T: Mpi, b: seq<Limb>, m: nat, nn: seq<Limb>, mm: Limb, i: nat, u0: Limb)
    returns (ghost u1: Limb)
    requires 0 < m <= |b| && m <= |nn| && i < |nn| && |T.p| >= 2 * |nn| + 2
    requires V(b, 0, m) <= Val(nn)
    requires V(T.p, i, |T.p| - i) < Val(nn) + V(b, 0, m)
    requires Cong(nn[0] * mm, -1, W)
    modifies T
    ensures T.s == old(T.s) && |T.p| == old(|T.p|)
    ensures V(T.p, i + 1, |T.p| - i - 1) * W == old(V(T.p, i, |T.p| - i)) + V(b, 0, m) * u0 + Val(nn) * u1
    ensures V(T.p, i + 1, |T.p| - i - 1) < Val(nn) + V(b, 0, m)
  {
    hide V, P, Pow2;
    var n := |nn|;
    ghost var t, bv, nv, len := V(T.p, i, |T.p| - i), V(b, 0, m), Val(nn), |T.p|;
    var q := WMul(WAdd(T.p[i], WMul(u0, b[0])), mm);
    u1 := q;
    ghost var low, high := T.p[i], V(T.p, i + 1, len - i - 1);
    VFirst(T.p, i, len - i);
    RoundRoom(nn, t, bv, nv, u0, u1, len - i);
    MulHlp(m, b, T, i, u0);
    MulHlp(n, nn, T, i, q);
    ghost var t' := V(T.p, i, len - i);
    VFirst(T.p, i, len - i);
    ghost var up := V(T.p, i + 1, len - i - 1);
    VFirst(b, 0, m);
    VFirst(nn, 0, n);
    CongFrom(t, low, high, W);
    CongFrom(bv, b[0], V(b, 1, m - 1), W);
    CongFrom(nv, nn[0], V(nn, 1, n - 1), W);
    RoundDivisible(T.p[i], up, low, t, b[0], bv, nn[0], nv, u0, u1, mm, t');
    RoundBound(t, bv, nv, u0, u1, up);
    ghost var before := T.p;
    T.p := T.p[i := u0];
    VFrame(before, T.p, i + 1, len - i - 1);
    ClearedLimb(T.p, i + 1, nn, bv);
    ghost var settled := T.p;
    T.p := T.p[i + n + 2 := 0];
    assert T.p == settled;
  }

  /** mpi_montred: A := A / W^n mod N. */
  method MontRed(A: Mpi, N: Mpi, mm: Limb, T: Mpi)
    requires |N.p| > 0 && |A.p| >= |N.p| + 1 && |T.p| >= 2 * |N.p| + 2
    requires T != A && T != N && N != A && N.Mag() > 0
    requires forall k :: |N.p| < k < |A.p| ==> A.p[k] == 0
    requires Cong(N.p[0] * mm, -1, W)
    modifies A, T
    ensures A.s == old(A.s) && |A.p| == old(|A.p|) && |T.p| == old(|T.p|)
    ensures A.Mag() < N.Mag()
    ensures Cong(A.Mag() * P(|N.p|), old(V(A.p, 0, |N.p|)), N.Mag())
    ensures forall k :: |N.p| < k < |A.p| ==> A.p[k] == 0
  {
    var U := new Mpi();
    WFacts();
    U.p := [1];
    SingleLimb(U.p);
    MontMul(A, U, N, mm, T);
  }

  // ----- the inverse of the low limb -----

  /** The starting value is right in its low four bits. */
  lemma FourBits(m0: Limb)
    requires m0 % 2 == 1
    ensures Cong(m0 * Guess(m0), 1, Pow2(4))
  {
    assert Pow2(4) == 16;
    hide Cong, Guess, Pow2, LowGuess;
    var a, r := OddParts(m0);
    var y := LowGuess(r);
    var z := GuessParts(m0, a, r);
    OddInverse(r);
    FourBitsOf(m0, Guess(m0), a, r, z, y);
  }

  lemma FourBitsOf(m: int, g: int, a: int, r: int, z: int, y: int)
    requires m == 16 * a + r && g == 16 * z + y && (r * y) % 16 == 1
    ensures Cong(m * g, 1, 16)
  {
    hide Cong;
    var k := SixteenTimes(r * y);
    FourBitsAlgebra(a, r, z, y, k);
    CongFrom((16 * a + r) * (16 * z + y), 1, 16 * (a * z) + a * y + r * z + k, 16);
  }

  lemma SixteenTimes(x: int) returns (k: int)
    requires x % 16 == 1
    ensures x == 16 * k + 1
  {
    k := x / 16;
  }

  /** The starting value for the low four bits. */
  function LowGuess(r: nat): nat {
    r + 8 * (((r + 2) / 4) % 2)
  }

  lemma OddParts(m: nat) returns (a: nat, r: nat)
    requires m % 2 == 1
    ensures m == 16 * a + r && r < 16 && r % 2 == 1
  {
    a, r := m / 16, m % 16;
  }

  lemma GuessParts(m0: Limb, a: nat, r: nat) returns (z: int)
    requires m0 == 16 * a + r && r < 16
    ensures Guess(m0) == 16 * z + LowGuess(r)
  {
    WideEnough();
    var h := W / 16;
    var m2 := WAdd(m0, 2);
    BitTwo(m2, a - (if m0 + 2 < W then 0 else h), r);
    z := a - (if m0 + 8 * (((r + 2) / 4) % 2) < W then 0 else h);
  }

  lemma BitTwo(m: int, z: int, r: int)
    requires m == 16 * z + r + 2
    ensures (m / 4) % 2 == ((r + 2) / 4) % 2
  {
    DivMod(r + 2, 4);
    DivUnique(m, 4, 4 * z + (r + 2) / 4, (r + 2) % 4);
    ModMultiple((r + 2) / 4, 2 * z, 2);
  }

  lemma OddInverse(r: nat)
    requires r < 16 && r % 2 == 1
    ensures (r * LowGuess(r)) % 16 == 1
  {
    if r == 1 {} else if r == 3 {} else if r == 5 {} else if r == 7 {}
    else if r == 9 {} else if r == 11 {} else if r == 13 {} else { assert r == 15; }
  }

  lemma FourBitsAlgebra(a: int, r: int, z: int, y: int, k: int)
    requires r * y == 16 * k + 1
    ensures (16 * a + r) * (16 * z + y) == 1 + (16 * (a * z) + a * y + r * z + k) * 16
  {}

  lemma WideEnough()
    ensures W % 16 == 0 && W == 16 * (W / 16)
  {
    Pow2Split(4, BIL - 4, BIL);
    assert Pow2(4) == 16;
  }

  /** A Newton step doubles the number of right bits. */
  lemma NewtonDoubles(m0: Limb, x: Limb, k: nat)
    requires 2 * k <= BIL && Cong(m0 * x, 1, Pow2(k))
    ensures Cong(m0 * Newton(m0, x), 1, Pow2(2 * k))
  {
    hide Newton, Pow2, Cong;
    var d, c := Pow2(k), Pow2(BIL - 2 * k);
    Pow2Split(k, k, 2 * k);
    Pow2Split(BIL - 2 * k, 2 * k, BIL);
    var y, q, q' := NewtonQuotients(m0, x);
    var j := CongWitness(m0 * x, 1, d);
    NewtonAlgebra(m0, x, y, Newton(m0, x), q, q', j, d, c);
    CongFrom(m0 * Newton(m0, x), 1, m0 * (x * q - q') * c - j * j, d * d);
  }

  lemma NewtonQuotients(m0: Limb, x: Limb) returns (y: int, q: int, q': int)
    ensures y == 2 - m0 * x + q * W && x * y == q' * W + Newton(m0, x)
  {
    WFacts();
    y := WSub(2, WMul(m0, x));
    DivMod(m0 * x, W);
    var e := if 2 >= WMul(m0, x) then 0 else 1;
    q := (m0 * x) / W + e;
    MulDist((m0 * x) / W, e, W);
    q' := (x * y) / W;
    DivMod(x * y, W);
  }

  lemma NewtonAlgebra(m: int, x: int, y: int, z: int, q: int, q': int, j: int, d: int, c: int)
    requires m * x == 1 + j * d && W == c * (d * d)
    requires y == 2 - m * x + q * W && x * y == q' * W + z
    ensures m * z == 1 + (m * (x * q - q') * c - j * j) * (d * d)
  {
    var mx := m * x;
    calc {
      m * z;
      m * (x * y - q' * W);
      m * (x * y) - m * (q' * W);
      { MulAssoc(m, x, y); }
      mx * y - m * (q' * W);
      mx * (2 - mx + q * W) - m * (q' * W);
      { NewtonSquare(mx, q * W); }
      1 - (mx - 1) * (mx - 1) + mx * (q * W) - m * (q' * W);
      { assert mx - 1 == j * d; NewtonTerms(m, x, q, q', W); }
      1 - (j * d) * (j * d) + m * (x * q - q') * W;
      { MulAssoc(m * (x * q - q'), c, d * d); NewtonSquares(j, d); }
      1 - (j * j) * (d * d) + (m * (x * q - q') * c) * (d * d);
      { MulDistSub(m * (x * q - q') * c, j * j, d * d); }
      1 + (m * (x * q - q') * c - j * j) * (d * d);
    }
  }

  lemma NewtonSquare(a: int, b: int)
    ensures a * (2 - a + b) == 1 - (a - 1) * (a - 1) + a * b
  {}

  lemma NewtonSquares(j: int, d: int)
    ensures (j * d) * (j * d) == (j * j) * (d * d)
  {}

  lemma NewtonTerms(m: int, x: int, q: int, q': int, w: int)
    ensures (m * x) * (q * w) - m * (q' * w) == m * (x * q - q') * w
  {}

  lemma Widths()
    ensures BIL == 8 || BIL == 16 || BIL == 32 || BIL == 64
  {
    assert CIL == 1 || CIL == 2 || CIL == 3 || CIL == 4 || CIL == 5 || CIL == 6 || CIL == 7 || CIL == 8;
  }

  lemma NegatedInverse(m0: Limb, x: Limb, mm: Limb)
    requires Cong(m0 * x, 1, W) && mm == WSub(0, x)
    ensures Cong(m0 * mm, -1, W)
  {
    var j := CongWitness(m0 * x, 1, W);
    var e := if x == 0 then 0 else 1;
    assert mm == e * W - x;
    MulDistSub(e * W, x, m0);
    MulAssoc(m0, e, W);
    MulDistSub(m0 * e, j, W);
    CongFrom(m0 * mm, -1, m0 * e - j, W);
  }

  // ----- one round -----

  lemma RoundRoom(nn: seq<Limb>, t: nat, bv: nat, nv: nat, u0: Limb, u1: Limb, len: nat)
    requires nv == Val(nn) && bv <= nv && t < nv + bv && len >= |nn| + 3
    ensures t + bv * u0 < P(len) && t + bv * u0 + nv * u1 < P(len)
    ensures bv * u0 >= 0 && nv * u1 >= 0
  {
    VBound(nn, 0, |nn|);
    WFacts();
    MulLe(u0, W - 1, bv);
    MulLe(u1, W - 1, nv);
    MulNat(bv, u0);
    MulNat(nv, u1);
    MulDistSub(W, 1, bv);
    MulDistSub(W, 1, nv);
    var p := P(|nn|);
    MulLe(nv, p, W);
    MulLe(bv, p, W);
    assert t + bv * u0 + nv * u1 < 2 * (W * p);
    assert W * p == P(|nn| + 1);
    MulLe(2, W, P(|nn| + 1));
    assert W * P(|nn| + 1) == P(|nn| + 2);
    PMono(|nn| + 2, len);
  }

  /** The choice of u1 clears the low limb. */
  lemma RoundDivisible(x: Limb, up: int, low: Limb, t: int, b0: Limb, bv: int, n0: Limb, nv: int,
                       u0: Limb, u1: Limb, mm: Limb, t': int)
    requires u1 == WMul(WAdd(low, WMul(u0, b0)), mm)
    requires Cong(n0 * mm, -1, W)
    requires t' == t + bv * u0 + nv * u1 && t' == x + up * W
    requires Cong(t, low, W) && Cong(bv, b0, W) && Cong(nv, n0, W)
    ensures x == 0
  {
    var y := WAdd(low, WMul(u0, b0));
    CongMul(bv, b0, u0, u0, W) by { CongRefl(u0, W); }
    CongMul(nv, n0, u1, u1, W) by { CongRefl(u1, W); }
    CongMod(u0 * b0, W);
    CongSym(WMul(u0, b0), u0 * b0, W);
    CongAdd(t, low, bv * u0, WMul(u0, b0), W) by { CongTrans(bv * u0, u0 * b0, WMul(u0, b0), W); }
    CongFrom(low + WMul(u0, b0), y, if low + WMul(u0, b0) < W then 0 else 1, W);
    CongTrans(t + bv * u0, low + WMul(u0, b0), y, W);
    CongMod(y * mm, W);
    CongMulLeft(u1, y * mm, n0, W);
    CongMulLeft(n0 * mm, -1, y, W);
    assert n0 * (y * mm) == y * (n0 * mm) by { MulAssoc(n0, y, mm); MulAssoc(y, n0, mm); }
    CongTrans(n0 * u1, n0 * (y * mm), -y, W);
    CongTrans(nv * u1, n0 * u1, -y, W);
    CongAdd(t + bv * u0, y, nv * u1, -y, W);
    CongFrom(t', x, up, W);
    CongSym(t', x, W);
    CongTrans(x, t', 0, W);
    CongSameMod(x, 0, W);
    DivUnique(x, W, 0, x);
    DivUnique(0, W, 0, 0);
  }

  lemma RoundBound(t: int, bv: int, nv: int, u0: Limb, u1: Limb, up: int)
    requires 0 <= bv && 0 <= nv && t < nv + bv
    requires up * W == t + bv * u0 + nv * u1
    ensures up < nv + bv
  {
    MulLe(u0, W - 1, bv);
    MulLe(u1, W - 1, nv);
    MulDistSub(W, 1, bv);
    MulDistSub(W, 1, nv);
    MulDist(nv, bv, W);
    MulLtCancel(up, nv + bv, W);
  }

  /** The limb that the round clears was already zero. */
  lemma ClearedLimb(t: seq<Limb>, i: nat, nn: seq<Limb>, bv: nat)
    requires i + |nn| + 1 < |t| && bv <= Val(nn)
    requires V(t, i, |t| - i) < Val(nn) + bv
    ensures t[i + |nn| + 1] == 0
  {
    TwiceFits(nn);
    VHighZero(t, i, |nn| + 1, |t| - i);
  }

  lemma TwiceFits(nn: seq<Limb>)
    ensures 2 * Val(nn) < P(|nn| + 1)
  {
    VBound(nn, 0, |nn|);
    WFacts();
    MulLe(2, W, P(|nn|));
    assert P(|nn| + 1) == W * P(|nn|);
  }

  /** The loop equation t * W^i = A[..i] * B + K * N survives a round. */
  lemma RoundEquation(t: int, t': int, a: int, bv: int, K: int, nv: int, u0: int, u1: int, p: int)
    requires t * p == a * bv + K * nv
    requires t' * W == t + bv * u0 + nv * u1
    ensures t' * (W * p) == (a + u0 * p) * bv + (K + u1 * p) * nv
  {
    calc {
      t' * (W * p);
      { MulAssoc(t', W, p); }
      (t + bv * u0 + nv * u1) * p;
      t * p + (bv * u0) * p + (nv * u1) * p;
      { MulAssoc(bv, u0, p); MulAssoc(nv, u1, p); }
      a * bv + K * nv + bv * (u0 * p) + nv * (u1 * p);
      { MulDist(a, u0 * p, bv); MulDist(K, u1 * p, nv); }
      (a + u0 * p) * bv + (K + u1 * p) * nv;
    }
  }

  // ----- the end of the multiplication -----

  lemma Reduced(t: int, a: seq<Limb>, n: nat, bv: int, K: int, nv: int)
    requires n <= |a| && nv > 0
    requires t * P(n) == V(a, 0, n) * bv + K * nv
    ensures Cong((t - nv) * P(n), V(a, 0, n) * bv, nv)
  {
    MulDistSub(t, nv, P(n));
    MulDistSub(K, P(n), nv);
    CongFrom((t - nv) * P(n), V(a, 0, n) * bv, K - P(n), nv);
  }

  lemma LowLimbsOf(b: seq<Limb>, m: nat, n: nat, nv: nat)
    requires m == Min(|b|, n) && Val(b) <= nv < P(n)
    ensures V(b, 0, m) == Val(b)
  {
    if m < |b| {
      VHighZero(b, 0, n, |b|);
      VDropZeros(b, 0, n, |b|);
    }
  }

  lemma WindowFits(t: seq<Limb>, n: nat, v: nat, nv: nat)
    requires 2 * n + 1 <= |t| && v == V(t, n, |t| - n) && v < 2 * nv && nv < P(n)
    ensures forall k :: 2 * n + 1 <= k < |t| ==> t[k] == 0
    ensures V(t, n, n + 1) == v
  {
    WFacts();
    MulLe(2, W, P(n));
    assert P(n + 1) == W * P(n);
    VHighZero(t, n, n + 1, |t| - n);
    VDropZeros(t, n, n + 1, |t| - n);
  }

  lemma WindowCopied(t: seq<Limb>, a: seq<Limb>, n: nat)
    requires 2 * n + 1 <= |t| && n + 1 <= |a|
    requires a[..n + 1] == t[n..2 * n + 1]
    requires forall k :: n < k < |a| ==> a[k] == 0
    ensures Val(a) == V(t, n, n + 1)
  {
    VDropZeros(a, 0, n + 1, |a|);
    assert a[0..0 + (n + 1)] == t[n..n + (n + 1)];
    VMove(a, 0, t, n, n + 1);
  }

  /** The dummy subtraction takes from the scratch number no more than it holds. */
  lemma DummyInside(t: seq<Limb>, a: seq<Limb>, n: nat, v: nat)
    requires n <= |t| && n <= |a| && v == V(t, n, |t| - n) && Val(a) == v
    ensures V(a, 0, n) <= Val(t)
  {
    VSplit(t, 0, n, |t|);
    VSplit(a, 0, n, |a|);
    MulLe(1, P(n), v);
    MulNat(V(a, n, |a| - n), P(n));
  }

  lemma HighLimbsZero(a: seq<Limb>, n: nat, nv: nat)
    requires n <= |a| && Val(a) < nv < P(n)
    ensures forall k :: n <= k < |a| ==> a[k] == 0
    ensures V(a, 0, n) == Val(a)
  {
    VHighZero(a, 0, n, |a|);
    VDropZeros(a, 0, n, |a|);
  }
}
