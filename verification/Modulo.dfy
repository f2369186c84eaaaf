/** Remainders modulo an mpi and modulo a machine integer. */
module Modulo {
  import opened Arith
  import opened Limbs
  import opened MpiBase
  import opened Compare
  import opened AddSub
  import opened Divide
  import opened Modular

  /** 2^biH: half a limb. */
  const H: nat := Pow2(4 * CIL)

  /** mpi_mod_mpi: the remainder in [0, B). R must not be B itself: the loops below would then
      compare and change the same number and never end. */
  method ModMpi(R: Mpi, A: Mpi, B: Mpi) returns (ret: Status)
    requires |A.p| > 0 && R != B
    modifies R
    ensures ret == if B.Value() < 0 then NegativeValue else if B.Value() == 0 then DivisionByZero else Ok
    ensures !ret.Ok? ==> R.s == old(R.s) && R.p == old(R.p)
    ensures ret.Ok? ==> R.Value() == old(A.Value()) % B.Value() && R.Mag() == R.Value()
    ensures ret.Ok? && old(A.s) == 1 ==> R.s == 1
    ensures ret.Ok? ==> |R.p| >= old(|R.p|) && |R.p| > 0
  {
    hide P, RemainderOver, TDiv;
    WFacts();
    var order := CmpInt(B, 0);
    if order < 0 { return NegativeValue; }
    ghost var a, b := A.Value(), B.Value();
    ret := DivMpi(null, R, A, B);
    if !ret.Ok? { return; }
    TruncatedDivision(a, b);
    ghost var k := TDiv(a, b);
    order := CmpInt(R, 0);
    while order < 0
      invariant |R.p| >= old(|R.p|) && |R.p| > 0 && |B.p| > 0
      invariant a == k * b + R.Value() && R.Value() < b
      invariant old(A.s) == 1 ==> R.s == 1
      invariant order == Sgn(R.Value())
      decreases -R.Value()
    {
      AddMpi(R, R, B);
      MulDistSub(k, 1, b);
      k := k - 1;
      order := CmpInt(R, 0);
    }
    order := CmpMpi(R, B);
    ghost var bound := R.Value() + b;
    while order >= 0
      invariant |R.p| >= old(|R.p|) && |R.p| > 0
      invariant a == k * b + R.Value() && 0 <= R.Value() <= bound
      invariant old(A.s) == 1 ==> R.s == 1
      invariant order == Sgn(R.Value() - b)
      decreases bound
    {
      SubMpi(R, R, B);
      MulDist(k, 1, b);
      k, bound := k + 1, bound - b;
      order := CmpMpi(R, B);
    }
    DivUnique(a, b, k, R.Value());
  }

  /** One half-limb of the running remainder: (y << biH | h) mod b, in t_uint arithmetic. */
  function HalfStep(y: Limb, h: nat, b: nat): (r: Limb)
    requires 0 < b < W && h < H
    ensures r < b
  {
    HalfLimbs(y);
    ShiftedHalf(y, h) % b
  }

  /** y << biH | h */
  function ShiftedHalf(y: Limb, h: nat): (r: Limb)
    requires h < H
    ensures r == (y % H) * H + h
  {
    HalfLimbs(y);
    HalfRoom(y % H, h);
    (y * H) % W + h
  }

  /** The running remainder once the limbs from i up have been taken in. */
  function Running(p: seq<Limb>, i: nat, b: nat): (r: Limb)
    requires 0 < b < W && i <= |p|
    ensures r < b
    decreases |p| - i
  {
    if i == |p| then 0 else
    HalfLimbs(p[i]);
    HalfStep(HalfStep(Running(p, i + 1, b), p[i] / H, b), p[i] % H, b)
  }

  /** mpi_mod_int */
  method ModInt(A: Mpi, b: SLimb) returns (ret: Status, r: Limb)
    requires b == 2 ==> |A.p| > 0
    ensures ret == if b == 0 then DivisionByZero else if b < 0 then NegativeValue else Ok
    ensures ret.Ok? && (b <= H || W % b == 0) ==> r == A.Value() % b
    ensures ret.Ok? && b > 2 ==>
              r == var y := Running(A.p, 0, b); if A.s < 0 && y != 0 then b - y else y
  {
    WFacts();
    r := 0;
    if b == 0 { return DivisionByZero, 0; }
    if b < 0 { return NegativeValue, 0; }
    if b == 1 { return Ok, 0; }
    if b == 2 {
      Parity(A.p);
      return Ok, A.p[0] % 2;
    }
    var i, y: Limb := |A.p|, 0;
    while i > 0
      invariant 0 <= i <= |A.p| && y == Running(A.p, i, b)
    {
      var x := A.p[i - 1];
      HalfLimbs(x);
      y := ShiftedHalf(y, x / H);
      y := Reduce(y, b);
      x := (x * H) % W;
      y := ShiftedHalf(y, x / H);
      y := Reduce(y, b);
      i := i - 1;
    }
    if b <= H || W % b == 0 {
      RunningExact(A.p, 0, b);
      NegativeRemainder(A.Mag(), b);
    }
    if A.s < 0 && y != 0 { y := b - y; }
    return Ok, y;
  }

  /** z = y / b; y -= z * b */
  method Reduce(y: Limb, b: nat) returns (r: Limb)
    requires 0 < b < W
    ensures r == y % b
  {
    DivMod(y, b);
    var z := y / b;
    r := y - z * b;
  }

  /** The half-limb method is right for every number exactly when the divisor fits half a limb,
      or divides W. */
  lemma RunningIff(b: nat)
    requires 0 < b < W
    ensures (forall p: seq<Limb> :: Running(p, 0, b) == Val(p) % b) <==> (b <= H || W % b == 0)
  {
    if b <= H || W % b == 0 {
      forall p: seq<Limb> ensures Running(p, 0, b) == Val(p) % b {
        RunningExact(p, 0, b);
      }
    } else {
      LostHalf(b);
    }
  }

  /** For any other divisor, the number W itself comes out as 0. */
  lemma LostHalf(b: nat)
    requires H < b < W && W % b != 0
    ensures var p: seq<Limb> := [0, 1]; Running(p, 0, b) != Val(p) % b
  {
    WFacts();
    HalfSquare();
    var p: seq<Limb> := [0, 1];
    VFirst(p, 0, 2);
    SingleLimb(p[1..]);
    assert p[1..1 + 1] == p[1..][0..0 + 1];
    VMove(p, 1, p[1..], 0, 1);
    DivUnique(1, H, 0, 1);
    DivUnique(0, H, 0, 0);
    DivUnique(H, H, 1, 0);
    DivUnique(0, b, 0, 0);
    DivUnique(1, b, 0, 1);
    DivUnique(H, b, 0, H);
    assert Running(p, 2, b) == 0;
    assert HalfStep(0, 0, b) == 0;
    assert HalfStep(0, 1, b) == 1;
    assert Running(p, 1, b) == 1;
    assert HalfStep(1, 0, b) == H;
    assert HalfStep(H, 0, b) == 0;
  }

  lemma {:induction false} RunningExact(p: seq<Limb>, i: nat, b: nat)
    requires 0 < b < W && i <= |p| && (b <= H || W % b == 0)
    ensures Running(p, i, b) == V(p, i, |p| - i) % b
    decreases |p| - i
  {
    hide HalfStep;
    if i == |p| {
      DivUnique(0, b, 0, 0);
    } else {
      RunningExact(p, i + 1, b);
      var y, v, x := Running(p, i + 1, b), V(p, i + 1, |p| - i - 1), p[i];
      VFirst(p, i, |p| - i);
      HalfLimbs(x);
      HalfSquare();
      var y1 := HalfStep(y, x / H, b);
      HalfStepCong(y, x / H, b);
      HalfStepCong(y1, x % H, b);
      CongMod(v, b);
      TwoHalves(y, v, x, y1, b);
      CongSameMod(HalfStep(y1, x % H, b), x + v * W, b);
      DivUnique(HalfStep(y1, x % H, b), b, 0, HalfStep(y1, x % H, b));
    }
  }

  lemma TwoHalves(y: Limb, v: nat, x: Limb, y1: Limb, b: nat)
    requires 0 < b < W && W == H * H && 0 <= x / H < H && 0 <= x % H < H && x == (x / H) * H + x % H
    requires y1 == HalfStep(y, x / H, b) && Cong(y, v, b)
    requires Cong(y1, y * H + x / H, b)
    requires Cong(HalfStep(y1, x % H, b), y1 * H + x % H, b)
    ensures Cong(HalfStep(y1, x % H, b), x + v * W, b)
  {
    var r := HalfStep(y1, x % H, b);
    CongMulLeft(y, v, H, b);
    MulComm(H, y);
    MulComm(H, v);
    CongAdd(y * H, v * H, x / H, x / H, b) by { CongRefl(x / H, b); }
    CongTrans(y1, y * H + x / H, v * H + x / H, b);
    CongMulLeft(y1, v * H + x / H, H, b);
    MulComm(H, y1);
    CongAdd(y1 * H, H * (v * H + x / H), x % H, x % H, b) by { CongRefl(x % H, b); }
    CongTrans(r, y1 * H + x % H, H * (v * H + x / H) + x % H, b);
    MulDist(v * H, x / H, H);
    MulAssoc(v, H, H);
    MulComm(H, v * H);
    MulComm(H, x / H);
  }

  lemma HalfStepCong(y: Limb, h: nat, b: nat)
    requires 0 < b < W && h < H && (W % b == 0 || y < H)
    ensures Cong(HalfStep(y, h, b), y * H + h, b)
  {
    HalfLimbs(y);
    HalfSquare();
    var s := ShiftedHalf(y, h);
    CongMod(s, b);
    if y < H {
      DivUnique(y, H, 0, y);
    } else {
      DivMod(W, b);
      var k := W / b;
      MulDist((y / H) * H, y % H, H);
      MulAssoc(y / H, H, H);
      MulAssoc(y / H, k, b);
      MulDistSub(0, (y / H) * k, b);
      CongFrom(s, y * H + h, -((y / H) * k), b);
      CongTrans(HalfStep(y, h, b), s, y * H + h, b);
    }
  }

  lemma HalfSquare()
    ensures W == H * H && H >= 16
  {
    Pow2Split(4 * CIL, 4 * CIL, BIL);
    Pow2Mono(4, 4 * CIL);
    assert Pow2(4) == 16;
  }

  lemma HalfLimbs(x: Limb)
    ensures 0 <= x / H < H && 0 <= x % H < H && x == (x / H) * H + x % H
    ensures (x * H) % W == (x % H) * H && 0 <= (x * H) % W < W && ((x * H) % W) / H == x % H
  {
    HalfSquare();
    DivMod(x, H);
    DivNat(x, H);
    if x / H >= H { MulLe(H, x / H, H); }
    HalfRoom(x % H, 0);
    MulDist((x / H) * H, x % H, H);
    MulAssoc(x / H, H, H);
    MulNat(x % H, H);
    DivUnique(x * H, W, x / H, (x % H) * H);
    MulMod(x % H, H);
  }

  lemma HalfRoom(a: nat, h: nat)
    requires a < H && h < H
    ensures 0 <= a * H + h < W
  {
    HalfSquare();
    MulNat(a, H);
    MulLe(a + 1, H, H);
    MulDist(a, 1, H);
  }

  lemma Parity(p: seq<Limb>)
    requires |p| > 0
    ensures p[0] % 2 == Val(p) % 2 == (0 - Val(p) as int) % 2
  {
    WFacts();
    VFirst(p, 0, |p|);
    var hi := V(p, 1, |p| - 1);
    MulAssoc(hi, W / 2, 2);
    ModMultiple(p[0], hi * (W / 2), 2);
  }

  lemma NegativeRemainder(m: int, b: int)
    requires m >= 0 && b > 0
    ensures (-m) % b == if m % b == 0 then 0 else b - m % b
  {
    DivMod(m, b);
    var q, r := m / b, m % b;
    MulDistSub(0, q, b);
    MulDistSub(0, q + 1, b);
    MulDist(q, 1, b);
    if r == 0 { DivUnique(-m, b, -q, 0); } else { DivUnique(-m, b, -(q + 1), b - r); }
  }
}
