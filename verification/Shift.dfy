/** Shifts of mpi numbers by any number of bits. */
module Shift {
  import opened Arith
  import opened Bits
  import opened Limbs
  import opened MpiBase

  /** BITS_TO_LIMBS */
  function BitsToLimbs(i: nat): (n: nat)
    ensures BIL * n >= i && (n > 0 ==> BIL * (n - 1) < i)
  {
    var n := (i + BIL - 1) / BIL;
    DivMod(i + BIL - 1, BIL);
    MulDistSub(n, 1, BIL);
    n
  }

  /** mpi_shift_l: X := X * 2^count. */
  method ShiftL(X: Mpi, count: nat)
    requires |X.p| > 0
    modifies X
    ensures X.s == old(X.s)
    ensures X.Mag() == old(X.Mag()) * Pow2(count)
    ensures |X.p| == Max(old(|X.p|), BitsToLimbs(BitLen(old(X.Mag())) + count))
  {
    hide V, P, Pow2, BitLen, BitsToLimbs;
    DivNat(count, BIL);
    var v0 := count / BIL;
    var t1 := count % BIL;
    var bits := X.Msb();
    ghost var m := X.Mag();
    MakeRoom(X, bits + count);
    LimbsOfCount(count, v0, t1);
    Fits(m, v0, t1, count, |X.p|);
    MoveUp(X, v0, t1);
    MulAssoc(m, P(v0), Pow2(t1));
  }

  /** Grows the number to the given bits where it has fewer. */
  method MakeRoom(X: Mpi, need: nat)
    requires |X.p| > 0
    modifies X
    ensures X.s == old(X.s) && X.Mag() == old(X.Mag())
    ensures |X.p| == Max(old(|X.p|), BitsToLimbs(need))
  {
    hide V, BitsToLimbs;
    EnoughLimbs(|X.p|, need);
    if |X.p| * BIL < need { X.Grow(BitsToLimbs(need)); }
  }

  /** Whole limbs first and then the bits within limbs, where there is room for the product. */
  method MoveUp(X: Mpi, v0: nat, t1: nat)
    requires v0 <= |X.p| && t1 < BIL && X.Mag() * P(v0) < P(|X.p|) && (X.Mag() * P(v0)) * Pow2(t1) < P(|X.p|)
    modifies X
    ensures X.s == old(X.s) && |X.p| == old(|X.p|)
    ensures X.Mag() == (old(X.Mag()) * P(v0)) * Pow2(t1)
  {
    Units();
    hide V, P, Pow2;
    if v0 > 0 { LimbsUp(X, v0); }
    if t1 > 0 { BitsUp(X, v0, t1); }
  }

  lemma Units()
    ensures P(0) == 1 && Pow2(0) == 1
  {}

  /** The whole-limb part: p[i] := p[i - v0], zeros below. */
  method LimbsUp(X: Mpi, v0: nat)
    requires v0 > 0 && X.Mag() * P(v0) < P(|X.p|) && v0 <= |X.p|
    modifies X
    ensures X.s == old(X.s) && |X.p| == old(|X.p|)
    ensures X.Mag() == old(X.Mag()) * P(v0)
    ensures forall k :: 0 <= k < v0 ==> X.p[k] == 0
  {
    ghost var was, n := X.p, |X.p|;
    var i := |X.p|;
    while i > v0
      invariant v0 <= i <= n == |X.p|
      invariant X.s == old(X.s)
      invariant forall k :: 0 <= k < i ==> X.p[k] == was[k]
      invariant forall k :: i <= k < n ==> X.p[k] == was[k - v0]
    {
      X.p := X.p[i - 1 := X.p[i - v0 - 1]];
      i := i - 1;
    }
    while i > 0
      invariant 0 <= i <= v0 && |X.p| == n
      invariant X.s == old(X.s)
      invariant forall k :: i <= k < v0 ==> X.p[k] == 0
      invariant forall k :: v0 <= k < n ==> X.p[k] == was[k - v0]
    {
      X.p := X.p[i - 1 := 0];
      i := i - 1;
    }
    TopLimbsClear(was, v0);
    MovedUp(was, X.p, v0);
  }

  /** The part within limbs: every limb passes its top t1 bits to the next. */
  method BitsUp(X: Mpi, v0: nat, t1: nat)
    requires 0 < t1 < BIL && v0 <= |X.p| && X.Mag() * Pow2(t1) < P(|X.p|)
    requires forall k :: 0 <= k < v0 ==> X.p[k] == 0
    modifies X
    ensures X.s == old(X.s) && |X.p| == old(|X.p|)
    ensures X.Mag() == old(X.Mag()) * Pow2(t1)
  {
    ghost var was, n := X.p, |X.p|;
    var r0: Limb, r1: Limb := 0, 0;
    var i := v0;
    VZeros(X.p, 0, v0);
    hide V, P, Pow2;
    while i < |X.p|
      invariant v0 <= i <= n == |X.p|
      invariant X.s == old(X.s)
      invariant forall k :: i <= k < n ==> X.p[k] == was[k]
      invariant r0 < Pow2(t1)
      invariant V(X.p, 0, i) + r0 * P(i) == V(was, 0, i) * Pow2(t1)
    {
      ghost var before := X.p;
      var x := X.p[i];
      ShiftOut(x, BIL, t1, BIL - t1);
      ShiftIn(x, BIL, t1, BIL - t1, r0);
      r1 := x / Pow2(BIL - t1);
      X.p := X.p[i := (x * Pow2(t1)) % W];
      X.p := X.p[i := X.p[i] + r0];
      VStep(was, 0, i);
      VStep(X.p, 0, i);
      BitsUpStep(V(was, 0, i), V(before, 0, i), x, X.p[i], r0, r1, P(i), Pow2(t1));
      VFrame(before, X.p, 0, i);
      r0 := r1;
      i := i + 1;
    }
    VBound(X.p, 0, n);
    if r0 > 0 { MulLe(1, r0, P(n)); }
  }

  /** mpi_shift_r: |X| := |X| / 2^count, rounding down. */
  method ShiftR(X: Mpi, count: nat)
    modifies X
    ensures X.Mag() == old(X.Mag()) / Pow2(count)
    ensures X.s == old(X.s) || (X.Mag() == 0 && X.s == 1)
    ensures X.Mag() > 0 ==> |X.p| == old(|X.p|)
    ensures |X.p| == old(|X.p|) || |X.p| == 1
  {
    DivNat(count, BIL);
    var v0 := count / BIL;
    var v1 := count % BIL;
    ghost var m := X.Mag();
    LimbsOfCount(count, v0, v1);
    if v0 > |X.p| || (v0 == |X.p| && v1 > 0) {
      WFacts();
      VBound(X.p, 0, |X.p|);
      PMono(|X.p|, v0);
      MulLe(1, Pow2(v1), P(v0));
      DivUnique(m, Pow2(count), 0, m);
      X.Lset(0);
      return;
    }
    if v0 > 0 { LimbsDown(X, v0); }
    if v1 > 0 { BitsDown(X, v1); }
    DivDiv(m, P(v0), Pow2(v1));
  }

  /** The whole-limb part: p[i] := p[i + v0], zeros above. */
  method LimbsDown(X: Mpi, v0: nat)
    requires 0 < v0 <= |X.p|
    modifies X
    ensures X.s == old(X.s) && |X.p| == old(|X.p|)
    ensures X.Mag() == old(X.Mag()) / P(v0)
  {
    ghost var was, n := X.p, |X.p|;
    var i := 0;
    while i < |X.p| - v0
      invariant 0 <= i <= n - v0 && |X.p| == n
      invariant X.s == old(X.s)
      invariant forall k :: 0 <= k < i ==> X.p[k] == was[k + v0]
      invariant forall k :: i <= k < n ==> X.p[k] == was[k]
    {
      X.p := X.p[i := X.p[i + v0]];
      i := i + 1;
    }
    while i < |X.p|
      invariant n - v0 <= i <= n == |X.p|
      invariant X.s == old(X.s)
      invariant forall k :: 0 <= k < n - v0 ==> X.p[k] == was[k + v0]
      invariant forall k :: n - v0 <= k < i ==> X.p[k] == 0
    {
      X.p := X.p[i := 0];
      i := i + 1;
    }
    MovedDown(was, X.p, v0);
  }

  /** The part within limbs, from the top: every limb passes its low v1 bits down. */
  method BitsDown(X: Mpi, v1: nat)
    requires 0 < v1 < BIL
    modifies X
    ensures X.s == old(X.s) && |X.p| == old(|X.p|)
    ensures X.Mag() == old(X.Mag()) / Pow2(v1)
  {
    hide V, P, Pow2;
    ghost var was, n := X.p, |X.p|;
    ghost var rem := 0;
    var r0: Limb, r1: Limb := 0, 0;
    var i := |X.p|;
    VZeros(X.p, n, 0);
    while i > 0
      invariant 0 <= i <= n == |X.p|
      invariant X.s == old(X.s)
      invariant forall k :: 0 <= k < i ==> X.p[k] == was[k]
      invariant 0 <= rem < Pow2(v1) && r0 == rem * Pow2(BIL - v1)
      invariant V(was, i, n - i) == V(X.p, i, n - i) * Pow2(v1) + rem
    {
      ghost var before := X.p;
      var x := X.p[i - 1];
      ShiftOut(x, BIL, BIL - v1, v1);
      HighBitsFree(x, v1, BIL - v1, rem);
      r1 := (x * Pow2(BIL - v1)) % W;
      X.p := X.p[i - 1 := x / Pow2(v1)];
      X.p := X.p[i - 1 := X.p[i - 1] + r0];
      VFrame(before, X.p, i, n - i);
      VFirst(was, i - 1, n - i + 1);
      VFirst(X.p, i - 1, n - i + 1);
      Pow2Split(BIL - v1, v1, BIL);
      BitsDownStep(V(X.p, i, n - i), x, rem, Pow2(v1), Pow2(BIL - v1));
      rem := x % Pow2(v1);
      r0 := r1;
      i := i - 1;
    }
    DivUnique(Val(was), Pow2(v1), Val(X.p), rem);
  }

  // ----- lemmas -----

  lemma LimbsOfCount(count: nat, v0: nat, t1: nat)
    requires v0 == count / BIL && t1 == count % BIL
    ensures Pow2(count) == P(v0) * Pow2(t1)
    ensures BIL * v0 + t1 == count && t1 < BIL
  {
    DivMod(count, BIL);
    PPow2(v0);
    Pow2Split(BIL * v0, t1, count);
  }

  lemma EnoughLimbs(n: nat, need: nat)
    ensures n * BIL < need ==> n < BitsToLimbs(need)
    ensures n * BIL >= need ==> n >= BitsToLimbs(need)
  {
    var k := BitsToLimbs(need);
    if n * BIL < need && k <= n { MulLe(k, n, BIL); }
    if n * BIL >= need && k > n { MulLe(n, k - 1, BIL); }
  }

  lemma Fits(m: nat, v0: nat, t1: nat, count: nat, n: nat)
    requires n >= BitsToLimbs(BitLen(m) + count)
    requires BIL * v0 + t1 == count && Pow2(count) == P(v0) * Pow2(t1)
    ensures v0 <= n && m * P(v0) < P(n) && (m * P(v0)) * Pow2(t1) < P(n)
  {
    FitsLimbs(m, count, n);
    MulAssoc(m, P(v0), Pow2(t1));
    MulNat(m, P(v0));
    MulLe(1, Pow2(t1), m * P(v0));
    if v0 > n { CountWithin(n, v0, BIL, t1); }
  }

  lemma CountWithin(n: nat, v0: nat, b: nat, t: nat)
    requires v0 > n && b > 0
    ensures b * v0 + t > b * n
  {
    MulLe(n + 1, v0, b);
    MulDist(n, 1, b);
  }

  lemma FitsLimbs(m: nat, count: nat, n: nat)
    requires n >= BitsToLimbs(BitLen(m) + count)
    ensures m * Pow2(count) < P(n) && count <= BIL * n
  {
    hide V, P, Pow2, BitLen;
    FitsBits(m, count);
    MulLe(BitsToLimbs(BitLen(m) + count), n, BIL);
    PPow2(n);
    Pow2Mono(BitLen(m) + count, BIL * n);
  }

  lemma FitsBits(m: nat, count: nat)
    ensures m * Pow2(count) < Pow2(BitLen(m) + count)
  {
    BitLenBounds(m);
    MulLt(m, Pow2(BitLen(m)), Pow2(count));
    Pow2Split(BitLen(m), count, BitLen(m) + count);
  }

  lemma TopLimbsClear(s: seq<Limb>, v0: nat)
    requires v0 <= |s| && Val(s) * P(v0) < P(|s|)
    ensures Val(s) == V(s, 0, |s| - v0)
  {
    var n := |s|;
    PAdd(n - v0, v0);
    MulLtCancel(Val(s), P(n - v0), P(v0));
    VHighZero(s, 0, n - v0, n);
    VDropZeros(s, 0, n - v0, n);
  }

  lemma MovedUp(was: seq<Limb>, now: seq<Limb>, v0: nat)
    requires |was| == |now| && v0 <= |was|
    requires Val(was) == V(was, 0, |was| - v0)
    requires forall k :: 0 <= k < v0 ==> now[k] == 0
    requires forall k :: v0 <= k < |now| ==> now[k] == was[k - v0]
    ensures Val(now) == Val(was) * P(v0)
  {
    hide V, P;
    var n := |was|;
    VSplit(now, 0, v0, n);
    VZeros(now, 0, v0);
    assert now[v0..v0 + (n - v0)] == was[0..n - v0];
    VMove(now, v0, was, 0, n - v0);
  }

  /** Dividing by a power of W drops that many limbs. */
  lemma HighPart(s: seq<Limb>, k: nat)
    requires k <= |s|
    ensures Val(s) / P(k) == V(s, k, |s| - k)
  {
    VSplit(s, 0, k, |s|);
    VBound(s, 0, k);
    DivUnique(Val(s), P(k), V(s, k, |s| - k), V(s, 0, k));
  }

  lemma MovedDown(was: seq<Limb>, now: seq<Limb>, v0: nat)
    requires |was| == |now| && v0 <= |was|
    requires forall k :: 0 <= k < |was| - v0 ==> now[k] == was[k + v0]
    requires forall k :: |was| - v0 <= k < |was| ==> now[k] == 0
    ensures Val(now) == Val(was) / P(v0)
  {
    var n := |was|;
    VDropZeros(now, 0, n - v0, n);
    assert now[0..n - v0] == was[v0..v0 + (n - v0)];
    VMove(now, 0, was, v0, n - v0);
    HighPart(was, v0);
  }

  /** The bits passed down fall above what the right shift leaves, so `|` adds them. */
  lemma HighBitsFree(x: nat, v1: nat, j: nat, rem: nat)
    requires BIL == v1 + j && x < W && rem < Pow2(v1)
    ensures 0 <= x / Pow2(v1) + rem * Pow2(j) < W
  {
    ShiftOut(x, BIL, j, v1);
    Pow2Split(v1, j, BIL);
    MulNat(rem, Pow2(j));
    DigitBound(x / Pow2(v1), rem, Pow2(v1), Pow2(j));
  }

  lemma BitsUpStep(w: int, v: int, x: int, y: int, r0: int, r1: int, p: int, t: int)
    requires v + r0 * p == w * t && x * t == r1 * W + (y - r0)
    ensures v + y * p + r1 * (W * p) == (w + x * p) * t
  {
    calc {
      (w + x * p) * t;
      w * t + (x * t) * p;
      v + r0 * p + (r1 * W + (y - r0)) * p;
      v + y * p + r1 * (W * p);
    }
  }

  lemma BitsDownStep(v: int, x: int, rem: int, q: int, h: int)
    requires q > 0 && W == h * q
    ensures x + (v * q + rem) * W == (x / q + rem * h + v * W) * q + x % q
  {
    DivMod(x, q);
    calc {
      (x / q + rem * h + v * W) * q + x % q;
      (x / q) * q + (rem * h) * q + (v * W) * q + x % q;
      { MulAssoc(rem, h, q); MulAssoc(v, W, q); }
      x + rem * W + (v * q) * W;
      { MulDist(v * q, rem, W); }
      x + (v * q + rem) * W;
    }
  }

  lemma DivDiv(m: int, a: int, b: int)
    requires a > 0 && b > 0
    ensures a * b > 0 && (m / a) / b == m / (a * b)
  {
    MulPos(a, b);
    var q, r := m / a, m % a;
    var q', r' := q / b, q % b;
    DivMod(m, a);
    DivMod(q, b);
    calc {
      m;
      (q' * b + r') * a + r;
      { MulDist(q' * b, r', a); MulAssoc(q', b, a); }
      q' * (a * b) + (r' * a + r);
    }
    MulNat(r', a);
    DigitBound(r, r', b, a);
    DivUnique(m, a * b, q', r' * a + r);
  }
}
