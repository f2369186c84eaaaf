/** Schoolbook multiplication of mpi numbers. */
module Multiply {
  import opened Arith
  import opened Limbs
  import opened MpiBase
  import opened AddSub

  /** Conversion of a signed limb to t_uint, which wraps around. */
  function ToLimb(b: SLimb): Limb {
    if b < 0 then b + W else b
  }

  /** Conversion of a t_uint to a signed limb. */
  function ToSigned(x: Limb): (b: SLimb)
    ensures ToLimb(b) == x
  {
    WFacts();
    if x < W / 2 then x else x - W
  }

  /** MULADDC_CORE: one product with the limb below it and the carry, in two limbs. */
  method MulAddCore(a: Limb, b: Limb, c: Limb, d: Limb) returns (r0: Limb, r1: Limb)
    ensures a * b + c + d == r0 + r1 * W
  {
    ProductParts(a, b);
    r0, r1 := (a * b) % W, (a * b) / W;
    ghost var p0, p1 := r0, r1;
    r0 := WAdd(r0, c);
    var k1 := if r0 < c then 1 else 0;
    r1 := r1 + k1;
    ghost var t := r0;
    r0 := WAdd(r0, d);
    var k2 := if r0 < d then 1 else 0;
    CoreSum(a * b, p0, p1, c, t, k1, d, r0, k2);
    ProductRoom(a, b, c, d, r0, r1 + k2);
    r1 := r1 + k2;
  }

  lemma CoreSum(ab: int, p0: Limb, p1: Limb, c: Limb, t: Limb, k1: nat, d: Limb, u: Limb, k2: nat)
    requires ab == p0 + p1 * W
    requires t == WAdd(p0, c) && k1 == (if t < c then 1 else 0)
    requires u == WAdd(t, d) && k2 == (if u < d then 1 else 0)
    ensures ab + c + d == u + (p1 + k1 + k2) * W
  {
    assert (p1 + k1 + k2) * W == p1 * W + k1 * W + k2 * W by {
      MulDist(p1, k1, W);
      MulDist(p1 + k1, k2, W);
    }
    assert p0 + c == t + k1 * W;
    assert t + d == u + k2 * W;
  }

  /** mpi_mul_hlp: the number that starts at limb off of D grows by s * b;
      the final carry ends inside D. */
  method MulHlp(i: nat, s: seq<Limb>, D: Mpi, off: nat, b: Limb)
    requires i <= |s| && off + i < |D.p|
    requires V(D.p, off, |D.p| - off) + V(s, 0, i) * b < P(|D.p| - off)
    modifies D
    ensures D.s == old(D.s) && |D.p| == old(|D.p|)
    ensures forall k :: 0 <= k < off ==> D.p[k] == old(D.p)[k]
    ensures V(D.p, off, |D.p| - off) == old(V(D.p, off, |D.p| - off)) + V(s, 0, i) * b
  {
    var c := MulLimbs(i, s, D, off, b);
    MulCarry(D, off, off + i, c, old(V(D.p, off, |D.p| - off)) + V(s, 0, i) * b);
  }

  /** The products, limb by limb. */
  method MulLimbs(i: nat, s: seq<Limb>, D: Mpi, off: nat, b: Limb) returns (c: Limb)
    requires i <= |s| && off + i < |D.p|
    modifies D
    ensures D.s == old(D.s) && |D.p| == old(|D.p|)
    ensures forall k :: 0 <= k < off ==> D.p[k] == old(D.p)[k]
    ensures V(D.p, off, |D.p| - off) + c * P(i) == old(V(D.p, off, |D.p| - off)) + V(s, 0, i) * b
  {
    ghost var was, n := D.p, |D.p|;
    ghost var start := V(D.p, off, n - off);
    var k := 0;
    c := 0;
    VZeros(s, 0, 0);
    hide V, P;
    while k < i
      invariant 0 <= k <= i && |D.p| == n && D.s == old(D.s)
      invariant forall m :: 0 <= m < off ==> D.p[m] == was[m]
      invariant V(D.p, off, n - off) + c * P(k) == start + V(s, 0, k) * b
    {
      ghost var before, c0 := D.p, c;
      var r0, r1 := MulAddCore(s[k], b, c, D.p[off + k]);
      D.p := D.p[off + k := r0];
      c := r1;
      MulNat(s[k], b);
      LimbAdded(before, off, off + k, s[k] * b, c0, r0, r1);
      MulRow(V(s, 0, k), s[k], b, P(k));
      VStep(s, 0, k);
      k := k + 1;
    }
  }

  /** The last carry; one limb at least is always touched. */
  method MulCarry(D: Mpi, off: nat, from: nat, carry: Limb, ghost total: nat)
    requires off <= from < |D.p| && total < P(|D.p| - off)
    requires V(D.p, off, |D.p| - off) + carry * P(from - off) == total
    modifies D
    ensures D.s == old(D.s) && |D.p| == old(|D.p|)
    ensures forall k :: 0 <= k < off ==> D.p[k] == old(D.p)[k]
    ensures V(D.p, off, |D.p| - off) == total
  {
    hide V, P;
    ghost var was, n := D.p, |D.p|;
    var m: nat, c: Limb := from, carry;
    while true
      invariant off <= m < n && |D.p| == n && D.s == old(D.s)
      invariant forall k :: 0 <= k < off ==> D.p[k] == was[k]
      invariant V(D.p, off, n - off) + c * P(m - off) == total
      decreases n - m
    {
      ghost var before, c0 := D.p, c;
      D.p := D.p[m := WAdd(D.p[m], c)];
      c := if D.p[m] < c then 1 else 0;
      LimbAdded(before, off, m, 0, c0, D.p[m], c);
      m := m + 1;
      if c == 0 { break; }
      CarryInside(total, m - off, n - off);
    }
  }

  /** mpi_mul_mpi: X := A * B, whichever of the three are the same object. */
  method MulMpi(X: Mpi, A: Mpi, B: Mpi)
    requires X == A || X == B ==> |X.p| > 0
    modifies X
    ensures X.Value() == old(A.Value()) * old(B.Value())
    ensures X.s == if old(A.s) == old(B.s) then 1 else -1
    ensures |X.p| >= old(|X.p|) && |X.p| > 0
  {
    var A', B' := A, B;
    if X == A {
      var TA := new Mpi();
      TA.Copy(A);
      A' := TA;
    }
    if X == B {
      var TB := new Mpi();
      TB.Copy(B);
      B' := TB;
    }
    MulInto(X, A', B');
  }

  /** The product of two numbers stored elsewhere. */
  method MulInto(X: Mpi, A: Mpi, B: Mpi)
    requires X != A && X != B
    modifies X
    ensures X.Value() == A.Value() * B.Value()
    ensures X.s == if A.s == B.s then 1 else -1
    ensures |X.p| >= old(|X.p|) && |X.p| > 0
  {
    var i := TopLimb(A.p);
    var j := TopLimb(B.p);
    SigVal(A.p, |A.p|);
    SigVal(B.p, |B.p|);
    X.Grow(i + j);
    WFacts();
    X.Lset(0);
    SingleLimb(X.p);
    MulRows(X, A.p, i, B.p, j);
    X.s := if A.s == B.s then 1 else -1;
    SignedProduct(A.s, B.s, A.Mag(), B.Mag());
  }

  /** The rows of the product, from the top limb of B down. */
  method MulRows(X: Mpi, a: seq<Limb>, i: nat, b: seq<Limb>, jj: nat)
    requires i <= |a| && jj <= |b| && i + jj <= |X.p| && |X.p| > 0
    requires forall k :: 0 <= k < |X.p| ==> X.p[k] == 0
    modifies X
    ensures |X.p| == old(|X.p|)
    ensures X.Mag() == V(a, 0, i) * V(b, 0, jj)
  {
    hide P;
    ghost var n := |X.p|;
    var j := jj;
    VZeros(X.p, j, n - j);
    while j > 0
      invariant 0 <= j <= jj && |X.p| == n
      invariant forall k :: 0 <= k < j ==> X.p[k] == 0
      invariant V(X.p, j, n - j) == V(a, 0, i) * V(b, j, jj - j)
    {
      VFirst(X.p, j - 1, n - j + 1);
      VFirst(b, j - 1, jj - j + 1);
      RowAlgebra(V(a, 0, i), b[j - 1], V(b, j, jj - j));
      RowFits(a, i, b, j - 1, jj - j + 1, n - j + 1);
      MulHlp(i, a, X, j - 1, b[j - 1]);
      j := j - 1;
    }
  }

  /** mpi_mul_int: X := A * b, the multiplier read as unsigned. */
  method MulInt(X: Mpi, A: Mpi, b: SLimb)
    requires X == A ==> |X.p| > 0
    modifies X
    ensures X.Value() == old(A.Value()) * ToLimb(b) && X.s == old(A.s)
    ensures |X.p| >= old(|X.p|) && |X.p| > 0
  {
    var B := new Mpi();
    B.s := 1;
    B.p := [ToLimb(b)];
    SingleLimb(B.p);
    MulMpi(X, A, B);
  }

  /** Reading the multiplier as unsigned is harmless exactly when it is not negative,
      or nothing is multiplied. */
  lemma MulIntIff(a: int, b: SLimb)
    ensures a * ToLimb(b) == a * b <==> b >= 0 || a == 0
  {
    WFacts();
    if b < 0 {
      MulDist(b, W, a);
      if a > 0 { MulPos(W, a); }
      if a < 0 { MulPos(W, -a); }
    }
  }

  // ----- lemmas -----

  lemma ProductParts(a: Limb, b: Limb)
    ensures 0 <= (a * b) % W < W && 0 <= (a * b) / W < W - 1
    ensures a * b == (a * b) % W + ((a * b) / W) * W
  {
    WFacts();
    MulNat(a, b);
    MulLe(a, W - 1, b);
    MulLe(b, W - 1, W - 1);
    DivMod(a * b, W);
    DivNat(a * b, W);
    var q := (a * b) / W;
    if q >= W - 1 { MulLe(W - 1, q, W); }
  }

  lemma ProductRoom(a: Limb, b: Limb, c: Limb, d: Limb, r0: Limb, r1: nat)
    requires a * b + c + d == r0 + r1 * W
    ensures r1 < W
  {
    hide V, P, Pow2;
    MulLe(a, W - 1, b);
    MulLe(b, W - 1, W - 1);
    if r1 >= W { MulLe(W, r1, W); }
  }

  lemma MulRow(v: int, a: int, b: int, p: int)
    ensures (v + a * p) * b == v * b + (a * b) * p
  {
    MulDist(v, a * p, b);
    MulAssoc(a, p, b);
  }

  lemma CarryInside(total: nat, k: nat, n: nat)
    requires P(k) <= total < P(n)
    ensures k < n
  {
    if k >= n { PMono(n, k); }
  }

  lemma RowAlgebra(a: int, b: int, hi: int)
    ensures (a * hi) * W + a * b == a * (b + hi * W)
  {
    MulAssoc(a, hi, W);
    MulDist(b, hi * W, a);
  }

  lemma RowFits(a: seq<Limb>, i: nat, b: seq<Limb>, j: nat, k: nat, room: nat)
    requires i <= |a| && j + k <= |b| && i + k <= room
    ensures V(a, 0, i) * V(b, j, k) < P(room)
  {
    VBound(a, 0, i);
    VBound(b, j, k);
    MulLe(V(a, 0, i), P(i), V(b, j, k));
    MulLt(V(b, j, k), P(k), P(i));
    PAdd(i, k);
    PMono(i + k, room);
  }

  lemma SignedProduct(s: Sign, t: Sign, a: int, b: int)
    ensures Signed(if s == t then 1 else -1, a * b) == Signed(s, a) * Signed(t, b)
  {}
}
