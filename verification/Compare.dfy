/** Comparison of mpi numbers. */
module Compare {
  import opened Arith
  import opened Limbs
  import opened MpiBase

  /** mpi_cmp_abs: order of |X| and |Y|. */
  method CmpAbs(X: Mpi, Y: Mpi) returns (r: int)
    ensures r == Sgn(X.Mag() - Y.Mag())
  {
    var i := TopLimb(X.p);
    var j := TopLimb(Y.p);
    SigVal(X.p, |X.p|);
    SigVal(Y.p, |Y.p|);
    if i == 0 && j == 0 { return 0; }
    if i > j { PMono(j, i - 1); return 1; }
    if j > i { PMono(i, j - 1); return -1; }
    ghost var n := i;
    while i > 0
      invariant 0 <= i <= n
      invariant forall k :: i <= k < n ==> X.p[k] == Y.p[k]
    {
      if X.p[i - 1] > Y.p[i - 1] { HigherLimbWins(X.p, Y.p, i, n); return 1; }
      if X.p[i - 1] < Y.p[i - 1] { HigherLimbWins(Y.p, X.p, i, n); return -1; }
      i := i - 1;
    }
    VFrame(X.p, Y.p, 0, n);
    return 0;
  }

  /** mpi_cmp_mpi: order of X and Y; the two zeros compare equal. */
  method CmpMpi(X: Mpi, Y: Mpi) returns (r: int)
    ensures r == Sgn(X.Value() - Y.Value())
  {
    hide V, P;
    var i := TopLimb(X.p);
    var j := TopLimb(Y.p);
    SigVal(X.p, |X.p|);
    SigVal(Y.p, |Y.p|);
    if i == 0 && j == 0 { return 0; }
    if i > j { PMono(j, i - 1); return X.s; }
    if j > i { PMono(i, j - 1); r := Y.s; return -r; }
    if X.s > 0 && Y.s < 0 { return 1; }
    if Y.s > 0 && X.s < 0 { return -1; }
    ghost var n := i;
    while i > 0
      invariant 0 <= i <= n
      invariant forall k :: i <= k < n ==> X.p[k] == Y.p[k]
    {
      if X.p[i - 1] > Y.p[i - 1] { HigherLimbWins(X.p, Y.p, i, n); return X.s; }
      if X.p[i - 1] < Y.p[i - 1] { HigherLimbWins(Y.p, X.p, i, n); r := X.s; return -r; }
      i := i - 1;
    }
    VFrame(X.p, Y.p, 0, n);
    return 0;
  }

  /** mpi_cmp_int */
  method CmpInt(X: Mpi, z: SLimb) returns (r: int)
    ensures r == Sgn(X.Value() - z)
  {
    var Y := new Mpi();
    WFacts();
    Y.p := [Abs(z)];
    Y.s := if z < 0 then -1 else 1;
    SingleLimb(Y.p);
    r := CmpMpi(X, Y);
  }

  /** Where two numbers agree above position i, limb i - 1 decides. */
  lemma HigherLimbWins(s: seq<Limb>, t: seq<Limb>, i: nat, n: nat)
    requires 0 < i <= n <= |s| && n <= |t|
    requires forall k :: i <= k < n ==> s[k] == t[k]
    requires s[i - 1] > t[i - 1]
    ensures V(s, 0, n) > V(t, 0, n)
  {
    VSplit(s, 0, i, n);
    VSplit(t, 0, i, n);
    VFrame(s, t, i, n - i);
    VBound(t, 0, i - 1);
    MulLe(t[i - 1] + 1, s[i - 1], P(i - 1));
    MulDist(t[i - 1], 1, P(i - 1));
  }
}
