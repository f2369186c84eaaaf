/** Addition and subtraction of mpi numbers with carry and borrow propagation. */
module AddSub {
  import opened Arith
  import opened Limbs
  import opened MpiBase
  import opened Compare

  /** t_uint addition and subtraction, which wrap around at W. */
  function WAdd(x: Limb, y: Limb): Limb {
    if x + y < W then x + y else x + y - W
  }

  function WSub(x: Limb, y: Limb): Limb {
    if x >= y then x - y else x + W - y
  }

  /** What adding a number to itself in place computes: each limb doubled, carries lost. */
  function LimbsDoubled(s: seq<Limb>): (r: seq<Limb>)
    ensures |r| == |s|
  {
    seq(|s|, i requires 0 <= i < |s| => WAdd(s[i], s[i]))
  }

  /** mpi_add_abs: X := |A| + |B|, unless X, A and B are all the same object. */
  method AddAbs(X: Mpi, A: Mpi, B: Mpi)
    requires X == A || X == B || |A.p| > 0
    modifies X
    ensures X.s == 1
    ensures !(X == A == B) ==> X.Mag() == old(A.Mag()) + old(B.Mag())
    ensures X == A == B ==> Val(X.p) == Val(LimbsDoubled(old(X.p)))
    ensures |X.p| >= old(|X.p|) && (X != A && X != B ==> |X.p| > 0)
  {
    var A', B' := A, B;
    if X == B { A', B' := X, A; }
    if X != A' { X.Copy(A'); }
    X.s := 1;
    var j := TopLimb(B'.p);
    SigVal(B'.p, |B'.p|);
    X.Grow(j);
    assert X == B' ==> X.p == old(X.p);
    ghost var was := X.p;
    assert X != B' ==> Val(was) + Val(B'.p) == old(A.Mag()) + old(B.Mag());
    var i, c: Limb := AddLimbs(X, B', j);
    if X == B' {
      assert forall k :: j <= k < |was| ==> was[k] == 0;
      DoubledTail(was, X.p, j);
    } else {
      Propagate(X, i, c);
    }
  }

  /** The common limbs; `*o` is read after `*p` is written, so aliasing shows. */
  method AddLimbs(X: Mpi, B: Mpi, j: nat) returns (i: nat, c: Limb)
    requires j <= |B.p| && j <= |X.p|
    modifies X
    ensures i == j && c <= 1 && X.s == old(X.s) && |X.p| == old(|X.p|)
    ensures X != B ==> X.Mag() + c * P(j) == old(X.Mag()) + V(B.p, 0, j)
    ensures X == B ==> c == 0 && forall k :: 0 <= k < |X.p| ==>
                         X.p[k] == if k < j then WAdd(old(X.p)[k], old(X.p)[k]) else old(X.p)[k]
  {
    hide P;
    WFacts();
    ghost var was, n := X.p, |X.p|;
    i, c := 0, 0;
    while i < j
      invariant 0 <= i <= j && c <= 1 && |X.p| == n && X.s == old(X.s)
      invariant X != B ==> X.Mag() + c * P(i) == Val(was) + V(B.p, 0, i)
      invariant X == B ==> c == 0 && forall k :: 0 <= k < n ==>
                             X.p[k] == if k < i then WAdd(was[k], was[k]) else was[k]
    {
      ghost var before, c0 := X.p, c;
      ghost var x: int, b: int := X.p[i], B.p[i];
      X.p := X.p[i := WAdd(X.p[i], c)];
      c := if X.p[i] < c then 1 else 0;
      X.p := X.p[i := WAdd(X.p[i], B.p[i])];
      c := c + (if X.p[i] < B.p[i] then 1 else 0);
      if X != B {
        var y := X.p[i];
        assert x + b + (c0 as int) == y + c * W;
        assert X.p == before[i := y];
        LimbAdded(before, 0, i, b, c0, y, c);
      }
      i := i + 1;
    }
  }

  /** The carry runs on, and the buffer grows by one limb at most. */
  method Propagate(X: Mpi, start: nat, carry: Limb)
    requires start <= |X.p| && carry <= 1
    modifies X
    ensures X.s == old(X.s)
    ensures X.Mag() == old(X.Mag()) + carry * P(start)
    ensures |X.p| >= old(|X.p|)
  {
    hide V, P, Pow2;
    WFacts();
    var i, c: Limb := start, carry;
    ghost var total, n := X.Mag() + c * P(i), |X.p|;
    while c != 0
      invariant c <= 1 && i <= n + 1 && X.s == old(X.s)
      invariant i <= n ==> |X.p| == n
      invariant i > n ==> c == 0 && |X.p| == n + 1
      invariant X.Mag() + c * P(i) == total
      decreases n + 1 - i
    {
      if i >= |X.p| { X.Grow(i + 1); }
      ghost var before, c0 := X.p, c;
      X.p := X.p[i := WAdd(X.p[i], c)];
      c := if X.p[i] < c then 1 else 0;
      LimbAdded(before, 0, i, 0, c0, X.p[i], c);
      i := i + 1;
    }
  }

  /** mpi_sub_hlp: D := D - (the low n limbs of s); the borrow ends inside D. */
  method SubHlp(n: nat, s: seq<Limb>, D: Mpi)
    requires n <= |s| && n <= |D.p|
    requires V(s, 0, n) <= D.Mag()
    modifies D
    ensures D.s == old(D.s) && |D.p| == old(|D.p|)
    ensures D.Mag() == old(D.Mag()) - V(s, 0, n)
  {
    hide P, Val;
    WFacts();
    ghost var start, len := D.Mag(), |D.p|;
    var i, c: Limb := 0, 0;
    while i < n
      invariant 0 <= i <= n && c <= 1 && |D.p| == len && D.s == old(D.s)
      invariant D.Mag() == start - V(s, 0, i) + c * P(i)
    {
      ghost var before, c0 := D.p, c;
      ghost var x: int := D.p[i];
      var z: Limb := if D.p[i] < c then 1 else 0;
      D.p := D.p[i := WSub(D.p[i], c)];
      c := (if D.p[i] < s[i] then 1 else 0) + z;
      D.p := D.p[i := WSub(D.p[i], s[i])];
      var y := D.p[i];
      assert x - s[i] - c0 == (y as int) - c * W;
      assert D.p == before[i := y];
      LimbTaken(before, i, s[i], c0, y, c);
      i := i + 1;
    }
    ghost var rest: int := start - V(s, 0, n);
    while c != 0
      invariant n <= i <= len && c <= 1 && |D.p| == len && D.s == old(D.s)
      invariant D.Mag() == rest + c * P(i)
      decreases len - i, c
    {
      BorrowInside(D.p, i, rest);
      ghost var before, c0 := D.p, c;
      var z: Limb := if D.p[i] < c then 1 else 0;
      D.p := D.p[i := WSub(D.p[i], c)];
      c := z;
      LimbTaken(before, i, 0, c0, D.p[i], c);
      i := i + 1;
    }
  }

  /** mpi_sub_abs: X := |A| - |B|, refused when |A| < |B|. */
  method SubAbs(X: Mpi, A: Mpi, B: Mpi) returns (ret: Status)
    requires X == A || |A.p| > 0
    requires X == B ==> |B.p| > 0
    modifies X
    ensures ret == if old(A.Mag()) < old(B.Mag()) then NegativeValue else Ok
    ensures ret.NegativeValue? ==> X.s == old(X.s) && X.p == old(X.p)
    ensures ret.Ok? ==> X.s == 1 && X.Mag() == old(A.Mag()) - old(B.Mag())
    ensures |X.p| >= old(|X.p|)
    ensures ret.Ok? && |old(A.p)| > 0 ==> |X.p| > 0
  {
    var order := CmpAbs(A, B);
    if order < 0 { return NegativeValue; }
    var B' := B;
    if X == B {
      var TB := new Mpi();
      TB.Copy(B);
      B' := TB;
    }
    if X != A { X.Copy(A); }
    X.s := 1;
    var n := TopLimb(B'.p);
    SigVal(B'.p, |B'.p|);
    EnoughForDifference(X.p, n);
    SubHlp(n, B'.p, X);
    ret := Ok;
  }

  /** mpi_add_mpi: X := A + B, unless X, A and B are all the same object. */
  method AddMpi(X: Mpi, A: Mpi, B: Mpi)
    requires |A.p| > 0 && |B.p| > 0
    modifies X
    ensures !(X == A == B) ==> X.Value() == old(A.Value()) + old(B.Value())
    ensures X == A == B ==> X.Value() == Signed(old(X.s), Val(LimbsDoubled(old(X.p))))
    ensures old(A.s) == 1 && X.Value() >= 0 ==> X.s == 1
    ensures |X.p| >= old(|X.p|) && |X.p| > 0
  {
    var s := A.s;
    if A.s * B.s < 0 {
      var order := CmpAbs(A, B);
      if order >= 0 {
        var _ := SubAbs(X, A, B);
        X.s := s;
      } else {
        var _ := SubAbs(X, B, A);
        X.s := if s == 1 then -1 else 1;
      }
    } else {
      AddAbs(X, A, B);
      X.s := s;
    }
  }

  /** mpi_sub_mpi: X := A - B. */
  method SubMpi(X: Mpi, A: Mpi, B: Mpi)
    requires |A.p| > 0 && |B.p| > 0
    modifies X
    ensures X.Value() == old(A.Value()) - old(B.Value())
    ensures old(A.s) == 1 && X.Value() >= 0 ==> X.s == 1
    ensures old(A.s) != old(B.s) ==> X.s == old(A.s)
    ensures |X.p| >= old(|X.p|) && |X.p| > 0
  {
    var s := A.s;
    if A.s * B.s > 0 {
      var order := CmpAbs(A, B);
      if order >= 0 {
        var _ := SubAbs(X, A, B);
        X.s := s;
      } else {
        var _ := SubAbs(X, B, A);
        X.s := if s == 1 then -1 else 1;
      }
    } else {
      AddAbs(X, A, B);
      X.s := s;
    }
  }

  /** The one-limb operand that the _int variants build on the stack. */
  method SmallMpi(b: SLimb) returns (B: Mpi)
    ensures fresh(B) && B.Value() == b && |B.p| == 1 && B.s == (if b < 0 then -1 else 1)
  {
    B := new Mpi();
    WFacts();
    B.p := [Abs(b)];
    B.s := if b < 0 then -1 else 1;
    SingleLimb(B.p);
  }

  /** mpi_add_int */
  method AddInt(X: Mpi, A: Mpi, b: SLimb)
    requires |A.p| > 0
    modifies X
    ensures X.Value() == old(A.Value()) + b
    ensures old(A.s) == 1 && X.Value() >= 0 ==> X.s == 1
    ensures |X.p| >= old(|X.p|) && |X.p| > 0
  {
    var B := SmallMpi(b);
    AddMpi(X, A, B);
  }

  /** mpi_sub_int */
  method SubInt(X: Mpi, A: Mpi, b: SLimb)
    requires |A.p| > 0
    modifies X
    ensures X.Value() == old(A.Value()) - b
    ensures old(A.s) == -1 && b >= 0 ==> X.s == -1
    ensures |X.p| >= old(|X.p|) && |X.p| > 0
  {
    var B := SmallMpi(b);
    SubMpi(X, A, B);
  }

  /** Adding a number to itself in place is right exactly when no limb overflows. */
  lemma DoubledIff(s: seq<Limb>)
    ensures Val(LimbsDoubled(s)) == 2 * Val(s) <==> forall i :: 0 <= i < |s| ==> s[i] < W / 2
  {
    LostCarries(s, LimbsDoubled(s), |s|);
  }

  /** A one-limb number for which the carry is lost. */
  lemma DoubledCounterexample()
    ensures Val(LimbsDoubled([W - 1])) != 2 * Val([W - 1])
  {
    WFacts();
    var s: seq<Limb> := [W - 1];
    DoubledIff(s);
    assert s[0] >= W / 2;
  }

  lemma {:induction false} LostCarries(s: seq<Limb>, d: seq<Limb>, n: nat)
    requires n <= |s| == |d|
    requires forall i :: 0 <= i < |s| ==> d[i] == WAdd(s[i], s[i])
    ensures V(d, 0, n) <= 2 * V(s, 0, n)
    ensures V(d, 0, n) == 2 * V(s, 0, n) <==> forall i :: 0 <= i < n ==> s[i] < W / 2
  {
    if n > 0 {
      LostCarries(s, d, n - 1);
      WFacts();
      var x, y, p := s[n - 1], d[n - 1], P(n - 1);
      if x < W / 2 {
        MulAssoc(2, x, p);
      } else {
        assert y < 2 * x;
        MulLt(y, 2 * x, p);
        MulAssoc(2, x, p);
      }
    }
  }

  lemma DoubledTail(was: seq<Limb>, now: seq<Limb>, j: nat)
    requires j <= |was| == |now|
    requires forall k :: j <= k < |was| ==> was[k] == 0
    requires forall k :: 0 <= k < |was| ==> now[k] == if k < j then WAdd(was[k], was[k]) else was[k]
    ensures now == LimbsDoubled(was)
  {}

  /** One carry step on the number that starts at lo: limb i takes b and the carry c,
      and passes c' on. */
  lemma LimbAdded(s: seq<Limb>, lo: nat, i: nat, b: nat, c: nat, y: Limb, c': nat)
    requires lo <= i < |s| && s[i] + b + c == y + c' * W
    ensures V(s[i := y], lo, |s| - lo) + c' * P(i + 1 - lo) == V(s, lo, |s| - lo) + b * P(i - lo) + c * P(i - lo)
  {
    VUpdate(s, lo, |s| - lo, i, y);
    CarryStep(s[i], b, c, y, c', P(i - lo));
    assert i + 1 - lo - 1 == i - lo;
  }

  /** One borrow step on the whole number. */
  lemma LimbTaken(s: seq<Limb>, i: nat, b: nat, c: nat, y: Limb, c': nat)
    requires i < |s| && s[i] - b - c == y - c' * W
    ensures Val(s[i := y]) - c' * P(i + 1) == Val(s) - b * P(i) - c * P(i)
  {
    VUpdate(s, 0, |s|, i, y);
    BorrowStep(s[i], b, c, y, c', P(i));
  }

  lemma CarryStep(x: int, b: int, c: int, y: int, c': int, p: int)
    requires x + b + c == y + c' * W
    ensures (y - x) * p + c' * (W * p) == b * p + c * p
  {
    calc {
      (y - x) * p + c' * (W * p);
      { MulAssoc(c', W, p); }
      (y - x) * p + (c' * W) * p;
      (y - x + c' * W) * p;
      (b + c) * p;
    }
  }

  lemma BorrowStep(x: int, b: int, c: int, y: int, c': int, p: int)
    requires x - b - c == y - c' * W
    ensures (y - x) * p == c' * (W * p) - b * p - c * p
  {
    calc {
      (y - x) * p;
      (c' * W - b - c) * p;
      (c' * W) * p - b * p - c * p;
      { MulAssoc(c', W, p); }
      c' * (W * p) - b * p - c * p;
    }
  }

  /** A pending borrow means there is a limb left to take it. */
  lemma BorrowInside(d: seq<Limb>, i: nat, rest: nat)
    requires i <= |d| && Val(d) == rest + P(i)
    ensures i < |d|
  {
    VBound(d, 0, |d|);
  }

  lemma EnoughForDifference(s: seq<Limb>, n: nat)
    requires n > 0 ==> P(n - 1) <= Val(s)
    ensures n <= |s|
  {
    if n > |s| {
      VBound(s, 0, |s|);
      PMono(|s|, n - 1);
    }
  }
}
