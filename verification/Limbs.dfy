/** Limbs and little-endian limb sequences: the storage format of mpi numbers. */
module Limbs {
  import opened Arith

  /** sizeof(t_uint) on the supported platforms: 1, 2, 4 or 8 bytes. */
  type LimbBytes = c: nat | 1 <= c <= 8 && 8 % c == 0 witness 4

  /** ciL; left open, so that every statement below holds for each width. */
  const CIL: LimbBytes

  /** biL, the number of bits in a limb. */
  const BIL: nat := 8 * CIL

  /** One more than the largest limb. */
  const W: nat := Pow2(BIL)

  /** t_uint */
  type Limb = x: nat | x < W

  /** t_sint */
  type SLimb = x: int | -(W / 2) <= x < W / 2

  /** W to the power n. */
  function P(n: nat): (r: nat)
    ensures r > 0
  {
    if n == 0 then 1 else MulPos(W, P(n - 1)); W * P(n - 1)
  }

  /** The number stored in the n limbs of s that start at lo. */
  function V(s: seq<Limb>, lo: nat, n: nat): nat
    requires lo + n <= |s|
  {
    if n == 0 then 0 else
    MulNat(s[lo + n - 1], P(n - 1));
    V(s, lo, n - 1) + s[lo + n - 1] * P(n - 1)
  }

  /** The number stored in a whole limb sequence. */
  function Val(s: seq<Limb>): nat {
    V(s, 0, |s|)
  }

  /** How many limbs of s[..n] remain once the zero limbs at the top are dropped. */
  function Sig(s: seq<Limb>, n: nat): (k: nat)
    requires n <= |s|
    ensures k <= n
    ensures k > 0 ==> s[k - 1] != 0
    ensures forall i :: k <= i < n ==> s[i] == 0
  {
    if n == 0 then 0 else if s[n - 1] != 0 then n else Sig(s, n - 1)
  }

  function Zeros(n: nat): (s: seq<Limb>)
    ensures |s| == n && forall i :: 0 <= i < n ==> s[i] == 0
  {
    seq(n, _ => 0)
  }

  lemma WFacts()
    ensures W >= 256 && W % 2 == 0 && W == 2 * (W / 2)
  {
    Pow2Even(BIL);
  }

  lemma {:induction false} PAdd(a: nat, b: nat)
    ensures P(a + b) == P(a) * P(b)
  {
    if a > 0 {
      PAdd(a - 1, b);
      assert a + b - 1 == a - 1 + b;
      MulAssoc(W, P(a - 1), P(b));
    }
  }

  lemma {:induction false} PMono(a: nat, b: nat)
    requires a <= b
    ensures P(a) <= P(b)
    decreases b
  {
    if a < b {
      PMono(a, b - 1);
      WFacts();
      MulLe(1, W, P(b - 1));
    }
  }

  lemma {:induction false} PPow(n: nat)
    ensures P(n) == Pow(W, n)
  {
    if n > 0 { PPow(n - 1); }
  }

  lemma PStep(n: nat)
    ensures P(n + 1) == W * P(n) && P(0) == 1
  {}

  lemma PPow2(n: nat)
    ensures BIL * n >= 0 && P(n) == Pow2(BIL * n)
  {
    PPow(n);
    Pow2Pow(BIL, n);
  }

  lemma {:induction false} VBound(s: seq<Limb>, lo: nat, n: nat)
    requires lo + n <= |s|
    ensures V(s, lo, n) < P(n)
  {
    if n > 0 {
      VBound(s, lo, n - 1);
      DigitBound(V(s, lo, n - 1), s[lo + n - 1], W, P(n - 1));
    }
  }

  lemma {:induction false} VFrame(s: seq<Limb>, t: seq<Limb>, lo: nat, n: nat)
    requires lo + n <= |s| && lo + n <= |t|
    requires forall i :: lo <= i < lo + n ==> s[i] == t[i]
    ensures V(s, lo, n) == V(t, lo, n)
  {
    if n > 0 { VFrame(s, t, lo, n - 1); }
  }

  /** Moving limbs to another place does not change the number they hold. */
  lemma {:induction false} VMove(s: seq<Limb>, lo: nat, t: seq<Limb>, to: nat, n: nat)
    requires lo + n <= |s| && to + n <= |t|
    requires s[lo..lo + n] == t[to..to + n]
    ensures V(s, lo, n) == V(t, to, n)
  {
    if n > 0 {
      assert s[lo..lo + n][n - 1] == t[to..to + n][n - 1];
      assert s[lo..lo + n - 1] == s[lo..lo + n][..n - 1];
      assert t[to..to + n - 1] == t[to..to + n][..n - 1];
      VMove(s, lo, t, to, n - 1);
    }
  }

  lemma {:induction false} VSplit(s: seq<Limb>, lo: nat, k: nat, n: nat)
    requires k <= n && lo + n <= |s|
    ensures V(s, lo, n) == V(s, lo, k) + V(s, lo + k, n - k) * P(k)
  {
    if k < n {
      VSplit(s, lo, k, n - 1);
      var x := s[lo + n - 1];
      var hi := V(s, lo + k, n - 1 - k);
      PAdd(k, n - 1 - k);
      MulDist(hi, x * P(n - 1 - k), P(k));
      MulAssoc(x, P(k), P(n - 1 - k));
      assert lo + k + (n - k) - 1 == lo + n - 1;
      assert V(s, lo + k, n - k) == hi + x * P(n - 1 - k);
    }
  }

  /** Unfolding at the low end. */
  lemma VFirst(s: seq<Limb>, lo: nat, n: nat)
    requires n > 0 && lo + n <= |s|
    ensures V(s, lo, n) == s[lo] + V(s, lo + 1, n - 1) * W
  {
    VSplit(s, lo, 1, n);
    assert V(s, lo, 1) == V(s, lo, 0) + s[lo] * P(0);
    assert P(1) == W * P(0);
  }

  lemma {:induction false} VZeros(s: seq<Limb>, lo: nat, n: nat)
    requires lo + n <= |s|
    requires forall i :: lo <= i < lo + n ==> s[i] == 0
    ensures V(s, lo, n) == 0
  {
    if n > 0 { VZeros(s, lo, n - 1); }
  }

  /** Zero limbs at the top do not count. */
  lemma VDropZeros(s: seq<Limb>, lo: nat, k: nat, n: nat)
    requires k <= n && lo + n <= |s|
    requires forall i :: lo + k <= i < lo + n ==> s[i] == 0
    ensures V(s, lo, n) == V(s, lo, k)
  {
    VSplit(s, lo, k, n);
    VZeros(s, lo + k, n - k);
  }

  /** Limbs above a bound on the value are zero. */
  lemma {:induction false} VHighZero(s: seq<Limb>, lo: nat, k: nat, n: nat)
    requires k <= n && lo + n <= |s|
    requires V(s, lo, n) < P(k)
    ensures forall i :: lo + k <= i < lo + n ==> s[i] == 0
  {
    if k < n {
      VTop(s, lo, n);
      PMono(k, n - 1);
      if s[lo + n - 1] > 0 {
        MulLe(1, s[lo + n - 1], P(n - 1));
        assert false;
      }
      VHighZero(s, lo, k, n - 1);
    }
  }

  /** One more limb, and one more power of W. */
  lemma VStep(s: seq<Limb>, lo: nat, n: nat)
    requires lo + n < |s|
    ensures V(s, lo, n + 1) == V(s, lo, n) + s[lo + n] * P(n)
    ensures P(n + 1) == W * P(n) && V(s, lo, 0) == 0 && P(0) == 1
  {}

  lemma VTop(s: seq<Limb>, lo: nat, n: nat)
    requires n > 0 && lo + n <= |s|
    ensures V(s, lo, n) >= s[lo + n - 1] * P(n - 1)
  {}

  /** Dropping the zero limbs at the top keeps the value. */
  lemma SigVal(s: seq<Limb>, n: nat)
    requires n <= |s|
    ensures V(s, 0, Sig(s, n)) == V(s, 0, n)
    ensures Sig(s, n) == 0 <==> V(s, 0, n) == 0
    ensures Sig(s, n) > 0 ==> P(Sig(s, n) - 1) <= V(s, 0, n)
    ensures V(s, 0, n) < P(Sig(s, n))
  {
    var k := Sig(s, n);
    VDropZeros(s, 0, k, n);
    VBound(s, 0, k);
    if k > 0 {
      VTop(s, 0, k);
      MulLe(1, s[k - 1], P(k - 1));
    }
  }

  /** The value after one limb is replaced. */
  lemma VUpdate(s: seq<Limb>, lo: nat, n: nat, i: nat, x: Limb)
    requires lo + n <= |s| && lo <= i < lo + n
    ensures V(s[i := x], lo, n) == V(s, lo, n) + (x - s[i]) * P(i - lo)
  {
    var t := s[i := x];
    VSplit(s, lo, i - lo, n);
    VSplit(t, lo, i - lo, n);
    VFrame(s, t, lo, i - lo);
    VFirst(s, i, n - (i - lo));
    VFirst(t, i, n - (i - lo));
    VFrame(s, t, i + 1, n - (i - lo) - 1);
    UpdateAlgebra(P(i - lo), x, s[i], V(s, i + 1, n - (i - lo) - 1) * W);
  }

  lemma UpdateAlgebra(p: int, x: int, y: int, h: int)
    ensures (x + h) * p == (y + h) * p + (x - y) * p
  {}
}
