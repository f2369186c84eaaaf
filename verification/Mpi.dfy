/** The mpi object: a sign and a growable limb buffer, with the operations that
    move, compare and shift numbers. */
module MpiBase {
  import opened Arith
  import opened Bits
  import opened Limbs

  /** The codes returned by the library. */
  datatype Status =
    | Ok
    | BadInputData
    | InvalidCharacter
    | BufferTooSmall
    | NegativeValue
    | DivisionByZero
    | NotAcceptable

  type Sign = x: int | x == 1 || x == -1 witness 1

  function Signed(s: Sign, m: int): int {
    if s == 1 then m else -m
  }

  function Sgn(x: int): int {
    if x < 0 then -1 else if x > 0 then 1 else 0
  }

  class Mpi {
    var s: Sign
    var p: seq<Limb>

    /** |X| */
    ghost function Mag(): nat
      reads this
    {
      Val(p)
    }

    /** The integer this object stands for; a zero may carry either sign. */
    ghost function Value(): int
      reads this
    {
      Signed(s, Mag())
    }

    constructor ()
      ensures s == 1 && p == []
    {
      s := 1;
      p := [];
    }

    method Grow(nblimbs: nat)
      modifies this
      ensures s == old(s) && Mag() == old(Mag())
      ensures |p| == Max(old(|p|), nblimbs)
      ensures p == old(p) + Zeros(|p| - old(|p|))
    {
      if |p| < nblimbs {
        ghost var was := p;
        p := p + Zeros(nblimbs - |p|);
        PadVal(was, p, |was|);
      } else {
        assert p == p + Zeros(0);
      }
    }

    method Copy(Y: Mpi)
      requires Y == this || |Y.p| > 0
      modifies this
      ensures s == old(Y.s) && Mag() == old(Y.Mag())
      ensures Y == this ==> p == old(p)
      ensures Y != this ==> |p| == Max(old(|p|), Max(1, Sig(Y.p, |Y.p|)))
    {
      if this == Y { return; }
      var i := |Y.p| - 1;
      while i > 0 && Y.p[i] == 0
        invariant 0 <= i < |Y.p|
        invariant forall k :: i < k < |Y.p| ==> Y.p[k] == 0
      {
        i := i - 1;
      }
      i := i + 1;
      s := Y.s;
      Grow(i);
      p := Y.p[..i] + Zeros(|p| - i);
      PadVal(Y.p, p, i);
      SigMax(Y.p, i);
    }

    method Swap(Y: Mpi)
      modifies this, Y
      ensures s == old(Y.s) && p == old(Y.p)
      ensures Y.s == old(s) && Y.p == old(p)
    {
      s, Y.s := Y.s, s;
      p, Y.p := Y.p, p;
    }

    method Lset(z: SLimb)
      modifies this
      ensures Value() == z && s == (if z < 0 then -1 else 1)
      ensures |p| == Max(1, old(|p|)) && p[0] == Abs(z)
      ensures forall i :: 1 <= i < |p| ==> p[i] == 0
    {
      Grow(1);
      WFacts();
      p := Zeros(|p|)[0 := Abs(z)];
      s := if z < 0 then -1 else 1;
      SingleLimb(p);
    }

    /** The number of trailing zero bits; 0 for zero. */
    method Lsb() returns (count: nat)
      ensures Mag() == 0 ==> count == 0
      ensures Mag() > 0 ==> Mag() % Pow2(count) == 0 && Bit(Mag(), count) == 1
    {
      var i := 0;
      count := 0;
      while i < |p|
        invariant 0 <= i <= |p| && count == BIL * i
        invariant forall k :: 0 <= k < i ==> p[k] == 0
      {
        var j := 0;
        ghost var base := count;
        while j < BIL
          invariant 0 <= j <= BIL && count == base + j
          invariant p[i] % Pow2(j) == 0
        {
          if Bit(p[i], j) != 0 {
            LsbFound(p, i, j, count);
            return;
          }
          LowBit(p[i], j);
          j := j + 1;
          count := count + 1;
        }
        DivUnique(p[i], W, 0, p[i]);
        MulDist(i, 1, BIL);
        i := i + 1;
      }
      VZeros(p, 0, |p|);
      count := 0;
    }

    /** The number of bits up to the most significant one. */
    method Msb() returns (r: nat)
      requires |p| > 0
      ensures r == BitLen(Mag())
    {
      var i := |p| - 1;
      while i > 0 && p[i] == 0
        invariant 0 <= i < |p|
        invariant forall k :: i < k < |p| ==> p[k] == 0
      {
        i := i - 1;
      }
      var j: nat := BIL;
      while j > 0
        invariant 0 <= j <= BIL && p[i] < Pow2(j)
      {
        TopBit(p[i], j);
        if Bit(p[i], j - 1) != 0 { break; }
        j := j - 1;
      }
      MulNat(i, BIL);
      r := i * BIL + j;
      MsbFound(p, i, j, r);
    }
  }

  /** The index just above the top non-zero limb (the backwards scans of the source). */
  method TopLimb(s: seq<Limb>) returns (i: nat)
    ensures i == Sig(s, |s|)
  {
    i := |s|;
    while i > 0 && s[i - 1] == 0
      invariant 0 <= i <= |s|
      invariant Sig(s, |s|) == Sig(s, i)
    {
      i := i - 1;
    }
  }

  // ----- lemmas on limb buffers -----

  lemma PadVal(s: seq<Limb>, t: seq<Limb>, k: nat)
    requires k <= |s| && k <= |t|
    requires forall i :: 0 <= i < k ==> s[i] == t[i]
    requires forall i :: k <= i < |s| ==> s[i] == 0
    requires forall i :: k <= i < |t| ==> t[i] == 0
    ensures Val(s) == Val(t)
  {
    VDropZeros(s, 0, k, |s|);
    VDropZeros(t, 0, k, |t|);
    VFrame(s, t, 0, k);
  }

  lemma {:induction false} SigFrom(s: seq<Limb>, k: nat, n: nat)
    requires k <= n <= |s|
    requires k > 0 ==> s[k - 1] != 0
    requires forall i :: k <= i < n ==> s[i] == 0
    ensures Sig(s, n) == k
  {
    if k < n { SigFrom(s, k, n - 1); }
  }

  lemma SigMax(s: seq<Limb>, i: nat)
    requires 1 <= i <= |s|
    requires i > 1 ==> s[i - 1] != 0
    requires forall k :: i <= k < |s| ==> s[k] == 0
    ensures Max(1, Sig(s, |s|)) == i
  {
    if s[i - 1] != 0 { SigFrom(s, i, |s|); } else { SigFrom(s, 0, |s|); }
  }

  lemma SingleLimb(s: seq<Limb>)
    requires |s| > 0
    requires forall i :: 1 <= i < |s| ==> s[i] == 0
    ensures Val(s) == s[0]
  {
    VFirst(s, 0, |s|);
    VZeros(s, 1, |s| - 1);
  }

  lemma LsbFound(s: seq<Limb>, i: nat, j: nat, count: nat)
    requires i < |s| && j < BIL && count == BIL * i + j
    requires forall k :: 0 <= k < i ==> s[k] == 0
    requires s[i] % Pow2(j) == 0 && Bit(s[i], j) != 0
    ensures Val(s) > 0 && Val(s) % Pow2(count) == 0 && Bit(Val(s), count) == 1
  {
    hide V, P, Pow2, BitLen;
    VSplit(s, 0, i, |s|);
    VZeros(s, 0, i);
    VFirst(s, i, |s| - i);
    PPow2(i);
    TrailingZeros(s[i], j, BIL, count - j, V(s, i + 1, |s| - i - 1));
  }

  lemma MsbFound(s: seq<Limb>, i: nat, j: nat, r: nat)
    requires i < |s| && j <= BIL && r == i * BIL + j
    requires forall k :: i < k < |s| ==> s[k] == 0
    requires s[i] < Pow2(j) && (j > 0 ==> Pow2(j - 1) <= s[i])
    requires i > 0 ==> s[i] != 0
    ensures BitLen(Val(s)) == r
  {
    VDropZeros(s, 0, i + 1, |s|);
    VBound(s, 0, i);
    PPow2(i);
    LeadingBits(V(s, 0, i), s[i], j, r - j);
  }
}
