/** Big-endian binary import and export of mpi numbers. */
module Bytes {
  import opened Octets
  import opened Arith
  import opened Bits
  import opened Limbs
  import opened MpiBase
  import opened Shift

  /** The number spelled by big-endian bytes. */
  function BigEndian(s: seq<Byte>): nat {
    if s == [] then 0 else BigEndian(s[..|s| - 1]) * 256 + s[|s| - 1]
  }

  /** Bytes of m without leading zeros: what mpi_size counts. */
  function ByteLen(m: nat): nat {
    (BitLen(m) + 7) / 8
  }

  /** CHARS_TO_LIMBS */
  function CharsToLimbs(i: nat): nat {
    DivNat(i + CIL - 1, CIL);
    (i + CIL - 1) / CIL
  }

  /** mpi_read_binary: X := the number in buf. */
  method ReadBinary(X: Mpi, buf: seq<Byte>)
    modifies X
    ensures X.Value() == BigEndian(buf) && X.s == 1
  {
    hide V, P, Pow2, BitLen, Val;
    var n := 0;
    while n < |buf| && buf[n] == 0
      invariant 0 <= n <= |buf|
      invariant forall k :: 0 <= k < n ==> buf[k] == 0
    {
      n := n + 1;
    }
    X.Grow(CharsToLimbs(|buf| - n));
    WFacts();
    X.Lset(0);
    SingleLimb(X.p);
    var i, j := |buf|, 0;
    assert buf[|buf|..] == [];
    while i > n
      invariant n <= i <= |buf| && i + j == |buf| && X.s == 1
      invariant |X.p| >= CharsToLimbs(|buf| - n) && |X.p| > 0
      invariant X.Mag() == BigEndian(buf[i..]) < Pow2(8 * j)
    {
      ByteRoom(j, |buf| - n, |X.p|);
      var q, e := j / CIL, (j % CIL) * 8;
      StoreDigit(X, q, e, buf[i - 1], 8, 8 * j);
      ByteAbove(buf[i - 1..], j);
      assert buf[i - 1..][1..] == buf[i..];
      i := i - 1;
      j := j + 1;
    }
    LeadingZeros(buf, n);
  }

  /** X->p[q] |= d << e, for a digit of w bits above all bits stored so far. */
  method StoreDigit(X: Mpi, q: nat, e: nat, d: nat, ghost w: nat, ghost pos: nat)
    requires q < |X.p| && e + w <= BIL && d < Pow2(w) && pos == BIL * q + e && X.Mag() < Pow2(pos)
    modifies X
    ensures X.s == old(X.s) && |X.p| == old(|X.p|)
    ensures X.Mag() == old(X.Mag()) + d * Pow2(pos) < Pow2(pos + w)
  {
    PutDigit(X.p, q, e, d, w, pos);
    X.p := X.p[q := X.p[q] + d * Pow2(e)];
  }

  /** mpi_write_binary: |X| into the whole of buf, zeros in front. */
  method WriteBinary(X: Mpi, buf: array<Byte>) returns (ret: Status)
    requires |X.p| > 0
    modifies buf
    ensures ret == if X.Mag() >= Pow2(8 * buf.Length) then BufferTooSmall else Ok
    ensures !ret.Ok? ==> buf[..] == old(buf[..])
    ensures ret.Ok? ==> BigEndian(buf[..]) == X.Mag()
  {
    hide P, V, Pow2, BitLen;
    var bits := X.Msb();
    var n := (bits + 7) / 8;
    SizeInBytes(X.Mag(), n, buf.Length);
    if buf.Length < n { return BufferTooSmall; }
    Zero(buf);
    ghost var size := n;
    Pow2Eight();
    Pow2Double(0);
    var i, j := buf.Length - 1, 0;
    assert buf[buf.Length..] == [];
    DivUnique(X.Mag(), 1, X.Mag(), 0);
    while n > 0
      invariant 0 <= n && j + n == size && i == buf.Length - 1 - j
      invariant forall k :: 0 <= k <= i ==> buf[k] == 0
      invariant BigEndian(buf[i + 1..]) == X.Mag() % Pow2(8 * j)
    {
      ByteInside(j, size, X.p);
      BytePosition(j);
      var q, e := j / CIL, (j % CIL) * 8;
      ghost var above := buf[i + 1..];
      buf[i] := (X.p[q] / Pow2(e)) % 256;
      assert buf[i + 1..] == above;
      DigitOf(X.p, q, e, 8, 8 * j);
      assert buf[i..][1..] == buf[i + 1..];
      ByteAbove(buf[i..], j);
      NextDigit(X.Mag(), 8 * j, 8);
      i := i - 1;
      j := j + 1;
      n := n - 1;
    }
    DivUnique(X.Mag(), Pow2(8 * size), 0, X.Mag());
    LeadingZeros(buf[..], i + 1);
    ret := Ok;
  }

  /** memset */
  method Zero(buf: array<Byte>)
    modifies buf
    ensures forall k :: 0 <= k < buf.Length ==> buf[k] == 0
  {
    forall k | 0 <= k < buf.Length { buf[k] := 0; }
  }

  lemma Pow2Eight()
    ensures Pow2(8) == 256
  {
    assert Pow2(4) == 16;
    Pow2Split(4, 4, 8);
  }

  /** Writing a number and reading it back gives its magnitude. */
  method RoundTrip(X: Mpi, buf: array<Byte>, Y: Mpi) returns (ret: Status)
    requires |X.p| > 0 && Y != X
    modifies buf, Y
    ensures X.Mag() < Pow2(8 * buf.Length) ==> ret.Ok? && Y.Value() == X.Mag()
  {
    ret := WriteBinary(X, buf);
    if ret.Ok? { ReadBinary(Y, buf[..]); }
  }

  // ----- digits inside limbs -----

  /** A digit of w bits stored on clear bits at bit e of limb q. */
  lemma PutDigit(s: seq<Limb>, q: nat, e: nat, d: nat, w: nat, pos: nat)
    requires q < |s| && e + w <= BIL && d < Pow2(w) && pos == BIL * q + e && Val(s) < Pow2(pos)
    ensures 0 <= s[q] + d * Pow2(e) < W
    ensures Val(s[q := s[q] + d * Pow2(e)]) == Val(s) + d * Pow2(pos) < Pow2(pos + w)
  {
    PPow2(q);
    Pow2Split(e, BIL * q, pos);
    VSplit(s, 0, q + 1, |s|);
    MulNat(V(s, q + 1, |s| - q - 1), P(q + 1));
    MulLtCancel(s[q], Pow2(e), P(q));
    MulNat(d, Pow2(e));
    DigitBound(s[q], d, Pow2(w), Pow2(e));
    Pow2Split(w, e, w + e);
    Pow2Mono(w + e, BIL);
    VUpdate(s, 0, |s|, q, s[q] + d * Pow2(e));
    MulAssoc(d, Pow2(e), P(q));
    DigitBound(Val(s), d, Pow2(w), Pow2(pos));
    Pow2Split(w, pos, pos + w);
  }

  /** The w bits at bit e of limb q are those of the number at bit pos. */
  lemma DigitOf(s: seq<Limb>, q: nat, e: nat, w: nat, pos: nat)
    requires q < |s| && e + w <= BIL && pos == BIL * q + e
    ensures (s[q] / Pow2(e)) % Pow2(w) == (Val(s) / Pow2(pos)) % Pow2(w)
  {
    hide Pow2;
    PPow2(q);
    Pow2Split(BIL * q, e, pos);
    HighPart(s, q);
    VFirst(s, q, |s| - q);
    DivDiv(Val(s), P(q), Pow2(e));
    FieldOf(s[q], V(s, q + 1, |s| - q - 1), BIL, e, w);
  }

  /** Taking in one more digit from below. */
  lemma NextDigit(m: nat, pos: nat, w: nat)
    ensures m % Pow2(pos + w) == ((m / Pow2(pos)) % Pow2(w)) * Pow2(pos) + m % Pow2(pos)
  {
    var p, f := Pow2(pos), Pow2(w);
    Pow2Split(w, pos, pos + w);
    DivMod(m, p);
    var k := m / p;
    DivMod(k, f);
    MulDist((k / f) * f, k % f, p);
    MulAssoc(k / f, f, p);
    DigitBound(m % p, k % f, f, p);
    MulNat(k % f, p);
    DivUnique(m, Pow2(pos + w), k / f, (k % f) * p + m % p);
  }

  // ----- bytes -----

  lemma BytePosition(j: nat)
    ensures 0 <= j / CIL && 8 * j == BIL * (j / CIL) + (j % CIL) * 8 && (j % CIL) * 8 + 8 <= BIL
  {
    DivMod(j, CIL);
    DivNat(j, CIL);
    MulAssoc(8, j / CIL, CIL);
    MulAssoc(8, CIL, j / CIL);
    MulComm(CIL, j / CIL);
  }

  lemma ByteRoom(j: nat, total: nat, limbs: nat)
    requires j < total && limbs >= CharsToLimbs(total)
    ensures 0 <= j / CIL < limbs && 8 * j == BIL * (j / CIL) + (j % CIL) * 8 && (j % CIL) * 8 + 8 <= BIL
    ensures Pow2(8) == 256
  {
    BytePosition(j);
    DivMod(j, CIL);
    var k := CharsToLimbs(total);
    DivMod(total + CIL - 1, CIL);
    if j / CIL >= k { MulLe(k, j / CIL, CIL); }
    assert Pow2(4) == 16;
    Pow2Split(4, 4, 8);
  }

  lemma ByteInside(j: nat, size: nat, s: seq<Limb>)
    requires |s| > 0 && j < size == (BitLen(Val(s)) + 7) / 8
    ensures j / CIL < |s|
  {
    DivMod(j, CIL);
    VBound(s, 0, |s|);
    PPow2(|s|);
    BitLenBounds(Val(s));
    if BitLen(Val(s)) > BIL * |s| { Pow2Mono(BIL * |s|, BitLen(Val(s)) - 1); }
    MulAssoc(8, CIL, |s|);
    if j / CIL >= |s| { MulLe(|s|, j / CIL, CIL); }
  }

  lemma SizeInBytes(m: nat, n: nat, len: nat)
    requires n == (BitLen(m) + 7) / 8
    ensures len < n <==> m >= Pow2(8 * len)
    ensures m < Pow2(8 * n)
  {
    BitLenBounds(m);
    Pow2Mono(BitLen(m), 8 * n);
    if len < n { Pow2Mono(8 * len, BitLen(m) - 1); } else { Pow2Mono(BitLen(m), 8 * len); }
  }

  lemma {:induction false} ByteAbove(s: seq<Byte>, j: nat)
    requires |s| == j + 1
    ensures BigEndian(s) == s[0] * Pow2(8 * j) + BigEndian(s[1..])
  {
    if j == 0 {
      assert s[..0] == [] && s[1..] == [];
    } else {
      var t := s[..j];
      ByteAbove(t, j - 1);
      assert s[1..][..j - 1] == t[1..];
      assert Pow2(4) == 16;
      Pow2Split(4, 4, 8);
      Pow2Split(8 * (j - 1), 8, 8 * j);
      MulDist(t[0] * Pow2(8 * (j - 1)), BigEndian(t[1..]), 256);
      MulAssoc(t[0], Pow2(8 * (j - 1)), 256);
    }
  }

  lemma {:induction false} LeadingZeros(s: seq<Byte>, n: nat)
    requires n <= |s| && forall k :: 0 <= k < n ==> s[k] == 0
    ensures BigEndian(s) == BigEndian(s[n..])
    decreases |s|
  {
    if n < |s| {
      LeadingZeros(s[..|s| - 1], n);
      assert s[n..][..|s| - n - 1] == s[..|s| - 1][n..];
    } else if n > 0 {
      LeadingZeros(s[..n - 1], n - 1);
      assert s[..n - 1][n - 1..] == [] == s[n..];
    }
  }

  lemma BitLenByte(v: nat, c: nat)
    requires v > 0 && c < 256
    ensures BitLen(256 * v + c) == BitLen(v) + 8
  {
    assert Pow2(4) == 16;
    Pow2Split(4, 4, 8);
    BitLenBounds(v);
    LeadingBits(c, v, BitLen(v), 8);
    MulComm(256, v);
  }

  lemma OneMoreByte(v: nat, c: nat)
    requires c < 256 && 256 * v + c > 0
    ensures ByteLen(256 * v + c) == ByteLen(v) + 1
  {
    if v > 0 {
      BitLenByte(v, c);
    } else {
      BitLenBounds(c);
      Pow2Eight();
      if BitLen(c) > 8 { Pow2Mono(8, BitLen(c) - 1); }
    }
  }
}
