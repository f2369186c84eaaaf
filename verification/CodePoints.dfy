/** Code points and their bytes in UTF-8. */
module CodePoints {
  import opened Octets

  /** The bytes of a code point, and of the numbers up to 21 bits that the same scheme reaches. */
  function Utf8(uc: nat): (t: seq<Byte>)
    requires uc < 0x200000
    ensures 0 < |t| <= 4
    ensures uc < 0x80 ==> t == [uc]
  {
    var a := uc / 64;
    var b := a / 64;
    if uc < 0x80 then [uc]
    else if uc < 0x800 then [0xC0 + a, 0x80 + uc % 64]
    else if uc < 0x10000 then [0xE0 + b, 0x80 + a % 64, 0x80 + uc % 64]
    else [0xF0 + b / 64, 0x80 + b % 64, 0x80 + a % 64, 0x80 + uc % 64]
  }

  /** The first byte tells the length and the others lie between 0x80 and 0xBF. */
  predicate WellFormed(t: seq<Byte>) {
    && 0 < |t| <= 4
    && (|t| == 1 ==> t[0] < 0x80) && (|t| == 2 ==> 0xC2 <= t[0] < 0xE0)
    && (|t| == 3 ==> 0xE0 <= t[0] < 0xF0) && (|t| == 4 ==> 0xF0 <= t[0] < 0xF5)
    && forall k :: 1 <= k < |t| ==> 0x80 <= t[k] < 0xC0
  }

  /** The code point that bytes in the format of RFC 3629, section 3, stand for. */
  function CodePoint(t: seq<Byte>): int
    requires WellFormed(t)
  {
    var a: int := t[0];
    if |t| == 1 then a
    else
      var b: int := t[1] - 0x80;
      if |t| == 2 then (a - 0xC0) * 64 + b
      else
        var c: int := t[2] - 0x80;
        if |t| == 3 then ((a - 0xE0) * 64 + b) * 64 + c
        else
          var d: int := t[3] - 0x80;
          (((a - 0xF0) * 64 + b) * 64 + c) * 64 + d
  }

  lemma Utf8Back(uc: nat)
    requires uc < 0x110000
    ensures WellFormed(Utf8(uc)) && CodePoint(Utf8(uc)) == uc
  {}

  /** The table of section 3 of RFC 3629, by the bits that go into each byte. */
  lemma Utf8Table(a: nat, b: nat, c: nat, d: nat)
    requires a < 8 && b < 64 && c < 64 && d < 64
    ensures var u := ((a * 64 + b) * 64 + c) * 64 + d;
            && (u < 0x80 ==> Utf8(u) == [u])
            && (0x80 <= u < 0x800 ==> Utf8(u) == [0xC0 + c, 0x80 + d])
            && (0x800 <= u < 0x10000 ==> Utf8(u) == [0xE0 + b, 0x80 + c, 0x80 + d])
            && (0x10000 <= u ==> Utf8(u) == [0xF0 + a, 0x80 + b, 0x80 + c, 0x80 + d])
  {
    var u := ((a * 64 + b) * 64 + c) * 64 + d;
    assert u / 64 == (a * 64 + b) * 64 + c && u % 64 == d;
    assert u / 64 / 64 == a * 64 + b && u / 64 % 64 == c;
    assert u / 64 / 64 / 64 == a && u / 64 / 64 % 64 == b;
  }

  /** The bytes of one code point, from the last to the first. */
  method PutUtf8(out: array<Byte>, j: nat, uc: nat) returns (j': nat)
    requires uc < 0x200000 && j + |Utf8(uc)| <= out.Length
    modifies out
    ensures j' == j + |Utf8(uc)| && out[..j'] == old(out[..j]) + Utf8(uc)
  {
    hide Utf8, Spread, FirstByteMark;
    SpreadUtf8(uc);
    var len := if uc < 0x80 then 1 else if uc < 0x800 then 2 else if uc < 0x10000 then 3 else 4;
    var c, tail := PutTail(out, j, uc, len);
    assert ([c + FirstByteMark(len)] + tail)[0] == c + FirstByteMark(len);
    PutFirst(out, j, c + FirstByteMark(len), tail);
    j' := j + len;
  }

  /** The bytes behind the first, and what is left for the first. */
  method PutTail(out: array<Byte>, j: nat, uc: nat, len: nat) returns (c: nat, ghost tail: seq<Byte>)
    requires 1 <= len <= 4 && j + len <= out.Length
    modifies out
    ensures |tail| == len - 1 && out[j + 1..j + len] == tail && out[..j] == old(out[..j])
    ensures [c + FirstByteMark(len)] + tail == Spread(uc, len, len) + []
  {
    hide Spread, FirstByteMark;
    var q := j + len;
    c, tail := uc, [];
    assert out[q..q] == [];
    if len >= 4 { q, c, tail := PutLow(out, j, q, c, len, tail); }
    if len >= 3 { q, c, tail := PutLow(out, j, q, c, len, tail); }
    if len >= 2 { q, c, tail := PutLow(out, j, q, c, len, tail); }
    SpreadFirst(c, len);
  }

  /** The first byte, in front of the bytes that are there. */
  method PutFirst(out: array<Byte>, q: nat, b: Byte, ghost tail: seq<Byte>)
    requires q + 1 + |tail| <= out.Length && out[q + 1..q + 1 + |tail|] == tail
    modifies out
    ensures out[..q + 1 + |tail|] == old(out[..q]) + ([b] + tail)
  {
    out[q] := b;
    assert out[q + 1..q + 1 + |tail|] == tail;
  }

  /** The low six bits, in front of the bytes that are there. */
  method PutLow(out: array<Byte>, j: nat, q: nat, c: nat, ghost len: nat, ghost tail: seq<Byte>)
    returns (q': nat, c': nat, ghost tail': seq<Byte>)
    requires j + 1 < q && q + |tail| <= out.Length && out[q..q + |tail|] == tail && len < 7
    modifies out
    ensures q' == q - 1 && |tail'| == |tail| + 1 && out[q'..q' + |tail'|] == tail' && out[..j] == old(out[..j])
    ensures Spread(c', q' - j, len) + tail' == Spread(c, q - j, len) + tail
  {
    hide FirstByteMark;
    q' := q - 1;
    out[q'] := 0x80 + c % 64;
    c' := c / 64;
    tail' := [0x80 + c % 64] + tail;
  }

  /** firstByteMark */
  function FirstByteMark(len: nat): nat
    requires len < 7
  {
    [0, 0, 0xC0, 0xE0, 0xF0, 0xF8, 0xFC][len]
  }

  /** What is still to be written of a code point of len bytes: k bytes, from c. */
  function Spread(c: nat, k: nat, len: nat): seq<nat>
    requires len < 7
  {
    if k <= 1 then [c + FirstByteMark(len)] else Spread(c / 64, k - 1, len) + [0x80 + c % 64]
  }

  lemma SpreadUtf8(uc: nat)
    requires uc < 0x200000
    ensures var len := if uc < 0x80 then 1 else if uc < 0x800 then 2 else if uc < 0x10000 then 3 else 4;
            |Utf8(uc)| == len && Spread(uc, len, len) + [] == Utf8(uc)
  {
    hide FirstByteMark;
    Marks();
    var a := uc / 64;
    var b := a / 64;
    if 0x800 <= uc < 0x10000 {
      SpreadFirst(b, 3);
      assert Spread(a, 2, 3) == [0xE0 + b, 0x80 + a % 64];
    } else if 0x10000 <= uc {
      SpreadFirst(b / 64, 4);
      assert Spread(b, 2, 4) == [0xF0 + b / 64, 0x80 + b % 64];
      assert Spread(a, 3, 4) == [0xF0 + b / 64, 0x80 + b % 64, 0x80 + a % 64];
    }
  }

  lemma Marks()
    ensures FirstByteMark(1) == 0 && FirstByteMark(2) == 0xC0 && FirstByteMark(3) == 0xE0 && FirstByteMark(4) == 0xF0
  {}

  lemma SpreadFirst(c: nat, len: nat)
    requires len < 7
    ensures Spread(c, 1, len) == [c + FirstByteMark(len)]
  {}
}
