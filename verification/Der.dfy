/** ASN.1 DER: the writers, which fill a buffer backwards, and the readers, which move a cursor
    forwards. */
module Der {
  import opened Octets
  import opened Text
  import opened Bits
  import opened Limbs
  import opened MpiBase
  import opened Bytes

  const IntegerTag: Byte := 0x02
  const NullTag: Byte := 0x05
  const OidTag: Byte := 0x06
  const SequenceTag: Byte := 0x30

  const TooSmall: int := -0x6C

  // ----- the encoding -----

  /** The length octets, as section 8.1.3 of ITU-T X.690 has them for up to 65535; beyond that the
      writer drops the high bits. */
  function Length(n: nat): (t: seq<Byte>)
    ensures 1 <= |t| <= 3
  {
    if n < 0x80 then [n] else if n <= 0xFF then [0x81, n] else [0x82, n / 256 % 256, n % 256]
  }

  /** Tag, length and contents. */
  function Tlv(tag: Byte, contents: seq<Byte>): seq<Byte> {
    [tag] + Length(|contents|) + contents
  }

  /** The octets that ITU-T X.690 prescribes: tags 2, 5, 6 and 48 (section 8), one length octet below 128,
      and behind 81 or 82 the length in one or two (section 8.1.3). */
  lemma TlvOctets(contents: seq<Byte>)
    ensures |contents| < 128 ==>
              && Tlv(IntegerTag, contents) == [2, |contents|] + contents
              && Tlv(OidTag, contents) == [6, |contents|] + contents
              && Tlv(SequenceTag, contents) == [48, |contents|] + contents
    ensures 128 <= |contents| < 256 ==> Tlv(SequenceTag, contents) == [48, 129, |contents|] + contents
    ensures forall hi: Byte, lo: Byte :: 256 <= |contents| == hi * 256 + lo ==>
              Tlv(SequenceTag, contents) == [48, 130, hi, lo] + contents
    ensures Tlv(NullTag, []) == [5, 0]
  {
    forall hi: Byte, lo: Byte | 256 <= |contents| == hi * 256 + lo
      ensures Tlv(SequenceTag, contents) == [48, 130, hi, lo] + contents
    {
      assert |contents| / 256 == hi && |contents| % 256 == lo;
    }
  }

  // ----- writing -----

  /** A writer given the position p, and not allowed below start, either stores t in front of p or,
      for want of room, fails; nothing outside is touched. */
  ghost predicate Wrote(was: seq<Byte>, now: seq<Byte>, start: nat, p: nat, t: seq<Byte>, ret: int, p': nat) {
    && |now| == |was| && start <= p' <= p <= |was|
    && (forall k :: 0 <= k < |was| && !(start <= k < p) ==> now[k] == was[k])
    && if p - start >= |t|
       then ret == |t| && p' == p - |t| && now[p'..p] == t && forall k :: 0 <= k < p' ==> now[k] == was[k]
       else ret == TooSmall
  }

  /** Two writers one after the other. */
  lemma WroteBoth(a: seq<Byte>, b: seq<Byte>, c: seq<Byte>, start: nat, p: nat, t1: seq<Byte>, r1: int, p1: nat,
                  t2: seq<Byte>, r2: int, p2: nat)
    requires Wrote(a, b, start, p, t1, r1, p1) && r1 >= 0 && Wrote(b, c, start, p1, t2, r2, p2)
    ensures Wrote(a, c, start, p, t2 + t1, if r2 < 0 then r2 else r1 + r2, p2)
  {
    if r2 >= 0 {
      assert c[p2..p] == c[p2..p1] + c[p1..p];
      assert c[p1..p] == b[p1..p];
    }
  }

  /** The first writer failing fails both. */
  lemma WroteNeither(a: seq<Byte>, b: seq<Byte>, start: nat, p: nat, t1: seq<Byte>, r1: int, p1: nat, t2: seq<Byte>)
    requires Wrote(a, b, start, p, t1, r1, p1) && r1 < 0
    ensures Wrote(a, b, start, p, t2 + t1, r1, p1)
  {}

  /** Bytes stored in front of p, by memcpy or one by one. */
  method WriteBytes(buf: array<Byte>, p: nat, start: nat, t: seq<Byte>) returns (ret: int, p': nat)
    requires start <= p <= buf.Length
    modifies buf
    ensures Wrote(old(buf[..]), buf[..], start, p, t, ret, p')
    ensures ret < 0 ==> p' == p && buf[..] == old(buf[..])
  {
    if p - start < |t| { return TooSmall, p; }
    p' := p - |t|;
    forall k | 0 <= k < |t| { buf[p' + k] := t[k]; }
    ret := |t|;
    assert buf[..][p'..p] == t;
  }

  /** asn1_write_len */
  method WriteLen(buf: array<Byte>, p: nat, start: nat, len: nat) returns (ret: int, p': nat)
    requires start <= p <= buf.Length
    modifies buf
    ensures Wrote(old(buf[..]), buf[..], start, p, Length(len), ret, p')
    ensures ret < 0 ==> p' == p && buf[..] == old(buf[..])
  {
    if len < 0x80 {
      if p - start < 1 { return TooSmall, p; }
      buf[p - 1] := len;
      return 1, p - 1;
    }
    if len <= 0xFF {
      if p - start < 2 { return TooSmall, p; }
      buf[p - 1] := len;
      buf[p - 2] := 0x81;
      return 2, p - 2;
    }
    if p - start < 3 { return TooSmall, p; }
    buf[p - 1] := len % 256;
    buf[p - 2] := len / 256 % 256;
    buf[p - 3] := 0x82;
    return 3, p - 3;
  }

  /** asn1_write_tag */
  method WriteTag(buf: array<Byte>, p: nat, start: nat, tag: Byte) returns (ret: int, p': nat)
    requires start <= p <= buf.Length
    modifies buf
    ensures Wrote(old(buf[..]), buf[..], start, p, [tag], ret, p')
  {
    if p - start < 1 { return TooSmall, p; }
    buf[p - 1] := tag;
    return 1, p - 1;
  }

  /** The end of every writer: the length and the tag in front of the contents at p. */
  method WriteHeader(buf: array<Byte>, p: nat, start: nat, len: nat, tag: Byte) returns (ret: int, p': nat)
    requires start <= p <= buf.Length
    modifies buf
    ensures Wrote(old(buf[..]), buf[..], start, p, [tag] + Length(len), ret, p')
  {
    hide Wrote, Length;
    ghost var s0 := buf[..];
    var n, q := WriteLen(buf, p, start, len);
    ghost var s1 := buf[..];
    WroteInside(s0, s1, start, p, Length(len), n, q);
    if n < 0 {
      WroteNeither(s0, s1, start, p, Length(len), n, q, [tag]);
      return n, q;
    }
    ret, p' := WriteTag(buf, q, start, tag);
    WroteBoth(s0, s1, buf[..], start, p, Length(len), n, q, [tag], ret, p');
    if ret >= 0 { ret := ret + n; }
  }

  lemma WroteInside(was: seq<Byte>, now: seq<Byte>, start: nat, p: nat, t: seq<Byte>, ret: int, p': nat)
    requires Wrote(was, now, start, p, t, ret, p')
    ensures start <= p' <= p <= |was| && |now| == |was|
    ensures (ret >= 0 ==> ret == |t| && p' == p - |t|) && (ret < 0 ==> ret == TooSmall)
  {}

  /** Contents that have been written, with their header in front. */
  method Finish(buf: array<Byte>, start: nat, tag: Byte, len: nat, ghost contents: seq<Byte>, ghost was: seq<Byte>,
                ghost p: nat, n: int, q: nat)
    returns (ret: int, p': nat)
    requires len == |contents| && Wrote(was, buf[..], start, p, contents, n, q)
    modifies buf
    ensures Wrote(was, buf[..], start, p, Tlv(tag, contents), ret, p')
  {
    hide Wrote, Length;
    ghost var s1 := buf[..];
    ghost var header := [tag] + Length(|contents|);
    WroteInside(was, s1, start, p, contents, n, q);
    if n < 0 {
      WroteNeither(was, s1, start, p, contents, n, q, header);
      return n, q;
    }
    ret, p' := WriteHeader(buf, q, start, len, tag);
    WroteBoth(was, s1, buf[..], start, p, contents, n, q, header, ret, p');
    if ret >= 0 { ret := ret + n; }
  }

  /** asn1_write_null */
  method WriteNull(buf: array<Byte>, p: nat, start: nat) returns (ret: int, p': nat)
    requires start <= p <= buf.Length
    modifies buf
    ensures Wrote(old(buf[..]), buf[..], start, p, Tlv(NullTag, []), ret, p')
  {
    ret, p' := Finish(buf, start, NullTag, 0, [], buf[..], p, 0, p);
  }

  /** asn1_write_oid; the string writers differ in the tag only. */
  method WriteOid(buf: array<Byte>, p: nat, start: nat, oid: seq<Byte>) returns (ret: int, p': nat)
    requires start <= p <= buf.Length
    modifies buf
    ensures Wrote(old(buf[..]), buf[..], start, p, Tlv(OidTag, oid), ret, p')
  {
    ghost var was := buf[..];
    var n, q := WriteBytes(buf, p, start, oid);
    ret, p' := Finish(buf, start, OidTag, |oid|, oid, was, p, n, q);
  }

  /** The bytes of a natural number, the most significant first, none of them superfluous. */
  function Magnitude(m: nat): (t: seq<Byte>)
    ensures m > 0 ==> |t| > 0 && t[0] > 0
  {
    if m == 0 then [] else Magnitude(m / 256) + [m % 256]
  }

  /** The contents of an INTEGER: a zero in front keeps a positive number from reading as a
      negative one. */
  function Contents(s: Sign, m: nat): seq<Byte> {
    if s == 1 && m > 0 && Magnitude(m)[0] >= 0x80 then [0] + Magnitude(m) else Magnitude(m)
  }

  lemma {:induction false} MagnitudeValue(m: nat)
    ensures BigEndian(Magnitude(m)) == m && |Magnitude(m)| == ByteLen(m)
  {
    if m > 0 {
      var t := Magnitude(m);
      MagnitudeValue(m / 256);
      assert t[..|t| - 1] == Magnitude(m / 256);
      OneMoreByte(m / 256, m % 256);
    }
  }

  lemma {:induction false} SameBytes(s: seq<Byte>, t: seq<Byte>)
    requires |s| == |t| && BigEndian(s) == BigEndian(t)
    ensures s == t
  {
    if s != [] {
      SameBytes(s[..|s| - 1], t[..|t| - 1]);
      assert s == s[..|s| - 1] + [s[|s| - 1]] && t == t[..|t| - 1] + [t[|t| - 1]];
    }
  }

  /** The contents spell the number; those of a positive one are the shortest that section 8.3 of
      ITU-T X.690 allows. */
  lemma ContentsValue(s: Sign, m: nat)
    ensures BigEndian(Contents(s, m)) == m
    ensures s == 1 && m > 0 ==> Contents(s, m)[0] < 0x80
    ensures |Contents(s, m)| > 1 && Contents(s, m)[0] == 0 ==> Contents(s, m)[1] >= 0x80
    ensures ByteLen(m) <= |Contents(s, m)| <= ByteLen(m) + 1
  {
    MagnitudeValue(m);
    if m > 0 {
      var t := [0] + Magnitude(m);
      LeadingZeros(t, 1);
      assert t[1..] == Magnitude(m);
    }
  }

  /** asn1_write_mpi. For zero the source looks at the byte in front of which it writes, so there
      must be one, and that byte decides whether a zero is stored. */
  method WriteMpi(buf: array<Byte>, p: nat, start: nat, X: Mpi) returns (ret: int, p': nat, ghost contents: seq<Byte>)
    requires start <= p <= buf.Length && |X.p| > 0 && (X.Mag() == 0 ==> p < buf.Length)
    modifies buf
    ensures contents == Contents(X.s, X.Mag()) || (X.Mag() == 0 && contents == [0])
    ensures Wrote(old(buf[..]), buf[..], start, p, Tlv(IntegerTag, contents), ret, p')
  {
    hide Wrote, Length, BigEndian, BitLen, Magnitude;
    ghost var was, m := buf[..], X.Mag();
    MagnitudeValue(m);
    NoMagnitude();
    var bits := X.Msb();
    var tmp := new Byte[(bits + 7) / 8];
    var _ := WriteBinary(X, tmp);
    SizeInBytes(m, tmp.Length, tmp.Length);
    SameBytes(tmp[..], Magnitude(m));
    contents := Contents(X.s, m);
    var n, q := WriteBytes(buf, p, start, tmp[..]);
    ghost var s1 := buf[..];
    WroteInside(was, s1, start, p, tmp[..], n, q);
    if n < 0 {
      ContentsLonger(was, s1, start, p, X.s, m, n, q);
      return n, q, contents;
    }
    if m > 0 { FirstByte(was, s1, start, p, tmp[..], n, q); }
    if X.s == 1 && buf[q] >= 0x80 {
      var r, q' := WriteBytes(buf, q, start, [0]);
      WroteBoth(was, s1, buf[..], start, p, tmp[..], n, q, [0], r, q');
      contents := [0] + tmp[..];
      assert m == 0 ==> contents == [0];
      ret, p' := Finish(buf, start, IntegerTag, n + 1, contents, was, p, if r < 0 then r else n + r, q');
    } else {
      ret, p' := Finish(buf, start, IntegerTag, n, tmp[..], was, p, n, q);
    }
  }

  lemma NoMagnitude()
    ensures Magnitude(0) == []
  {}

  lemma ContentsLonger(was: seq<Byte>, now: seq<Byte>, start: nat, p: nat, s: Sign, m: nat, ret: int, p': nat)
    requires Wrote(was, now, start, p, Magnitude(m), ret, p') && ret < 0
    ensures Wrote(was, now, start, p, Tlv(IntegerTag, Contents(s, m)), ret, p')
  {}

  lemma FirstByte(was: seq<Byte>, now: seq<Byte>, start: nat, p: nat, t: seq<Byte>, ret: int, p': nat)
    requires Wrote(was, now, start, p, t, ret, p') && ret >= 0 && t != []
    ensures p' < |now| && now[p'] == t[0]
  {
    assert now[p'..p][0] == now[p'];
  }

  /** The contents of an algorithm identifier. */
  function Algorithm(oid: seq<Byte>): seq<Byte> {
    Tlv(OidTag, oid) + Tlv(NullTag, [])
  }

  /** asn1_write_algorithm_identifier */
  method WriteAlgorithmIdentifier(buf: array<Byte>, p: nat, start: nat, oid: seq<Byte>) returns (ret: int, p': nat)
    requires start <= p <= buf.Length
    modifies buf
    ensures Wrote(old(buf[..]), buf[..], start, p, Tlv(SequenceTag, Algorithm(oid)), ret, p')
  {
    hide Wrote, Length, Tlv;
    ghost var s0 := buf[..];
    var n, q := WriteNull(buf, p, start);
    ghost var s1 := buf[..];
    WroteInside(s0, s1, start, p, Tlv(NullTag, []), n, q);
    if n < 0 {
      TooMuch(s0, s1, start, p, Tlv(OidTag, oid), Tlv(NullTag, []), n, q);
      return n, q;
    }
    var m, q' := WriteOid(buf, q, start, oid);
    WroteInside(s1, buf[..], start, q, Tlv(OidTag, oid), m, q');
    WroteBoth(s0, s1, buf[..], start, p, Tlv(NullTag, []), n, q, Tlv(OidTag, oid), m, q');
    if m < 0 {
      TooMuch(s0, buf[..], start, p, [], Algorithm(oid), m, q');
      assert [] + Algorithm(oid) == Algorithm(oid);
      return m, q';
    }
    ret, p' := Finish(buf, start, SequenceTag, n + m, Algorithm(oid), s0, p, n + m, q');
  }

  /** A part that does not fit makes the whole sequence not fit. */
  lemma TooMuch(was: seq<Byte>, now: seq<Byte>, start: nat, p: nat, t2: seq<Byte>, t1: seq<Byte>, ret: int, p': nat)
    requires Wrote(was, now, start, p, t1, ret, p') && ret < 0
    ensures Wrote(was, now, start, p, Tlv(SequenceTag, t2 + t1), ret, p')
  {}

  // ----- reading -----

  datatype Failure = OutOfData | UnexpectedTag | InvalidLength | LengthMismatch

  /** The cursor behind what was read and the length of what follows it. */
  datatype Got = Got(next: nat, len: nat) | Failed(failure: Failure)

  /** asn1_get_len */
  function LenAt(data: seq<Byte>, p: nat, end: nat): (r: Got)
    requires p <= end <= |data|
    ensures r.Got? ==> p < r.next && r.next + r.len <= end
  {
    if end - p < 1 then Failed(OutOfData)
    else if data[p] < 0x80 then Checked(p + 1, data[p], end)
    else
      var n := data[p] - 0x80;
      if n < 1 || n > 4 then Failed(InvalidLength)
      else if end - p < n + 1 then Failed(OutOfData)
      else Checked(p + 1 + n, Widened(BigEndian(data[p + 1..p + 1 + n])), end)
  }

  /** Octets put together as an int and stored in a 64-bit size_t: from 2^31 on the sign is extended. */
  function Widened(v: nat): nat {
    if v < 0x8000_0000 then v else v + 0xFFFF_FFFF_0000_0000
  }

  function Checked(next: nat, len: nat, end: nat): Got
    requires next <= end
  {
    if len > end - next then Failed(OutOfData) else Got(next, len)
  }

  /** A length of one to four octets behind their number is found with the contents behind it, and of a
      length that claims more than there is nothing is found. */
  lemma LongLength(data: seq<Byte>, p: nat, end: nat, octets: seq<Byte>)
    requires p <= end <= |data| && 1 <= |octets| <= 4 && At(data, p) == 128 + |octets| && Here(data, p + 1, octets)
    requires p + 1 + |octets| <= end && BigEndian(octets) < 0x8000_0000
    ensures var n := p + 1 + |octets|;
            LenAt(data, p, end) == if n + BigEndian(octets) <= end then Got(n, BigEndian(octets)) else Failed(OutOfData)
  {
    hide Here, BigEndian, LenAt;
    HereSlice(data, p + 1, octets);
    ManyOctets(data, p, end, |octets|);
  }

  lemma ManyOctets(data: seq<Byte>, p: nat, end: nat, n: nat)
    requires p <= end <= |data| && 1 <= n <= 4 && At(data, p) == 128 + n && p + 1 + n <= end
    ensures LenAt(data, p, end) == Checked(p + 1 + n, Widened(BigEndian(data[p + 1..p + 1 + n])), end)
  {
    hide BigEndian, Widened, Checked;
  }

  lemma HereSlice(data: seq<Byte>, p: nat, t: seq<Byte>)
    requires Here(data, p, t)
    ensures p + |t| <= |data| && data[p..p + |t|] == t
  {}

  /** A length below 128 is its own octet; other numbers of octets are refused, and so is what is cut off. */
  lemma ShortLength(data: seq<Byte>, p: nat, end: nat)
    requires p <= end <= |data|
    ensures p == end ==> LenAt(data, p, end) == Failed(OutOfData)
    ensures p < end && data[p] < 128 ==>
              LenAt(data, p, end) == if p + 1 + data[p] <= end then Got(p + 1, data[p]) else Failed(OutOfData)
    ensures p < end && (data[p] == 128 || data[p] > 132) ==> LenAt(data, p, end) == Failed(InvalidLength)
    ensures p < end && 128 < data[p] <= 132 && p + data[p] - 127 > end ==> LenAt(data, p, end) == Failed(OutOfData)
  {}

  /** asn1_get_tag */
  function TagAt(data: seq<Byte>, p: nat, end: nat, tag: Byte): (r: Got)
    requires p <= end <= |data|
    ensures r.Got? ==> p + 1 < r.next && r.next + r.len <= end
  {
    if end - p < 1 then Failed(OutOfData)
    else if data[p] != tag then Failed(UnexpectedTag)
    else LenAt(data, p + 1, end)
  }

  /** The length octets are read back exactly up to 65535. */
  lemma LengthIff(n: nat, contents: seq<Byte>)
    requires |contents| == n
    ensures LenAt(Length(n) + contents, 0, |Length(n)| + n) == Got(|Length(n)|, n) <==> n <= 65535
  {
    var data := Length(n) + contents;
    if n <= 65535 {
      assert data[0..|data|] == data;
      LenBack(data, 0, n, |data|);
    } else {
      assert data[1..3] == [n / 256 % 256, n % 256];
      TwoBytes(n / 256 % 256, n % 256);
    }
  }

  lemma TwoBytes(a: Byte, b: Byte)
    ensures BigEndian([a]) == a && BigEndian([a, b]) == a * 256 + b < 65536
  {
    assert [a][..0] == [];
    assert [a, b][..1] == [a];
  }

  lemma LenBack(data: seq<Byte>, p: nat, n: nat, end: nat)
    requires n <= 65535 && Here(data, p, Length(n)) && p + |Length(n)| + n <= end <= |data|
    ensures LenAt(data, p, end) == Got(p + |Length(n)|, n)
  {
    var t := Length(n);
    HereAt(data, p, t, 0);
    if n >= 0x80 {
      HereAt(data, p, t, 1);
      if n <= 0xFF {
        assert data[p + 1..p + 2] == [n];
        TwoBytes(n, 0);
      } else {
        HereAt(data, p, t, 2);
        assert data[p + 1..p + 3] == [n / 256 % 256, n % 256];
        TwoBytes(n / 256 % 256, n % 256);
      }
    }
  }

  /** What was written is found again: its contents and nothing more. */
  lemma TlvBack(data: seq<Byte>, p: nat, tag: Byte, contents: seq<Byte>, end: nat)
    requires |contents| <= 65535 && Here(data, p, Tlv(tag, contents)) && p + |Tlv(tag, contents)| <= end <= |data|
    ensures var n := p + 1 + |Length(|contents|)|;
            && TagAt(data, p, end, tag) == Got(n, |contents|)
            && n + |contents| == p + |Tlv(tag, contents)| && data[n..n + |contents|] == contents
  {
    hide Length, LenAt;
    HereSplit(data, p, [tag] + Length(|contents|), contents);
    HereSplit(data, p, [tag], Length(|contents|));
    HereAt(data, p, [tag], 0);
    LenBack(data, p + 1, |contents|, end);
  }

  /** A written algorithm identifier reads as a sequence of the OID and a null, with nothing left. */
  lemma AlgorithmBack(data: seq<Byte>, p: nat, oid: seq<Byte>)
    requires |Algorithm(oid)| <= 65535 && Here(data, p, Tlv(SequenceTag, Algorithm(oid)))
    requires p + |Tlv(SequenceTag, Algorithm(oid))| == |data|
    ensures var s := TagAt(data, p, |data|, SequenceTag);
            && s.Got? && s.next + s.len == |data|
            && var o := TagAt(data, s.next, |data|, OidTag);
               && o.Got? && data[o.next..o.next + o.len] == oid
               && TagAt(data, o.next + o.len, |data|, NullTag) == Got(|data|, 0)
  {
    hide Length, TagAt, Here;
    TlvBack(data, p, SequenceTag, Algorithm(oid), |data|);
    var s := TagAt(data, p, |data|, SequenceTag);
    HereWhole(data, s.next, Algorithm(oid));
    HereSplit(data, s.next, Tlv(OidTag, oid), Tlv(NullTag, []));
    TlvBack(data, s.next, OidTag, oid, |data|);
    TlvBack(data, s.next + |Tlv(OidTag, oid)|, NullTag, [], |data|);
  }

  lemma HereWhole(data: seq<Byte>, p: nat, t: seq<Byte>)
    requires p + |t| <= |data| && data[p..p + |t|] == t
    ensures Here(data, p, t)
  {}

  /** asn1_get_mpi; ok is false with the cursor's failure. */
  method GetMpi(data: seq<Byte>, p: nat, end: nat, Y: Mpi) returns (r: Got)
    requires p <= end <= |data|
    modifies Y
    ensures var t := TagAt(data, p, end, IntegerTag);
            if t.Failed? then r == t && unchanged(Y)
            else r == Got(t.next + t.len, 0) && Y.Value() == BigEndian(data[t.next..t.next + t.len]) && Y.s == 1
  {
    hide TagAt;
    r := TagAt(data, p, end, IntegerTag);
    if r.Failed? { return; }
    ReadBinary(Y, data[r.next..r.next + r.len]);
    r := Got(r.next + r.len, 0);
  }

  /** A number written in front of end and read back: its magnitude, with the cursor exactly at end.
      So it is the number itself exactly when it is not negative. */
  method MpiRoundTrip(X: Mpi, Y: Mpi, buf: array<Byte>, end: nat) returns (ret: int)
    requires X != Y && |X.p| > 0 && end <= buf.Length && (X.Mag() == 0 ==> end < buf.Length)
    requires |Contents(X.s, X.Mag())| <= 65535
    modifies buf, Y
    ensures ret >= 0 || ret == TooSmall
    ensures end >= ByteLen(X.Mag()) + 5 ==> ret >= 0
    ensures ret >= 0 ==> Y.Value() == X.Mag() && (Y.Value() == X.Value() <==> X.Value() >= 0)
  {
    hide Wrote, Length, LenAt, TagAt, BigEndian, Contents, Magnitude, ByteLen, BitLen, V, Here;
    ghost var was, m := buf[..], X.Mag();
    var p;
    ghost var contents;
    ret, p, contents := WriteMpi(buf, end, 0, X);
    ContentsValue(X.s, m);
    if contents == [0] { OneZero(); }
    ghost var t := Tlv(IntegerTag, contents);
    RoomIff(was, buf[..], 0, end, t, ret, p);
    if ret < 0 { return; }
    TlvBack(buf[..], p, IntegerTag, contents, end);
    var r := GetMpi(buf[..], p, end, Y);
    assert r == Got(end, 0);
  }

  lemma OneZero()
    ensures BigEndian([0]) == 0 && |Tlv(IntegerTag, [0])| <= 5
  {}

  lemma RoomIff(was: seq<Byte>, now: seq<Byte>, start: nat, p: nat, t: seq<Byte>, ret: int, p': nat)
    requires Wrote(was, now, start, p, t, ret, p')
    ensures ret >= 0 <==> p - start >= |t|
    ensures start <= p' <= p <= |was| && |now| == |was| && (ret < 0 ==> ret == TooSmall)
    ensures ret >= 0 ==> Here(now, p', t) && p' + |t| == p
  {}

  // ----- sequences -----

  /** An element of a sequence: where its contents start and how long they are. */
  datatype Entry = Entry(at: nat, len: nat)

  /** The entries, each with its tag and length in front, fill the bytes from p to end without a gap. */
  ghost predicate Tiles(data: seq<Byte>, p: nat, entries: seq<Entry>, tag: Byte, end: nat)
    requires p <= end <= |data|
    decreases |entries|
  {
    if entries == [] then p == end
    else
      var e := entries[0];
      TagAt(data, p, end, tag) == Got(e.at, e.len) && Tiles(data, e.at + e.len, entries[1..], tag, end)
  }

  datatype Split = Split(entries: seq<Entry>) | Unsplit(failure: Failure)

  /** The entries read from p on, or the failure met. */
  function EntriesAt(data: seq<Byte>, p: nat, end: nat, tag: Byte): Split
    requires p <= end <= |data|
    decreases end - p
  {
    if p == end then Split([])
    else
      match TagAt(data, p, end, tag)
      case Failed(f) => Unsplit(f)
      case Got(next, len) => Before(Entry(next, len), EntriesAt(data, next + len, end, tag))
  }

  function Before(e: Entry, s: Split): Split {
    if s.Split? then Split([e] + s.entries) else s
  }

  /** Reading finds a tiling of the bytes exactly when there is one, and there is only one. */
  lemma {:induction false} TilesIff(data: seq<Byte>, p: nat, end: nat, tag: Byte, es: seq<Entry>)
    requires p <= end <= |data|
    ensures Tiles(data, p, es, tag, end) <==> EntriesAt(data, p, end, tag) == Split(es)
    decreases |es|
  {
    hide TagAt;
    TagLater(data, p, end, tag);
    if es != [] {
      var t := TagAt(data, p, end, tag);
      if t == Got(es[0].at, es[0].len) { TilesIff(data, t.next + t.len, end, tag, es[1..]); }
      assert es == [es[0]] + es[1..];
    }
  }

  /** asn1_get_sequence_of. An empty sequence leaves the caller's first entry as it was, so there
      are no entries to speak of. */
  method GetSequenceOf(data: seq<Byte>, p: nat, end: nat, tag: Byte) returns (r: Got, entries: seq<Entry>)
    requires p <= end <= |data|
    ensures var t := TagAt(data, p, end, SequenceTag);
            if t.Failed? then r == t
            else if t.next + t.len != end then r == Failed(LengthMismatch)
            else
              var s := EntriesAt(data, t.next, end, tag);
              if s.Unsplit? then r == Failed(s.failure)
              else r == Got(end, 0) && entries == s.entries && Tiles(data, t.next, entries, tag, end)
  {
    hide TagAt, Tiles;
    entries := [];
    r := TagAt(data, p, end, SequenceTag);
    if r.Failed? { return; }
    if r.next + r.len != end { return Failed(LengthMismatch), entries; }
    var q := r.next;
    ghost var all := EntriesAt(data, q, end, tag);
    ghost var first := q;
    assert all.Split? ==> [] + all.entries == all.entries;
    while q < end
      invariant first <= q <= end && all == Ahead(entries, EntriesAt(data, q, end, tag))
      decreases end - q
    {
      r := TagAt(data, q, end, tag);
      if r.Failed? { return; }
      AheadTwice(entries, Entry(r.next, r.len), EntriesAt(data, r.next + r.len, end, tag));
      entries := entries + [Entry(r.next, r.len)];
      q := r.next + r.len;
    }
    assert entries + [] == entries;
    TilesIff(data, first, end, tag, entries);
    r := Got(end, 0);
  }

  function Ahead(es: seq<Entry>, s: Split): Split {
    if s.Split? then Split(es + s.entries) else s
  }

  lemma AheadTwice(es: seq<Entry>, e: Entry, s: Split)
    ensures Ahead(es, Before(e, s)) == Ahead(es + [e], s)
  {
    if s.Split? { assert es + ([e] + s.entries) == es + [e] + s.entries; }
  }

  lemma Headed(data: seq<Byte>, q: nat, es: seq<Entry>, tag: Byte, end: nat)
    requires q < end <= |data| && Tiles(data, q, es, tag, end)
    ensures es != [] && TagAt(data, q, end, tag) == Got(es[0].at, es[0].len)
    ensures Tiles(data, es[0].at + es[0].len, es[1..], tag, end)
  {}

  /** The contents of elements with one tag. */
  function Elements(tag: Byte, items: seq<seq<Byte>>): seq<Byte> {
    if items == [] then [] else Tlv(tag, items[0]) + Elements(tag, items[1..])
  }

  /** The entries that tile written elements are their contents, in order. */
  lemma {:induction false} ElementsBack(data: seq<Byte>, p: nat, tag: Byte, items: seq<seq<Byte>>, end: nat,
                                        es: seq<Entry>)
    requires p <= end <= |data| && Here(data, p, Elements(tag, items)) && p + |Elements(tag, items)| == end
    requires forall k :: 0 <= k < |items| ==> |items[k]| <= 65535
    requires Tiles(data, p, es, tag, end)
    ensures |es| == |items|
    ensures forall k :: 0 <= k < |items| ==>
              es[k].at + es[k].len <= end && data[es[k].at..es[k].at + es[k].len] == items[k]
    decreases |items|
  {
    hide Length, TagAt, Here;
    if items == [] {
      TagLater(data, p, end, tag);
    } else {
      var rest := Elements(tag, items[1..]);
      HereSplit(data, p, Tlv(tag, items[0]), rest);
      TlvBack(data, p, tag, items[0], end);
      Headed(data, p, es, tag, end);
      ElementsBack(data, p + |Tlv(tag, items[0])|, tag, items[1..], end, es[1..]);
      forall k | 1 <= k < |items| ensures es[k] == es[1..][k - 1] && items[k] == items[1..][k - 1] {}
    }
  }

  lemma TagLater(data: seq<Byte>, p: nat, end: nat, tag: Byte)
    requires p <= end <= |data|
    ensures p == end ==> TagAt(data, p, end, tag).Failed?
  {}
}
