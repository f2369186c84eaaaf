/** Binary data stored as text that contains neither the terminator 0x00 nor the quote 0x27:
    sqlite3_encode_binary and sqlite3_decode_binary. */
module QuoteFree {
  import opened Octets
  import opened Text

  const Quote: Byte := 0x27

  /** (b - e) & 0xff: the byte b once the offset e has been taken away. */
  function Shifted(b: Byte, e: Byte): Byte {
    if b < e then b - e + 256 else b - e
  }

  /** (c + e) & 0xff */
  function Restored(c: Byte, e: Byte): Byte {
    if c + e < 256 then c + e else c + e - 256
  }

  lemma WrapAround(b: Byte, e: Byte)
    ensures Shifted(b, e) == (b - e) % 256 && Restored(b, e) == (b + e) % 256
    ensures Restored(Shifted(b, e), e) == b && Shifted(Restored(b, e), e) == b
  {}

  predicate Escaped(b: Byte, e: Byte) {
    Shifted(b, e) in {0, 1, Quote}
  }

  /** The text of one byte. */
  function Piece(b: Byte, e: Byte): seq<Byte> {
    var c := Shifted(b, e);
    if c == 0 then [1, 1] else if c == 1 then [1, 2] else if c == Quote then [1, 3] else [c]
  }

  /** The text that follows the offset byte. */
  function Body(b: seq<Byte>, e: Byte): seq<Byte> {
    if b == [] then [] else Body(b[..|b| - 1], e) + Piece(b[|b| - 1], e)
  }

  /** How many bytes of b take two bytes of text at the offset e. */
  function Escapes(b: seq<Byte>, e: Byte): nat {
    if b == [] then 0 else Escapes(b[..|b| - 1], e) + if Escaped(b[|b| - 1], e) then 1 else 0
  }

  function Count(b: seq<Byte>, v: Byte): nat {
    if b == [] then 0 else Count(b[1..], v) + if b[0] == v then 1 else 0
  }

  /** The 254 offsets that can stand in the text themselves. */
  predicate Allowed(e: int) {
    1 <= e < 256 && e != Quote
  }

  /** The first of the cheapest offsets. */
  ghost predicate Best(b: seq<Byte>, e: Byte) {
    && Allowed(e)
    && (forall i: Byte :: Allowed(i) ==> Escapes(b, e) <= Escapes(b, i))
    && (forall i: Byte :: Allowed(i) && i < e ==> Escapes(b, e) < Escapes(b, i))
  }

  /** A buffer of this size takes the text of b and its terminator at some allowed offset. */
  ghost predicate Fits(b: seq<Byte>, size: nat) {
    exists e: Byte :: Allowed(e) && 2 + |b| + Escapes(b, e) <= size
  }

  /** What encoding b leaves in front of the terminator. */
  ghost predicate Encodes(text: seq<Byte>, b: seq<Byte>) {
    if b == [] then text == ['x' as int] else
    && |text| > 0 && Best(b, text[0]) && text[1..] == Body(b, text[0])
  }

  predicate Printable(t: seq<Byte>) {
    forall k :: 0 <= k < |t| ==> t[k] != 0 && t[k] != Quote
  }

  /** The text in s stops in front of s[z]; its first byte is the offset, whatever it is. */
  predicate Ends(s: seq<Byte>, z: nat) {
    0 < z < |s| && s[z] == 0 && forall k :: 0 < k < z ==> s[k] != 0
  }

  ghost predicate Terminated(s: seq<Byte>) {
    exists z: nat :: Ends(s, z)
  }

  /** What decoding produces before it ends or meets a bad escape. */
  datatype Decoded = Decoded(bytes: seq<Byte>, ok: bool)

  function Decode(t: seq<Byte>, e: Byte): Decoded {
    if t == [] then Decoded([], true)
    else if t[0] != 1 then Before(Restored(t[0], e), Decode(t[1..], e))
    else if |t| == 1 || t[1] !in {1, 2, 3} then Decoded([], false)
    else Before(Restored(Meaning(t[1]), e), Decode(t[2..], e))
  }

  /** The byte an escape stands for. */
  function Meaning(c: Byte): Byte {
    if c == 1 then 0 else if c == 2 then 1 else Quote
  }

  function Before(b: Byte, d: Decoded): Decoded {
    Decoded([b] + d.bytes, d.ok)
  }

  /** The escapes: the text of a byte whose distance from the offset is d. */
  lemma PieceOfDistance(b: Byte, e: Byte, d: nat)
    requires d < 256 && b == (e + d) % 256
    ensures Body([b], e) ==
            if d == 0 then [1, 1] else if d == 1 then [1, 2] else if d == '\'' as int then [1, 3] else [d]
    ensures Decode(Body([b], e), e) == Decoded([b], true)
  {
    assert [b][..0] == [];
    assert d == Shifted(b, e);
    assert Body([b], e) == [] + Piece(b, e);
    assert Piece(b, e) + [] == Piece(b, e);
    DecodePiece([], b, e);
  }

  lemma {:induction false} BodyBoth(a: seq<Byte>, b: seq<Byte>, e: Byte)
    ensures Body(a + b, e) == Body(a, e) + Body(b, e)
  {
    hide Piece;
    if b == [] {
      assert a + b == a;
    } else {
      var m := |b| - 1;
      BodyBoth(a, b[..m], e);
      assert (a + b)[..|a + b| - 1] == a + b[..m];
    }
  }

  // ----- the two methods -----

  /** sqlite3_encode_binary */
  method Encode(b: array<Byte>, n: nat, out: array<Byte>) returns (j: nat)
    requires n <= b.Length && b != out && Fits(b[..n], out.Length)
    modifies out
    ensures 0 < j < out.Length && out[j] == 0
    ensures Encodes(out[..j], b[..n])
    ensures forall k :: j < k < out.Length ==> out[k] == old(out[k])
  {
    if n <= 0 {
      assert b[..n] == [];
      out[0] := 'x' as int;
      out[1] := 0;
      return 1;
    }
    var cnt := CountBytes(b, n);
    var e := ChooseOffset(b[..n], n, cnt);
    j := WriteBody(b, n, e, out);
    out[j] := 0;
    assert out[..j][1..] == out[1..j];
  }

  /** The occurrences of every byte value. */
  method CountBytes(b: array<Byte>, n: nat) returns (cnt: array<nat>)
    requires n <= b.Length
    ensures fresh(cnt) && cnt.Length == 256 && forall v: Byte :: cnt[v] == Count(b[..n], v)
  {
    cnt := new nat[256](_ => 0);
    var i := n - 1;
    ghost var s := b[..n];
    while i >= 0
      invariant -1 <= i < n
      invariant forall v: Byte :: cnt[v] == Count(s[i + 1..], v)
    {
      assert s[i..][1..] == s[i + 1..];
      cnt[b[i]] := cnt[b[i]] + 1;
      i := i - 1;
    }
    assert s[0..] == s;
  }

  /** Tries the allowed offsets upwards and keeps the first cheapest one; e is not set before
      the first offset that beats n escapes. */
  method ChooseOffset(ghost b: seq<Byte>, n: nat, cnt: array<nat>) returns (e: Byte)
    requires n == |b| > 0 && cnt.Length == 256 && forall v: Byte :: cnt[v] == Count(b, v)
    ensures Best(b, e)
  {
    e := *;
    var m := n;
    ghost var chosen := false;
    var i := 1;
    while i < 256
      invariant 1 <= i <= 256
      invariant chosen ==> Allowed(e) && e < i && m == Escapes(b, e)
      invariant !chosen ==> m == n
      invariant forall k: Byte :: Allowed(k) && k < i ==> m <= Escapes(b, k)
      invariant chosen ==> forall k: Byte :: Allowed(k) && k < e ==> m < Escapes(b, k)
    {
      if i == Quote {
        i := i + 1;
        continue;
      }
      WrapAround(i, 1);
      WrapAround(i, Quote);
      var sum := cnt[i] + cnt[(i + 1) % 256] + cnt[(i + Quote) % 256];
      EscapesByCount(b, i);
      if sum < m {
        m := sum;
        e := i;
        chosen := true;
        if m == 0 { break; }
      }
      i := i + 1;
    }
    if m != 0 { Pigeonhole(b, m); }
  }

  /** The offset and the pieces of all bytes. */
  method WriteBody(b: array<Byte>, n: nat, e: Byte, out: array<Byte>) returns (j: nat)
    requires n <= b.Length && b != out && 2 + n + Escapes(b[..n], e) <= out.Length
    modifies out
    ensures 0 < j < out.Length && out[0] == e && out[1..j] == Body(b[..n], e)
    ensures forall k :: j <= k < out.Length ==> out[k] == old(out[k])
  {
    hide Body, Escapes, Piece;
    EmptyText(b[..0], e);
    out[0] := e;
    j := 1;
    var i := 0;
    while i < n
      invariant 0 <= i <= n && j == 1 + i + Escapes(b[..i], e) < out.Length
      invariant out[0] == e && out[1..j] == Body(b[..i], e)
      invariant forall k :: j <= k < out.Length ==> out[k] == old(out[k])
    {
      ghost var done := out[1..j];
      assert b[..n][..i] == b[..i] && b[..n][..i + 1] == b[..i + 1];
      NextPiece(b[..n], i, e);
      EscapesMono(b[..n], i + 1, e);
      j := WritePiece(out, j, b[i], e);
      assert out[1..j] == done + Piece(b[i], e);
      i := i + 1;
    }
  }

  /** One byte, escaped where it must be. */
  method WritePiece(out: array<Byte>, j: nat, b: Byte, e: Byte) returns (j': nat)
    requires j + |Piece(b, e)| <= out.Length
    modifies out
    ensures j' == j + |Piece(b, e)| && out[j..j'] == Piece(b, e)
    ensures forall k :: 0 <= k < out.Length && !(j <= k < j') ==> out[k] == old(out[k])
  {
    WrapAround(b, e);
    var c := (b - e) % 256;
    j' := j;
    if c == 0 {
      out[j'] := 1;
      out[j' + 1] := 1;
      j' := j' + 2;
    } else if c == 1 {
      out[j'] := 1;
      out[j' + 1] := 2;
      j' := j' + 2;
    } else if c == Quote {
      out[j'] := 1;
      out[j' + 1] := 3;
      j' := j' + 2;
    } else {
      out[j'] := c;
      j' := j' + 1;
    }
  }

  /** sqlite3_decode_binary on the text in front of the first terminator after the offset byte;
      in place when out is inp. */
  method DecodeInto(inp: array<Byte>, out: array<Byte>, ghost z: nat) returns (i: int)
    requires Ends(inp[..], z) && |Decode(inp[1..z], inp[0]).bytes| <= out.Length
    modifies out
    ensures var d := old(Decode(inp[1..z], inp[0]));
            && i == (if d.ok then |d.bytes| else -1)
            && |d.bytes| < z && out[..|d.bytes|] == d.bytes
            && forall k :: |d.bytes| <= k < out.Length ==> out[k] == old(out[k])
  {
    hide Restored, Decode;
    ghost var text := inp[..];
    var e, r := inp[0], 1;
    ghost var d := Decode(text[1..z], e);
    DecodedLength(text[1..z], e);
    i := 0;
    while true
      invariant 0 <= i < r <= z && i <= out.Length
      invariant forall k :: r <= k < inp.Length ==> inp[k] == text[k]
      invariant var rest := Decode(text[r..z], e); d.bytes == out[..i] + rest.bytes && d.ok == rest.ok
      invariant forall k :: i <= k < out.Length ==> out[k] == old(out[k])
      decreases z - r
    {
      ghost var done := out[..i];
      Decoding(text, r, z, e);
      var c := inp[r];
      r := r + 1;
      if c == 0 { break; }
      if c == 1 {
        c := inp[r];
        r := r + 1;
        if c == 1 {
          c := 0;
        } else if c == 2 {
          c := 1;
        } else if c == 3 {
          c := Quote;
        } else {
          return -1;
        }
      }
      out[i] := MaskedSum(c, e);
      i := i + 1;
      assert out[..i] == done + [out[i - 1]];
      Regroup(done, [out[i - 1]], Decode(text[r..z], e).bytes);
    }
  }

  /** (c + e) & 0xff */
  method MaskedSum(c: Byte, e: Byte) returns (r: Byte)
    ensures r == Restored(c, e)
  {
    WrapAround(c, e);
    r := (c as int + e) % 256;
  }

  // ----- the offset -----

  lemma {:induction false} CountLast(b: seq<Byte>, v: Byte)
    requires |b| > 0
    ensures Count(b, v) == Count(b[..|b| - 1], v) + if b[|b| - 1] == v then 1 else 0
  {
    if |b| > 1 {
      CountLast(b[1..], v);
      assert b[1..][..|b| - 2] == b[..|b| - 1][1..];
    }
  }

  /** The sum that the search computes from the counts. */
  lemma {:induction false} EscapesByCount(b: seq<Byte>, e: Byte)
    ensures Escapes(b, e) == Count(b, e) + Count(b, Restored(e, 1)) + Count(b, Restored(e, Quote))
  {
    if b != [] {
      EscapesByCount(b[..|b| - 1], e);
      CountLast(b, e);
      CountLast(b, Restored(e, 1));
      CountLast(b, Restored(e, Quote));
    }
  }

  lemma EmptyText(b: seq<Byte>, e: Byte)
    requires b == []
    ensures Body(b, e) == [] && Escapes(b, e) == 0
  {}

  lemma NextPiece(b: seq<Byte>, i: nat, e: Byte)
    requires i < |b|
    ensures Body(b[..i + 1], e) == Body(b[..i], e) + Piece(b[i], e)
    ensures Escapes(b[..i + 1], e) + 1 == Escapes(b[..i], e) + |Piece(b[i], e)|
  {
    assert b[..i + 1][..i] == b[..i];
  }

  lemma {:induction false} EscapesMono(b: seq<Byte>, i: nat, e: Byte)
    requires i <= |b|
    ensures i + Escapes(b[..i], e) <= |b| + Escapes(b, e)
  {
    if i < |b| {
      EscapesMono(b[..|b| - 1], i, e);
      assert b[..|b| - 1][..i] == b[..i];
    } else {
      assert b[..i] == b;
    }
  }

  /** The escapes of all offsets below k together. */
  function Total(b: seq<Byte>, k: nat): nat
    requires k <= 256
  {
    if k == 0 then 0 else Total(b, k - 1) + Escapes(b, k - 1)
  }

  /** The offsets below k at which one byte is escaped: those at distance 0, 1 and 39 from it. */
  function Hits(v: Byte, k: nat): nat {
    (if v < k then 1 else 0) + (if Shifted(v, 1) < k then 1 else 0) + (if Shifted(v, Quote) < k then 1 else 0)
  }

  lemma {:induction false} TotalLast(b: seq<Byte>, k: nat)
    requires |b| > 0 && k <= 256
    ensures Total(b, k) == Total(b[..|b| - 1], k) + Hits(b[|b| - 1], k)
  {
    if k > 0 { TotalLast(b, k - 1); }
  }

  lemma {:induction false} EmptyTotal(k: nat)
    requires k <= 256
    ensures Total([], k) == 0
  {
    if k > 0 { EmptyTotal(k - 1); }
  }

  /** Every byte is escaped at exactly three of the 256 offsets. */
  lemma {:induction false} ThreeEach(b: seq<Byte>)
    ensures Total(b, 256) == 3 * |b|
  {
    if b == [] {
      EmptyTotal(256);
    } else {
      ThreeEach(b[..|b| - 1]);
      TotalLast(b, 256);
    }
  }

  /** If every allowed offset below k costs m, the total is at least m for each of them. */
  lemma {:induction false} TotalAtLeast(b: seq<Byte>, m: nat, k: nat)
    requires 1 <= k <= 256 && forall i: Byte :: Allowed(i) ==> m <= Escapes(b, i)
    ensures Total(b, k) >= m * (k - 1 - if k > Quote then 1 else 0)
  {
    if k > 1 {
      hide Escapes;
      TotalAtLeast(b, m, k - 1);
      var before := k - 2 - if k - 1 > Quote then 1 else 0;
      assert k - 1 != Quote ==> m * (before + 1) == m * before + m;
    }
  }

  /** Averaging over the 254 offsets: no bound below all of their costs exceeds 3 in 254. */
  lemma Pigeonhole(b: seq<Byte>, m: nat)
    requires forall i: Byte :: Allowed(i) ==> m <= Escapes(b, i)
    ensures 254 * m <= 3 * |b|
    ensures |b| > 0 ==> m < |b|
  {
    ThreeEach(b);
    TotalAtLeast(b, m, 256);
  }

  lemma SmallestOffset(b: seq<Byte>, k: nat) returns (e: Byte)
    requires 2 <= k <= 256
    ensures Allowed(e) && e < k
    ensures forall i: Byte :: Allowed(i) && i < k ==> Escapes(b, e) <= Escapes(b, i)
    ensures forall i: Byte :: Allowed(i) && i < e ==> Escapes(b, e) < Escapes(b, i)
  {
    if k == 2 {
      e := 1;
    } else {
      e := SmallestOffset(b, k - 1);
      if Allowed(k - 1) && Escapes(b, k - 1) < Escapes(b, e) { e := k - 1; }
    }
  }

  /** The size the documentation of the encoder asks for is always enough. */
  lemma DocumentedSize(b: seq<Byte>, size: nat)
    requires size >= 2 + (257 * |b|) / 254
    ensures Fits(b, size)
  {
    var e := SmallestOffset(b, 256);
    Pigeonhole(b, Escapes(b, e));
  }

  /** ... and the text never takes more. */
  lemma EncodedSize(text: seq<Byte>, b: seq<Byte>)
    requires Encodes(text, b)
    ensures |text| + 1 <= 2 + (257 * |b|) / 254
  {
    if b != [] {
      Pigeonhole(b, Escapes(b, text[0]));
      BodyLength(b, text[0]);
    }
  }

  // ----- the text -----

  lemma {:induction false} BodyLength(b: seq<Byte>, e: Byte)
    ensures |Body(b, e)| == |b| + Escapes(b, e)
    ensures Printable(Body(b, e))
  {
    if b != [] { BodyLength(b[..|b| - 1], e); }
  }

  /** Neither the terminator nor the quote occurs in an encoding. */
  lemma EncodedPrintable(text: seq<Byte>, b: seq<Byte>)
    requires Encodes(text, b)
    ensures |text| > 0 && Printable(text)
  {
    if b != [] {
      BodyLength(b, text[0]);
      forall k | 0 <= k < |text| ensures text[k] != 0 && text[k] != Quote {
        if k > 0 { assert text[k] == text[1..][k - 1]; }
      }
    }
  }

  /** The encoding of given data is unique. */
  lemma EncodedUnique(s: seq<Byte>, t: seq<Byte>, b: seq<Byte>)
    requires Encodes(s, b) && Encodes(t, b)
    ensures s == t
  {
    if b != [] {
      assert s == [s[0]] + s[1..];
      assert t == [t[0]] + t[1..];
    }
  }

  // ----- decoding -----

  lemma {:induction false} DecodedLength(t: seq<Byte>, e: Byte)
    ensures |Decode(t, e).bytes| <= |t|
  {
    if t != [] {
      if t[0] != 1 {
        DecodedLength(t[1..], e);
      } else if |t| > 1 {
        DecodedLength(t[2..], e);
      }
    }
  }

  /** Decoding the text in front of z from position r on. */
  lemma Decoding(text: seq<Byte>, r: nat, z: nat, e: Byte)
    requires 0 < r <= z && Ends(text, z)
    ensures text[r] == 0 <==> r == z
    ensures r == z ==> Decode(text[r..z], e) == Decoded([], true)
    ensures r < z && text[r] != 1 ==>
              Decode(text[r..z], e) == Before(Restored(text[r], e), Decode(text[r + 1..z], e))
    ensures r < z && text[r] == 1 && text[r + 1] !in {1, 2, 3} ==> Decode(text[r..z], e) == Decoded([], false)
    ensures r < z && text[r] == 1 && text[r + 1] in {1, 2, 3} ==>
              r + 1 < z && Decode(text[r..z], e) == Before(Restored(Meaning(text[r + 1]), e), Decode(text[r + 2..z], e))
  {
    var rest := text[r..z];
    if r < z {
      assert text[r] != 0;
      assert rest[1..] == text[r + 1..z];
      if r + 1 < z {
        assert rest[2..] == text[r + 2..z];
      }
    }
  }

  lemma {:induction false} SomeEnd(s: seq<Byte>, z: nat)
    requires 0 < z < |s| && s[z] == 0
    ensures Terminated(s)
  {
    if k :| 0 < k < z && s[k] == 0 {
      SomeEnd(s, k);
    } else {
      assert Ends(s, z);
    }
  }

  lemma OneEnd(s: seq<Byte>, y: nat, z: nat)
    requires Ends(s, y) && Ends(s, z)
    ensures y == z
  {
  }

  lemma {:induction false} DecodePiece(t: seq<Byte>, b: Byte, e: Byte)
    ensures Decode(Piece(b, e) + t, e) == Before(b, Decode(t, e))
  {
    var s := Piece(b, e) + t;
    assert s[0] == Piece(b, e)[0];
    if Shifted(b, e) in {0, 1, Quote} {
      assert s[1] == Piece(b, e)[1] && s[2..] == t;
    } else {
      assert s[1..] == t;
    }
  }

  lemma {:induction false} DecodeBody(b: seq<Byte>, e: Byte, t: seq<Byte>)
    ensures Decode(Body(b, e) + t, e) == Decoded(b + Decode(t, e).bytes, Decode(t, e).ok)
  {
    hide Decode, Piece;
    if b == [] {
      assert Body(b, e) + t == t;
      assert b + Decode(t, e).bytes == Decode(t, e).bytes;
    } else {
      var front, last := b[..|b| - 1], b[|b| - 1];
      var t' := Piece(last, e) + t;
      DecodeBody(front, e, t');
      assert Body(b, e) + t == Body(front, e) + t';
      DecodePiece(t, last, e);
      assert front + ([last] + Decode(t, e).bytes) == b + Decode(t, e).bytes;
    }
  }

  /** Decoding an encoding gives the data back. */
  lemma RoundTrip(text: seq<Byte>, b: seq<Byte>)
    requires Encodes(text, b)
    ensures |text| > 0 && Decode(text[1..], text[0]) == Decoded(b, true)
  {
    if b != [] {
      var e := text[0];
      DecodeBody(b, e, []);
      assert Body(b, e) + [] == Body(b, e) && b + [] == b;
    }
  }

  lemma {:induction false} BodyFront(b: Byte, rest: seq<Byte>, e: Byte)
    ensures Body([b] + rest, e) == Piece(b, e) + Body(rest, e)
  {
    hide Piece;
    var s := [b] + rest;
    if rest == [] {
      assert s[..0] == [];
    } else {
      BodyFront(b, rest[..|rest| - 1], e);
      assert s[..|s| - 1] == [b] + rest[..|rest| - 1];
    }
  }

  lemma PieceOf(c: Byte, e: Byte)
    ensures c !in {0, 1, Quote} ==> Piece(Restored(c, e), e) == [c]
    ensures c in {1, 2, 3} ==> Piece(Restored(Meaning(c), e), e) == [1, c]
  {}

  /** Quote-free text that decodes is what encoding the result at its own offset gives. */
  lemma {:induction false} Canonical(t: seq<Byte>, e: Byte)
    requires Printable(t) && Decode(t, e).ok
    ensures Body(Decode(t, e).bytes, e) == t
  {
    hide Piece, Restored, Meaning;
    if t != [] {
      if t[0] != 1 {
        Canonical(t[1..], e);
        PieceOf(t[0], e);
        BodyFront(Restored(t[0], e), Decode(t[1..], e).bytes, e);
        assert t == [t[0]] + t[1..];
      } else {
        Canonical(t[2..], e);
        PieceOf(t[1], e);
        BodyFront(Restored(Meaning(t[1]), e), Decode(t[2..], e).bytes, e);
        assert t == [t[0], t[1]] + t[2..];
      }
    }
  }

  lemma {:induction false} EscapesFront(b: Byte, rest: seq<Byte>, e: Byte)
    ensures Escapes([b] + rest, e) == Escapes(rest, e) + if Escaped(b, e) then 1 else 0
  {
    hide Escaped;
    var s := [b] + rest;
    if rest == [] {
      assert s[..0] == [];
    } else {
      EscapesFront(b, rest[..|rest| - 1], e);
      assert s[..|s| - 1] == [b] + rest[..|rest| - 1];
    }
  }

  lemma EscapedOf(c: Byte, e: Byte)
    ensures Escaped(Restored(c, e), e) <==> c in {0, 1, Quote}
  {
    WrapAround(c, e);
  }

  /** Text that decodes is shorter than the encoding of the result at its own offset by the quotes
      in it, which an encoder would have escaped. */
  lemma {:induction false} QuotesSaved(t: seq<Byte>, e: Byte)
    requires NulFree(t) && Decode(t, e).ok
    ensures |t| + Count(t, Quote) == |Decode(t, e).bytes| + Escapes(Decode(t, e).bytes, e)
  {
    hide Restored, Escapes, Meaning;
    if t == [] {
      EmptyText([], e);
    } else if t[0] != 1 {
      QuotesSaved(t[1..], e);
      EscapedOf(t[0], e);
      EscapesFront(Restored(t[0], e), Decode(t[1..], e).bytes, e);
    } else {
      QuotesSaved(t[2..], e);
      assert t[1..][1..] == t[2..];
      MeaningEscaped(t[1], e);
      EscapesFront(Restored(Meaning(t[1]), e), Decode(t[2..], e).bytes, e);
    }
  }

  lemma MeaningEscaped(c: Byte, e: Byte)
    ensures Escaped(Restored(Meaning(c), e), e)
  {
    EscapedOf(Meaning(c), e);
  }

  /** Some offset makes up for the quotes in the text, which its own offset leaves as they are. */
  ghost predicate Reencodable(text: seq<Byte>)
    requires |text| > 0
  {
    var b := Decode(text[1..], text[0]).bytes;
    exists e: Byte :: Allowed(e) && Escapes(b, e) + Count(text[1..], Quote) <= Escapes(b, text[0])
  }

  /** Exactly then can the data decoded from the text be encoded again in the text's own buffer. */
  lemma ReencodingIff(text: seq<Byte>)
    requires |text| > 0 && NulFree(text[1..]) && Decode(text[1..], text[0]).ok
    ensures Fits(Decode(text[1..], text[0]).bytes, |text| + 1) <==> Reencodable(text)
  {
    hide Escapes, Count, Decode;
    var b, e, q := Decode(text[1..], text[0]).bytes, text[0], Count(text[1..], Quote);
    QuotesSaved(text[1..], e);
    assert forall i: Byte :: 2 + |b| + Escapes(b, i) <= |text| + 1 <==> Escapes(b, i) + q <= Escapes(b, e);
  }

  /** The new text is no longer than the old one exactly then. */
  lemma ReencodedLength(text: seq<Byte>, again: seq<Byte>)
    requires |text| > 0 && NulFree(text[1..]) && Decode(text[1..], text[0]).ok
    requires Encodes(again, Decode(text[1..], text[0]).bytes)
    ensures |again| <= |text| <==> Reencodable(text)
  {
    hide Escapes, Decode, Body;
    var b := Decode(text[1..], text[0]).bytes;
    ReencodingIff(text);
    if b == [] {
      EmptyText(b, 1);
      assert Allowed(1);
    } else {
      BodyLength(b, again[0]);
    }
  }

  lemma {:induction false} NoQuotes(t: seq<Byte>)
    requires Printable(t)
    ensures Count(t, Quote) == 0 && NulFree(t)
  {
    if t != [] { NoQuotes(t[1..]); }
  }

  /** In particular for quote-free text, where the text's own offset will do. */
  lemma ReencodingFits(text: seq<Byte>)
    requires |text| > 0 && Printable(text) && Decode(text[1..], text[0]).ok
    ensures Reencodable(text) && Fits(Decode(text[1..], text[0]).bytes, |text| + 1)
  {
    NoQuotes(text[1..]);
    assert Allowed(text[0]);
    ReencodingIff(text);
  }

  lemma {:induction false} SomeEscape(b: seq<Byte>, e: Byte, k: nat)
    requires k < |b| && Escaped(b[k], e)
    ensures Escapes(b, e) > 0
  {
    if k < |b| - 1 { SomeEscape(b[..|b| - 1], e, k); }
  }

  lemma {:induction false} NoEscape(b: seq<Byte>, e: Byte)
    requires forall k :: 0 <= k < |b| ==> !Escaped(b[k], e)
    ensures Escapes(b, e) == 0
  {
    if b != [] { NoEscape(b[..|b| - 1], e); }
  }

  /** Text with the quote as its offset can be too short for that: each byte value except the
      three that the offset 0x27 escapes. */
  lemma QuoteCounterexample() returns (text: seq<Byte>)
    ensures |text| > 0 && NulFree(text) && Decode(text[1..], text[0]).ok
    ensures !Reencodable(text) && !Fits(Decode(text[1..], text[0]).bytes, |text| + 1)
  {
    var b := seq(253, i requires 0 <= i < 253 => (if i < 39 then i else if i < 76 then i + 2 else i + 3) as Byte);
    text := [Quote] + Body(b, Quote);
    assert text[1..] == Body(b, Quote);
    NoEscape(b, Quote);
    BodyLength(b, Quote);
    DecodeBody(b, Quote, []);
    assert Body(b, Quote) + [] == Body(b, Quote) && b + [] == b;
    forall e: Byte | Allowed(e) ensures Escapes(b, e) > 0 {
      var v := if e == 40 || e == 78 then e + 1 else e;
      SomeEscape(b, e, if v < 39 then v else if v < 78 then v - 2 else v - 3);
    }
    ReencodingIff(text);
  }
}
