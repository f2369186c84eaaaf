/** Base64: the encoder, and the decoder that skips line breaks. */
module Base64 {
  import opened Octets
  import opened Text
  import opened Arith

  const Pad: Byte := 61
  const Return: Byte := 13

  /** base64_enc_map */
  function Letter(v: nat): (c: Byte)
    requires v < 64
    ensures Digit(c) == v && c != Pad
  {
    if v < 26 then 65 + v else if v < 52 then 71 + v else if v < 62 then v - 4 else if v == 62 then 43 else 47
  }

  /** base64_dec_map: 64 for the padding, 127 for what does not belong. */
  function Digit(c: Byte): (v: nat)
    ensures v <= 64 || v == 127
    ensures v == 64 <==> c == Pad
  {
    if c == 43 then 62 else if c == 47 then 63
    else if IsDigit(c) then c + 4
    else if c == Pad then 64
    else if 65 <= c <= 90 then c - 65
    else if 97 <= c <= 122 then c - 71
    else 127
  }

  // ----- the alphabet: table 1 of RFC 4648 -----

  const UpperCase: string := "ABCDEFGHIJKLMNOPQRSTUVWXYZ"
  const LowerCase: string := "abcdefghijklmnopqrstuvwxyz"
  const Alphabet: string := UpperCase + LowerCase + "0123456789+/"

  lemma AlphabetLetter(v: nat)
    requires v < 64
    ensures |Alphabet| == 64 && Letter(v) == Alphabet[v] as int
  {
    assert |UpperCase| == |LowerCase| == 26;
    if v < 26 {
      UpperLetter(v);
      assert Alphabet[v] == UpperCase[v];
    } else if v < 52 {
      LowerLetter(v - 26);
      assert Alphabet[v] == LowerCase[v - 26];
    } else {
      OtherLetter(v - 52);
      assert Alphabet[v] == "0123456789+/"[v - 52];
    }
  }

  lemma UpperLetter(v: nat)
    requires v < 26
    ensures UpperCase[v] as int == 'A' as int + v
  {}

  lemma LowerLetter(v: nat)
    requires v < 26
    ensures LowerCase[v] as int == 'a' as int + v
  {}

  lemma OtherLetter(v: nat)
    requires v < 12
    ensures "0123456789+/"[v] as int == if v < 10 then '0' as int + v else if v == 10 then '+' as int else '/' as int
  {}

  /** Letters are told from the padding and from everything else. */
  lemma AlphabetDigit(c: Byte)
    ensures forall v :: 0 <= v < 64 ==> (Digit(c) == v <==> c == Alphabet[v] as int)
    ensures Digit(c) == 64 <==> c == '=' as int
    ensures Digit(c) < 64 <==> exists v :: 0 <= v < 64 && c == Alphabet[v] as int
  {
    hide Letter, Digit;
    forall v | 0 <= v < 64 ensures Digit(c) == v <==> c == Alphabet[v] as int {
      AlphabetLetter(v);
      SameLetter(c, v);
    }
    PadOrOther(c);
    if Digit(c) < 64 { assert c == Alphabet[Digit(c)] as int; }
  }

  lemma PadOrOther(c: Byte)
    ensures Digit(c) < 64 || Digit(c) == 64 || Digit(c) == 127
    ensures Digit(c) == 64 <==> c == '=' as int
  {}

  lemma SameLetter(c: Byte, v: nat)
    requires v < 64
    ensures Digit(c) == v <==> c == Letter(v)
  {}

  /** Three bytes are the four letters of their 24 bits, six at a time from the top. */
  lemma FourLetters(a: Byte, b: Byte, c: Byte, w: nat, x: nat, y: nat, z: nat)
    requires w < 64 && x < 64 && y < 64 && z < 64
    requires (a * 256 + b) * 256 + c == ((w * 64 + x) * 64 + y) * 64 + z
    ensures Quad(a, b, c) == [Alphabet[w] as int, Alphabet[x] as int, Alphabet[y] as int, Alphabet[z] as int]
  {
    hide Letter;
    SixBitGroups(a, b, c, w, x, y, z);
    AlphabetLetter(w);
    AlphabetLetter(x);
    AlphabetLetter(y);
    AlphabetLetter(z);
  }

  lemma SixBitGroups(a: Byte, b: Byte, c: Byte, w: nat, x: nat, y: nat, z: nat)
    requires w < 64 && x < 64 && y < 64 && z < 64
    requires (a * 256 + b) * 256 + c == ((w * 64 + x) * 64 + y) * 64 + z
    ensures w == a / 4 && x == a % 4 * 16 + b / 16 && y == b % 16 * 4 + c / 64 && z == c % 64
  {
    var n := (a * 256 + b) * 256 + c;
    assert n / 64 == (w * 64 + x) * 64 + y && n % 64 == z;
    assert n / 64 / 64 == w * 64 + x && n / 64 % 64 == y;
    assert n / 64 / 64 / 64 == w && n / 64 / 64 % 64 == x;
  }

  /** Whole triples one after the other, and one or two bytes left over with zero bits behind them. */
  lemma EncodedParts(s: seq<Byte>)
    ensures s == [] ==> Encoded(s) == []
    ensures |s| == 1 ==> Encoded(s) == Quad(s[0], 0, 0)[..2] + Ascii("==")
    ensures |s| == 2 ==> Encoded(s) == Quad(s[0], s[1], 0)[..3] + Ascii("=")
    ensures |s| >= 3 ==> Encoded(s) == Quad(s[0], s[1], s[2]) + Encoded(s[3..])
  {
    Padding();
    hide Quad, Ascii;
  }

  lemma Padding()
    ensures Ascii("=") == [Pad] && Ascii("==") == [Pad, Pad]
  {}

  // ----- encoding -----

  /** Three bytes in four letters. */
  function Quad(a: Byte, b: Byte, c: Byte): (q: seq<Byte>)
    ensures |q| == 4
  {
    [Letter(a / 4), Letter(a % 4 * 16 + b / 16), Letter(b % 16 * 4 + c / 64), Letter(c % 64)]
  }

  function Encoded(s: seq<Byte>): seq<Byte>
  {
    if |s| == 0 then []
    else if |s| == 1 then Quad(s[0], 0, 0)[..2] + [Pad, Pad]
    else if |s| == 2 then Quad(s[0], s[1], 0)[..3] + [Pad]
    else Quad(s[0], s[1], s[2]) + Encoded(s[3..])
  }

  /** Four letters for every three bytes begun. */
  lemma {:induction false} EncodedLength(s: seq<Byte>)
    ensures |Encoded(s)| == (|s| + 2) / 3 * 4
  {
    hide Quad;
    if |s| >= 3 {
      EncodedLength(s[3..]);
      assert (|s| + 2) / 3 == (|s[3..]| + 2) / 3 + 1;
    }
  }

  datatype Status = Ok | BufferTooSmall | InvalidCharacter

  /** base64_encode. Nothing at all happens on empty input; otherwise the text and its terminator
      take 4 bytes for every 3 begun, and one. */
  method Encode(dst: array<Byte>, dlen: nat, src: seq<Byte>) returns (ret: Status, dlen': nat)
    requires dlen <= dst.Length
    modifies dst
    ensures src == [] ==> ret == Ok && dlen' == dlen && dst[..] == old(dst[..])
    ensures src != [] ==> ret == if dlen < |Encoded(src)| + 1 then BufferTooSmall else Ok
    ensures ret == BufferTooSmall ==> dlen' == |Encoded(src)| + 1 && dst[..] == old(dst[..])
    ensures src != [] && ret == Ok ==> dlen' == |Encoded(src)| && dst[..dlen'] == Encoded(src) && dst[dlen'] == 0
  {
    var slen := |src|;
    if slen == 0 { return Ok, dlen; }
    var n := Size(slen);
    EncodedLength(src);
    if dlen < n + 1 { return BufferTooSmall, n + 1; }
    hide Encoded;
    var i, p := EncodeTriples(dst, src);
    p := EncodeRest(dst, src, i, p);
    dlen' := p;
    dst[p] := 0;
    ret := Ok;
  }

  /** The whole triples. */
  method EncodeTriples(dst: array<Byte>, src: seq<Byte>) returns (i: nat, p: nat)
    requires |Encoded(src)| <= dst.Length
    modifies dst
    ensures i <= |src| < i + 3 && p + |Encoded(src[i..])| == |Encoded(src)|
    ensures dst[..p] + Encoded(src[i..]) == Encoded(src)
  {
    hide Quad, Encoded;
    DivMod(|src|, 3);
    var n := |src| / 3 * 3;
    i, p := 0, 0;
    ghost var k := 0;
    assert src[0..] == src;
    while i < n
      invariant 0 <= i == 3 * k <= n && p <= dst.Length
      invariant dst[..p] + Encoded(src[i..]) == Encoded(src)
    {
      NextQuad(src, i);
      var q := Quad(src[i], src[i + 1], src[i + 2]);
      Regroup(dst[..p], q, Encoded(src[i + 3..]));
      p := Put(dst, p, q);
      i := i + 3;
      k := k + 1;
    }
  }

  /** One or two bytes left over, padded. */
  method EncodeRest(dst: array<Byte>, src: seq<Byte>, i: nat, at: nat) returns (p: nat)
    requires i <= |src| < i + 3 && at + |Encoded(src[i..])| <= dst.Length
    modifies dst
    ensures p == at + |Encoded(src[i..])| && dst[..p] == old(dst[..at]) + Encoded(src[i..])
  {
    hide Quad, Encoded;
    p := at;
    LastQuad(src, i);
    if i < |src| {
      var two := i + 1 < |src|;
      var q := Quad(src[i], if two then src[i + 1] else 0, 0);
      p := Put(dst, p, q[..2]);
      p := Put(dst, p, [if two then q[2] else Pad]);
      p := Put(dst, p, [Pad]);
      assert dst[..p] == old(dst[..at]) + (q[..2] + [if two then q[2] else Pad] + [Pad]);
    }
  }

  /** The number of letters, as the source computes it from the number of bits. */
  method Size(slen: nat) returns (n: nat)
    ensures n == (slen + 2) / 3 * 4
  {
    n := slen * 8 / 6;
    var left := slen * 8 - n * 6;
    if left == 2 { n := n + 3; } else if left == 4 { n := n + 2; }
  }

  method Put(dst: array<Byte>, p: nat, t: seq<Byte>) returns (p': nat)
    requires p + |t| <= dst.Length
    modifies dst
    ensures p' == p + |t| && dst[..p'] == old(dst[..p]) + t
    ensures forall k :: p' <= k < dst.Length ==> dst[k] == old(dst[k])
  {
    forall k | 0 <= k < |t| { dst[p + k] := t[k]; }
    p' := p + |t|;
    assert dst[..p'] == old(dst[..p]) + t;
  }

  lemma NextQuad(s: seq<Byte>, i: nat)
    requires i + 3 <= |s|
    ensures Encoded(s[i..]) == Quad(s[i], s[i + 1], s[i + 2]) + Encoded(s[i + 3..])
  {
    assert s[i..][3..] == s[i + 3..];
  }

  lemma LastQuad(s: seq<Byte>, i: nat)
    requires i <= |s| < i + 3
    ensures i == |s| ==> Encoded(s[i..]) == []
    ensures i < |s| ==> var q := Quad(s[i], if i + 1 < |s| then s[i + 1] else 0, 0);
                        Encoded(s[i..]) == q[..2] + [if i + 1 < |s| then q[2] else Pad] + [Pad]
  {
    if i + 1 < |s| {
      var q := Quad(s[i], s[i + 1], 0);
      assert q[..3] == q[..2] + [q[2]];
    }
  }

  // ----- decoding -----

  /** The text without its line breaks: LF, and CR in front of LF. */
  function Significant(src: seq<Byte>): seq<Byte> {
    if src == [] then []
    else if Skipped(src, 0) then Significant(src[1..])
    else [src[0]] + Significant(src[1..])
  }

  predicate Skipped(src: seq<Byte>, i: nat)
    requires i < |src|
  {
    src[i] == LineFeed || (src[i] == Return && i + 1 < |src| && src[i + 1] == LineFeed)
  }

  /** Known letters, then at most two paddings. */
  predicate Acceptable(t: seq<Byte>) {
    && (forall k :: 0 <= k < |t| ==> Digit(t[k]) <= 64)
    && (forall j, k :: 0 <= j < k < |t| && t[j] == Pad ==> t[k] == Pad)
    && (|t| >= 3 ==> t[|t| - 3] != Pad)
  }

  /** The bytes of four letters, fewer by the paddings among them. */
  function Triple(q: seq<Byte>): (r: seq<Byte>)
    requires |q| == 4 && forall k :: 0 <= k < 4 ==> Digit(q[k]) <= 64
    ensures |r| <= 3
  {
    Cut(Join(Digit(q[0]), Digit(q[1]), Digit(q[2]), Digit(q[3])), 3 - Pads(q))
  }

  /** The six bits of a digit: & 0x3F. */
  function Six(v: nat): (r: nat)
    ensures r < 64
  {
    v % 64
  }

  /** Four digits of six bits; a padding counts as zero. */
  function Join(a: nat, b: nat, c: nat, d: nat): (x: nat)
    ensures x < 0x100_0000
  {
    ((Six(a) * 64 + Six(b)) * 64 + Six(c)) * 64 + Six(d)
  }

  /** The first n of three bytes. */
  function Cut(x: nat, n: nat): (r: seq<Byte>)
    requires x < 0x100_0000 && n <= 3
    ensures |r| == n
  {
    [x / 65536, x / 256 % 256, x % 256][..n]
  }

  /** The paddings at the end of four letters. */
  function Pads(q: seq<Byte>): (n: nat)
    requires |q| == 4
    ensures n <= 3
  {
    if q[3] != Pad then 0 else if q[2] != Pad then 1 else if q[1] != Pad then 2 else 3
  }

  /** Whole groups of four; letters left over are dropped. */
  function Decoded(t: seq<Byte>): (r: seq<Byte>)
    requires forall k :: 0 <= k < |t| ==> Digit(t[k]) <= 64
    ensures 4 * |r| <= 3 * |t|
  {
    if |t| < 4 then [] else Triple(t[..4]) + Decoded(t[4..])
  }

  /** base64_decode. Text without a significant character leaves even the size alone. */
  method Decode(dst: array<Byte>, dlen: nat, src: seq<Byte>) returns (ret: Status, dlen': nat)
    requires dlen <= dst.Length
    modifies dst
    ensures var t := Significant(src);
            var need := (|t| * 6 + 7) / 8;
            if !Acceptable(t) then ret == InvalidCharacter && dlen' == dlen && dst[..] == old(dst[..])
            else if t == [] then ret == Ok && dlen' == dlen && dst[..] == old(dst[..])
            else if dlen < need then ret == BufferTooSmall && dlen' == need && dst[..] == old(dst[..])
            else ret == Ok && dlen' == |Decoded(t)| <= need && dst[..dlen'] == Decoded(t)
                 && forall k :: dlen' <= k < dst.Length ==> dst[k] == old(dst[k])
  {
    hide Significant, Digit, Decoded;
    ghost var t := Significant(src);
    var ok, n := Check(src);
    if !ok { return InvalidCharacter, dlen; }
    if n == 0 { return Ok, dlen; }
    n := (n * 6 + 7) / 8;
    if dlen < n { return BufferTooSmall, n; }
    dlen' := Convert(dst, src, t);
    ret := Ok;
  }

  // ----- the first pass -----

  /** What the first pass has seen: letters and then j paddings. */
  predicate Counted(t: seq<Byte>, j: nat) {
    && j <= 2 && j <= |t| && (forall k :: 0 <= k < |t| ==> Digit(t[k]) <= 64)
    && forall k :: 0 <= k < |t| ==> (t[k] == Pad <==> k >= |t| - j)
  }

  /** Checks the characters and counts the significant ones. */
  method Check(src: seq<Byte>) returns (ok: bool, n: nat)
    ensures ok == Acceptable(Significant(src)) && (ok ==> n == |Significant(src)|)
  {
    hide Acceptable, Counted, Digit, Significant;
    ghost var kept: seq<Byte> := [];
    var i, j: nat := 0, 0;
    n := 0;
    NoneSeen(src);
    while i < |src|
      invariant 0 <= i <= |src| && n == |kept| && Counted(kept, j)
      invariant Significant(src) == kept + Significant(src[i..])
    {
      NextSymbol(src, i);
      if |src| - i >= 2 && src[i] == Return && src[i + 1] == LineFeed {
        i := i + 1;
        continue;
      }
      if src[i] == LineFeed {
        i := i + 1;
        continue;
      }
      ghost var rest := Significant(src[i + 1..]);
      Judge(kept, j, src[i], rest);
      Regroup(kept, [src[i]], rest);
      if src[i] == Pad {
        j := j + 1;
        if j > 2 { return false, n; }
      }
      if Digit(src[i]) == 127 { return false, n; }
      if Digit(src[i]) < 64 && j != 0 { return false, n; }
      kept := kept + [src[i]];
      n := n + 1;
      i := i + 1;
    }
    AllSeen(kept, j, src);
    ok := true;
  }

  lemma NoneSeen(src: seq<Byte>)
    ensures Counted([], 0) && Significant(src) == [] + Significant(src[0..])
  {
    assert src[0..] == src;
  }

  lemma AllSeen(t: seq<Byte>, j: nat, src: seq<Byte>)
    requires Counted(t, j)
    ensures Acceptable(t) && t + Significant(src[|src|..]) == t
  {}

  lemma NextSymbol(src: seq<Byte>, i: nat)
    requires i < |src|
    ensures Significant(src[i..]) == (if Skipped(src, i) then [] else [src[i]]) + Significant(src[i + 1..])
    ensures Skipped(src, i) ==> Significant(src[i..]) == Significant(src[i + 1..])
  {
    assert src[i..][1..] == src[i + 1..];
    assert Skipped(src, i) == Skipped(src[i..], 0);
  }

  /** A further symbol either keeps the text countable or spoils it for good. */
  lemma Judge(kept: seq<Byte>, j: nat, c: Byte, rest: seq<Byte>)
    requires Counted(kept, j)
    ensures var t := kept + [c] + rest;
            if c == Pad then
              if j == 2 then !Acceptable(t) else Counted(kept + [c], j + 1) && Digit(c) == 64
            else if Digit(c) == 127 || j != 0 then !Acceptable(t)
            else Counted(kept + [c], j) && Digit(c) < 64
  {
    hide Digit;
    var t, n := kept + [c] + rest, |kept|;
    assert t[n] == c && forall k :: 0 <= k < n ==> t[k] == kept[k];
    PadDigit();
    DigitRange(c);
    if c == Pad && j == 2 {
      assert t[n - 2] == Pad;
      TooMany(t, n);
    } else if c != Pad && j != 0 {
      assert t[n - 1] == Pad;
    }
  }

  lemma TooMany(t: seq<Byte>, n: nat)
    requires 2 <= n < |t| && t[n - 2] == Pad
    ensures !Acceptable(t)
  {
    var k := |t| - 3;
    if k > n - 2 && t[k] != Pad {
      assert t[n - 2] == Pad && 0 <= n - 2 < k < |t|;
    }
  }

  lemma DigitRange(c: Byte)
    ensures Digit(c) < 64 || Digit(c) == 64 || Digit(c) == 127
    ensures Digit(c) == 64 <==> c == Pad
  {}

  // ----- the second pass -----

  /** The value of the letters of an unfinished group. */
  function Part(g: seq<Byte>): nat {
    if g == [] then 0 else Part(g[..|g| - 1]) * 64 + Six(Digit(g[|g| - 1]))
  }

  function Weight(n: nat): nat
    requires n <= 4
  {
    if n == 0 then 1 else if n == 1 then 64 else if n == 2 then 4096 else if n == 3 then 262144 else 16777216
  }

  /** Six more bits in the 32-bit accumulator: the bits of the current group are all still there. */
  lemma SixBits(x: nat, d: nat, n: nat)
    requires n < 4 && d < 64
    ensures (x * 64 + d) % 0x1_0000_0000 % Weight(n + 1) == x % Weight(n) * 64 + d
  {
    var m, y := Weight(n), x * 64 + d;
    var w, h := 64 * m, if n == 0 then 67108864 else if n == 1 then 1048576 else if n == 2 then 16384 else 256;
    DivMod(x, m);
    var r := x % m * 64 + d;
    MulAssoc(64, x / m, m);
    DivMod(y, 0x1_0000_0000);
    var q := y / 0x1_0000_0000;
    MulAssoc(q, h, w);
    MulDistSub(x / m, q * h, w);
    DivUnique(y % 0x1_0000_0000, w, x / m - q * h, r);
  }

  lemma LowBytes(x: nat)
    ensures var r := x % 16777216;
            x / 65536 % 256 == r / 65536 && x / 256 % 256 == r / 256 % 256 && x % 256 == r % 256
  {
    var q, r := x / 16777216, x % 16777216;
    DivUnique(x, 65536, 256 * q + r / 65536, r % 65536);
    DivUnique(256 * q + r / 65536, 256, q, r / 65536);
    DivUnique(x, 256, 65536 * q + r / 256, r % 256);
    DivUnique(65536 * q + r / 256, 256, 256 * q + r / 256 / 256, r / 256 % 256);
  }

  lemma PartJoin(g: seq<Byte>)
    requires |g| == 4
    ensures Part(g) == Join(Digit(g[0]), Digit(g[1]), Digit(g[2]), Digit(g[3]))
  {
    hide Digit;
    assert g[..3][..2] == g[..2] && g[..2][..1] == g[..1] && g[..1][..0] == [];
    assert Part(g[..1]) == Six(Digit(g[0]));
    assert Part(g[..2]) == Part(g[..1]) * 64 + Six(Digit(g[1]));
    assert Part(g[..3]) == Part(g[..2]) * 64 + Six(Digit(g[2]));
  }

  /** The paddings among the first m symbols; they all stand at the end. */
  function PadsIn(t: seq<Byte>, m: nat): nat
    requires m <= |t|
  {
    if m == 0 then 0 else PadsIn(t, m - 1) + if t[m - 1] == Pad then 1 else 0
  }

  lemma {:induction false} NoPadsBefore(t: seq<Byte>, m: nat)
    requires m <= |t| && forall k :: 0 <= k < m ==> t[k] != Pad
    ensures PadsIn(t, m) == 0
  {
    if m > 0 { NoPadsBefore(t, m - 1); }
  }

  lemma PadsLate(t: seq<Byte>, k: nat)
    requires Acceptable(t) && k < |t| - 2
    ensures t[k] != Pad
  {
    var l := |t| - 3;
    assert t[l] != Pad;
  }

  lemma Known(t: seq<Byte>)
    requires Acceptable(t)
    ensures forall k :: 0 <= k < |t| ==> Digit(t[k]) <= 64
  {}

  /** The paddings met by the end of a group are those of the group. */
  lemma GroupPads(t: seq<Byte>, m: nat)
    requires Acceptable(t) && 4 <= m <= |t|
    ensures PadsIn(t, m) == Pads(t[m - 4..m]) <= 2
  {
    forall k | 0 <= k < m - 2 ensures t[k] != Pad { PadsLate(t, k); }
    NoPadsBefore(t, m - 2);
    assert PadsIn(t, m - 1) == PadsIn(t, m - 2) + if t[m - 2] == Pad then 1 else 0;
    assert t[m - 2] == Pad ==> t[m - 1] == Pad;
  }

  /** Where the second pass stands after m symbols: whole groups have been written, the letters of
      the group begun are the low bits of x, and j is three less the paddings met. */
  ghost predicate Standing(t: seq<Byte>, out: seq<Byte>, m: nat, n: nat, x: nat, j: nat)
    requires forall k :: 0 <= k < |t| ==> Digit(t[k]) <= 64
  {
    && m <= |t| && n < 4 && n <= m
    && Decoded(t) == out + Decoded(t[m - n..])
    && x % Weight(n) == Part(t[m - n..m])
    && j + PadsIn(t, m) == 3
  }

  lemma MoreToCome(t: seq<Byte>, out: seq<Byte>, m: nat, n: nat, x: nat, j: nat, c: Byte)
    requires Acceptable(t) && Standing(t, out, m, n, x, j) && m < |t| && c == t[m]
    ensures var x' := (x * 64 + Six(Digit(c))) % 0x1_0000_0000;
            var j' := if c == Pad then j - 1 else j;
            && 0 < j' <= 3
            && (n < 3 ==> Standing(t, out, m + 1, n + 1, x', j'))
            && (n == 3 ==> Standing(t, out + Cut(x' % 16777216, j'), m + 1, 0, x', j'))
  {
    hide Decoded, Digit, Join, Cut, Acceptable, Part, PadsIn;
    Known(t);
    PadsNext(t, m);
    var g, g' := t[m - n..m], t[m - n..m + 1];
    assert g'[..n] == g;
    PartNext(g');
    SixBits(x, Six(Digit(c)), n);
    FewPads(t, m + 1);
    if n == 3 {
      GroupPads(t, m + 1);
      PartJoin(g');
      assert t[m - 3..][..4] == g' && t[m - 3..][4..] == t[m + 1..];
      NextGroup(t[m - 3..]);
      Regroup(out, Triple(g'), Decoded(t[m + 1..]));
      NoPart(t[m + 1..m + 1]);
    }
  }

  lemma PadsNext(t: seq<Byte>, m: nat)
    requires m < |t|
    ensures PadsIn(t, m + 1) == PadsIn(t, m) + if t[m] == Pad then 1 else 0
  {}

  lemma PartNext(g: seq<Byte>)
    requires g != []
    ensures Part(g) == Part(g[..|g| - 1]) * 64 + Six(Digit(g[|g| - 1]))
  {}

  lemma NoPart(g: seq<Byte>)
    requires g == []
    ensures Part(g) == 0
  {}

  lemma {:induction false} FewPads(t: seq<Byte>, m: nat)
    requires Acceptable(t) && m <= |t|
    ensures PadsIn(t, m) <= 2
  {
    if m >= 4 {
      GroupPads(t, m);
    } else if m > 0 {
      if m == 3 { PadsLate(t, 0); }
      assert PadsIn(t, 1) == if t[0] == Pad then 1 else 0;
      if m > 1 { assert PadsIn(t, 2) == PadsIn(t, 1) + if t[1] == Pad then 1 else 0; }
    }
  }

  lemma NextGroup(t: seq<Byte>)
    requires |t| >= 4 && forall k :: 0 <= k < |t| ==> Digit(t[k]) <= 64
    ensures Decoded(t) == Triple(t[..4]) + Decoded(t[4..])
  {}

  /** Converts accepted text. */
  method Convert(dst: array<Byte>, src: seq<Byte>, ghost t: seq<Byte>) returns (p: nat)
    requires t == Significant(src) && Acceptable(t) && |Decoded(t)| <= dst.Length
    modifies dst
    ensures p == |Decoded(t)| && dst[..p] == Decoded(t)
    ensures forall k :: p <= k < dst.Length ==> dst[k] == old(dst[k])
  {
    hide Significant, Acceptable, Standing, Digit, Cut, Decoded, Skipped;
    Known(t);
    var j, n, x: nat, i := 3, 0, 0, 0;
    p := 0;
    ghost var m := 0;
    Beginning(t, src);
    while i < |src|
      invariant 0 <= i <= |src| && 0 <= m <= |t| && 0 <= n < 4 && 0 <= p <= |Decoded(t)| && 0 < j <= 3
      invariant Significant(src[i..]) == t[m..]
      invariant Standing(t, dst[..p], m, n, x, j)
      invariant forall k :: p <= k < dst.Length ==> dst[k] == old(dst[k])
    {
      SymbolOrBreak(src, i, t, m);
      if src[i] != Return && src[i] != LineFeed {
        MoreToCome(t, dst[..p], m, n, x, j, src[i]);
        if Digit(src[i]) == 64 { j := j - 1; }
        DigitRange(src[i]);
        x := (x * 64 + Six(Digit(src[i]))) % 0x1_0000_0000;
        n := n + 1;
        m := m + 1;
        if n == 4 {
          n := 0;
          Progress(t, dst[..p], Cut(x % 16777216, j), m, x, j);
          p := PutBytes(dst, p, x, j);
        }
      }
      i := i + 1;
    }
    Finished(src, t, dst[..p], m, n, x, j);
  }

  /** The bytes of four letters, j of them. */
  method PutBytes(dst: array<Byte>, p: nat, x: nat, j: nat) returns (p': nat)
    requires 0 < j <= 3 && p + j <= dst.Length
    modifies dst
    ensures p' == p + j && dst[..p'] == old(dst[..p]) + Cut(x % 16777216, j)
    ensures forall k :: p' <= k < dst.Length ==> dst[k] == old(dst[k])
  {
    hide Cut;
    CutBytes(x, j);
    p' := Put(dst, p, [x / 65536 % 256]);
    if j > 1 { p' := Put(dst, p', [x / 256 % 256]); }
    if j > 2 { p' := Put(dst, p', [x % 256]); }
  }

  lemma Beginning(t: seq<Byte>, src: seq<Byte>)
    requires t == Significant(src) && Acceptable(t)
    ensures Standing(t, [], 0, 0, 0, 3) && Significant(src[0..]) == t[0..]
  {
    assert t[0..] == t && src[0..] == src && t[0..0] == [];
    assert [] + Decoded(t) == Decoded(t);
  }

  lemma SymbolOrBreak(src: seq<Byte>, i: nat, t: seq<Byte>, m: nat)
    requires i < |src| && m <= |t| && Acceptable(t) && Significant(src[i..]) == t[m..]
    ensures if src[i] == Return || src[i] == LineFeed then Significant(src[i + 1..]) == t[m..]
            else m < |t| && t[m] == src[i] && Significant(src[i + 1..]) == t[m + 1..]
  {
    hide Significant;
    NextSymbol(src, i);
    if !Skipped(src, i) {
      assert t[m..][0] == src[i] && t[m..][1..] == t[m + 1..];
    }
  }

  lemma CutBytes(x: nat, j: nat)
    requires 0 < j <= 3
    ensures Cut(x % 16777216, j) == [x / 65536 % 256] + (if j > 1 then [x / 256 % 256] else []) +
            (if j > 2 then [x % 256] else [])
  {
    LowBytes(x);
  }

  lemma Progress(t: seq<Byte>, out: seq<Byte>, cut: seq<Byte>, m: nat, x: nat, j: nat)
    requires Acceptable(t) && Standing(t, out + cut, m, 0, x, j)
    ensures |out| + |cut| <= |Decoded(t)|
  {}

  lemma Finished(src: seq<Byte>, t: seq<Byte>, out: seq<Byte>, m: nat, n: nat, x: nat, j: nat)
    requires Acceptable(t) && Standing(t, out, m, n, x, j) && Significant(src[|src|..]) == t[m..]
    ensures out == Decoded(t)
  {
    assert src[|src|..] == [];
    assert m == |t|;
    assert out + [] == out;
  }

  // ----- round trip -----

  lemma LetterPlain(v: nat)
    requires v < 64
    ensures Letter(v) !in {Pad, LineFeed, Return, 0} && Digit(Letter(v)) == v
  {}

  predicate Unbroken(t: seq<Byte>) {
    forall k :: 0 <= k < |t| ==> t[k] != LineFeed && t[k] != Return
  }

  lemma {:induction false} UnbrokenSignificant(t: seq<Byte>)
    requires Unbroken(t)
    ensures Significant(t) == t
  {
    if t != [] {
      UnbrokenSignificant(t[1..]);
      assert [t[0]] + t[1..] == t;
    }
  }

  /** The digits of a quad spell its three bytes. */
  lemma QuadValue(a: Byte, b: Byte, c: Byte)
    ensures Join(a / 4, a % 4 * 16 + b / 16, b % 16 * 4 + c / 64, c % 64) == a * 65536 + b * 256 + c
    ensures c == 0 ==> Join(a / 4, a % 4 * 16 + b / 16, b % 16 * 4 + c / 64, 64) == a * 65536 + b * 256
    ensures b == c == 0 ==> Join(a / 4, a % 4 * 16 + b / 16, 64, 64) == a * 65536
  {
    hide Join;
    JoinSmall(a / 4, a % 4 * 16 + b / 16, b % 16 * 4 + c / 64, c % 64);
    Spelled(a / 4, a % 4, b / 16, b % 16, c / 64, c % 64);
  }

  lemma JoinSmall(a: nat, b: nat, c: nat, d: nat)
    requires a < 64 && b < 64 && c < 64 && d < 64
    ensures Join(a, b, c, d) == ((a * 64 + b) * 64 + c) * 64 + d
    ensures Join(a, b, c, 64) == ((a * 64 + b) * 64 + c) * 64
    ensures Join(a, b, 64, 64) == (a * 64 + b) * 64 * 64
  {
    hide Six;
    SixSmall(a);
    SixSmall(b);
    SixSmall(c);
    SixSmall(d);
    SixSmall(64);
  }

  lemma SixSmall(v: nat)
    requires v <= 64
    ensures Six(v) == if v == 64 then 0 else v
  {}

  lemma Spelled(a: int, a': int, b: int, b': int, c: int, c': int)
    ensures ((a * 64 + (a' * 16 + b)) * 64 + (b' * 4 + c)) * 64 + c' ==
            (4 * a + a') * 65536 + (16 * b + b') * 256 + 64 * c + c'
  {}

  /** Four letters, the last one or two of them perhaps paddings, are the bytes that their bits fill. */
  lemma GroupDecoded(w: nat, x: nat, y: nat, z: nat, pads: nat, a: Byte, b: Byte, c: Byte, q: seq<Byte>)
    requires w < 64 && x < 64 && y < 64 && z < 64 && pads <= 2
    requires (a * 256 + b) * 256 + c ==
             ((w * 64 + x) * 64 + (if pads < 2 then y else 0)) * 64 + if pads < 1 then z else 0
    requires q == [Letter(w), Letter(x), if pads < 2 then Letter(y) else Pad, if pads < 1 then Letter(z) else Pad]
    ensures (forall k :: 0 <= k < 4 ==> Digit(q[k]) <= 64) && Triple(q) == [a, b, c][..3 - pads]
  {
    hide Letter, Digit, Join, Cut;
    PadDigit();
    DigitsAt(q);
    JoinSmall(w, x, y, z);
    JoinPadded(w, x);
    ThreeBytes(a, b, c, 3 - pads);
  }

  lemma DigitsAt(q: seq<Byte>)
    requires |q| == 4 && Digit(q[0]) <= 64 && Digit(q[1]) <= 64 && Digit(q[2]) <= 64 && Digit(q[3]) <= 64
    ensures forall k :: 0 <= k < 4 ==> Digit(q[k]) <= 64
  {
    hide Digit;
  }

  lemma JoinPadded(w: nat, x: nat)
    requires w < 64 && x < 64
    ensures Join(w, x, 64, 64) == ((w * 64 + x) * 64 + 0) * 64 + 0
  {
    JoinSmall(w, x, 0, 0);
  }

  lemma ThreeBytes(a: Byte, b: Byte, c: Byte, n: nat)
    requires n <= 3
    ensures Cut(a * 65536 + b * 256 + c, n) == [a, b, c][..n]
  {
    var x := a * 65536 + b * 256 + c;
    DivUnique(x, 256, a * 256 + b, c);
    DivUnique(a * 256 + b, 256, a, b);
    DivUnique(x, 65536, a, b * 256 + c);
  }

  lemma QuadDigits(a: Byte, b: Byte, c: Byte)
    ensures var q := Quad(a, b, c);
            && Unbroken(q) && (forall k :: 0 <= k < 4 ==> q[k] != Pad)
            && Digit(q[0]) == a / 4 && Digit(q[1]) == a % 4 * 16 + b / 16
            && Digit(q[2]) == b % 16 * 4 + c / 64 && Digit(q[3]) == c % 64
  {
    hide Letter, Digit;
    LetterPlain(a / 4);
    LetterPlain(a % 4 * 16 + b / 16);
    LetterPlain(b % 16 * 4 + c / 64);
    LetterPlain(c % 64);
  }

  /** A quad, whole or padded, decodes to the bytes it was made from. */
  lemma QuadBack(a: Byte, b: Byte, c: Byte, t: seq<Byte>, pads: nat)
    requires pads <= 2 && (pads > 0 ==> c == 0) && (pads > 1 ==> b == 0)
    requires var q := Quad(a, b, c);
             t == q[..4 - pads] + if pads == 0 then [] else if pads == 1 then [Pad] else [Pad, Pad]
    ensures |t| == 4 && (forall k :: 0 <= k < 4 ==> Digit(t[k]) <= 64)
    ensures Triple(t) == [a, b, c][..3 - pads]
  {
    hide Quad, Digit, Join, Cut;
    PadDigit();
    QuadDigits(a, b, c);
    QuadValue(a, b, c);
    ThreeBytes(a, b, c, 3 - pads);
  }

  lemma PadDigit()
    ensures Digit(Pad) == 64
  {}

  lemma AcceptableBoth(q: seq<Byte>, rest: seq<Byte>)
    requires (forall k :: 0 <= k < |q| ==> Digit(q[k]) < 64) && (rest == [] || |rest| >= 4)
    requires Unbroken(q) && Unbroken(rest) && Acceptable(rest)
    ensures Unbroken(q + rest) && Acceptable(q + rest)
  {
    hide Digit;
    PadDigit();
    var t := q + rest;
    assert forall k :: 0 <= k < |t| ==> t[k] == if k < |q| then q[k] else rest[k - |q|];
  }

  lemma {:induction false} DecodedBack(s: seq<Byte>)
    ensures var t := Encoded(s);
            && Unbroken(t) && Acceptable(t) && Decoded(t) == s
    decreases |s|
  {
    hide Quad, Digit, Triple;
    PadDigit();
    var t := Encoded(s);
    if |s| == 1 {
      QuadDigits(s[0], 0, 0);
      QuadBack(s[0], 0, 0, t, 2);
      assert t[..4] == t && [s[0], 0, 0][..1] == s;
    } else if |s| == 2 {
      QuadDigits(s[0], s[1], 0);
      QuadBack(s[0], s[1], 0, t, 1);
      assert t[..4] == t && [s[0], s[1], 0][..2] == s;
    } else if |s| >= 3 {
      var q := Quad(s[0], s[1], s[2]);
      QuadDigits(s[0], s[1], s[2]);
      QuadBack(s[0], s[1], s[2], q, 0);
      DecodedBack(s[3..]);
      assert t[..4] == q && t[4..] == Encoded(s[3..]);
      AcceptableBoth(q, Encoded(s[3..]));
      assert [s[0], s[1], s[2]][..3] + s[3..] == s;
    }
  }

  /** Every text that was encoded is accepted and decodes to what it was made from. */
  lemma RoundTrip(s: seq<Byte>)
    ensures var t := Significant(Encoded(s)); Acceptable(t) && Decoded(t) == s
  {
    DecodedBack(s);
    UnbrokenSignificant(Encoded(s));
  }

  // ----- line breaks -----

  lemma {:induction false} SignificantJoin(a: seq<Byte>, b: seq<Byte>)
    requires a == [] || a[|a| - 1] != Return || b == [] || b[0] != LineFeed
    ensures Significant(a + b) == Significant(a) + Significant(b)
    decreases |a|
  {
    if a == [] {
      assert a + b == b;
    } else {
      assert (a + b)[1..] == a[1..] + b;
      SignificantJoin(a[1..], b);
    }
  }

  /** A line feed inserted into accepted text changes nothing. */
  lemma LineFeedInserted(a: seq<Byte>, b: seq<Byte>)
    requires Acceptable(Significant(a + b))
    ensures Significant(a + [LineFeed] + b) == Significant(a + b)
  {
    hide Acceptable;
    if a != [] && a[|a| - 1] == Return {
      var front := a[..|a| - 1];
      assert a == front + [Return];
      if b == [] || b[0] != LineFeed {
        assert a + b == front + ([Return] + b);
        LoneReturn(front, b);
      } else {
        assert a + b == front + ([Return] + b);
        assert a + [LineFeed] + b == front + ([Return, LineFeed] + b);
        SignificantJoin(front, [Return] + b);
        SignificantJoin(front, [Return, LineFeed] + b);
        assert ([Return] + b)[1..] == b;
        assert ([Return, LineFeed] + b)[1..] == [LineFeed] + b;
        assert ([LineFeed] + b)[1..] == b;
      }
    } else {
      SignificantJoin(a, b);
      assert a + [LineFeed] + b == a + ([LineFeed] + b);
      SignificantJoin(a, [LineFeed] + b);
      assert ([LineFeed] + b)[1..] == b;
    }
  }

  /** A carriage return that no line feed follows is not accepted. */
  lemma LoneReturn(front: seq<Byte>, b: seq<Byte>)
    requires b == [] || b[0] != LineFeed
    ensures !Acceptable(Significant(front + ([Return] + b)))
  {
    var r := [Return] + b;
    SignificantJoin(front, r);
    assert r[1..] == b;
    var t := Significant(front + r);
    assert t[|Significant(front)|] == Return;
  }

  /** A CRLF inserted into accepted text changes nothing, unless it stands behind a carriage
      return: then the text is no longer accepted. */
  lemma LineBreakIff(a: seq<Byte>, b: seq<Byte>)
    requires Acceptable(Significant(a + b))
    ensures var broken := Significant(a + [Return, LineFeed] + b);
            && (Acceptable(broken) <==> a == [] || a[|a| - 1] != Return)
            && (Acceptable(broken) ==> broken == Significant(a + b))
  {
    var r := [Return, LineFeed] + b;
    assert a + [Return, LineFeed] + b == a + r;
    if a != [] && a[|a| - 1] == Return {
      var front := a[..|a| - 1];
      assert a + r == front + ([Return] + r);
      LoneReturn(front, r);
    } else {
      SignificantJoin(a, b);
      SignificantJoin(a, r);
      assert r[1..] == [LineFeed] + b && ([LineFeed] + b)[1..] == b;
    }
  }
}
