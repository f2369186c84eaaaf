/** Bytes of text: character codes, and pieces found at a position of a longer text. */
module Text {
  import opened Octets

  const Tab: Byte := 9
  const LineFeed: Byte := 10
  const Space: Byte := 32
  const DoubleQuote: Byte := 34
  const Hash: Byte := 35
  const Ampersand: Byte := 38
  const Comma: Byte := 44
  const Minus: Byte := 45
  const Dot: Byte := 46
  const Zero: Byte := 48
  const Colon: Byte := 58
  const Semicolon: Byte := 59
  const OpenBracket: Byte := 91
  const Backslash: Byte := 92
  const CloseBracket: Byte := 93
  const OpenBrace: Byte := 123
  const CloseBrace: Byte := 125

  predicate IsDigit(c: Byte) {
    48 <= c <= 57
  }

  /** The codes of the characters of a text in ASCII. */
  function Ascii(s: string): (t: seq<Byte>)
    ensures |t| == |s|
  {
    seq(|s|, i requires 0 <= i < |s| => s[i] as int % 256)
  }

  /** The hexadecimal digit for v, in either case. */
  predicate Spells(c: Byte, v: nat) {
    v < 16 && (c == "0123456789abcdef"[v] as int || c == "0123456789ABCDEF"[v] as int)
  }

  /** isalpha, in the C locale. */
  predicate IsAlpha(c: Byte) {
    65 <= c <= 90 || 97 <= c <= 122
  }

  predicate NulFree(t: seq<Byte>) {
    forall k :: 0 <= k < |t| ==> t[k] != 0
  }

  /** The byte under a cursor; the terminator stands behind the text. */
  function At(text: seq<Byte>, p: nat): (c: Byte)
    ensures c != 0 ==> p < |text|
  {
    if p < |text| then text[p] else 0
  }

  /** The piece stands in the text at p. */
  predicate Here(text: seq<Byte>, p: nat, piece: seq<Byte>) {
    p + |piece| <= |text| && text[p..p + |piece|] == piece
  }

  lemma HereSplit(text: seq<Byte>, p: nat, a: seq<Byte>, b: seq<Byte>)
    requires Here(text, p, a + b)
    ensures Here(text, p, a) && Here(text, p + |a|, b)
  {
    var whole := text[p..p + |a + b|];
    assert whole[..|a|] == a && whole[|a|..] == b;
  }

  lemma HereAt(text: seq<Byte>, p: nat, piece: seq<Byte>, k: nat)
    requires Here(text, p, piece) && k < |piece|
    ensures At(text, p + k) == piece[k]
  {
    assert text[p..p + |piece|][k] == text[p + k];
  }

  /** The same bytes again, one by one. */
  lemma HereFrom(text: seq<Byte>, p: nat, piece: seq<Byte>)
    requires p + |piece| <= |text| && forall k :: 0 <= k < |piece| ==> text[p + k] == piece[k]
    ensures Here(text, p, piece)
  {}

  lemma Regroup(a: seq<Byte>, b: seq<Byte>, c: seq<Byte>)
    ensures a + (b + c) == (a + b) + c
  {}
}
