/** JSON trees, their printed form, and what the parser makes of a text. */
module Json {
  import opened Octets
  import opened Text
  import opened CodePoints

  /** A node and its children. Numbers are the integers that print without a fraction. */
  datatype Json =
    | Null
    | False
    | True
    | Number(n: int)
    | String(s: seq<Byte>)
    | Array(items: seq<Json>)
    | Object(members: seq<Member>)

  datatype Member = Member(name: seq<Byte>, value: Json)

  const NullText: seq<Byte> := [110, 117, 108, 108]
  const FalseText: seq<Byte> := [102, 97, 108, 115, 101]
  const TrueText: seq<Byte> := [116, 114, 117, 101]

  predicate Int32(n: int) {
    -0x8000_0000 <= n <= 0x7fff_ffff
  }

  /** The trees whose printed form stands for them: 32-bit integers, strings without the C
      terminator. */
  predicate Printable(v: Json) {
    match v
    case Number(n) => Int32(n)
    case String(s) => NulFree(s)
    case Array(items) => forall k :: 0 <= k < |items| ==> Printable(items[k])
    case Object(members) => forall k :: 0 <= k < |members| ==> NulFree(members[k].name) && Printable(members[k].value)
    case _ => true
  }

  // ----- printing -----

  function Natural(m: nat): (t: seq<Byte>)
    ensures |t| > 0
  {
    if m < 10 then [Zero + m] else Natural(m / 10) + [Zero + m % 10]
  }

  /** sprintf "%d" */
  function Decimal(n: int): (t: seq<Byte>)
    ensures |t| > 0
  {
    if n < 0 then [Minus] + Natural(-n) else Natural(n)
  }

  function HexDigit(d: nat): Byte
    requires d < 16
  {
    if d < 10 then Zero + d else 87 + d
  }

  /** The letter that follows the backslash for the characters that have one. */
  function ShortEscape(c: Byte): (e: Byte)
    ensures e != 117
  {
    if c == Backslash || c == DoubleQuote then c
    else if c == 8 then 98
    else if c == 12 then 102
    else if c == LineFeed then 110
    else if c == 13 then 114
    else if c == Tab then 116
    else 0
  }

  /** One character between the quotes. */
  function Escape(c: Byte): (t: seq<Byte>)
    ensures |t| > 0
  {
    if ShortEscape(c) != 0 then [Backslash, ShortEscape(c)]
    else if c < 32 then [Backslash, 117, Zero, Zero, HexDigit(c / 16), HexDigit(c % 16)]
    else [c]
  }

  function EscapeAll(s: seq<Byte>): seq<Byte> {
    if s == [] then [] else Escape(s[0]) + EscapeAll(s[1..])
  }

  function Quoted(s: seq<Byte>): seq<Byte> {
    [DoubleQuote] + EscapeAll(s) + [DoubleQuote]
  }

  function Tabs(n: int): seq<Byte> {
    if n <= 0 then [] else [Tab] + Tabs(n - 1)
  }

  /** What print_value writes in front of the terminator. */
  function Print(v: Json, depth: nat, fmt: bool): seq<Byte>
    decreases v, 1, 0
  {
    match v
    case Null => NullText
    case False => FalseText
    case True => TrueText
    case Number(n) => Decimal(n)
    case String(s) => Quoted(s)
    case Array(items) => [OpenBracket] + PrintItems(v, 0, depth + 1, fmt) + [CloseBracket]
    case Object(members) =>
      if members == [] then [OpenBrace] + (if fmt then [LineFeed] + Tabs(depth - 1) else []) + [CloseBrace]
      else [OpenBrace] + (if fmt then [LineFeed] else []) + PrintMembers(v, 0, depth + 1, fmt) + Closing(depth, fmt)
  }

  function Closing(depth: nat, fmt: bool): seq<Byte> {
    (if fmt then Tabs(depth) else []) + [CloseBrace]
  }

  function PrintItems(v: Json, k: nat, depth: nat, fmt: bool): seq<Byte>
    requires v.Array? && k <= |v.items|
    decreases v, 0, |v.items| - k
  {
    if k == |v.items| then []
    else Print(v.items[k], depth, fmt) + ItemEnd(k + 1 < |v.items|, fmt) + PrintItems(v, k + 1, depth, fmt)
  }

  function ItemEnd(more: bool, fmt: bool): seq<Byte> {
    if !more then [] else if fmt then [Comma, Space] else [Comma]
  }

  function PrintMembers(v: Json, k: nat, depth: nat, fmt: bool): seq<Byte>
    requires v.Object? && k <= |v.members|
    decreases v, 0, |v.members| - k
  {
    if k == |v.members| then []
    else
      MemberStart(v.members[k].name, depth, fmt) + Print(v.members[k].value, depth, fmt)
      + MemberEnd(k + 1 < |v.members|, fmt) + PrintMembers(v, k + 1, depth, fmt)
  }

  function MemberStart(name: seq<Byte>, depth: nat, fmt: bool): seq<Byte> {
    (if fmt then Tabs(depth) else []) + Quoted(name) + (if fmt then [Colon, Tab] else [Colon])
  }

  function MemberEnd(more: bool, fmt: bool): seq<Byte> {
    (if more then [Comma] else []) + (if fmt then [LineFeed] else [])
  }

  lemma LastItem(v: Json, depth: nat, fmt: bool)
    requires v.Array?
    ensures PrintItems(v, |v.items|, depth, fmt) == []
  {}

  lemma ItemsStep(v: Json, k: nat, depth: nat, fmt: bool)
    requires v.Array? && k < |v.items|
    ensures PrintItems(v, k, depth, fmt) ==
            Print(v.items[k], depth, fmt) + ItemEnd(k + 1 < |v.items|, fmt) + PrintItems(v, k + 1, depth, fmt)
  {}

  lemma LastMember(v: Json, depth: nat, fmt: bool)
    requires v.Object?
    ensures PrintMembers(v, |v.members|, depth, fmt) == []
  {}

  lemma MembersStep(v: Json, k: nat, depth: nat, fmt: bool)
    requires v.Object? && k < |v.members|
    ensures PrintMembers(v, k, depth, fmt) ==
            MemberStart(v.members[k].name, depth, fmt) + Print(v.members[k].value, depth, fmt)
            + MemberEnd(k + 1 < |v.members|, fmt) + PrintMembers(v, k + 1, depth, fmt)
  {}

  // ----- parsing -----

  /** Failed carries the position the error pointer is left at. Outside marks text whose treatment
      is not modelled: fractions, exponents, integers beyond 32 bits, and backslash escapes cut
      short. */
  datatype Parse<T> = Parsed(value: T, next: nat) | Failed(at: nat) | Outside

  function Skip(text: seq<Byte>, p: nat): (q: nat)
    requires p <= |text|
    ensures p <= q <= |text|
    decreases |text| - p
  {
    if 0 < At(text, p) <= 32 then Skip(text, p + 1) else p
  }

  function ParsedNatural(text: seq<Byte>, p: nat, n: nat): (r: (nat, nat))
    requires p <= |text|
    ensures p <= r.1 <= |text|
    decreases |text| - p
  {
    if IsDigit(At(text, p)) then ParsedNatural(text, p + 1, 10 * n + (At(text, p) - Zero)) else (n, p)
  }

  function NumberAt(text: seq<Byte>, p: nat): (r: Parse<Json>)
    requires p < |text| && (text[p] == Minus || IsDigit(text[p]))
    ensures r.Parsed? ==> p < r.next <= |text|
  {
    var negative := At(text, p) == Minus;
    var q := if negative then p + 1 else p;
    var q' := if At(text, q) == Zero then q + 1 else q;
    var (n, end) := if 49 <= At(text, q') <= 57 then ParsedNatural(text, q', 0) else (0, q');
    var i: int := if negative then -(n as int) else n;
    if At(text, end) in {69, 101} || (At(text, end) == Dot && IsDigit(At(text, end + 1))) || !Int32(i) then Outside
    else Parsed(Number(i), end)
  }

  /** What ends a string: the closing quote or, for a bare word, any character not in it. */
  predicate IsEnd(c: Byte, plain: bool) {
    c == DoubleQuote || (plain && !IsAlpha(c) && c != 95)
  }

  function HexValue(c: Byte): (d: nat)
    ensures d <= 16
  {
    if IsDigit(c) then c - Zero else if 97 <= c <= 102 then c - 87 else if 65 <= c <= 70 then c - 55 else 16
  }

  /** sscanf "%4x" on four hexadecimal digits. */
  function Hex4(text: seq<Byte>, p: nat): (r: int)
    ensures -1 <= r < 0x10000
    ensures r >= 0 ==> p + 4 <= |text| && forall k :: p <= k < p + 4 ==> HexValue(text[k]) < 16
  {
    var a, b := HexValue(At(text, p)), HexValue(At(text, p + 1));
    var c, d := HexValue(At(text, p + 2)), HexValue(At(text, p + 3));
    if a < 16 && b < 16 && c < 16 && d < 16 then 4096 * a + 256 * b + 16 * c + d else -1
  }

  /** The bytes of a u escape whose digits start at p, and the position behind it; lone
      surrogates and zero give nothing. */
  function Unicode(text: seq<Byte>, p: nat): (r: Parse<seq<Byte>>)
    ensures !r.Failed?
    ensures r.Parsed? ==> p + 4 <= r.next <= |text| && |r.value| <= 4
    ensures r.Parsed? && |r.value| == 4 ==> p + 10 == r.next
  {
    var uc := Hex4(text, p);
    if uc < 0 then Outside
    else if uc == 0 || 0xDC00 <= uc <= 0xDFFF then Parsed([], p + 4)
    else if uc < 0xD800 || uc > 0xDBFF then Parsed(Utf8(uc), p + 4)
    else if At(text, p + 4) != Backslash || At(text, p + 5) != 117 then Parsed([], p + 4)
    else
      var uc2 := Hex4(text, p + 6);
      if uc2 < 0 then Outside
      else if uc2 < 0xDC00 || uc2 > 0xDFFF then Parsed([], p + 10)
      else Parsed(Utf8(0x10000 + (uc - 0xD800) * 1024 + (uc2 - 0xDC00)), p + 10)
  }

  /** The character a one-letter escape stands for. */
  function Unescape(e: Byte): Byte {
    if e == 98 then 8 else if e == 102 then 12 else if e == 110 then LineFeed
    else if e == 114 then 13 else if e == 116 then Tab else e
  }

  /** The same outcome with more in front of what was found. */
  function Prefixed<T>(s: seq<T>, r: Parse<seq<T>>): Parse<seq<T>> {
    if r.Parsed? then Parsed(s + r.value, r.next) else r
  }

  /** The same failure in the reading of something larger. */
  function Failure<T, U>(r: Parse<T>): (r': Parse<U>)
    requires !r.Parsed?
    ensures !r'.Parsed?
  {
    if r.Failed? then Failed(r.at) else Outside
  }

  /** The characters from p to the end of the string; next is where the end stands. */
  function CharsAt(text: seq<Byte>, p: nat, plain: bool): (r: Parse<seq<Byte>>)
    requires p <= |text|
    ensures !r.Failed? && (r.Parsed? ==> p <= r.next <= |text|)
    decreases |text| - p
  {
    var c := At(text, p);
    if c == 0 || IsEnd(c, plain) then Parsed([], p)
    else if c != Backslash then Prefixed([c], CharsAt(text, p + 1, plain))
    else
      var e := At(text, p + 1);
      if e == 0 then Outside
      else if e != 117 then Prefixed([Unescape(e)], CharsAt(text, p + 2, plain))
      else
        var u := Unicode(text, p + 2);
        if u.Parsed? then Prefixed(u.value, CharsAt(text, u.next, plain)) else Outside
  }

  /** parse_string: a quoted string or a bare word. */
  function StringAt(text: seq<Byte>, p: nat): (r: Parse<seq<Byte>>)
    requires p <= |text|
    ensures !r.Failed? && (r.Parsed? ==> p <= r.next <= |text|)
    ensures r.Parsed? && (IsAlpha(At(text, p)) || At(text, p) == DoubleQuote) ==> p < r.next
  {
    var plain := At(text, p) != DoubleQuote;
    var r := CharsAt(text, if plain then p else p + 1, plain);
    if r.Parsed? && At(text, r.next) == DoubleQuote then Parsed(r.value, r.next + 1) else r
  }

  /** parse_value */
  function ValueAt(text: seq<Byte>, p: nat): (r: Parse<Json>)
    requires p <= |text|
    ensures r.Parsed? ==> p < r.next <= |text|
    decreases |text| - p, 1
  {
    var c := At(text, p);
    if Here(text, p, NullText) then Parsed(Null, p + 4)
    else if Here(text, p, FalseText) then Parsed(False, p + 5)
    else if Here(text, p, TrueText) then Parsed(True, p + 4)
    else if c == Minus || IsDigit(c) then NumberAt(text, p)
    else if c == OpenBracket then ArrayAt(text, p)
    else if c == OpenBrace then ObjectAt(text, p)
    else if c == DoubleQuote || IsAlpha(c) then
      var s := StringAt(text, p);
      if s.Parsed? then Parsed(String(s.value), s.next) else Outside
    else Failed(p)
  }

  /** parse_array */
  function ArrayAt(text: seq<Byte>, p: nat): (r: Parse<Json>)
    requires At(text, p) == OpenBracket
    ensures r.Parsed? ==> p < r.next <= |text|
    decreases |text| - p, 0
  {
    var q := Skip(text, p + 1);
    if At(text, q) == CloseBracket then Parsed(Array([]), q + 1)
    else
      var r := ItemsAt(text, q);
      if r.Parsed? then Parsed(Array(r.value), r.next) else Failure(r)
  }

  /** The items of an array from p up to and including its closing bracket. */
  function ItemsAt(text: seq<Byte>, p: nat): (r: Parse<seq<Json>>)
    requires p <= |text|
    ensures r.Parsed? ==> p < r.next <= |text|
    decreases |text| - p, 2
  {
    var v := ValueAt(text, Skip(text, p));
    if v.Parsed? then Prefixed([v.value], ItemsRest(text, Skip(text, v.next))) else Failure(v)
  }

  /** What follows an item. */
  function ItemsRest(text: seq<Byte>, q: nat): (r: Parse<seq<Json>>)
    requires q <= |text|
    ensures r.Parsed? ==> q < r.next <= |text|
    decreases |text| - q, 0
  {
    if At(text, q) == Comma then ItemsAt(text, q + 1)
    else if At(text, q) == CloseBracket then Parsed([], q + 1)
    else Failed(q)
  }

  /** parse_object */
  function ObjectAt(text: seq<Byte>, p: nat): (r: Parse<Json>)
    requires At(text, p) == OpenBrace
    ensures r.Parsed? ==> p < r.next <= |text|
    decreases |text| - p, 0
  {
    var q := Skip(text, p + 1);
    if At(text, q) == CloseBrace then Parsed(Object([]), q + 1)
    else
      var r := MembersAt(text, q);
      if r.Parsed? then Parsed(Object(r.value), r.next) else Failure(r)
  }

  /** One name and its value. */
  function MemberAt(text: seq<Byte>, p: nat): (r: Parse<Member>)
    requires p <= |text|
    ensures r.Parsed? ==> p < r.next <= |text|
    decreases |text| - p, 1
  {
    var name := StringAt(text, Skip(text, p));
    if !name.Parsed? then Failure(name)
    else
      var q := Skip(text, name.next);
      if At(text, q) != Colon then Failed(q)
      else
        var v := ValueAt(text, Skip(text, q + 1));
        if v.Parsed? then Parsed(Member(name.value, v.value), v.next) else Failure(v)
  }

  /** The members of an object from p up to and including its closing brace. */
  function MembersAt(text: seq<Byte>, p: nat): (r: Parse<seq<Member>>)
    requires p <= |text|
    ensures r.Parsed? ==> p < r.next <= |text|
    decreases |text| - p, 2
  {
    var m := MemberAt(text, p);
    if m.Parsed? then Prefixed([m.value], MembersRest(text, Skip(text, m.next))) else Failure(m)
  }

  /** What follows a member. */
  function MembersRest(text: seq<Byte>, q: nat): (r: Parse<seq<Member>>)
    requires q <= |text|
    ensures r.Parsed? ==> q < r.next <= |text|
    decreases |text| - q, 0
  {
    if At(text, q) == Comma then MembersAt(text, q + 1)
    else if At(text, q) == CloseBrace then Parsed([], q + 1)
    else Failed(q)
  }

  /** cJSON_ParseWithOpts */
  function Document(text: seq<Byte>, whole: bool): Parse<Json> {
    var r := ValueAt(text, Skip(text, 0));
    if r.Parsed? && whole then
      var end := Skip(text, r.next);
      if At(text, end) != 0 then Failed(end) else Parsed(r.value, end)
    else r
  }
}
