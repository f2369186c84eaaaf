/** The texts of JSON values as the parser takes them, with all the white space, escapes and bare words
    that it allows, and the values that they are read as. */
module JsonGrammar {
  import opened Octets
  import opened Text
  import opened CodePoints
  import opened Json

  /** Zero or more of the characters that are skipped: those up to the blank, but not the terminator. */
  predicate White(w: seq<Byte>) {
    forall k :: 0 <= k < |w| ==> 0 < w[k] <= ' ' as int
  }

  lemma {:induction false} WhiteSkipped(text: seq<Byte>, p: nat, w: seq<Byte>)
    requires White(w) && Here(text, p, w) && (At(text, p + |w|) == 0 || At(text, p + |w|) > ' ' as int)
    ensures p + |w| <= |text| && Skip(text, p) == p + |w|
    decreases |w|
  {
    if w != [] {
      HereAt(text, p, w, 0);
      HereRest(text, p, w);
      WhiteSkipped(text, p + 1, w[1..]);
    }
  }

  lemma HereRest(text: seq<Byte>, p: nat, piece: seq<Byte>)
    requires Here(text, p, piece) && piece != []
    ensures Here(text, p + 1, piece[1..])
  {
    assert piece == [piece[0]] + piece[1..];
    HereSplit(text, p, [piece[0]], piece[1..]);
  }

  lemma HereInside(text: seq<Byte>, p: nat, piece: seq<Byte>)
    requires Here(text, p, piece)
    ensures p + |piece| <= |text|
  {}

  // ----- strings -----

  /** Four hexadecimal digits. */
  datatype Code = Code(digits: seq<Byte>, values: seq<nat>)

  predicate Coded(c: Code) {
    |c.digits| == |c.values| == 4 && forall k :: 0 <= k < 4 ==> Spells(c.digits[k], c.values[k])
  }

  function Unit(c: Code): (u: nat)
    requires Coded(c)
    ensures u < 0x10000
  {
    ((c.values[0] * 16 + c.values[1]) * 16 + c.values[2]) * 16 + c.values[3]
  }

  predicate High(u: nat) {
    0xD800 <= u <= 0xDBFF
  }

  predicate Low(u: nat) {
    0xDC00 <= u <= 0xDFFF
  }

  /** A part of a string: a character, an escape of one letter, a u escape, or two in a row of which
      the first is a high surrogate. */
  datatype Letter = Plain(c: Byte) | Short(e: Byte) | Escaped(code: Code) | Pair(first: Code, second: Code)

  predicate WellLetter(l: Letter) {
    match l
    case Plain(c) => c !in {0, '"' as int, '\\' as int}
    case Short(e) => e !in {0, 'u' as int}
    case Escaped(code) => Coded(code)
    case Pair(first, second) => Coded(first) && Coded(second) && High(Unit(first))
  }

  predicate LoneHigh(l: Letter) {
    l.Escaped? && Coded(l.code) && High(Unit(l.code))
  }

  /** A lone high surrogate is not followed by a further u escape. */
  predicate Lettered(ls: seq<Letter>) {
    && (forall k :: 0 <= k < |ls| ==> WellLetter(ls[k]))
    && forall k :: 0 <= k < |ls| - 1 && LoneHigh(ls[k]) ==> !ls[k + 1].Escaped? && !ls[k + 1].Pair?
  }

  function LetterText(l: Letter): seq<Byte> {
    match l
    case Plain(c) => [c]
    case Short(e) => Ascii("\\") + [e]
    case Escaped(code) => Ascii("\\u") + code.digits
    case Pair(first, second) => Ascii("\\u") + first.digits + (Ascii("\\u") + second.digits)
  }

  /** The bytes it stands for: zero and lone surrogates give none, and a high surrogate takes with it
      whatever escape follows. */
  function LetterBytes(l: Letter): seq<Byte>
    requires WellLetter(l)
  {
    match l
    case Plain(c) => [c]
    case Short(e) =>
      [if e == 'b' as int then 8 else if e == 'f' as int then 12 else if e == 'n' as int then 10
       else if e == 'r' as int then 13 else if e == 't' as int then 9 else e]
    case Escaped(code) =>
      if Unit(code) == 0 || High(Unit(code)) || Low(Unit(code)) then [] else Utf8(Unit(code))
    case Pair(first, second) =>
      if Low(Unit(second)) then Utf8(0x10000 + (Unit(first) - 0xD800) * 0x400 + (Unit(second) - 0xDC00)) else []
  }

  function LettersText(ls: seq<Letter>): seq<Byte> {
    if ls == [] then [] else LetterText(ls[0]) + LettersText(ls[1..])
  }

  function LettersBytes(ls: seq<Letter>): seq<Byte>
    requires forall k :: 0 <= k < |ls| ==> WellLetter(ls[k])
  {
    if ls == [] then [] else LetterBytes(ls[0]) + LettersBytes(ls[1..])
  }

  lemma SpelledValue(c: Byte, v: nat)
    requires Spells(c, v)
    ensures HexValue(c) == v && c != 0
  {}

  lemma CodeRead(text: seq<Byte>, p: nat, c: Code)
    requires Coded(c) && Here(text, p, c.digits)
    ensures Hex4(text, p) == Unit(c)
  {
    hide HexValue, Here, Spells;
    assert forall k :: 0 <= k < 4 ==> Spells(c.digits[k], c.values[k]);
    HereAt(text, p, c.digits, 0);
    HereAt(text, p, c.digits, 1);
    HereAt(text, p, c.digits, 2);
    HereAt(text, p, c.digits, 3);
    SpelledValue(c.digits[0], c.values[0]);
    SpelledValue(c.digits[1], c.values[1]);
    SpelledValue(c.digits[2], c.values[2]);
    SpelledValue(c.digits[3], c.values[3]);
    assert c.values[0] < 16 && c.values[1] < 16 && c.values[2] < 16 && c.values[3] < 16 by {
      Small(c, 0);
      Small(c, 1);
      Small(c, 2);
      Small(c, 3);
    }
  }

  lemma Small(c: Code, k: nat)
    requires Coded(c) && k < 4
    ensures c.values[k] < 16
  {}

  /** One part of a string. */
  lemma LetterRead(text: seq<Byte>, p: nat, l: Letter)
    requires WellLetter(l) && Here(text, p, LetterText(l))
    requires LoneHigh(l) ==>
               !(At(text, p + 6) == '\\' as int && At(text, p + 7) == 'u' as int)
    ensures p + |LetterText(l)| <= |text| && At(text, p) != 0
    ensures CharsAt(text, p, false) == Prefixed(LetterBytes(l), CharsAt(text, p + |LetterText(l)|, false))
  {
    hide CharsAt, Hex4, Utf8, Here, Coded, Unit, Ascii;
    Backslashes();
    HereInside(text, p, LetterText(l));
    HereAt(text, p, LetterText(l), 0);
    match l
    case Plain(c) => CharStep(text, p);
    case Short(e) =>
      HereAt(text, p, LetterText(l), 1);
      ShortStep(text, p);
    case Escaped(code) =>
      FourDigits(code);
      HereSplit(text, p, Ascii("\\u"), code.digits);
      HereAt(text, p, Ascii("\\u"), 1);
      CodeRead(text, p + 2, code);
      UnitStep(text, p);
    case Pair(first, second) => PairStep(text, p, first, second);
  }

  lemma PairStep(text: seq<Byte>, p: nat, first: Code, second: Code)
    requires Coded(first) && Coded(second) && High(Unit(first)) && Here(text, p, LetterText(Pair(first, second)))
    ensures p + 12 <= |text| && |LetterText(Pair(first, second))| == 12
    ensures CharsAt(text, p, false) == Prefixed(LetterBytes(Pair(first, second)), CharsAt(text, p + 12, false))
  {
    hide CharsAt, Hex4, Utf8, Here, Coded, Unit, Ascii;
    Backslashes();
    FourDigits(first);
    FourDigits(second);
    var u := Ascii("\\u");
    HereInside(text, p, LetterText(Pair(first, second)));
    HereSplit(text, p, u + first.digits, u + second.digits);
    HereSplit(text, p, u, first.digits);
    HereSplit(text, p + 6, u, second.digits);
    HereAt(text, p, u, 0);
    HereAt(text, p, u, 1);
    HereAt(text, p + 6, u, 0);
    HereAt(text, p + 6, u, 1);
    CodeRead(text, p + 2, first);
    CodeRead(text, p + 8, second);
    UnitStep(text, p);
  }

  lemma Backslashes()
    ensures Ascii("\\u") == [Backslash, 117] && Ascii("\\") == [Backslash]
  {}

  lemma FourDigits(c: Code)
    requires Coded(c)
    ensures |c.digits| == 4
  {}

  lemma CharStep(text: seq<Byte>, p: nat)
    requires p < |text| && At(text, p) !in {0, DoubleQuote, Backslash}
    ensures CharsAt(text, p, false) == Prefixed([At(text, p)], CharsAt(text, p + 1, false))
  {}

  lemma ShortStep(text: seq<Byte>, p: nat)
    requires p + 2 <= |text| && At(text, p) == Backslash && At(text, p + 1) !in {0, 117}
    ensures CharsAt(text, p, false) == Prefixed([Unescape(At(text, p + 1))], CharsAt(text, p + 2, false))
  {}

  lemma UnitStep(text: seq<Byte>, p: nat)
    requires p + 2 <= |text| && At(text, p) == Backslash && At(text, p + 1) == 117
    ensures var u := Unicode(text, p + 2);
            u.Parsed? ==> CharsAt(text, p, false) == Prefixed(u.value, CharsAt(text, u.next, false))
  {
    hide Unicode;
  }

  /** A string up to its closing quote. */
  lemma {:induction false} LettersRead(text: seq<Byte>, p: nat, ls: seq<Letter>)
    requires Lettered(ls) && Here(text, p, LettersText(ls)) && At(text, p + |LettersText(ls)|) == '"' as int
    ensures p + |LettersText(ls)| <= |text|
    ensures CharsAt(text, p, false) == Parsed(LettersBytes(ls), p + |LettersText(ls)|)
    decreases |ls|
  {
    hide CharsAt, At, Here, LetterText, LetterBytes, WellLetter, LoneHigh;
    HereInside(text, p, LettersText(ls));
    if ls == [] {
      NoChars(text, p);
    } else {
      HereSplit(text, p, LetterText(ls[0]), LettersText(ls[1..]));
      if LoneHigh(ls[0]) { Behind(text, p, ls); }
      LetterRead(text, p, ls[0]);
      LettersRead(text, p + |LetterText(ls[0])|, ls[1..]);
    }
  }

  lemma NoChars(text: seq<Byte>, p: nat)
    requires p <= |text| && At(text, p) == DoubleQuote
    ensures CharsAt(text, p, false) == Parsed([], p)
  {}

  /** What follows a lone high surrogate is no u escape. */
  lemma Behind(text: seq<Byte>, p: nat, ls: seq<Letter>)
    requires Lettered(ls) && ls != [] && LoneHigh(ls[0])
    requires Here(text, p + |LetterText(ls[0])|, LettersText(ls[1..]))
    requires At(text, p + |LettersText(ls)|) == '"' as int
    ensures !(At(text, p + 6) == '\\' as int && At(text, p + 7) == 'u' as int)
  {
    hide Here, LetterText, WellLetter, LoneHigh;
    var rest := ls[1..];
    SixBytes(ls[0]);
    if rest != [] {
      assert rest[0] == ls[1] && WellLetter(ls[1]);
      HereSplit(text, p + 6, LetterText(rest[0]), LettersText(rest[1..]));
      LetterStart(text, p + 6, rest[0]);
    }
  }

  lemma SixBytes(l: Letter)
    requires LoneHigh(l)
    ensures |LetterText(l)| == 6
  {}

  lemma LetterStart(text: seq<Byte>, p: nat, l: Letter)
    requires WellLetter(l) && !l.Escaped? && !l.Pair? && Here(text, p, LetterText(l))
    ensures !(At(text, p) == '\\' as int && At(text, p + 1) == 'u' as int)
  {
    hide Here;
    HereAt(text, p, LetterText(l), 0);
    if l.Short? { HereAt(text, p, LetterText(l), 1); }
  }

  function StringText(ls: seq<Letter>): seq<Byte> {
    Ascii("\"") + LettersText(ls) + Ascii("\"")
  }

  lemma StringRead(text: seq<Byte>, p: nat, ls: seq<Letter>)
    requires Lettered(ls) && Here(text, p, StringText(ls))
    ensures At(text, p) == '"' as int && p + |StringText(ls)| <= |text|
    ensures StringAt(text, p) == Parsed(LettersBytes(ls), p + |StringText(ls)|)
  {
    hide CharsAt, LettersText, LettersBytes, Here, Lettered;
    HereInside(text, p, StringText(ls));
    HereSplit(text, p, Ascii("\"") + LettersText(ls), Ascii("\""));
    HereSplit(text, p, Ascii("\""), LettersText(ls));
    HereAt(text, p, Ascii("\""), 0);
    HereAt(text, p + 1 + |LettersText(ls)|, Ascii("\""), 0);
    LettersRead(text, p + 1, ls);
  }

  /** In particular one u escape: the bytes are well formed and stand for the code point. */
  lemma EscapeRead(text: seq<Byte>, p: nat, c: Code)
    requires Coded(c) && Here(text, p, Ascii("\"\\u") + c.digits + Ascii("\""))
    ensures StringAt(text, p).Parsed? && StringAt(text, p).next == p + 8
    ensures var t := StringAt(text, p).value;
            if Unit(c) == 0 || High(Unit(c)) || Low(Unit(c)) then t == [] else WellFormed(t) && CodePoint(t) == Unit(c)
  {
    hide Here, Coded, WellFormed, CodePoint, Utf8, LetterText, Unit;
    FourDigits(c);
    OneLetter(Escaped(c));
    assert StringText([Escaped(c)]) == Ascii("\"\\u") + c.digits + Ascii("\"") by { EscapeSpelled(c); }
    StringRead(text, p, [Escaped(c)]);
    Utf8Back(Unit(c));
  }

  lemma OneLetter(l: Letter)
    requires WellLetter(l)
    ensures LettersText([l]) == LetterText(l) && LettersBytes([l]) == LetterBytes(l)
  {
    hide LetterText, LetterBytes, WellLetter;
    assert [l][1..] == [];
  }

  lemma EscapeSpelled(c: Code)
    ensures Ascii("\"") + LetterText(Escaped(c)) + Ascii("\"") == Ascii("\"\\u") + c.digits + Ascii("\"")
  {}

  /** ... and a high surrogate followed by a further escape. */
  lemma PairRead(text: seq<Byte>, p: nat, hi: Code, lo: Code)
    requires Coded(hi) && Coded(lo) && High(Unit(hi))
    requires Here(text, p, Ascii("\"\\u") + hi.digits + Ascii("\\u") + lo.digits + Ascii("\""))
    ensures StringAt(text, p).Parsed? && StringAt(text, p).next == p + 14
    ensures var t := StringAt(text, p).value;
            if Low(Unit(lo))
            then WellFormed(t) && CodePoint(t) == 0x10000 + (Unit(hi) - 0xD800) * 0x400 + (Unit(lo) - 0xDC00)
            else t == []
  {
    hide Here, Coded, WellFormed, CodePoint, Utf8, LetterText, Unit;
    FourDigits(hi);
    FourDigits(lo);
    OneLetter(Pair(hi, lo));
    PairSpelled(hi, lo);
    StringRead(text, p, [Pair(hi, lo)]);
    if Low(Unit(lo)) { Utf8Back(0x10000 + (Unit(hi) - 0xD800) * 0x400 + (Unit(lo) - 0xDC00)); }
  }

  lemma PairSpelled(hi: Code, lo: Code)
    ensures Ascii("\"") + LetterText(Pair(hi, lo)) + Ascii("\"") ==
            Ascii("\"\\u") + hi.digits + Ascii("\\u") + lo.digits + Ascii("\"")
  {
    assert Ascii("\"\\u") == Ascii("\"") + Ascii("\\u");
  }

  // ----- bare words -----

  predicate WordChar(c: Byte) {
    'a' as int <= c <= 'z' as int || 'A' as int <= c <= 'Z' as int || c == '_' as int
  }

  predicate Bare(w: seq<Byte>) {
    w != [] && forall k :: 0 <= k < |w| ==> WordChar(w[k])
  }

  /** What ends a bare word without being part of it. */
  predicate EndsWord(c: Byte) {
    !WordChar(c) && c !in {'"' as int, '\\' as int}
  }

  lemma {:induction false} WordRead(text: seq<Byte>, p: nat, w: seq<Byte>)
    requires (w == [] || Bare(w)) && Here(text, p, w) && EndsWord(At(text, p + |w|))
    ensures p + |w| <= |text| && CharsAt(text, p, true) == Parsed(w, p + |w|)
    decreases |w|
  {
    hide Unicode;
    HereInside(text, p, w);
    if w != [] {
      HereAt(text, p, w, 0);
      HereRest(text, p, w);
      WordRead(text, p + 1, w[1..]);
      assert [w[0]] + w[1..] == w;
    }
  }

  lemma BareRead(text: seq<Byte>, p: nat, w: seq<Byte>)
    requires Bare(w) && Here(text, p, w) && EndsWord(At(text, p + |w|))
    ensures p + |w| <= |text| && StringAt(text, p) == Parsed(w, p + |w|) && At(text, p) == w[0]
  {
    hide CharsAt, Here;
    HereAt(text, p, w, 0);
    WordRead(text, p, w);
  }

  // ----- numbers -----

  /** An optional sign, an optional zero in front, and digits of which the first is no zero. */
  datatype Numeral = Numeral(negative: bool, zero: bool, digits: seq<Byte>, values: seq<nat>)

  predicate WellSpelt(n: Numeral) {
    && (n.negative || n.zero || n.digits != []) && |n.digits| == |n.values|
    && (forall k :: 0 <= k < |n.digits| ==> n.values[k] < 10 && Spells(n.digits[k], n.values[k]))
    && (n.digits != [] ==> n.values[0] != 0) && Int32(NumeralValue(n))
  }

  function NumeralText(n: Numeral): seq<Byte> {
    (if n.negative then Ascii("-") else []) + ((if n.zero then Ascii("0") else []) + n.digits)
  }

  function NumeralValue(n: Numeral): int {
    if n.negative then -(Tens(n.values) as int) else Tens(n.values)
  }

  /** The number whose decimal digits these are. */
  function Tens(values: seq<nat>): nat {
    if values == [] then 0 else 10 * Tens(values[..|values| - 1]) + values[|values| - 1]
  }

  predicate EndsNumeral(c: Byte) {
    !('0' as int <= c <= '9' as int) && c !in {'.' as int, 'e' as int, 'E' as int}
  }

  lemma DecimalDigit(c: Byte, v: nat)
    requires Spells(c, v) && v < 10
    ensures c == Zero + v && IsDigit(c)
  {}

  /** The digits from the k-th on, when those before have been read. */
  lemma {:induction false} DigitsRead(text: seq<Byte>, p: nat, n: Numeral, k: nat)
    requires WellSpelt(n) && k <= |n.digits| && Here(text, p, n.digits) && !IsDigit(At(text, p + |n.digits|))
    ensures p + |n.digits| <= |text|
    ensures ParsedNatural(text, p + k, Tens(n.values[..k])) == (Tens(n.values), p + |n.digits|)
    decreases |n.digits| - k
  {
    hide Here, Spells;
    HereInside(text, p, n.digits);
    if k < |n.digits| {
      HereAt(text, p, n.digits, k);
      DecimalDigit(n.digits[k], n.values[k]);
      assert n.values[..k + 1][..k] == n.values[..k];
      DigitsRead(text, p, n, k + 1);
    } else {
      assert n.values[..k] == n.values;
    }
  }

  lemma NumeralRead(text: seq<Byte>, p: nat, n: Numeral)
    requires WellSpelt(n) && Here(text, p, NumeralText(n)) && EndsNumeral(At(text, p + |NumeralText(n)|))
    ensures p < |text| && (At(text, p) == '-' as int || IsDigit(At(text, p)))
    ensures NumberAt(text, p) == Parsed(Number(NumeralValue(n)), p + |NumeralText(n)|)
  {
    hide Here, Spells, ParsedNatural, Tens, At, IsDigit, NumberAt, Ascii;
    Signs();
    var sign, zero := if n.negative then Ascii("-") else [], if n.zero then Ascii("0") else [];
    var q := p + |sign|;
    HereInside(text, p, NumeralText(n));
    HereSplit(text, p, sign, zero + n.digits);
    HereSplit(text, q, zero, n.digits);
    if n.negative { HereAt(text, p, sign, 0); }
    if n.zero { HereAt(text, q, zero, 0); }
    FirstOfDigits(text, q + |zero|, n);
    EndNoDigit(At(text, p + |NumeralText(n)|));
    DigitsRead(text, q + |zero|, n, 0);
    NoValues(n);
    NumeralStep(text, p, n, q);
  }

  lemma Signs()
    ensures Ascii("-") == [Minus] && Ascii("0") == [Zero]
  {}

  lemma FirstOfDigits(text: seq<Byte>, q: nat, n: Numeral)
    requires WellSpelt(n) && Here(text, q, n.digits)
    ensures n.digits != [] ==> 49 <= At(text, q) <= 57
  {
    hide Here, Spells;
    if n.digits != [] {
      HereAt(text, q, n.digits, 0);
      DecimalDigit(n.digits[0], n.values[0]);
    }
  }

  lemma EndNoDigit(c: Byte)
    requires EndsNumeral(c)
    ensures !IsDigit(c) && c !in {69, 101, Dot}
  {}

  /** The branches in front of the digits. */
  lemma NumeralStep(text: seq<Byte>, p: nat, n: Numeral, q: nat)
    requires WellSpelt(n) && q == (if n.negative then p + 1 else p) && (n.negative ==> At(text, p) == Minus)
    requires n.zero ==> At(text, q) == Zero
    requires var q' := if n.zero then q + 1 else q;
             && q' + |n.digits| <= |text| && (n.digits != [] ==> 49 <= At(text, q') <= 57)
             && (n.digits == [] ==> !IsDigit(At(text, q')) && Tens(n.values) == 0)
             && ParsedNatural(text, q', 0) == (Tens(n.values), q' + |n.digits|)
             && At(text, q' + |n.digits|) !in {69, 101, Dot}
    ensures p < |text| && (At(text, p) == Minus || IsDigit(At(text, p)))
    ensures NumberAt(text, p) ==
            Parsed(Number(NumeralValue(n)), (if n.zero then q + 1 else q) + |n.digits|)
  {
    hide ParsedNatural, Tens, Spells;
  }

  lemma NoValues(n: Numeral)
    ensures Tens(n.values[..0]) == 0 && (n.values == [] ==> Tens(n.values) == 0)
  {}

  // ----- values -----

  datatype Value =
    | Keyword(value: Json)
    | Digits(numeral: Numeral)
    | Literal(letters: seq<Letter>)
    | Word(word: seq<Byte>)
    | EmptyList(gap: seq<Byte>)
    | List(items: seq<Item>)
    | EmptyRecord(gap: seq<Byte>)
    | Record(fields: seq<Field>)

  /** A value with the white space around it, and with its name. */
  datatype Item = Item(before: seq<Byte>, value: Value, after: seq<Byte>)

  datatype Field = Field(before: seq<Byte>, name: Name, middle: seq<Byte>, gap: seq<Byte>, value: Value,
                         after: seq<Byte>)

  datatype Name = QuotedName(letters: seq<Letter>) | BareName(word: seq<Byte>)

  function NameText(n: Name): seq<Byte> {
    match n
    case QuotedName(letters) => StringText(letters)
    case BareName(word) => word
  }

  function NameBytes(n: Name): seq<Byte>
    requires WellNamed(n)
  {
    match n
    case QuotedName(letters) => LettersBytes(letters)
    case BareName(word) => word
  }

  predicate WellNamed(n: Name) {
    match n
    case QuotedName(letters) => Lettered(letters)
    case BareName(word) => Bare(word)
  }

  function ValueText(v: Value): seq<Byte>
    decreases v, 1, 0
  {
    match v
    case Keyword(value) => Ascii(if value == True then "true" else if value == False then "false" else "null")
    case Digits(numeral) => NumeralText(numeral)
    case Literal(letters) => StringText(letters)
    case Word(word) => word
    case EmptyList(gap) => Ascii("[") + gap + Ascii("]")
    case List(items) => Ascii("[") + ItemsText(v, 0) + Ascii("]")
    case EmptyRecord(gap) => Ascii("{") + gap + Ascii("}")
    case Record(fields) => Ascii("{") + FieldsText(v, 0) + Ascii("}")
  }

  /** The items from the k-th on, with commas between them. */
  function ItemsText(v: Value, k: nat): seq<Byte>
    requires v.List? && k <= |v.items|
    decreases v, 0, |v.items| - k
  {
    if k == |v.items| then []
    else
      var i := v.items[k];
      EntryText(i) + (i.after + ((if k + 1 < |v.items| then Ascii(",") else []) + ItemsText(v, k + 1)))
  }

  /** One item up to its value. */
  function EntryText(i: Item): seq<Byte>
    decreases i, 0, 0
  {
    i.before + ValueText(i.value)
  }

  function FieldsText(v: Value, k: nat): seq<Byte>
    requires v.Record? && k <= |v.fields|
    decreases v, 0, |v.fields| - k
  {
    if k == |v.fields| then []
    else
      var f := v.fields[k];
      FieldText(f) + (f.after + ((if k + 1 < |v.fields| then Ascii(",") else []) + FieldsText(v, k + 1)))
  }

  /** One field up to its value. */
  function FieldText(f: Field): seq<Byte>
    decreases f, 0, 0
  {
    f.before + (NameText(f.name) + (f.middle + (Ascii(":") + (f.gap + ValueText(f.value)))))
  }

  predicate WellFormedValue(v: Value) {
    match v
    case Keyword(value) => value in {Null, False, True}
    case Digits(numeral) => WellSpelt(numeral)
    case Literal(letters) => Lettered(letters)
    case Word(word) =>
      && Bare(word) && word[0] != '_' as int
      && !(Ascii("null") <= word) && !(Ascii("false") <= word) && !(Ascii("true") <= word)
    case EmptyList(gap) => White(gap)
    case List(items) =>
      && items != []
      && forall k :: 0 <= k < |items| ==>
           White(items[k].before) && White(items[k].after) && WellFormedValue(items[k].value)
    case EmptyRecord(gap) => White(gap)
    case Record(fields) =>
      && fields != []
      && forall k :: 0 <= k < |fields| ==>
           && White(fields[k].before) && WellNamed(fields[k].name) && White(fields[k].middle) && White(fields[k].gap)
           && WellFormedValue(fields[k].value) && White(fields[k].after)
  }

  /** The value that is read. */
  function MeaningOf(v: Value): Json
    requires WellFormedValue(v)
  {
    match v
    case Keyword(value) => value
    case Digits(numeral) => Number(NumeralValue(numeral))
    case Literal(letters) => String(LettersBytes(letters))
    case Word(word) => String(word)
    case EmptyList(_) => Array([])
    case List(items) => Array(seq(|items|, k requires 0 <= k < |items| => MeaningOf(items[k].value)))
    case EmptyRecord(_) => Object([])
    case Record(fields) =>
      Object(seq(|fields|, k requires 0 <= k < |fields| =>
        Member(NameBytes(fields[k].name), MeaningOf(fields[k].value))))
  }

  /** What may follow a value. */
  predicate EndsValue(v: Value, c: Byte) {
    match v
    case Digits(_) => EndsNumeral(c)
    case Word(_) => EndsWord(c)
    case _ => true
  }

  // ----- reading -----

  /** The structural characters. */
  lemma Brackets()
    ensures Ascii("[") == [OpenBracket] && Ascii("]") == [CloseBracket]
    ensures Ascii("{") == [OpenBrace] && Ascii("}") == [CloseBrace]
    ensures Ascii(",") == [Comma] && Ascii(":") == [Colon]
  {}

  /** A value starts with a visible character that closes nothing. */
  lemma FirstOf(v: Value)
    requires WellFormedValue(v)
    ensures |ValueText(v)| > 0 && ValueText(v)[0] > ' ' as int
    ensures ValueText(v)[0] !in {']' as int, '}' as int, ',' as int}
  {
    hide LettersText, ItemsText, FieldsText, NumeralText, Lettered, WellSpelt;
    match v
    case Digits(n) => NumeralFirst(n);
    case _ =>
  }

  lemma NumeralFirst(n: Numeral)
    requires WellSpelt(n)
    ensures |NumeralText(n)| > 0 && NumeralText(n)[0] > ' ' as int
    ensures NumeralText(n)[0] !in {']' as int, '}' as int, ',' as int}
  {
    hide Spells, Tens;
    if n.digits != [] { DecimalDigit(n.digits[0], n.values[0]); }
  }

  /** Only the keyword that starts with the letter under the cursor can stand there. */
  lemma Keywords(text: seq<Byte>, p: nat)
    ensures Ascii("null") == NullText && Ascii("false") == FalseText && Ascii("true") == TrueText
    ensures Here(text, p, NullText) ==> At(text, p) == 'n' as int
    ensures Here(text, p, FalseText) ==> At(text, p) == 'f' as int
    ensures Here(text, p, TrueText) ==> At(text, p) == 't' as int
  {
    if Here(text, p, NullText) { HereAt(text, p, NullText, 0); }
    if Here(text, p, FalseText) { HereAt(text, p, FalseText, 0); }
    if Here(text, p, TrueText) { HereAt(text, p, TrueText, 0); }
  }

  /** What the first character decides where no keyword stands. */
  lemma Branches(text: seq<Byte>, p: nat)
    requires p < |text| && !Here(text, p, NullText) && !Here(text, p, FalseText) && !Here(text, p, TrueText)
    ensures At(text, p) == Minus || IsDigit(At(text, p)) ==> ValueAt(text, p) == NumberAt(text, p)
    ensures At(text, p) == OpenBracket ==> ValueAt(text, p) == ArrayAt(text, p)
    ensures At(text, p) == OpenBrace ==> ValueAt(text, p) == ObjectAt(text, p)
    ensures (At(text, p) == DoubleQuote || IsAlpha(At(text, p))) && StringAt(text, p).Parsed? ==>
              ValueAt(text, p) == Parsed(String(StringAt(text, p).value), StringAt(text, p).next)
  {
    hide Here, NumberAt, ArrayAt, ObjectAt, StringAt;
  }

  lemma {:induction false} ValueRead(text: seq<Byte>, p: nat, v: Value)
    requires WellFormedValue(v) && Here(text, p, ValueText(v)) && EndsValue(v, At(text, p + |ValueText(v)|))
    ensures p + |ValueText(v)| <= |text| && ValueAt(text, p) == Parsed(MeaningOf(v), p + |ValueText(v)|)
    decreases v, 1, 0
  {
    hide Here, ValueAt, NumberAt, ArrayAt, ObjectAt, StringAt, StringText, NumeralText, WellSpelt, Lettered,
         LettersBytes, NumeralValue;
    HereInside(text, p, ValueText(v));
    match v
    case Keyword(value) => KeywordRead(text, p, v);
    case Digits(numeral) =>
      NumeralRead(text, p, numeral);
      Keywords(text, p);
      Branches(text, p);
    case Literal(letters) =>
      StringRead(text, p, letters);
      Keywords(text, p);
      Branches(text, p);
    case Word(word) =>
      BareRead(text, p, word);
      NoKeyword(text, p, word);
      Branches(text, p);
    case EmptyList(gap) => EmptyRead(text, p, v, gap);
    case List(items) => ListRead(text, p, v);
    case EmptyRecord(gap) => EmptyRead(text, p, v, gap);
    case Record(fields) => RecordRead(text, p, v);
  }

  lemma KeywordRead(text: seq<Byte>, p: nat, v: Value)
    requires v.Keyword? && WellFormedValue(v) && Here(text, p, ValueText(v))
    ensures ValueAt(text, p) == Parsed(v.value, p + |ValueText(v)|)
  {
    HereAt(text, p, ValueText(v), 0);
    Keywords(text, p);
  }

  lemma NoKeyword(text: seq<Byte>, p: nat, w: seq<Byte>)
    requires Bare(w) && Here(text, p, w) && EndsWord(At(text, p + |w|))
    requires !(Ascii("null") <= w) && !(Ascii("false") <= w) && !(Ascii("true") <= w)
    ensures !Here(text, p, NullText) && !Here(text, p, FalseText) && !Here(text, p, TrueText)
  {
    Keywords(text, p);
    hide Ascii;
    NoPrefix(text, p, w, NullText);
    NoPrefix(text, p, w, FalseText);
    NoPrefix(text, p, w, TrueText);
  }

  lemma NoPrefix(text: seq<Byte>, p: nat, w: seq<Byte>, k: seq<Byte>)
    requires Here(text, p, w) && EndsWord(At(text, p + |w|)) && !(k <= w) && forall i :: 0 <= i < |k| ==> WordChar(k[i])
    ensures !Here(text, p, k)
  {
    if Here(text, p, k) {
      if |w| < |k| {
        HereAt(text, p, k, |w|);
      } else {
        forall i | 0 <= i < |k| ensures w[i] == k[i] {
          HereAt(text, p, k, i);
          HereAt(text, p, w, i);
        }
        Prefix(w, k);
      }
    }
  }

  lemma Prefix(w: seq<Byte>, k: seq<Byte>)
    requires |k| <= |w| && forall i :: 0 <= i < |k| ==> w[i] == k[i]
    ensures k <= w
  {}

  /** An array or an object without contents. */
  lemma EmptyRead(text: seq<Byte>, p: nat, v: Value, gap: seq<Byte>)
    requires v == EmptyList(gap) || v == EmptyRecord(gap)
    requires WellFormedValue(v) && Here(text, p, ValueText(v))
    ensures ValueAt(text, p) == Parsed(MeaningOf(v), p + |ValueText(v)|)
  {
    hide Here, ValueAt, Skip, White, ArrayAt, ObjectAt, Ascii;
    Brackets();
    var open, close := if v.EmptyList? then Ascii("[") else Ascii("{"), if v.EmptyList? then Ascii("]") else Ascii("}");
    HereInside(text, p, open + gap + close);
    HereSplit(text, p, open + gap, close);
    HereSplit(text, p, open, gap);
    HereAt(text, p, open, 0);
    HereAt(text, p + 1 + |gap|, close, 0);
    WhiteSkipped(text, p + 1, gap);
    Keywords(text, p);
    Branches(text, p);
    if v.EmptyList? { ClosedList(text, p); } else { ClosedRecord(text, p); }
  }

  lemma ClosedList(text: seq<Byte>, p: nat)
    requires p < |text| && At(text, p) == OpenBracket && At(text, Skip(text, p + 1)) == CloseBracket
    ensures ArrayAt(text, p) == Parsed(Array([]), Skip(text, p + 1) + 1)
  {
    hide Skip, ItemsAt;
  }

  lemma ClosedRecord(text: seq<Byte>, p: nat)
    requires p < |text| && At(text, p) == OpenBrace && At(text, Skip(text, p + 1)) == CloseBrace
    ensures ObjectAt(text, p) == Parsed(Object([]), Skip(text, p + 1) + 1)
  {
    hide Skip, MembersAt;
  }

  /** An array whose items are read, or are not. */
  lemma OpenList(text: seq<Byte>, p: nat)
    requires p < |text| && At(text, p) == OpenBracket && At(text, Skip(text, p + 1)) != CloseBracket
    ensures var r := ItemsAt(text, p + 1);
            && (r.Parsed? ==> ArrayAt(text, p) == Parsed(Array(r.value), r.next))
            && (r.Failed? ==> ArrayAt(text, p) == Failed(r.at))
  {
    SkippedItems(text, p + 1);
    hide Skip, ItemsAt;
  }

  lemma OpenRecord(text: seq<Byte>, p: nat)
    requires p < |text| && At(text, p) == OpenBrace && At(text, Skip(text, p + 1)) != CloseBrace
    ensures var r := MembersAt(text, p + 1);
            && (r.Parsed? ==> ObjectAt(text, p) == Parsed(Object(r.value), r.next))
            && (r.Failed? ==> ObjectAt(text, p) == Failed(r.at))
  {
    SkippedItems(text, p + 1);
    hide Skip, MembersAt;
  }

  lemma {:induction false} ListRead(text: seq<Byte>, p: nat, v: Value)
    requires v.List? && WellFormedValue(v) && Here(text, p, ValueText(v))
    ensures ValueAt(text, p) == Parsed(MeaningOf(v), p + |ValueText(v)|)
    decreases v, 0, |v.items| + 1
  {
    hide Here, ValueAt, Skip, ItemsAt, ItemsText, White, MeaningOf, ArrayAt, ValueText, WellFormedValue, Ascii;
    Brackets();
    ListText(v);
    HereInside(text, p, ValueText(v));
    HereSplit(text, p, Ascii("[") + ItemsText(v, 0), Ascii("]"));
    HereSplit(text, p, Ascii("["), ItemsText(v, 0));
    HereAt(text, p, Ascii("["), 0);
    HereAt(text, p + 1 + |ItemsText(v, 0)|, Ascii("]"), 0);
    ClosingStops(v.items[|v.items| - 1].value, v.items[|v.items| - 1].after);
    ItemsRead(text, p + 1, v, 0);
    ItemStart(text, p + 1, v, 0);
    OpenList(text, p);
    ListMeaning(v);
    Keywords(text, p);
    Branches(text, p);
  }

  lemma ListText(v: Value)
    requires WellFormedValue(v)
    ensures v.List? ==> v.items != [] && ValueText(v) == Ascii("[") + ItemsText(v, 0) + Ascii("]")
    ensures v.Record? ==> v.fields != [] && ValueText(v) == Ascii("{") + FieldsText(v, 0) + Ascii("}")
    ensures |Ascii("[")| == |Ascii("]")| == |Ascii("{")| == |Ascii("}")| == 1
  {
    hide ItemsText, FieldsText;
  }

  lemma SkippedItems(text: seq<Byte>, p: nat)
    requires p <= |text|
    ensures ItemsAt(text, Skip(text, p)) == ItemsAt(text, p)
    ensures MembersAt(text, Skip(text, p)) == MembersAt(text, p)
  {
    hide ValueAt, StringAt;
    SkipTwice(text, p);
  }

  lemma {:induction false} SkipTwice(text: seq<Byte>, p: nat)
    requires p <= |text|
    ensures Skip(text, Skip(text, p)) == Skip(text, p)
    decreases |text| - p
  {
    if 0 < At(text, p) <= 32 { SkipTwice(text, p + 1); }
  }

  function ItemMeanings(v: Value): seq<Json>
    requires v.List? && WellFormedValue(v)
  {
    seq(|v.items|, k requires 0 <= k < |v.items| => MeaningOf(v.items[k].value))
  }

  lemma ListMeaning(v: Value)
    requires v.List? && WellFormedValue(v)
    ensures MeaningOf(v) == Array(ItemMeanings(v)) && ItemMeanings(v)[0..] == ItemMeanings(v)
  {}

  predicate StopsItems(v: Value, c: Byte)
    requires v.List? && v.items != []
  {
    Stops(v.items[|v.items| - 1].value, v.items[|v.items| - 1].after, c)
  }

  /** The pieces of the k-th item, and the place where its value starts. */
  lemma ItemParts(text: seq<Byte>, p: nat, v: Value, k: nat) returns (q: nat, e: nat, c: nat)
    requires v.List? && WellFormedValue(v) && k < |v.items| && Here(text, p, ItemsText(v, k))
    requires StopsItems(v, At(text, p + |ItemsText(v, k)|))
    ensures var i := v.items[k];
            && WellFormedValue(i.value) && p <= |text| && Skip(text, p) == q && Here(text, q, ValueText(i.value))
            && e == q + |ValueText(i.value)| <= |text| && EndsValue(i.value, At(text, e)) && Skip(text, e) == c
    ensures k + 1 < |v.items| ==>
              && At(text, c) == Comma && Here(text, c + 1, ItemsText(v, k + 1))
              && c + 1 + |ItemsText(v, k + 1)| == p + |ItemsText(v, k)|
    ensures k + 1 == |v.items| ==> c == p + |ItemsText(v, k)|
  {
    hide Here, Skip, White, WellFormedValue, EntryText, EndsValue, Stops, ItemsText, Ascii;
    Brackets();
    var i := v.items[k];
    ItemWell(v, k);
    ItemsTextIs(v, k);
    var comma := if k + 1 < |v.items| then Ascii(",") else [];
    var rest := ItemsText(v, k + 1);
    HereInside(text, p, ItemsText(v, k));
    HereSplit(text, p, EntryText(i), i.after + (comma + rest));
    q := EntryParts(text, p, i);
    e := p + |EntryText(i)|;
    HereSplit(text, e, i.after, comma + rest);
    c := e + |i.after|;
    HereSplit(text, c, comma, rest);
    if k + 1 < |v.items| { HereAt(text, c, comma, 0); }
    AfterValue(text, e, i.after, i.value);
  }

  lemma EntryParts(text: seq<Byte>, p: nat, i: Item) returns (q: nat)
    requires White(i.before) && WellFormedValue(i.value) && Here(text, p, EntryText(i))
    ensures p <= |text| && Skip(text, p) == q && Here(text, q, ValueText(i.value))
    ensures q + |ValueText(i.value)| == p + |EntryText(i)| <= |text|
  {
    hide Here, Skip, White, WellFormedValue, ValueText;
    HereInside(text, p, EntryText(i));
    HereSplit(text, p, i.before, ValueText(i.value));
    q := p + |i.before|;
    FirstOf(i.value);
    HereAt(text, q, ValueText(i.value), 0);
    WhiteSkipped(text, p, i.before);
  }

  lemma ItemsTextIs(v: Value, k: nat)
    requires v.List? && k < |v.items|
    ensures var i := v.items[k];
            ItemsText(v, k) ==
            EntryText(i) + (i.after + ((if k + 1 < |v.items| then Ascii(",") else []) + ItemsText(v, k + 1)))
    ensures k + 1 == |v.items| ==> ItemsText(v, k + 1) == []
  {
    hide EntryText;
  }

  lemma ItemWell(v: Value, k: nat)
    requires v.List? && WellFormedValue(v) && k < |v.items|
    ensures White(v.items[k].before) && White(v.items[k].after) && WellFormedValue(v.items[k].value)
  {}

  /** A character that neither belongs to the value nor goes on with a list. */
  predicate Stops(v: Value, after: seq<Byte>, c: Byte) {
    c != Comma && (c == 0 || c > ' ' as int) && (after != [] || EndsValue(v, c))
  }

  lemma ClosingStops(v: Value, after: seq<Byte>)
    ensures Stops(v, after, CloseBracket) && Stops(v, after, CloseBrace)
  {}

  lemma AfterValue(text: seq<Byte>, e: nat, after: seq<Byte>, v: Value)
    requires White(after) && Here(text, e, after)
    requires At(text, e + |after|) == Comma || Stops(v, after, At(text, e + |after|))
    ensures e <= |text| && EndsValue(v, At(text, e)) && Skip(text, e) == e + |after|
  {
    hide Skip;
    WhiteSkipped(text, e, after);
    if after != [] { HereAt(text, e, after, 0); }
  }

  lemma ItemStart(text: seq<Byte>, p: nat, v: Value, k: nat)
    requires v.List? && WellFormedValue(v) && k < |v.items| && Here(text, p, ItemsText(v, k))
    requires StopsItems(v, At(text, p + |ItemsText(v, k)|))
    ensures p <= |text| && At(text, Skip(text, p)) !in {CloseBracket, CloseBrace, Comma, 0}
  {
    hide Here, Skip, ItemsText, WellFormedValue, ValueText, EndsValue;
    var q, e, c := ItemParts(text, p, v, k);
    FirstOf(v.items[k].value);
    HereAt(text, q, ValueText(v.items[k].value), 0);
  }

  /** The items from the k-th on, up to the closing bracket or to a character that must not follow. */
  lemma {:induction false} ItemsRead(text: seq<Byte>, p: nat, v: Value, k: nat)
    requires v.List? && WellFormedValue(v) && k < |v.items| && Here(text, p, ItemsText(v, k))
    requires StopsItems(v, At(text, p + |ItemsText(v, k)|))
    ensures p <= |text|
    ensures var end := p + |ItemsText(v, k)|;
            ItemsAt(text, p) ==
            if At(text, end) == CloseBracket then Parsed(ItemMeanings(v)[k..], end + 1) else Failed(end)
    decreases v, 0, |v.items| - k
  {
    hide Here, At, ValueAt, ItemsAt, Skip, ItemsText, WellFormedValue, ValueText, EndsValue, MeaningOf, StopsItems;
    var q, e, c := ItemParts(text, p, v, k);
    ValueRead(text, q, v.items[k].value);
    ItemRest(text, p, MeaningOf(v.items[k].value), e, c);
    if k + 1 < |v.items| {
      ItemsRead(text, c + 1, v, k + 1);
      assert ItemMeanings(v)[k..] == [MeaningOf(v.items[k].value)] + ItemMeanings(v)[k + 1..];
    } else {
      assert At(text, c) != Comma by { ItemsStopped(v, At(text, c)); }
      assert ItemMeanings(v)[k..] == [MeaningOf(v.items[k].value)];
    }
  }

  lemma ItemsStopped(v: Value, c: Byte)
    requires v.List? && v.items != [] && StopsItems(v, c)
    ensures c != Comma
  {}

  lemma ItemRest(text: seq<Byte>, p: nat, v: Json, end: nat, q: nat)
    requires p <= |text| && end <= |text| && ValueAt(text, Skip(text, p)) == Parsed(v, end) && q == Skip(text, end)
    ensures At(text, q) == CloseBracket ==> ItemsAt(text, p) == Parsed([v], q + 1)
    ensures At(text, q) == Comma ==>
              q < |text| && (ItemsAt(text, q + 1).Parsed? ==>
              ItemsAt(text, p) == Parsed([v] + ItemsAt(text, q + 1).value, ItemsAt(text, q + 1).next))
              && (ItemsAt(text, q + 1).Failed? ==> ItemsAt(text, p) == ItemsAt(text, q + 1))
    ensures At(text, q) !in {Comma, CloseBracket} ==> ItemsAt(text, p) == Failed(q)
  {
    hide ValueAt, Skip;
    assert [v] + [] == [v];
  }

  // ----- objects -----

  lemma {:induction false} RecordRead(text: seq<Byte>, p: nat, v: Value)
    requires v.Record? && WellFormedValue(v) && Here(text, p, ValueText(v))
    ensures ValueAt(text, p) == Parsed(MeaningOf(v), p + |ValueText(v)|)
    decreases v, 0, |v.fields| + 1
  {
    hide Here, ValueAt, Skip, MembersAt, FieldsText, White, MeaningOf, ObjectAt, ValueText, WellFormedValue, Ascii;
    Brackets();
    ListText(v);
    HereInside(text, p, ValueText(v));
    HereSplit(text, p, Ascii("{") + FieldsText(v, 0), Ascii("}"));
    HereSplit(text, p, Ascii("{"), FieldsText(v, 0));
    HereAt(text, p, Ascii("{"), 0);
    HereAt(text, p + 1 + |FieldsText(v, 0)|, Ascii("}"), 0);
    ClosingStops(v.fields[|v.fields| - 1].value, v.fields[|v.fields| - 1].after);
    FieldsRead(text, p + 1, v, 0);
    FieldStart(text, p + 1, v, 0);
    OpenRecord(text, p);
    RecordMeaning(v);
    Keywords(text, p);
    Branches(text, p);
  }

  function FieldMeaning(f: Field): Member
    requires WellNamed(f.name) && WellFormedValue(f.value)
  {
    Member(NameBytes(f.name), MeaningOf(f.value))
  }

  function FieldMeanings(v: Value): seq<Member>
    requires v.Record? && WellFormedValue(v)
  {
    seq(|v.fields|, k requires 0 <= k < |v.fields| => FieldMeaning(v.fields[k]))
  }

  lemma RecordMeaning(v: Value)
    requires v.Record? && WellFormedValue(v)
    ensures MeaningOf(v) == Object(FieldMeanings(v)) && FieldMeanings(v)[0..] == FieldMeanings(v)
  {}

  predicate WellField(f: Field) {
    && White(f.before) && WellNamed(f.name) && White(f.middle) && White(f.gap) && WellFormedValue(f.value)
    && White(f.after)
  }

  lemma FieldWell(v: Value, k: nat)
    requires v.Record? && WellFormedValue(v) && k < |v.fields|
    ensures WellField(v.fields[k])
  {}

  lemma NameFirst(n: Name)
    requires WellNamed(n)
    ensures |NameText(n)| > 0 && NameText(n)[0] > ' ' as int && NameText(n)[0] !in {']' as int, '}' as int, ',' as int}
  {}

  /** A name is read as it is written. */
  lemma NameRead(text: seq<Byte>, p: nat, n: Name)
    requires WellNamed(n) && Here(text, p, NameText(n)) && EndsWord(At(text, p + |NameText(n)|))
    ensures p + |NameText(n)| <= |text| && StringAt(text, p) == Parsed(NameBytes(n), p + |NameText(n)|)
  {
    hide Here, StringAt, StringText, Lettered, LettersBytes;
    match n
    case QuotedName(letters) => StringRead(text, p, letters);
    case BareName(word) => BareRead(text, p, word);
  }

  /** A name, a colon and a value, up to the white space behind the value. */
  lemma {:induction false} FieldRead(text: seq<Byte>, p: nat, f: Field)
    requires WellField(f) && Here(text, p, FieldText(f)) && EndsValue(f.value, At(text, p + |FieldText(f)|))
    ensures p + |FieldText(f)| <= |text| && MemberAt(text, p) == Parsed(FieldMeaning(f), p + |FieldText(f)|)
    ensures At(text, Skip(text, p)) !in {CloseBracket, CloseBrace, Comma, 0}
    decreases f, 0, 1
  {
    hide Here, At, ValueAt, StringAt, Skip, White, WellFormedValue, ValueText, EndsValue, MeaningOf, NameText,
         NameBytes, WellNamed, MemberAt;
    HereInside(text, p, FieldText(f));
    var q, m, c, g := FieldParts(text, p, f);
    ValueRead(text, g, f.value);
    MemberStep(text, p, NameBytes(f.name), m, MeaningOf(f.value), p + |FieldText(f)|);
  }

  /** The places of the name, of the white space behind it, of the colon and of the value. */
  lemma FieldParts(text: seq<Byte>, p: nat, f: Field) returns (q: nat, m: nat, c: nat, g: nat)
    requires WellField(f) && Here(text, p, FieldText(f))
    ensures p <= |text| && q <= |text| && Skip(text, p) == q && m <= |text|
    ensures StringAt(text, q) == Parsed(NameBytes(f.name), m)
    ensures At(text, q) !in {CloseBracket, CloseBrace, Comma, 0}
    ensures Skip(text, m) == c < |text| && At(text, c) == Colon && Skip(text, c + 1) == g
    ensures Here(text, g, ValueText(f.value)) && g + |ValueText(f.value)| == p + |FieldText(f)|
  {
    hide Here, Skip, White, WellFormedValue, ValueText, NameText, NameBytes, StringAt, WellNamed, EndsWord;
    var colon := f.middle + (Ascii(":") + (f.gap + ValueText(f.value)));
    HereSplit(text, p, f.before, NameText(f.name) + colon);
    q := p + |f.before|;
    HereSplit(text, q, NameText(f.name), colon);
    m := q + |NameText(f.name)|;
    c, g := ColonParts(text, m, f);
    NameFirst(f.name);
    HereAt(text, q, NameText(f.name), 0);
    WhiteSkipped(text, p, f.before);
    NameRead(text, q, f.name);
  }

  lemma ColonParts(text: seq<Byte>, m: nat, f: Field) returns (c: nat, g: nat)
    requires WellField(f) && Here(text, m, f.middle + (Ascii(":") + (f.gap + ValueText(f.value))))
    ensures m <= |text| && EndsWord(At(text, m))
    ensures Skip(text, m) == c < |text| && At(text, c) == Colon && Skip(text, c + 1) == g
    ensures Here(text, g, ValueText(f.value))
    ensures g + |ValueText(f.value)| == m + |f.middle| + 1 + |f.gap| + |ValueText(f.value)|
  {
    hide Here, Skip, White, WellFormedValue, ValueText, EndsWord, WellNamed, Ascii;
    Brackets();
    var value := ValueText(f.value);
    HereSplit(text, m, f.middle, Ascii(":") + (f.gap + value));
    c := m + |f.middle|;
    HereSplit(text, c, Ascii(":"), f.gap + value);
    HereSplit(text, c + 1, f.gap, value);
    g := c + 1 + |f.gap|;
    HereAt(text, c, Ascii(":"), 0);
    WhiteSkipped(text, m, f.middle);
    NameEnds(text, m, f.middle);
    FirstOf(f.value);
    HereAt(text, g, value, 0);
    WhiteSkipped(text, c + 1, f.gap);
  }

  lemma NameEnds(text: seq<Byte>, m: nat, w: seq<Byte>)
    requires White(w) && Here(text, m, w) && At(text, m + |w|) == Colon
    ensures EndsWord(At(text, m))
  {
    if w != [] { HereAt(text, m, w, 0); }
  }

  lemma MemberStep(text: seq<Byte>, p: nat, name: seq<Byte>, q: nat, v: Json, end: nat)
    requires p <= |text| && q <= |text| && StringAt(text, Skip(text, p)) == Parsed(name, q)
    requires At(text, Skip(text, q)) == Colon && ValueAt(text, Skip(text, Skip(text, q) + 1)) == Parsed(v, end)
    ensures MemberAt(text, p) == Parsed(Member(name, v), end)
  {
    hide StringAt, ValueAt, Skip;
  }

  lemma FieldStart(text: seq<Byte>, p: nat, v: Value, k: nat)
    requires v.Record? && WellFormedValue(v) && k < |v.fields| && Here(text, p, FieldsText(v, k))
    ensures p <= |text| && At(text, Skip(text, p)) !in {CloseBracket, CloseBrace, Comma, 0}
  {
    hide Here, Skip, FieldText, WellFormedValue, StringAt, WellField, NameBytes, ValueText;
    var f := v.fields[k];
    var comma := if k + 1 < |v.fields| then Ascii(",") else [];
    FieldWell(v, k);
    HereSplit(text, p, FieldText(f), f.after + (comma + FieldsText(v, k + 1)));
    var q, m, c, g := FieldParts(text, p, f);
  }

  predicate StopsFields(v: Value, c: Byte)
    requires v.Record? && v.fields != []
  {
    Stops(v.fields[|v.fields| - 1].value, v.fields[|v.fields| - 1].after, c)
  }

  /** The fields from the k-th on, up to the closing brace or to a character that must not follow. */
  lemma {:induction false} FieldsRead(text: seq<Byte>, p: nat, v: Value, k: nat)
    requires v.Record? && WellFormedValue(v) && k < |v.fields| && Here(text, p, FieldsText(v, k))
    requires StopsFields(v, At(text, p + |FieldsText(v, k)|))
    ensures p <= |text|
    ensures var end := p + |FieldsText(v, k)|;
            MembersAt(text, p) ==
            if At(text, end) == CloseBrace then Parsed(FieldMeanings(v)[k..], end + 1) else Failed(end)
    decreases v, 0, |v.fields| - k
  {
    hide Here, At, MemberAt, MembersAt, Skip, FieldsText, WellFormedValue, FieldText, EndsValue, FieldMeaning,
         WellField, StopsFields;
    var f := v.fields[k];
    FieldWell(v, k);
    var e, c := FieldBehind(text, p, v, k);
    FieldRead(text, p, f);
    FieldRecalled(f);
    FieldRest(text, p, FieldMeaning(f), e, c);
    if k + 1 < |v.fields| {
      FieldsRead(text, c + 1, v, k + 1);
      assert FieldMeanings(v)[k..] == [FieldMeaning(f)] + FieldMeanings(v)[k + 1..];
    } else {
      assert At(text, c) != Comma by { FieldsStopped(v, At(text, c)); }
      assert FieldMeanings(v)[k..] == [FieldMeaning(f)];
    }
  }

  lemma FieldsStopped(v: Value, c: Byte)
    requires v.Record? && v.fields != [] && StopsFields(v, c)
    ensures c != Comma
  {}

  lemma FieldRecalled(f: Field)
    requires WellField(f)
    ensures WellNamed(f.name) && WellFormedValue(f.value)
  {}

  lemma FieldsTextIs(v: Value, k: nat)
    requires v.Record? && k < |v.fields|
    ensures var f := v.fields[k];
            FieldsText(v, k) ==
            FieldText(f) + (f.after + ((if k + 1 < |v.fields| then Ascii(",") else []) + FieldsText(v, k + 1)))
    ensures k + 1 == |v.fields| ==> FieldsText(v, k + 1) == []
  {
    hide FieldText;
  }

  /** What follows the k-th field. */
  lemma FieldBehind(text: seq<Byte>, p: nat, v: Value, k: nat) returns (e: nat, c: nat)
    requires v.Record? && WellFormedValue(v) && k < |v.fields| && Here(text, p, FieldsText(v, k))
    requires StopsFields(v, At(text, p + |FieldsText(v, k)|))
    ensures var f := v.fields[k];
            && p <= |text| && Here(text, p, FieldText(f)) && e == p + |FieldText(f)| <= |text|
            && EndsValue(f.value, At(text, e)) && Skip(text, e) == c
    ensures k + 1 < |v.fields| ==>
              && At(text, c) == Comma && Here(text, c + 1, FieldsText(v, k + 1))
              && c + 1 + |FieldsText(v, k + 1)| == p + |FieldsText(v, k)|
    ensures k + 1 == |v.fields| ==> c == p + |FieldsText(v, k)|
  {
    hide Here, Skip, White, WellFormedValue, FieldText, EndsValue, WellNamed, Stops, FieldsText, Ascii;
    Brackets();
    var f := v.fields[k];
    FieldsTextIs(v, k);
    var comma := if k + 1 < |v.fields| then Ascii(",") else [];
    var rest := FieldsText(v, k + 1);
    FieldWell(v, k);
    HereInside(text, p, FieldsText(v, k));
    HereSplit(text, p, FieldText(f), f.after + (comma + rest));
    e := p + |FieldText(f)|;
    HereSplit(text, e, f.after, comma + rest);
    c := e + |f.after|;
    HereSplit(text, c, comma, rest);
    if k + 1 < |v.fields| { HereAt(text, c, comma, 0); }
    AfterValue(text, e, f.after, f.value);
  }

  lemma FieldRest(text: seq<Byte>, p: nat, m: Member, end: nat, q: nat)
    requires p <= |text| && end <= |text| && MemberAt(text, p) == Parsed(m, end) && q == Skip(text, end)
    ensures At(text, q) == CloseBrace ==> MembersAt(text, p) == Parsed([m], q + 1)
    ensures At(text, q) == Comma ==>
              q < |text| && (MembersAt(text, q + 1).Parsed? ==>
              MembersAt(text, p) == Parsed([m] + MembersAt(text, q + 1).value, MembersAt(text, q + 1).next))
              && (MembersAt(text, q + 1).Failed? ==> MembersAt(text, p) == MembersAt(text, q + 1))
    ensures At(text, q) !in {Comma, CloseBrace} ==> MembersAt(text, p) == Failed(q)
  {
    hide MemberAt, Skip;
    assert [m] + [] == [m];
  }

  // ----- refusals -----

  /** Where no value can start, the error pointer is left there. */
  lemma NoValue(text: seq<Byte>, p: nat)
    requires p <= |text| && !WordChar(At(text, p)) && !('0' as int <= At(text, p) <= '9' as int)
    requires At(text, p) !in {'-' as int, '[' as int, '{' as int, '"' as int}
    ensures ValueAt(text, p) == Failed(p)
  {
    hide Here, NumberAt, ArrayAt, ObjectAt, StringAt;
    Keywords(text, p);
  }

  /** Behind the items of an array, where neither a comma nor the closing bracket stands. */
  lemma ListUnended(text: seq<Byte>, p: nat, v: Value)
    requires v.List? && WellFormedValue(v) && Here(text, p, Ascii("[") + ItemsText(v, 0))
    requires var c := At(text, p + |Ascii("[") + ItemsText(v, 0)|); StopsItems(v, c) && c != ']' as int
    ensures p <= |text| && ValueAt(text, p) == Failed(p + |Ascii("[") + ItemsText(v, 0)|)
  {
    hide Here, ValueAt, Skip, ItemsAt, ItemsText, White, ArrayAt, StopsItems, WellFormedValue, Ascii;
    Brackets();
    HereSplit(text, p, Ascii("["), ItemsText(v, 0));
    HereAt(text, p, Ascii("["), 0);
    ListSome(v);
    ItemsRead(text, p + 1, v, 0);
    ItemStart(text, p + 1, v, 0);
    OpenList(text, p);
    Keywords(text, p);
    Branches(text, p);
  }

  lemma ListSome(v: Value)
    requires WellFormedValue(v)
    ensures (v.List? ==> v.items != []) && (v.Record? ==> v.fields != [])
  {}

  /** Behind the fields of an object, where neither a comma nor the closing brace stands. */
  lemma RecordUnended(text: seq<Byte>, p: nat, v: Value)
    requires v.Record? && WellFormedValue(v) && Here(text, p, Ascii("{") + FieldsText(v, 0))
    requires var c := At(text, p + |Ascii("{") + FieldsText(v, 0)|); StopsFields(v, c) && c != '}' as int
    ensures p <= |text| && ValueAt(text, p) == Failed(p + |Ascii("{") + FieldsText(v, 0)|)
  {
    hide Here, ValueAt, Skip, MembersAt, FieldsText, White, ObjectAt, StopsFields, WellFormedValue, Ascii;
    Brackets();
    HereSplit(text, p, Ascii("{"), FieldsText(v, 0));
    HereAt(text, p, Ascii("{"), 0);
    ListSome(v);
    FieldsRead(text, p + 1, v, 0);
    FieldStart(text, p + 1, v, 0);
    OpenRecord(text, p);
    Keywords(text, p);
    Branches(text, p);
  }

  /** Behind the name of a member, where no colon stands. */
  lemma NoColon(text: seq<Byte>, p: nat, before: seq<Byte>, n: Name, middle: seq<Byte>)
    requires White(before) && WellNamed(n) && White(middle) && Here(text, p, before + (NameText(n) + middle))
    requires var c := At(text, p + |before + (NameText(n) + middle)|);
             c != ':' as int && (c == 0 || c > ' ' as int) && (middle != [] || EndsWord(c))
    ensures p <= |text| && MemberAt(text, p) == Failed(p + |before + (NameText(n) + middle)|)
  {
    hide Here, Skip, White, NameText, NameBytes, StringAt, ValueAt, WellNamed;
    HereSplit(text, p, before, NameText(n) + middle);
    var q := p + |before|;
    HereSplit(text, q, NameText(n), middle);
    var m := q + |NameText(n)|;
    NameFirst(n);
    HereAt(text, q, NameText(n), 0);
    WhiteSkipped(text, p, before);
    WhiteSkipped(text, m, middle);
    WhiteNoWord(text, m, middle);
    NameRead(text, q, n);
  }

  lemma WhiteNoWord(text: seq<Byte>, m: nat, w: seq<Byte>)
    requires White(w) && Here(text, m, w)
    ensures w != [] ==> EndsWord(At(text, m))
  {
    if w != [] { HereAt(text, m, w, 0); }
  }

  // ----- documents -----

  /** A value with white space around it. */
  lemma DocumentRead(before: seq<Byte>, v: Value, after: seq<Byte>, whole: bool)
    requires White(before) && WellFormedValue(v) && White(after)
    ensures var text := before + (ValueText(v) + after);
            Document(text, whole) == Parsed(MeaningOf(v), if whole then |text| else |before + ValueText(v)|)
  {
    hide ValueAt, Skip, Here, WellFormedValue, ValueText, MeaningOf, White, EndsValue;
    var text := before + (ValueText(v) + after);
    Whole(text);
    HereSplit(text, 0, before, ValueText(v) + after);
    HereSplit(text, |before|, ValueText(v), after);
    FirstOf(v);
    HereAt(text, |before|, ValueText(v), 0);
    WhiteSkipped(text, 0, before);
    var e := |before| + |ValueText(v)|;
    WhiteSkipped(text, e, after);
    WhiteEnds(text, e, after, v);
    ValueRead(text, |before|, v);
  }

  /** Text behind the value is refused where the whole text is asked for. */
  lemma TrailingText(before: seq<Byte>, v: Value, after: seq<Byte>, more: seq<Byte>)
    requires White(before) && WellFormedValue(v) && White(after) && more != [] && more[0] > ' ' as int
    requires after != [] || EndsValue(v, more[0])
    ensures Document(before + (ValueText(v) + (after + more)), true) == Failed(|before + ValueText(v) + after|)
  {
    hide ValueAt, Skip, Here, WellFormedValue, ValueText, MeaningOf, White, EndsValue, Document, Stops;
    var text := before + (ValueText(v) + (after + more));
    var p := |before|;
    var e := p + |ValueText(v)|;
    Whole(text);
    HereSplit(text, 0, before, ValueText(v) + (after + more));
    HereSplit(text, p, ValueText(v), after + more);
    HereSplit(text, e, after, more);
    FirstOf(v);
    HereAt(text, p, ValueText(v), 0);
    HereAt(text, e + |after|, more, 0);
    WhiteSkipped(text, 0, before);
    CommaOr(v, after, more[0]);
    AfterValue(text, e, after, v);
    ValueRead(text, p, v);
    DocumentStep(text);
  }

  lemma CommaOr(v: Value, after: seq<Byte>, c: Byte)
    requires c > ' ' as int && (after != [] || EndsValue(v, c))
    ensures c == Comma || Stops(v, after, c)
  {
    hide EndsValue;
  }

  lemma DocumentStep(text: seq<Byte>)
    ensures var r := ValueAt(text, Skip(text, 0));
            r.Parsed? && At(text, Skip(text, r.next)) != 0 ==> Document(text, true) == Failed(Skip(text, r.next))
  {
    hide ValueAt, Skip;
  }

  lemma Whole(text: seq<Byte>)
    ensures Here(text, 0, text)
  {
    assert text[0..|text|] == text;
  }

  lemma WhiteEnds(text: seq<Byte>, e: nat, w: seq<Byte>, v: Value)
    requires White(w) && Here(text, e, w) && e + |w| == |text|
    ensures EndsValue(v, At(text, e))
  {
    if w != [] { HereAt(text, e, w, 0); }
  }
}
