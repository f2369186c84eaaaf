/** Parsing a printed tree gives the tree back. */
module JsonRoundTrip {
  import opened Octets
  import opened Text
  import opened Json
  import opened JsonGrammar
  import opened JsonPrinter
  import opened JsonParser

  // ----- how the printer writes values -----

  function WrittenLetter(c: Byte): Letter {
    if ShortEscape(c) != 0 then Short(ShortEscape(c))
    else if c < 32 then Escaped(Code([Zero, Zero, HexDigit(c / 16), HexDigit(c % 16)], [0, 0, c / 16, c % 16]))
    else Plain(c)
  }

  function WrittenLetters(s: seq<Byte>): seq<Letter> {
    seq(|s|, k requires 0 <= k < |s| => WrittenLetter(s[k]))
  }

  function DigitOf(c: Byte): nat
    requires IsDigit(c)
  {
    c - Zero
  }

  function DigitValues(t: seq<Byte>): seq<nat>
    requires forall k :: 0 <= k < |t| ==> IsDigit(t[k])
  {
    seq(|t|, k requires 0 <= k < |t| => DigitOf(t[k]))
  }

  function WrittenNumber(n: int): Numeral {
    var m := if n < 0 then -n else n;
    if n == 0 then Numeral(false, true, [], [])
    else
      NaturalDigits(m);
      Numeral(n < 0, false, Natural(m), DigitValues(Natural(m)))
  }

  function Written(v: Json, depth: nat, fmt: bool): Value {
    match v
    case Number(n) => Digits(WrittenNumber(n))
    case String(s) => Literal(WrittenLetters(s))
    case Array(items) =>
      if items == [] then EmptyList([])
      else
        List(seq(|items|, k requires 0 <= k < |items| =>
          Item(if k > 0 && fmt then [Space] else [], Written(items[k], depth + 1, fmt), [])))
    case Object(members) =>
      if members == [] then EmptyRecord(if fmt then [LineFeed] + Tabs(depth - 1) else [])
      else
        Record(seq(|members|, k requires 0 <= k < |members| =>
          Field(NewLine(depth + 1, fmt), QuotedName(WrittenLetters(members[k].name)), [], if fmt then [Tab] else [],
                Written(members[k].value, depth + 1, fmt),
                if k + 1 < |members| then [] else NewLine(depth, fmt))))
    case _ => Keyword(v)
  }

  function NewLine(depth: nat, fmt: bool): seq<Byte> {
    if fmt then [LineFeed] + Tabs(depth) else []
  }

  // ----- strings -----

  lemma HexSpelled(d: nat)
    requires d < 16
    ensures Spells(HexDigit(d), d) && HexDigit(d) == "0123456789abcdef"[d] as int
  {}

  /** The characters that have an escape of their own. */
  lemma ShortEscapes(c: Byte)
    ensures ShortEscape(c) != 0 <==> c in {'"' as int, '\\' as int, 8, 9, 10, 12, 13}
  {}

  lemma LetterPrinted(c: Byte)
    requires c != 0
    ensures var l := WrittenLetter(c);
            WellLetter(l) && !LoneHigh(l) && LetterText(l) == Escape(c) && LetterBytes(l) == [c]
  {
    hide Spells, HexDigit;
    if ShortEscape(c) == 0 && c < 32 {
      HexSpelled(0);
      HexSpelled(c / 16);
      HexSpelled(c % 16);
      assert HexDigit(0) == Zero by { ZeroDigit(); }
    }
  }

  lemma ZeroDigit()
    ensures HexDigit(0) == Zero
  {}

  lemma {:induction false} LettersPrinted(s: seq<Byte>)
    requires NulFree(s)
    ensures var ls := WrittenLetters(s);
            Lettered(ls) && LettersText(ls) == EscapeAll(s) && LettersBytes(ls) == s
    decreases |s|
  {
    hide WrittenLetter, WellLetter, LoneHigh, LetterText, LetterBytes, Escape;
    forall k | 0 <= k < |s|
      ensures WellLetter(WrittenLetter(s[k])) && !LoneHigh(WrittenLetter(s[k]))
    {
      LetterPrinted(s[k]);
    }
    if s != [] {
      LetterPrinted(s[0]);
      LettersPrinted(s[1..]);
      assert WrittenLetters(s)[1..] == WrittenLetters(s[1..]);
      assert [s[0]] + s[1..] == s;
    }
  }

  lemma StringPrinted(s: seq<Byte>)
    requires NulFree(s)
    ensures var ls := WrittenLetters(s);
            Lettered(ls) && StringText(ls) == Quoted(s) && LettersBytes(ls) == s
  {
    hide LettersText, LettersBytes, EscapeAll, Lettered, WrittenLetters;
    LettersPrinted(s);
  }

  // ----- numbers -----

  lemma {:induction false} NaturalDigits(m: nat)
    ensures forall k :: 0 <= k < |Natural(m)| ==> IsDigit(Natural(m)[k])
    ensures m > 0 ==> Natural(m)[0] != Zero
  {
    if m >= 10 { NaturalDigits(m / 10); }
  }

  lemma {:induction false} NaturalTens(m: nat)
    requires forall k :: 0 <= k < |Natural(m)| ==> IsDigit(Natural(m)[k])
    ensures Tens(DigitValues(Natural(m))) == m
  {
    var t := DigitValues(Natural(m));
    if m < 10 {
      assert t[..0] == [];
    } else {
      NaturalDigits(m / 10);
      NaturalTens(m / 10);
      assert t[..|t| - 1] == DigitValues(Natural(m / 10));
    }
  }

  lemma DigitSpelled(c: Byte)
    requires IsDigit(c)
    ensures Spells(c, c - Zero)
  {}

  lemma NumberPrinted(n: int)
    requires Int32(n)
    ensures var m := WrittenNumber(n); WellSpelt(m) && NumeralText(m) == Decimal(n) && NumeralValue(m) == n
  {
    hide Natural, Tens, Spells;
    var m := if n < 0 then -n else n;
    if n == 0 {
      assert Decimal(0) == [Zero] by { ZeroText(); }
      assert Tens([]) == 0 by { NoTens(); }
    } else {
      NaturalDigits(m);
      NaturalTens(m);
      forall k | 0 <= k < |Natural(m)| ensures Spells(Natural(m)[k], Natural(m)[k] - Zero) {
        DigitSpelled(Natural(m)[k]);
      }
    }
  }

  lemma ZeroText()
    ensures Decimal(0) == [Zero]
  {}

  lemma NoTens()
    ensures Tens([]) == 0
  {}

  // ----- trees -----

  lemma {:induction false} TabsWhite(n: int)
    ensures White(Tabs(n))
    decreases n
  {
    if n > 0 { TabsWhite(n - 1); }
  }

  /** In the formatted text a line feed and one tab for every level. */
  lemma NewLineText(depth: nat)
    ensures |NewLine(depth, true)| == 1 + depth && NewLine(depth, true)[0] == '\n' as int
    ensures forall k :: 1 <= k <= depth ==> NewLine(depth, true)[k] == '\t' as int
  {
    TabsText(depth);
  }

  lemma {:induction false} TabsText(n: nat)
    ensures |Tabs(n)| == n && forall k :: 0 <= k < n ==> Tabs(n)[k] == '\t' as int
  {
    if n > 0 { TabsText(n - 1); }
  }

  lemma NewLineWhite(depth: nat, fmt: bool)
    ensures White(NewLine(depth, fmt)) && White(if fmt then [LineFeed] + Tabs(depth - 1) else [])
  {
    TabsWhite(depth);
    TabsWhite(depth - 1);
  }

  /** A printable tree is printed as a well-formed value with its meaning. */
  lemma {:induction false} PrintedValue(v: Json, depth: nat, fmt: bool)
    requires Printable(v)
    ensures var w := Written(v, depth, fmt);
            WellFormedValue(w) && ValueText(w) == Print(v, depth, fmt) && MeaningOf(w) == v
    decreases v, 1, 0
  {
    match v
    case Number(n) => NumberPrinted(n);
    case String(s) => StringPrinted(s);
    case Array(items) => ArrayPrinted(v, depth, fmt);
    case Object(members) => ObjectPrinted(v, depth, fmt);
    case _ => KeywordPrinted(v, depth, fmt);
  }

  lemma KeywordPrinted(v: Json, depth: nat, fmt: bool)
    requires v in {Null, False, True}
    ensures ValueText(Keyword(v)) == Print(v, depth, fmt)
  {
    Keywords([], 0);
  }

  lemma {:induction false} ArrayPrinted(v: Json, depth: nat, fmt: bool)
    requires v.Array? && Printable(v)
    ensures var w := Written(v, depth, fmt);
            WellFormedValue(w) && ValueText(w) == Print(v, depth, fmt) && MeaningOf(w) == v
    decreases v, 0, |v.items| + 1
  {
    hide ItemsText, PrintItems, Print;
    var w := Written(v, depth, fmt);
    Brackets();
    ArrayText(v, depth, fmt);
    if v.items == [] {
      assert v == Array([]);
    } else {
      forall k | 0 <= k < |v.items|
        ensures WellFormedValue(w.items[k].value) && MeaningOf(w.items[k].value) == v.items[k]
      {
        PrintedValue(v.items[k], depth + 1, fmt);
      }
      PrintedItems(v, w, 0, depth, fmt);
      assert MeaningOf(w).items == v.items;
    }
  }

  lemma ArrayText(v: Json, depth: nat, fmt: bool)
    requires v.Array?
    ensures Print(v, depth, fmt) == [OpenBracket] + PrintItems(v, 0, depth + 1, fmt) + [CloseBracket]
    ensures v.items == [] ==> Print(v, depth, fmt) == [OpenBracket] + [] + [CloseBracket]
  {}

  /** The items from the k-th on; the blank behind a comma goes with the next item. */
  lemma {:induction false} PrintedItems(v: Json, w: Value, k: nat, depth: nat, fmt: bool)
    requires v.Array? && Printable(v) && v.items != [] && w == Written(v, depth, fmt) && k < |v.items|
    ensures ItemsText(w, k) == (if k > 0 && fmt then [Space] else []) + PrintItems(v, k, depth + 1, fmt)
    decreases v, 0, |v.items| - k
  {
    hide Print, ValueText, Written, Printable, ItemsText, PrintItems;
    ItemPrintable(v, k);
    PrintedValue(v.items[k], depth + 1, fmt);
    ItemWritten(v, w, k, depth, fmt);
    ItemsTextStep(w, k);
    ItemsStep(v, k, depth + 1, fmt);
    if k + 1 < |v.items| {
      PrintedItems(v, w, k + 1, depth, fmt);
    } else {
      LastItem(v, depth + 1, fmt);
    }
  }

  lemma ItemPrintable(v: Json, k: nat)
    requires v.Array? && Printable(v) && k < |v.items|
    ensures Printable(v.items[k])
  {}

  lemma ItemWritten(v: Json, w: Value, k: nat, depth: nat, fmt: bool)
    requires v.Array? && v.items != [] && w == Written(v, depth, fmt) && k < |v.items|
    ensures w.List? && |w.items| == |v.items|
    ensures w.items[k] == Item(if k > 0 && fmt then [Space] else [], Written(v.items[k], depth + 1, fmt), [])
  {}

  lemma ItemsTextStep(w: Value, k: nat)
    requires w.List? && k < |w.items|
    ensures ItemsText(w, k) ==
            w.items[k].before + ValueText(w.items[k].value) + w.items[k].after
            + (if k + 1 < |w.items| then [Comma] + ItemsText(w, k + 1) else [])
  {
    hide ValueText;
    Brackets();
  }

  lemma {:induction false} ObjectPrinted(v: Json, depth: nat, fmt: bool)
    requires v.Object? && Printable(v)
    ensures var w := Written(v, depth, fmt);
            WellFormedValue(w) && ValueText(w) == Print(v, depth, fmt) && MeaningOf(w) == v
    decreases v, 0, |v.members| + 1
  {
    hide FieldsText, PrintMembers, Print, WellField, FieldMeaning, WellFormedValue, MeaningOf, ValueText, Written,
         Printable;
    var w := Written(v, depth, fmt);
    Brackets();
    ObjectText(v, depth, fmt);
    ObjectWritten(v, depth, fmt);
    if v.members == [] {
      NewLineWhite(depth, fmt);
    } else {
      forall k | 0 <= k < |v.members|
        ensures WellField(w.fields[k]) && WellNamed(w.fields[k].name) && WellFormedValue(w.fields[k].value)
        ensures FieldMeaning(w.fields[k]) == v.members[k]
      {
        MemberPrinted(v, w, k, depth, fmt);
      }
      RecordWell(w);
      assert FieldMeanings(w) == v.members;
      PrintedMembers(v, w, 0, depth, fmt);
    }
    EmptyOrNot(v, w);
  }

  lemma ObjectWritten(v: Json, depth: nat, fmt: bool)
    requires v.Object?
    ensures var w := Written(v, depth, fmt);
            if v.members == [] then w == EmptyRecord(if fmt then [LineFeed] + Tabs(depth - 1) else [])
            else w.Record? && |w.fields| == |v.members|
  {}

  /** The text of an object from that of its fields. */
  lemma EmptyOrNot(v: Json, w: Value)
    requires v.Object?
    ensures w.EmptyRecord? ==> ValueText(w) == Ascii("{") + w.gap + Ascii("}")
    ensures w.EmptyRecord? && White(w.gap) ==> WellFormedValue(w) && MeaningOf(w) == Object([])
    ensures w.Record? ==> ValueText(w) == Ascii("{") + FieldsText(w, 0) + Ascii("}")
    ensures v.members == [] ==> v == Object([])
  {
    hide FieldsText;
  }

  lemma {:induction false} MemberPrinted(v: Json, w: Value, k: nat, depth: nat, fmt: bool)
    requires v.Object? && Printable(v) && v.members != [] && w == Written(v, depth, fmt) && k < |v.members|
    ensures w.Record? && |w.fields| == |v.members|
    ensures WellField(w.fields[k]) && WellNamed(w.fields[k].name) && WellFormedValue(w.fields[k].value)
    ensures FieldMeaning(w.fields[k]) == v.members[k]
    decreases v, 0, 0
  {
    hide Print, ValueText, Written, Printable, NewLine, WrittenLetters, LettersBytes, Lettered, White, MeaningOf,
         WellFormedValue;
    MemberPrintable(v, k);
    FieldWritten(v, w, k, depth, fmt);
    StringPrinted(v.members[k].name);
    NewLineWhite(depth, fmt);
    NewLineWhite(depth + 1, fmt);
    SmallGaps();
    PrintedValue(v.members[k].value, depth + 1, fmt);
  }

  lemma RecordWell(w: Value)
    requires w.Record? && w.fields != [] && forall k :: 0 <= k < |w.fields| ==> WellField(w.fields[k])
    ensures WellFormedValue(w) && MeaningOf(w) == Object(FieldMeanings(w))
  {
    hide White, WellNamed;
    RecordOf(w);
  }

  lemma RecordOf(w: Value)
    requires w.Record? && WellFormedValue(w)
    ensures MeaningOf(w) == Object(FieldMeanings(w))
  {
    RecordMeaning(w);
  }

  lemma SmallGaps()
    ensures White([]) && White([Tab]) && White([Space])
  {}

  lemma ObjectText(v: Json, depth: nat, fmt: bool)
    requires v.Object?
    ensures v.members == [] ==>
              Print(v, depth, fmt) == [OpenBrace] + (if fmt then [LineFeed] + Tabs(depth - 1) else []) + [CloseBrace]
    ensures v.members != [] ==>
              Print(v, depth, fmt) ==
              [OpenBrace] + ((if fmt then [LineFeed] else []) + PrintMembers(v, 0, depth + 1, fmt)
                             + (if fmt then Tabs(depth) else [])) + [CloseBrace]
  {
    hide PrintMembers, Tabs;
  }

  /** The members from the k-th on; the line break behind a comma goes with the next member, and the
      one behind the last with the closing brace. */
  lemma {:induction false} PrintedMembers(v: Json, w: Value, k: nat, depth: nat, fmt: bool)
    requires v.Object? && Printable(v) && v.members != [] && w == Written(v, depth, fmt) && k < |v.members|
    ensures w.Record? && |w.fields| == |v.members|
    ensures FieldsText(w, k) ==
            (if fmt then [LineFeed] else []) + PrintMembers(v, k, depth + 1, fmt) + (if fmt then Tabs(depth) else [])
    decreases v, 0, |v.members| - k
  {
    hide Print, ValueText, Written, Printable, FieldsText, PrintMembers, FieldText, MemberStart, Tabs;
    MemberPrintable(v, k);
    PrintedValue(v.members[k].value, depth + 1, fmt);
    FieldWritten(v, w, k, depth, fmt);
    FieldPrinted(w.fields[k], v.members[k], depth + 1, fmt);
    FieldsTextStep(w, k);
    MembersStep(v, k, depth + 1, fmt);
    var line, tabs := if fmt then [LineFeed] else [], if fmt then Tabs(depth) else [];
    var start, value := MemberStart(v.members[k].name, depth + 1, fmt), Print(v.members[k].value, depth + 1, fmt);
    Rejoined(line, start + value, PrintMembers(v, k + 1, depth + 1, fmt), tabs);
    if k + 1 < |v.members| {
      PrintedMembers(v, w, k + 1, depth, fmt);
    } else {
      LastMember(v, depth + 1, fmt);
    }
  }

  lemma Rejoined(line: seq<Byte>, a: seq<Byte>, rest: seq<Byte>, tabs: seq<Byte>)
    ensures (line + a) + [] + ([Comma] + (line + rest + tabs)) == line + (a + ([Comma] + line) + rest) + tabs
    ensures (line + a) + (line + tabs) + [] == line + (a + ([] + line) + []) + tabs
    ensures (line + a) + [] + [] == line + (a + ([] + []) + []) + []
  {}

  lemma MemberPrintable(v: Json, k: nat)
    requires v.Object? && Printable(v) && k < |v.members|
    ensures NulFree(v.members[k].name) && Printable(v.members[k].value)
  {}

  lemma FieldWritten(v: Json, w: Value, k: nat, depth: nat, fmt: bool)
    requires v.Object? && v.members != [] && w == Written(v, depth, fmt) && k < |v.members|
    ensures w.Record? && |w.fields| == |v.members|
    ensures w.fields[k] ==
            Field(NewLine(depth + 1, fmt), QuotedName(WrittenLetters(v.members[k].name)), [], if fmt then [Tab] else [],
                  Written(v.members[k].value, depth + 1, fmt),
                  if k + 1 < |v.members| then [] else NewLine(depth, fmt))
  {
    hide WrittenLetters, NewLine;
  }

  lemma FieldPrinted(f: Field, m: Member, depth: nat, fmt: bool)
    requires NulFree(m.name) && f.name == QuotedName(WrittenLetters(m.name)) && f.before == NewLine(depth, fmt)
    requires f.middle == [] && f.gap == (if fmt then [Tab] else []) && ValueText(f.value) == Print(m.value, depth, fmt)
    ensures FieldText(f) ==
            (if fmt then [LineFeed] else []) + (MemberStart(m.name, depth, fmt) + Print(m.value, depth, fmt))
  {
    hide ValueText, Print, StringText, Quoted, Tabs;
    Brackets();
    StringPrinted(m.name);
  }

  lemma FieldsTextStep(w: Value, k: nat)
    requires w.Record? && k < |w.fields|
    ensures FieldsText(w, k) ==
            FieldText(w.fields[k]) + w.fields[k].after
            + (if k + 1 < |w.fields| then [Comma] + FieldsText(w, k + 1) else [])
  {
    hide FieldText;
    Brackets();
  }

  // ----- the printer and the parser -----

  /** cJSON_Parse on what cJSON_Print and cJSON_PrintUnformatted write, alone or with the check for
      trailing text. */
  lemma RoundTrip(v: Json, depth: nat, fmt: bool, whole: bool)
    requires Printable(v)
    ensures Document(Print(v, depth, fmt), whole) == Parsed(v, |Print(v, depth, fmt)|)
  {
    hide Print, Document, ValueText, WellFormedValue, MeaningOf, Written, Printable;
    PrintedValue(v, depth, fmt);
    assert White([]) by { SmallGaps(); }
    assert [] + (Print(v, depth, fmt) + []) == Print(v, depth, fmt) == [] + Print(v, depth, fmt);
    DocumentRead([], Written(v, depth, fmt), [], whole);
  }

  /** So different trees never print alike. */
  lemma PrintInjective(v: Json, w: Json, depth: nat, depth': nat, fmt: bool, fmt': bool)
    requires Printable(v) && Printable(w) && Print(v, depth, fmt) == Print(w, depth', fmt')
    ensures v == w
  {
    RoundTrip(v, depth, fmt, true);
    RoundTrip(w, depth', fmt', true);
  }

  /** The printer and the parser together. */
  method PrintAndParse(v: Json, fmt: bool, whole: bool) returns (r: Parse<Json>)
    requires Printable(v) && !(v == Object([]) && fmt)
    ensures r.Parsed? && r.value == v
  {
    hide Print, Document, Allocated;
    var out := PrintValue(v, 0, fmt);
    PrintNulFree(v, 0, fmt);
    var n := StrLen(out, Print(v, 0, fmt));
    r := ParseDocument(out[..n], whole);
    RoundTrip(v, 0, fmt, whole);
  }
}
