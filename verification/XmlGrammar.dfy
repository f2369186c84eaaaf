/** The texts of elements and other nodes as the parser takes them, with all the white space and both
    kinds of quotes that it allows, and the nodes that they are read as. */
module XmlGrammar {
  import opened Octets
  import opened Text
  import opened CodePoints
  import opened XmlText
  import opened Xml

  // ----- characters -----

  /** Zero or more of the white space characters of the C locale. */
  predicate Blank(w: seq<Byte>) {
    forall k :: 0 <= k < |w| ==> w[k] in {' ' as int, '\t' as int, '\n' as int, 11, 12, '\r' as int}
  }

  predicate NameFirst(c: Byte) {
    || 'a' as int <= c <= 'z' as int || 'A' as int <= c <= 'Z' as int
    || c == ':' as int || c == '_' as int || c >= 128
  }

  predicate NameNext(c: Byte) {
    NameFirst(c) || '0' as int <= c <= '9' as int || c == '.' as int || c == '-' as int
  }

  predicate LegalName(s: seq<Byte>) {
    |s| > 0 && NameFirst(s[0]) && forall k :: 0 <= k < |s| ==> NameNext(s[k])
  }

  lemma Classes(c: Byte)
    ensures IsSpace(c) <==> Blank([c])
    ensures IsNameStart(c) <==> NameFirst(c)
    ensures IsNameChar(c) <==> NameNext(c)
  {
    if IsSpace(c) { assert forall k :: 0 <= k < |[c]| ==> [c][k] == c; } else { assert [c][0] == c; }
  }

  lemma {:induction false} SpacesRead(text: seq<Byte>, p: nat, w: seq<Byte>)
    requires Blank(w) && Here(text, p, w) && !IsSpace(At(text, p + |w|))
    ensures p + |w| <= |text| && SkipSpaces(text, p) == p + |w|
    decreases |w|
  {
    HereInside(text, p, w);
    if w != [] {
      HereAt(text, p, w, 0);
      HereRest(text, p, w);
      SpacesRead(text, p + 1, w[1..]);
    }
  }

  lemma {:induction false} SpacesAre(text: seq<Byte>, p: nat)
    requires p <= |text|
    ensures Blank(text[p..SkipSpaces(text, p)])
    decreases |text| - p
  {
    if IsSpace(At(text, p)) {
      SpacesAre(text, p + 1);
      var r := SkipSpaces(text, p);
      assert text[p..r] == [text[p]] + text[p + 1..r];
    }
  }

  lemma HereInside(text: seq<Byte>, p: nat, piece: seq<Byte>)
    requires Here(text, p, piece)
    ensures p + |piece| <= |text| && text[p..p + |piece|] == piece
  {}

  lemma HereRest(text: seq<Byte>, p: nat, piece: seq<Byte>)
    requires Here(text, p, piece) && piece != []
    ensures Here(text, p + 1, piece[1..])
  {
    assert piece == [piece[0]] + piece[1..];
    HereSplit(text, p, [piece[0]], piece[1..]);
  }

  lemma NoSpaces(text: seq<Byte>, p: nat)
    requires p <= |text| && !IsSpace(At(text, p))
    ensures SkipSpaces(text, p) == p
  {}

  lemma {:induction false} NameRestBack(text: seq<Byte>, p: nat, name: seq<Byte>, i: nat)
    requires LegalName(name) && Here(text, p, name) && !IsNameChar(At(text, p + |name|)) && i <= |name|
    ensures NameRest(text, p + i) == p + |name|
    decreases |name| - i
  {
    HereInside(text, p, name);
    if i < |name| {
      HereAt(text, p, name, i);
      Classes(name[i]);
      NameRestBack(text, p, name, i + 1);
    }
  }

  lemma NameBack(text: seq<Byte>, p: nat, name: seq<Byte>)
    requires LegalName(name) && Here(text, p, name) && !IsNameChar(At(text, p + |name|))
    ensures NameEnd(text, p) == p + |name| && IsNameStart(At(text, p)) && text[p..p + |name|] == name
  {
    HereAt(text, p, name, 0);
    Classes(name[0]);
    NameRestBack(text, p, name, 1);
  }

  lemma {:induction false} NameRestIs(text: seq<Byte>, p: nat)
    requires p <= |text|
    ensures forall k :: p <= k < NameRest(text, p) ==> NameNext(text[k])
    ensures !IsNameChar(At(text, NameRest(text, p)))
    decreases |text| - p
  {
    Classes(At(text, p));
    if IsNameChar(At(text, p)) { NameRestIs(text, p + 1); }
  }

  lemma NameIs(text: seq<Byte>, p: nat)
    requires p <= |text| && NameEnd(text, p) > p
    ensures LegalName(text[p..NameEnd(text, p)])
  {
    Classes(At(text, p));
    NameRestIs(text, p + 1);
  }

  lemma NameStartIsNone(c: Byte)
    requires IsNameStart(c)
    ensures c != 0 && c != Slash && c != Greater && c != Equal && !IsSpace(c)
  {}

  // ----- end tags -----

  predicate Contains(v: seq<Byte>, tag: seq<Byte>) {
    exists k :: 0 <= k <= |v| && Here(v, k, tag)
  }

  /** The last character of an end tag occurs nowhere else in it. */
  predicate Pointed(tag: seq<Byte>) {
    |tag| > 0 && forall j :: 0 <= j < |tag| - 1 ==> tag[j] != tag[|tag| - 1]
  }

  lemma Inside(text: seq<Byte>, p: nat, v: seq<Byte>, tag: seq<Byte>, i: nat)
    requires Here(text, p, v) && i + |tag| <= |v|
    ensures Here(text, p + i, tag) == Here(v, i, tag)
  {
    forall k | i <= k < i + |tag| ensures v[k] == text[p + k] { HereAt(text, p, v, k); }
    assert v[i..i + |tag|] == text[p + i..p + i + |tag|];
  }

  lemma NotBefore(text: seq<Byte>, p: nat, v: seq<Byte>, tag: seq<Byte>, i: nat)
    requires Here(text, p, v) && Here(text, p + |v|, tag) && Pointed(tag) && !Contains(v, tag) && i < |v|
    ensures !Here(text, p + i, tag)
  {
    var m := |tag|;
    if i + m <= |v| {
      Inside(text, p, v, tag, i);
    } else if Here(text, p + i, tag) {
      HereAt(text, p + i, tag, m - 1);
      HereAt(text, p + |v|, tag, i + m - 1 - |v|);
    }
  }

  lemma {:induction false} FindBack(text: seq<Byte>, p: nat, v: seq<Byte>, tag: seq<Byte>, i: nat)
    requires Here(text, p, v) && Here(text, p + |v|, tag) && Pointed(tag) && !Contains(v, tag) && NulFree(v) && i <= |v|
    requires tag[0] != 0
    ensures p + i <= |text| && Find(text, p + i, tag) == p + |v|
    decreases |v| - i
  {
    hide Here, At, Contains, Pointed;
    HereInside(text, p, v);
    if i < |v| {
      HereAt(text, p, v, i);
      NotBefore(text, p, v, tag, i);
      FindBack(text, p, v, tag, i + 1);
    } else {
      assert |tag| > 0 by { PointedSome(tag); }
      HereAt(text, p + |v|, tag, 0);
    }
  }

  lemma PointedSome(tag: seq<Byte>)
    requires Pointed(tag)
    ensures |tag| > 0
  {}

  lemma SingleAbsent(v: seq<Byte>, c: Byte)
    requires c !in v
    ensures !Contains(v, [c])
  {
    if k :| 0 <= k <= |v| && Here(v, k, [c]) { HereAt(v, k, [c], 0); }
  }

  /** The place found is the first, and no terminator stands in front of it. */
  lemma {:induction false} FoundFirst(text: seq<Byte>, p: nat, tag: seq<Byte>)
    requires p <= |text| && |tag| > 0 && Find(text, p, tag) >= 0
    ensures var r := Find(text, p, tag);
            && Here(text, r, tag)
            && forall k :: p <= k < r ==> text[k] != 0 && !Here(text, k, tag)
    decreases |text| - p
  {
    if !Here(text, p, tag) { FoundFirst(text, p + 1, tag); }
  }

  // ----- attributes -----

  /** An attribute as it may be written. */
  datatype Spelling = Spelling(name: seq<Byte>, before: seq<Byte>, after: seq<Byte>, quote: Byte, value: seq<Byte>)

  predicate WellSpelled(a: Spelling) {
    && LegalName(a.name) && Blank(a.before) && Blank(a.after) && a.quote in {'"' as int, '\'' as int}
    && NulFree(a.value) && a.quote !in a.value
  }

  function Spelled(a: Spelling): seq<Byte> {
    a.name + (a.before + Assignment(a))
  }

  function Assignment(a: Spelling): seq<Byte> {
    ['=' as int] + (a.after + Quoted(a))
  }

  function Quoted(a: Spelling): seq<Byte> {
    [a.quote] + (a.value + [a.quote])
  }

  /** It is read as its name and its value, up to the closing quote. */
  lemma AttributeRead(text: seq<Byte>, p: nat, a: Spelling)
    requires WellSpelled(a) && Here(text, p, Spelled(a))
    ensures p + |Spelled(a)| <= |text| && IsNameStart(At(text, p))
    ensures AttributeAt(text, p) == Read(Attribute(a.name, a.value), p + |Spelled(a)|)
  {
    hide Here, At, NameEnd, Find, LegalName, SkipSpaces, IsSpace, Blank, Assignment, Quoted;
    var n := p + |a.name|;
    var e := n + |a.before|;
    var q := e + 1 + |a.after|;
    SpelledParts(text, p, a);
    AssignedParts(text, e, a);
    SpelledLength(a);
    Marks(a.quote);
    NameBack(text, p, a.name);
    SpacesRead(text, n, a.before);
    SpacesRead(text, e + 1, a.after);
    SingleAbsent(a.value, a.quote);
    FindBack(text, q + 1, a.value, [a.quote], 0);
    HereInside(text, q + 1, a.value);
    HereInside(text, q + 1 + |a.value|, [a.quote]);
  }

  lemma SpelledLength(a: Spelling)
    ensures |Spelled(a)| == |a.name| + |a.before| + |a.after| + |a.value| + 3
  {}

  /** White space in front of an equals sign does not go on with a name. */
  lemma BlankThen(text: seq<Byte>, n: nat, w: seq<Byte>)
    requires Blank(w) && Here(text, n, w) && At(text, n + |w|) == Equal
    ensures At(text, n) != 0 && !IsNameChar(At(text, n))
  {
    if w != [] { HereAt(text, n, w, 0); }
  }

  lemma Marks(quote: Byte)
    ensures !IsSpace(Less)
    ensures !IsNameChar(Equal) && !IsSpace(Equal)
    ensures quote in {'"' as int, '\'' as int} ==> !IsSpace(quote) && quote in {DoubleQuote, Apostrophe}
  {}

  lemma SpelledParts(text: seq<Byte>, p: nat, a: Spelling)
    requires WellSpelled(a) && Here(text, p, Spelled(a))
    ensures var n := p + |a.name|;
            var e := n + |a.before|;
            && Here(text, p, a.name) && !IsNameChar(At(text, n)) && At(text, n) != 0
            && Here(text, n, a.before) && At(text, e) == Equal && Here(text, e, Assignment(a))
  {
    hide Here, LegalName, Blank, Quoted;
    var n := p + |a.name|;
    HereSplit(text, p, a.name, a.before + Assignment(a));
    HereSplit(text, n, a.before, Assignment(a));
    HereAt(text, n + |a.before|, Assignment(a), 0);
    BlankThen(text, n, a.before);
  }

  lemma AssignedParts(text: seq<Byte>, e: nat, a: Spelling)
    requires Here(text, e, Assignment(a))
    ensures var q := e + 1 + |a.after|;
            && Here(text, e + 1, a.after) && At(text, q) == a.quote
            && Here(text, q + 1, a.value) && Here(text, q + 1 + |a.value|, [a.quote])
  {
    hide Here;
    var q := e + 1 + |a.after|;
    HereSplit(text, e, [Equal], a.after + Quoted(a));
    HereSplit(text, e + 1, a.after, Quoted(a));
    HereAt(text, q, Quoted(a), 0);
    HereSplit(text, q, [a.quote], a.value + [a.quote]);
    HereSplit(text, q + 1, a.value, [a.quote]);
  }

  /** Nothing else is taken for an attribute. */
  lemma AttributeIff(text: seq<Byte>, p: nat)
    requires p <= |text|
    ensures AttributeAt(text, p).Read? <==> exists a :: WellSpelled(a) && Here(text, p, Spelled(a))
  {
    hide Here, NameEnd, SkipSpaces, Find, WellSpelled, Spelled;
    if AttributeAt(text, p).Read? { var a := AttributeIs(text, p); }
    if a :| WellSpelled(a) && Here(text, p, Spelled(a)) { AttributeRead(text, p, a); }
  }

  lemma AttributeIs(text: seq<Byte>, p: nat) returns (a: Spelling)
    requires p <= |text| && AttributeAt(text, p).Read?
    ensures WellSpelled(a) && Here(text, p, Spelled(a))
  {
    hide NameEnd, SkipSpaces, Find, LegalName, Blank;
    var n := NameEnd(text, p);
    var e := SkipSpaces(text, n);
    var q := SkipSpaces(text, e + 1);
    var quote := At(text, q);
    var end := Find(text, q + 1, [quote]);
    NameIs(text, p);
    SpacesAre(text, n);
    SpacesAre(text, e + 1);
    FoundFirst(text, q + 1, [quote]);
    a := Spelling(text[p..n], text[n..e], text[e + 1..q], quote, text[q + 1..end]);
    forall k | 0 <= k < |a.value| ensures a.value[k] != 0 && a.value[k] != quote {
      HereFrom1(text, q + 1 + k, quote);
    }
    PartsSpelled(text, p, n, e, q, end);
  }

  lemma PartsSpelled(text: seq<Byte>, p: nat, n: nat, e: nat, q: nat, end: nat)
    requires p <= n <= e < q < end < |text| && text[e] == Equal && text[q] == text[end]
    ensures Here(text, p, Spelled(Spelling(text[p..n], text[n..e], text[e + 1..q], text[q], text[q + 1..end])))
  {
    hide Assignment;
    var a := Spelling(text[p..n], text[n..e], text[e + 1..q], text[q], text[q + 1..end]);
    PartsAssigned(text, e, q, end, a);
    Sliced(text, n, e, end + 1);
    Sliced(text, p, n, end + 1);
    SlicedHere(text, p, end + 1);
  }

  lemma PartsAssigned(text: seq<Byte>, e: nat, q: nat, end: nat, a: Spelling)
    requires e < q < end < |text| && text[e] == Equal && text[q] == text[end]
    requires a.after == text[e + 1..q] && a.quote == text[q] && a.value == text[q + 1..end]
    ensures text[e..end + 1] == Assignment(a)
  {
    hide Quoted;
    PartsQuoted(text, q, end, a);
    One(text, e);
    Sliced(text, e + 1, q, end + 1);
    Sliced(text, e, e + 1, end + 1);
  }

  lemma PartsQuoted(text: seq<Byte>, q: nat, end: nat, a: Spelling)
    requires q < end < |text| && text[q] == text[end] && a.quote == text[q] && a.value == text[q + 1..end]
    ensures text[q..end + 1] == Quoted(a)
  {
    One(text, q);
    One(text, end);
    Sliced(text, q + 1, end, end + 1);
    Sliced(text, q, q + 1, end + 1);
  }

  lemma SlicedHere(text: seq<Byte>, p: nat, end: nat)
    requires p <= end <= |text|
    ensures Here(text, p, text[p..end])
  {}

  lemma One(text: seq<Byte>, k: nat)
    requires k < |text|
    ensures text[k..k + 1] == [text[k]]
  {}

  lemma Sliced(text: seq<Byte>, a: nat, b: nat, c: nat)
    requires a <= b <= c <= |text|
    ensures text[a..c] == text[a..b] + text[b..c]
  {}

  lemma HereFrom1(text: seq<Byte>, k: nat, c: Byte)
    ensures k < |text| && text[k] == c ==> Here(text, k, [c])
  {}

  // ----- nodes -----

  /** An attribute and the white space in front of it. */
  datatype Spaced = Spaced(space: seq<Byte>, attribute: Spelling)

  /** A node as it may be written: with white space in front of its angle bracket and inside its tag.
      Plain text reaches to the next angle bracket. */
  datatype Item =
    | Tagged(lead: seq<Byte>, inner: seq<Byte>, name: seq<Byte>, attributes: seq<Spaced>, gap: seq<Byte>, content: Rest)
    | Valued(lead: seq<Byte>, kind: LeafKind, value: seq<Byte>)
    | Chars(value: seq<Byte>)

  /** The rest of an element: a slash, or children and the closing tag, with its white space. */
  datatype Rest =
    | Sealed
    | Open(children: seq<Item>, lead: seq<Byte>, inner: seq<Byte>, end: seq<Byte>, gap: seq<Byte>)

  function AttributesText(attributes: seq<Spaced>): seq<Byte> {
    if attributes == [] then []
    else attributes[0].space + (Spelled(attributes[0].attribute) + AttributesText(attributes[1..]))
  }

  function ItemText(i: Item): seq<Byte>
    decreases i, 1, 0
  {
    match i
    case Tagged(lead, inner, name, attributes, gap, content) =>
      lead + StartText(i)
      + (gap + if content.Sealed? then Ascii("/>") else Ascii(">") + ChildrenText(content, 0) + ClosingText(content))
    case Valued(lead, kind, value) => lead + (Opening(kind) + value + Ending(kind))
    case Chars(value) => value
  }

  function StartText(i: Item): seq<Byte>
    requires i.Tagged?
  {
    Ascii("<") + i.inner + i.name + AttributesText(i.attributes)
  }

  function ClosingText(c: Rest): seq<Byte>
    requires c.Open?
  {
    c.lead + EndText(c)
  }

  function EndText(c: Rest): seq<Byte>
    requires c.Open?
  {
    Ascii("<") + c.inner + Ascii("/") + c.end + c.gap + Ascii(">")
  }

  /** The children from the k-th on. */
  function ChildrenText(c: Rest, k: nat): seq<Byte>
    requires c.Open? && k <= |c.children|
    decreases c, 0, |c.children| - k
  {
    if k == |c.children| then [] else ItemText(c.children[k]) + ChildrenText(c, k + 1)
  }

  function Opening(k: LeafKind): seq<Byte> {
    match k
    case AsDeclaration => Ascii("<?")
    case AsComment => Ascii("<!--")
    case AsCData => Ascii("<![CDATA[")
    case AsUnknown => Ascii("<!")
  }

  function Ending(k: LeafKind): seq<Byte> {
    match k
    case AsDeclaration => Ascii("?>")
    case AsComment => Ascii("-->")
    case AsCData => Ascii("]]>")
    case AsUnknown => Ascii(">")
  }

  /** The node that is found, its strings as they stand in the text. */
  function NodeOf(i: Item): Node {
    match i
    case Tagged(_, _, name, attributes, _, content) =>
      Element(name, AttributesOf(attributes),
              match content
              case Sealed => []
              case Open(children, _, _, _, _) => seq(|children|, k requires 0 <= k < |children| => NodeOf(children[k])))
    case Valued(_, AsDeclaration, value) => Declaration(value)
    case Valued(_, AsComment, value) => Comment(value)
    case Valued(_, AsUnknown, value) => Unknown(value)
    case Valued(_, _, value) => Characters(value, true)
    case Chars(value) => Characters(value, false)
  }

  function AttributesOf(attributes: seq<Spaced>): seq<Attribute> {
    seq(|attributes|, k requires 0 <= k < |attributes| =>
      Attribute(attributes[k].attribute.name, attributes[k].attribute.value))
  }

  function NodesOf(items: seq<Item>): seq<Node> {
    seq(|items|, k requires 0 <= k < |items| => NodeOf(items[k]))
  }

  /** Every attribute is well spelled and apart from what stands in front of it. */
  predicate Attributive(attributes: seq<Spaced>) {
    forall k :: 0 <= k < |attributes| ==> Blank(attributes[k].space) && WellSpelled(attributes[k].attribute)
  }

  predicate Distinct(attributes: seq<Attribute>) {
    forall i, j :: 0 <= i < j < |attributes| ==> attributes[i].name != attributes[j].name
  }

  predicate WellTagged(i: Item)
    requires i.Tagged?
  {
    && Blank(i.lead) && Blank(i.inner) && LegalName(i.name) && Blank(i.gap)
    && Attributive(i.attributes) && (i.attributes != [] ==> i.attributes[0].space != [])
  }

  predicate WellValued(kind: LeafKind, value: seq<Byte>) {
    && NulFree(value) && !Contains(value, Ending(kind))
    && (kind == AsUnknown ==> !Here(value, 0, Ascii("--")) && !Here(value, 0, Ascii("[CDATA[")))
  }

  /** Text without a tag, not all of it white space. */
  predicate Visible(value: seq<Byte>) {
    NulFree(value) && '<' as int !in value && exists k :: 0 <= k < |value| && !Blank([value[k]])
  }

  /** What follows plain text starts with an angle bracket. */
  predicate Placed(c: Rest)
    requires c.Open?
  {
    forall k :: 0 <= k < |c.children| && c.children[k].Chars? ==>
      if k + 1 < |c.children| then !c.children[k + 1].Chars? && c.children[k + 1].lead == [] else c.lead == []
  }

  predicate WellFormed(i: Item) {
    match i
    case Tagged(_, _, name, attributes, _, content) =>
      && WellTagged(i) && Distinct(AttributesOf(attributes))
      && (content.Open? ==>
            && Closing(content) && Placed(content) && content.end == name
            && forall k :: 0 <= k < |content.children| ==> WellFormed(content.children[k]))
    case Valued(lead, kind, value) => Blank(lead) && WellValued(kind, value)
    case Chars(value) => Visible(value)
  }

  predicate Closing(c: Rest)
    requires c.Open?
  {
    Blank(c.lead) && Blank(c.inner) && LegalName(c.end) && Blank(c.gap)
  }

  // ----- tags -----

  /** The attributes of a tag, read behind those in done. */
  lemma {:induction false} TagRead(text: seq<Byte>, p: nat, done: seq<Attribute>, rest: seq<Spaced>)
    requires Attributive(rest) && Distinct(done + AttributesOf(rest)) && Here(text, p, AttributesText(rest))
    ensures p + |AttributesText(rest)| <= |text|
    ensures TagAt(text, p, done) == TagAt(text, p + |AttributesText(rest)|, done + AttributesOf(rest))
    decreases |rest|
  {
    hide Here, At, AttributeAt, Spelled, SkipSpaces, HasName, WellSpelled, Distinct;
    HereInside(text, p, AttributesText(rest));
    if rest == [] {
      assert done + AttributesOf(rest) == done;
    } else {
      var a := rest[0].attribute;
      var more := AttributesOf(rest[1..]);
      assert AttributesOf(rest) == [Attribute(a.name, a.value)] + more;
      assert done + AttributesOf(rest) == (done + [Attribute(a.name, a.value)]) + more;
      NewName(done, Attribute(a.name, a.value), more);
      var q := OneRead(text, p, rest);
      TagStep(text, p, done, q, a);
      TagRead(text, q + |Spelled(a)|, done + [Attribute(a.name, a.value)], rest[1..]);
    }
  }

  /** The first of the attributes. */
  lemma OneRead(text: seq<Byte>, p: nat, rest: seq<Spaced>) returns (q: nat)
    requires Attributive(rest) && rest != [] && Here(text, p, AttributesText(rest))
    ensures var a := rest[0].attribute;
            && q == p + |rest[0].space| && q + |Spelled(a)| <= |text| && SkipSpaces(text, p) == q
            && IsNameStart(At(text, q))
            && AttributeAt(text, q) == Read(Attribute(a.name, a.value), q + |Spelled(a)|)
            && Here(text, q + |Spelled(a)|, AttributesText(rest[1..]))
            && |AttributesText(rest)| == |rest[0].space| + |Spelled(a)| + |AttributesText(rest[1..])|
  {
    hide Here, At, AttributeAt, Spelled, SkipSpaces, WellSpelled;
    var a, more := rest[0].attribute, AttributesText(rest[1..]);
    HereSplit(text, p, rest[0].space, Spelled(a) + more);
    q := p + |rest[0].space|;
    HereSplit(text, q, Spelled(a), more);
    AttributeRead(text, q, a);
    NameStartIsNone(At(text, q));
    SpacesRead(text, p, rest[0].space);
  }

  /** A further attribute with a new name. */
  lemma TagStep(text: seq<Byte>, p: nat, done: seq<Attribute>, q: nat, a: Spelling)
    requires p <= |text| && SkipSpaces(text, p) == q && IsNameStart(At(text, q)) && !HasName(done, a.name)
    requires AttributeAt(text, q).Read? && AttributeAt(text, q).attribute == Attribute(a.name, a.value)
    ensures TagAt(text, p, done) == TagAt(text, AttributeAt(text, q).next, done + [Attribute(a.name, a.value)])
  {
    hide AttributeAt, SkipSpaces, HasName;
    NameStartIsNone(At(text, q));
  }

  lemma NewName(done: seq<Attribute>, a: Attribute, more: seq<Attribute>)
    requires Distinct((done + [a]) + more)
    ensures !HasName(done, a.name)
  {
    var all := (done + [a]) + more;
    assert all[|done|] == a && forall k :: 0 <= k < |done| ==> all[k] == done[k];
  }

  /** A name that was there before is refused. */
  lemma RepeatedName(text: seq<Byte>, p: nat, done: seq<Attribute>, rest: seq<Spaced>)
    requires Attributive(rest) && rest != [] && Here(text, p, AttributesText(rest))
    requires exists k :: 0 <= k < |done| && done[k].name == rest[0].attribute.name
    ensures p <= |text| && TagAt(text, p, done) == BadTag(ParsingAttribute)
  {
    hide Here, At, AttributeAt, Spelled, SkipSpaces, WellSpelled;
    var q := OneRead(text, p, rest);
    NameStartIsNone(At(text, q));
  }

  /** What starts like a name but is no attribute is refused. */
  lemma BadAttribute(text: seq<Byte>, p: nat, done: seq<Attribute>)
    requires p <= |text| && NameFirst(At(text, p)) && !exists a :: WellSpelled(a) && Here(text, p, Spelled(a))
    ensures TagAt(text, p, done) == BadTag(ParsingAttribute)
  {
    hide Here, AttributeAt, WellSpelled, Spelled;
    AttributeIff(text, p);
    Classes(At(text, p));
    NameStartIsNone(At(text, p));
    NoSpaces(text, p);
  }

  /** The end of a tag. */
  lemma TagEnd(text: seq<Byte>, p: nat, attributes: seq<Attribute>, gap: seq<Byte>)
    requires Blank(gap) && Here(text, p, gap)
    ensures p <= |text|
    ensures At(text, p + |gap|) == Greater ==>
              p + |gap| < |text| && TagAt(text, p, attributes) == Tag(attributes, false, p + |gap| + 1)
    ensures Here(text, p + |gap|, Ascii("/>")) ==> TagAt(text, p, attributes) == Tag(attributes, true, p + |gap| + 2)
  {
    hide AttributeAt, SkipSpaces, Here;
    HereInside(text, p, gap);
    var q := p + |gap|;
    if Here(text, q, Ascii("/>")) {
      HereAt(text, q, Ascii("/>"), 0);
      HereAt(text, q, Ascii("/>"), 1);
    }
    if At(text, q) in {Greater, Slash} { SpacesRead(text, p, gap); }
  }

  // ----- values between a header and an end tag -----

  lemma Marked(k: LeafKind, value: seq<Byte>)
    ensures Header(k) == Opening(k) && EndOf(k) == Ending(k) && Leaf(k, value) == NodeOf(Valued([], k, value))
    ensures |Opening(k)| >= 2 && Opening(k)[0] == Less && Opening(k)[1] in {33, 63}
    ensures Pointed(Ending(k)) && Ending(k)[0] != 0
    ensures Ascii("--") == CommentHeader[2..] && Ascii("[CDATA[") == CDataHeader[2..]
  {
    Headers();
    Ends();
    hide Ascii;
  }

  lemma Headers()
    ensures Ascii("<?") == DeclarationHeader && Ascii("<!--") == CommentHeader && Ascii("<![CDATA[") == CDataHeader
    ensures Ascii("<!") == UnknownHeader && Ascii("--") == CommentHeader[2..] && Ascii("[CDATA[") == CDataHeader[2..]
  {}

  lemma Ends()
    ensures Ascii("?>") == DeclarationEnd && Ascii("-->") == CommentEnd && Ascii("]]>") == CDataEnd
    ensures Ascii(">") == UnknownEnd
  {}

  lemma ValuedRead(text: seq<Byte>, p: nat, k: LeafKind, value: seq<Byte>)
    requires WellValued(k, value) && Here(text, p, Opening(k) + value + Ending(k))
    ensures At(text, p) == Less && p + |Opening(k) + value + Ending(k)| <= |text|
    ensures LevelAt(text, p) ==
            Prepend([NodeOf(Valued([], k, value))], LevelAt(text, p + |Opening(k) + value + Ending(k)|))
  {
    hide Here, Find, Identify, SkipSpaces, Prepend, Contains, Pointed, Opening, Ending, NodeOf, LevelAt, Header,
         EndOf, LeafAt, Leaf;
    Marked(k, value);
    HereInside(text, p, Opening(k) + value + Ending(k));
    HereSplit(text, p, Opening(k) + value, Ending(k));
    HereSplit(text, p, Opening(k), value);
    FirstTwo(text, p, Opening(k));
    KindRead(text, p, k, value);
    NoSpaces(text, p);
    LevelCases(text, p);
    var start := p + |Opening(k)|;
    HereInside(text, start, value);
    FindBack(text, start, value, Ending(k), 0);
    LeafStep(text, p, k, start + |value|);
  }

  lemma LeafStep(text: seq<Byte>, p: nat, k: LeafKind, end: nat)
    requires Identify(text, p) == k && p + |Header(k)| <= end <= |text|
    requires Find(text, p + |Header(k)|, EndOf(k)) == end
    ensures end + |EndOf(k)| <= |text|
    ensures LeafAt(text, p, k) == Prepend([Leaf(k, text[p + |Header(k)|..end])], LevelAt(text, end + |EndOf(k)|))
  {
    hide Identify, Find, LevelAt, Header, EndOf, Leaf, Prepend;
  }

  /** The kind that its header says. */
  lemma KindRead(text: seq<Byte>, p: nat, k: LeafKind, value: seq<Byte>)
    requires WellValued(k, value) && Here(text, p, Opening(k) + value + Ending(k)) && Here(text, p, Opening(k))
    ensures Identify(text, p) == k
  {
    hide Here;
    Marked(k, value);
    FirstTwo(text, p, Opening(k));
    OtherHeaders(text, p);
    if k == AsUnknown {
      NotLonger(text, p, value, CommentHeader);
      NotLonger(text, p, value, CDataHeader);
    }
  }

  lemma FirstTwo(text: seq<Byte>, p: nat, header: seq<Byte>)
    requires Here(text, p, header) && |header| >= 2
    ensures At(text, p) == header[0] && At(text, p + 1) == header[1]
  {
    HereAt(text, p, header, 0);
    HereAt(text, p, header, 1);
  }

  /** The headers are told apart by the characters behind the angle bracket. */
  lemma OtherHeaders(text: seq<Byte>, p: nat)
    ensures Here(text, p, DeclarationHeader) ==> At(text, p + 1) == 63
    ensures Here(text, p, CommentHeader) ==> At(text, p + 1) == 33 && At(text, p + 2) == Minus
    ensures Here(text, p, CDataHeader) ==> At(text, p + 1) == 33 && At(text, p + 2) == 91
    ensures Here(text, p, UnknownHeader) ==> At(text, p + 1) == 33
    ensures Here(text, p, CommentHeader) || Here(text, p, CDataHeader) ==> At(text, p) == Less
    ensures Here(text, p, UnknownHeader) || Here(text, p, DeclarationHeader) ==> At(text, p) == Less
  {
    if Here(text, p, DeclarationHeader) { FirstTwo(text, p, DeclarationHeader); }
    if Here(text, p, UnknownHeader) { FirstTwo(text, p, UnknownHeader); }
    if Here(text, p, CommentHeader) {
      FirstTwo(text, p, CommentHeader);
      HereAt(text, p, CommentHeader, 2);
    }
    if Here(text, p, CDataHeader) {
      FirstTwo(text, p, CDataHeader);
      HereAt(text, p, CDataHeader, 2);
    }
  }

  /** An unknown node is not mistaken for one with a longer header. */
  lemma NotLonger(text: seq<Byte>, p: nat, value: seq<Byte>, header: seq<Byte>)
    requires header in {CommentHeader, CDataHeader}
    requires Here(text, p, UnknownHeader + value + UnknownEnd) && !Here(value, 0, header[2..])
    ensures !Here(text, p, header)
  {
    var whole := UnknownHeader + value + UnknownEnd;
    if |header| - 2 <= |value| {
      Inside(text, p, whole, header, 0);
      assert whole[2..|header|] == value[0..|header| - 2];
    } else {
      if Here(text, p, header) {
        HereAt(text, p, whole, |whole| - 1);
        HereAt(text, p, header, |whole| - 1);
      }
    }
  }

  /** A header without its end is an error of its own kind. */
  lemma Unended(text: seq<Byte>, p: nat, k: LeafKind)
    requires Here(text, p, Opening(k)) && forall e :: p + |Opening(k)| <= e <= |text| ==> !Here(text, e, Ending(k))
    requires k == AsUnknown ==> !Here(text, p, Ascii("<!--")) && !Here(text, p, Ascii("<![CDATA["))
    ensures p <= |text|
    ensures k == AsDeclaration ==> LevelAt(text, p) == Broken([], ParsingDeclaration)
    ensures k == AsComment ==> LevelAt(text, p) == Broken([], ParsingComment)
    ensures k == AsCData ==> LevelAt(text, p) == Broken([], ParsingCData)
    ensures k == AsUnknown ==> LevelAt(text, p) == Broken([], ParsingUnknown)
  {
    hide Here, Find, LevelAt, SkipSpaces;
    Marked(k, []);
    HereInside(text, p, Opening(k));
    FirstTwo(text, p, Opening(k));
    OtherHeaders(text, p);
    Headers();
    NoSpaces(text, p);
    LevelCases(text, p);
    if Find(text, p + |Opening(k)|, Ending(k)) >= 0 { FoundFirst(text, p + |Opening(k)|, Ending(k)); }
  }

  // ----- plain text -----

  /** What the parser needs behind plain text: a tag that does not end the document. */
  predicate Bounded(text: seq<Byte>, q: nat) {
    At(text, q) == Less && At(text, q + 1) != 0
  }

  lemma {:induction false} SpacesStop(text: seq<Byte>, p: nat, t: seq<Byte>, k: nat, i: nat)
    requires Here(text, p, t) && i <= k < |t| && !IsSpace(t[k])
    ensures p + i <= |text| && p + i <= SkipSpaces(text, p + i) <= p + k
    decreases k - i
  {
    HereAt(text, p, t, i);
    if i < k { SpacesStop(text, p, t, k, i + 1); }
  }

  lemma CharsRead(text: seq<Byte>, p: nat, value: seq<Byte>)
    requires Visible(value) && Here(text, p, value) && Bounded(text, p + |value|)
    ensures p + |value| <= |text|
    ensures LevelAt(text, p) == Prepend([NodeOf(Chars(value))], LevelAt(text, p + |value|))
  {
    hide Here, Find, Identify, LevelAt, SkipSpaces, Visible, Prepend;
    HereInside(text, p, value);
    CharsIdentified(text, p, value);
    LevelCases(text, p);
    SingleAbsent(value, Less);
    HereFrom(text, p + |value|, [Less]);
    FindBack(text, p, value, [Less], 0);
  }

  /** Behind its leading white space, text starts with a character that is no tag. */
  lemma CharsIdentified(text: seq<Byte>, p: nat, value: seq<Byte>)
    requires Visible(value) && Here(text, p, value)
    ensures p <= |text| && Identify(text, SkipSpaces(text, p)) == AsText && NulFree(value) && Less !in value
  {
    hide Here, SkipSpaces, IsSpace;
    HereInside(text, p, value);
    var k :| 0 <= k < |value| && !Blank([value[k]]);
    Classes(value[k]);
    SpacesStop(text, p, value, k, 0);
    HereAt(text, p, value, SkipSpaces(text, p) - p);
    OtherHeaders(text, SkipSpaces(text, p));
  }

  // ----- elements -----

  /** White space in front of an angle bracket is skipped. */
  lemma LeadSkipped(text: seq<Byte>, p: nat, lead: seq<Byte>)
    requires Blank(lead) && Here(text, p, lead) && At(text, p + |lead|) == Less
    ensures p + |lead| <= |text| && LevelAt(text, p) == LevelAt(text, p + |lead|)
  {
    hide Here, Identify, ElementAt, TextAt, LeafAt, SkipSpaces, LevelAt, Blank;
    Marks(0);
    SpacesRead(text, p, lead);
    NoSpaces(text, p + |lead|);
    TagNotText(text, p + |lead|);
    LevelCases(text, p);
    LevelCases(text, p + |lead|);
  }

  lemma TagNotText(text: seq<Byte>, q: nat)
    requires At(text, q) == Less
    ensures Identify(text, q) !in {AsText, AsNothing}
  {
    hide Here;
  }

  lemma OpensElement(text: seq<Byte>, p: nat)
    requires At(text, p) == Less && At(text, p + 1) !in {33, 63}
    ensures p < |text| && LevelAt(text, p) == ElementAt(text, p + 1)
  {
    hide Here, ElementAt, Find;
    NoSpaces(text, p);
    OtherHeaders(text, p);
  }

  /** A closing tag ends the level and hands up its name. */
  lemma ClosingRead(text: seq<Byte>, p: nat, c: Rest)
    requires c.Open? && Closing(c) && Here(text, p, ClosingText(c))
    ensures p + |ClosingText(c)| <= |text| && Bounded(text, p + |c.lead|)
    ensures LevelAt(text, p) == Closed([], c.end, p + |ClosingText(c)|)
  {
    hide Here, At, LevelAt, ElementAt, LegalName, Blank, EndText;
    HereInside(text, p, ClosingText(c));
    HereSplit(text, p, c.lead, EndText(c));
    EndRead(text, p + |c.lead|, c);
    LeadSkipped(text, p, c.lead);
  }

  lemma EndRead(text: seq<Byte>, p: nat, c: Rest)
    requires c.Open? && Closing(c) && Here(text, p, EndText(c))
    ensures p + |EndText(c)| <= |text| && Bounded(text, p)
    ensures LevelAt(text, p) == Closed([], c.end, p + |EndText(c)|)
  {
    hide Here, At, LevelAt, ElementAt, LegalName, Blank;
    HereInside(text, p, EndText(c));
    var n := p + 1 + |c.inner|;
    var e := n + 1 + |c.end|;
    EndParts(text, p, c);
    BlankOr(text, p + 1, c.inner, Slash);
    OpensElement(text, p);
    SpacesRead(text, p + 1, c.inner);
    NameBack(text, n + 1, c.end);
    TagEnd(text, e, [], c.gap);
    ClosingStep(text, p + 1, n, e, e + |c.gap| + 1);
  }

  lemma EndParts(text: seq<Byte>, p: nat, c: Rest)
    requires c.Open? && Closing(c) && Here(text, p, EndText(c))
    ensures var n := p + 1 + |c.inner|;
            var e := n + 1 + |c.end|;
            && At(text, p) == Less && Here(text, p + 1, c.inner) && At(text, n) == Slash && !IsSpace(At(text, n))
            && Here(text, n + 1, c.end) && !IsNameChar(At(text, e)) && Here(text, e, c.gap)
            && At(text, e + |c.gap|) == Greater && |EndText(c)| == e + |c.gap| + 1 - p
  {
    hide Here, LegalName, Blank;
    var n := p + 1 + |c.inner|;
    var e := n + 1 + |c.end|;
    HereSplit(text, p, Ascii("<") + c.inner + Ascii("/") + c.end + c.gap, Ascii(">"));
    HereSplit(text, p, Ascii("<") + c.inner + Ascii("/") + c.end, c.gap);
    HereSplit(text, p, Ascii("<") + c.inner + Ascii("/"), c.end);
    HereSplit(text, p, Ascii("<") + c.inner, Ascii("/"));
    HereSplit(text, p, Ascii("<"), c.inner);
    HereAt(text, p, Ascii("<"), 0);
    HereAt(text, n, Ascii("/"), 0);
    HereAt(text, e + |c.gap|, Ascii(">"), 0);
    BlankOr(text, e, c.gap, Greater);
  }

  /** Where white space or a mark stands, no name goes on and no header starts. */
  lemma BlankOr(text: seq<Byte>, p: nat, w: seq<Byte>, c: Byte)
    requires Blank(w) && Here(text, p, w) && At(text, p + |w|) == c && c in {Slash, Greater}
    ensures At(text, p) !in {0, 33, 63} && !IsNameChar(At(text, p))
  {
    if w != [] { HereAt(text, p, w, 0); }
  }

  lemma ClosingStep(text: seq<Byte>, p: nat, n: nat, e: nat, next: nat)
    requires p <= n < e <= |text| && SkipSpaces(text, p) == n && At(text, n) == Slash
    requires NameEnd(text, n + 1) == e && e > n + 1 && TagAt(text, e, []) == Tag([], false, next)
    ensures ElementAt(text, p) == Closed([], text[n + 1..e], next)
  {
    hide LevelAt, TagAt, NameEnd, SkipSpaces;
  }

  /** A start tag: what its level makes of it depends on how the tag ends. */
  lemma StartRead(text: seq<Byte>, p: nat, i: Item)
    requires i.Tagged? && WellTagged(i) && Here(text, p, i.lead + StartText(i))
    requires BehindName(At(text, p + |i.lead + StartText(i)|))
    ensures p + |i.lead + StartText(i)| <= |text|
    ensures var n := p + |i.lead| + 1;
            var e := n + |i.inner| + |i.name|;
            && |i.name| > 0 && n < e <= |text| && At(text, n - 1) == Less && LevelAt(text, p) == ElementAt(text, n)
            && SkipSpaces(text, n) == n + |i.inner| && At(text, n + |i.inner|) != Slash
            && NameEnd(text, n + |i.inner|) == e && text[n + |i.inner|..e] == i.name
            && Here(text, e, AttributesText(i.attributes))
            && e + |AttributesText(i.attributes)| == p + |i.lead + StartText(i)|
  {
    hide Here, At, LevelAt, ElementAt, LegalName, Blank, BehindName, AttributesText, NameEnd, SkipSpaces, NameFirst;
    HereInside(text, p, i.lead + StartText(i));
    var s := p + |i.lead|;
    var n := s + 1;
    StartParts(text, p, i);
    NameBack(text, n + |i.inner|, i.name);
    NameStartIsNone(At(text, n + |i.inner|));
    InnerStart(text, n, i.inner);
    SpacesRead(text, n, i.inner);
    OpensElement(text, s);
    LeadSkipped(text, p, i.lead);
  }

  /** White space, a slash or an angle bracket: what may follow the attributes of a tag. */
  predicate BehindName(c: Byte) {
    c in {Slash, Greater} || IsSpace(c)
  }

  lemma InnerStart(text: seq<Byte>, n: nat, w: seq<Byte>)
    requires Blank(w) && Here(text, n, w) && IsNameStart(At(text, n + |w|))
    ensures At(text, n) !in {33, 63}
  {
    if w != [] { HereAt(text, n, w, 0); }
  }

  lemma StartParts(text: seq<Byte>, p: nat, i: Item)
    requires i.Tagged? && WellTagged(i) && Here(text, p, i.lead + StartText(i))
    requires BehindName(At(text, p + |i.lead + StartText(i)|))
    ensures var n := p + |i.lead| + 1;
            var e := n + |i.inner| + |i.name|;
            && Here(text, p, i.lead) && At(text, n - 1) == Less && Here(text, n, i.inner)
            && Here(text, n + |i.inner|, i.name) && |i.name| > 0 && !IsNameChar(At(text, e))
            && Here(text, e, AttributesText(i.attributes))
            && e + |AttributesText(i.attributes)| == p + |i.lead + StartText(i)|
  {
    hide Here, Blank, AttributesText, Attributive, BehindName;
    var s := p + |i.lead|;
    HereSplit(text, p, i.lead, StartText(i));
    HereSplit(text, s, Ascii("<") + i.inner + i.name, AttributesText(i.attributes));
    HereSplit(text, s, Ascii("<") + i.inner, i.name);
    HereSplit(text, s, Ascii("<"), i.inner);
    HereAt(text, s, Ascii("<"), 0);
    NameApart(text, s + 1 + |i.inner| + |i.name|, i.attributes);
  }

  /** The name of an element ends in front of its attributes. */
  lemma NameApart(text: seq<Byte>, e: nat, attributes: seq<Spaced>)
    requires Attributive(attributes) && (attributes != [] ==> attributes[0].space != [])
    requires Here(text, e, AttributesText(attributes)) && BehindName(At(text, e + |AttributesText(attributes)|))
    ensures !IsNameChar(At(text, e))
  {
    hide Spelled, WellSpelled;
    if attributes != [] {
      HereAt(text, e, AttributesText(attributes), 0);
      assert attributes[0].space[0] == AttributesText(attributes)[0];
    }
  }

  /** An element whose tag has been read. */
  lemma ElementStep(text: seq<Byte>, n: nat, s: nat, e: nat, tag: Tag)
    requires n <= s < e <= |text| && SkipSpaces(text, n) == s && At(text, s) != Slash && NameEnd(text, s) == e
    requires TagAt(text, e, []) == tag
    ensures tag.BadTag? ==> ElementAt(text, n) == Broken([], tag.error)
    ensures tag.Tag? && tag.sealed ==>
              ElementAt(text, n) == Prepend([Element(text[s..e], tag.attributes, [])], LevelAt(text, tag.next))
    ensures tag.Tag? && !tag.sealed && At(text, tag.next) != 0 ==>
              var l := LevelAt(text, tag.next);
              && (l.Ended? ==> ElementAt(text, n) == Broken([], Parsing))
              && (l.Broken? ==> ElementAt(text, n) == Broken([], l.error))
              && (l.Closed? && l.name != text[s..e] ==> ElementAt(text, n) == Broken([], MismatchedElement))
              && (l.Closed? && l.name == text[s..e] ==>
                    ElementAt(text, n) == Prepend([Element(text[s..e], tag.attributes, l.nodes)],
                                                  LevelAt(text, l.next)))
  {
    hide LevelAt, TagAt, NameEnd, SkipSpaces, Prepend;
  }

  /** Where the tag of an element ends. */
  function TagEndAt(i: Item): nat
    requires i.Tagged?
  {
    |i.lead + StartText(i)| + |i.gap| + if i.content.Sealed? then 2 else 1
  }

  /** The tag of an element, with distinct attributes, up to its last angle bracket. */
  lemma TagWhole(text: seq<Byte>, p: nat, i: Item)
    requires i.Tagged? && WellTagged(i) && Distinct(AttributesOf(i.attributes))
    requires Here(text, p, i.lead + StartText(i) + i.gap)
    requires Here(text, p + |i.lead + StartText(i) + i.gap|, if i.content.Sealed? then Ascii("/>") else Ascii(">"))
    ensures p + TagEndAt(i) <= |text|
    ensures var n := p + |i.lead| + 1;
            var s := n + |i.inner|;
            var e := s + |i.name|;
            && n <= s < e <= |text| && LevelAt(text, p) == ElementAt(text, n)
            && SkipSpaces(text, n) == s && At(text, s) != Slash && NameEnd(text, s) == e && text[s..e] == i.name
            && TagAt(text, e, []) == Tag(AttributesOf(i.attributes), i.content.Sealed?, p + TagEndAt(i))
  {
    hide Here, At, LevelAt, ElementAt, LegalName, Blank, BehindName, AttributesText, NameEnd, SkipSpaces, TagAt,
         StartText, Attributive, Distinct, AttributesOf;
    var mark := if i.content.Sealed? then Ascii("/>") else Ascii(">");
    var r := p + |i.lead + StartText(i)|;
    HereSplit(text, p, i.lead + StartText(i), i.gap);
    HereAt(text, r + |i.gap|, mark, 0);
    HereInside(text, r + |i.gap|, mark);
    BehindGap(text, r, i.gap);
    StartRead(text, p, i);
    var e := p + |i.lead| + 1 + |i.inner| + |i.name|;
    assert [] + AttributesOf(i.attributes) == AttributesOf(i.attributes);
    assert WellTagged(i);
    TagRead(text, e, [], i.attributes);
    TagEnd(text, r, AttributesOf(i.attributes), i.gap);
  }

  lemma BehindGap(text: seq<Byte>, r: nat, gap: seq<Byte>)
    requires Blank(gap) && Here(text, r, gap) && At(text, r + |gap|) in {Slash, Greater}
    ensures BehindName(At(text, r))
  {
    if gap != [] { HereAt(text, r, gap, 0); }
  }

  // ----- trees -----

  /** A well-formed item is read as its node, and the parser goes on behind it. */
  lemma {:induction false} ItemRead(text: seq<Byte>, p: nat, i: Item)
    requires WellFormed(i) && Here(text, p, ItemText(i)) && (i.Chars? ==> Bounded(text, p + |ItemText(i)|))
    ensures p + |ItemText(i)| <= |text|
    ensures LevelAt(text, p) == Prepend([NodeOf(i)], LevelAt(text, p + |ItemText(i)|))
    decreases i, 2, 0
  {
    hide LevelAt, Here, Visible, WellValued, Blank, Prepend, StartText, Ascii;
    HereInside(text, p, ItemText(i));
    match i
    case Tagged(_, _, _, _, _, _) => ElementRead(text, p, i);
    case Valued(lead, kind, value) =>
      HereSplit(text, p, lead, Opening(kind) + value + Ending(kind));
      ValuedRead(text, p + |lead|, kind, value);
      LeadSkipped(text, p, lead);
    case Chars(value) => CharsRead(text, p, value);
  }

  lemma {:induction false} ElementRead(text: seq<Byte>, p: nat, i: Item)
    requires i.Tagged? && WellFormed(i) && Here(text, p, ItemText(i))
    ensures p + |ItemText(i)| <= |text|
    ensures LevelAt(text, p) == Prepend([NodeOf(i)], LevelAt(text, p + |ItemText(i)|))
    decreases i, 1, 0
  {
    hide Here, At, LevelAt, ElementAt, NameEnd, TagAt, SkipSpaces, Prepend, WellFormed, ItemText, ChildrenText,
         ClosingText, StartText, NodeOf, AttributesOf, WellTagged;
    HereInside(text, p, ItemText(i));
    TaggedParts(i);
    var front := i.lead + StartText(i) + i.gap;
    var n := p + |i.lead| + 1;
    var s := n + |i.inner|;
    var tag := Tag(AttributesOf(i.attributes), i.content.Sealed?, p + TagEndAt(i));
    match i.content {
      case Sealed =>
        HereSplit(text, p, front, Ascii("/>"));
        TagWhole(text, p, i);
        ElementStep(text, n, s, s + |i.name|, tag);
      case Open(children, _, _, _, _) =>
        var c := i.content;
        HereSplit(text, p, front, Ascii(">") + (ChildrenText(c, 0) + ClosingText(c)));
        HereSplit(text, p + |front|, Ascii(">"), ChildrenText(c, 0) + ClosingText(c));
        TagWhole(text, p, i);
        ContentRead(text, p + TagEndAt(i), c);
        ElementStep(text, n, s, s + |i.name|, tag);
    }
  }

  lemma TaggedParts(i: Item)
    requires i.Tagged? && WellFormed(i)
    ensures WellTagged(i) && Distinct(AttributesOf(i.attributes))
    ensures |Ascii(">")| == 1 && |Ascii("/>")| == 2
    ensures i.content.Sealed? ==>
              && ItemText(i) == i.lead + StartText(i) + i.gap + Ascii("/>")
              && NodeOf(i) == Element(i.name, AttributesOf(i.attributes), [])
    ensures i.content.Open? ==>
              && ItemText(i) == i.lead + StartText(i) + i.gap
                                + (Ascii(">") + (ChildrenText(i.content, 0) + ClosingText(i.content)))
              && NodeOf(i) == Element(i.name, AttributesOf(i.attributes), NodesOf(i.content.children))
              && Closing(i.content) && Placed(i.content) && i.content.end == i.name
              && forall k :: 0 <= k < |i.content.children| ==> WellFormed(i.content.children[k])
  {
    hide StartText, ChildrenText, ClosingText, AttributesOf, WellTagged, Closing, Placed, Distinct;
  }

  /** The children and the closing tag behind them. */
  lemma {:induction false} ContentRead(text: seq<Byte>, p: nat, c: Rest)
    requires c.Open? && Closing(c) && Placed(c) && forall k :: 0 <= k < |c.children| ==> WellFormed(c.children[k])
    requires Here(text, p, ChildrenText(c, 0) + ClosingText(c))
    ensures p <= |text| && At(text, p) != 0
    ensures LevelAt(text, p) == Closed(NodesOf(c.children), c.end, p + |ChildrenText(c, 0) + ClosingText(c)|)
    decreases c, 0, |c.children| + 1
  {
    hide Here, At, LevelAt, ChildrenText, ClosingText, WellFormed, NodesOf, Closing, Placed;
    HereSplit(text, p, ChildrenText(c, 0), ClosingText(c));
    ClosingRead(text, p + |ChildrenText(c, 0)|, c);
    if c.children != [] && c.children[|c.children| - 1].Chars? { PlacedNext(c, |c.children| - 1); }
    ChildrenRead(text, p, c, 0);
    assert c.children[0..] == c.children;
    assert NodesOf(c.children) + [] == NodesOf(c.children);
    ContentStart(text, p, c);
  }

  lemma {:induction false} ChildrenRead(text: seq<Byte>, p: nat, c: Rest, k: nat)
    requires c.Open? && k <= |c.children| && Placed(c)
    requires forall j :: 0 <= j < |c.children| ==> WellFormed(c.children[j])
    requires Here(text, p, ChildrenText(c, k))
    requires c.children != [] && c.children[|c.children| - 1].Chars? ==> Bounded(text, p + |ChildrenText(c, k)|)
    ensures p + |ChildrenText(c, k)| <= |text|
    ensures LevelAt(text, p) == Prepend(NodesOf(c.children[k..]), LevelAt(text, p + |ChildrenText(c, k)|))
    decreases c, 0, |c.children| - k
  {
    hide Here, At, LevelAt, ItemText, WellFormed, Bounded, NodeOf, Placed;
    HereInside(text, p, ChildrenText(c, k));
    if k == |c.children| {
      assert NodesOf(c.children[k..]) == [];
      NothingBefore(LevelAt(text, p));
    } else {
      var i := c.children[k];
      HereSplit(text, p, ItemText(i), ChildrenText(c, k + 1));
      var q := p + |ItemText(i)|;
      if i.Chars? && k + 1 < |c.children| {
        PlacedNext(c, k);
        NextStart(text, q, c, k + 1);
      }
      ItemRead(text, p, i);
      ChildrenRead(text, q, c, k + 1);
      assert NodesOf(c.children[k..]) == [NodeOf(i)] + NodesOf(c.children[k + 1..]);
      PrependTwice([NodeOf(i)], NodesOf(c.children[k + 1..]), LevelAt(text, p + |ChildrenText(c, k)|));
    }
  }

  lemma PlacedNext(c: Rest, k: nat)
    requires c.Open? && Placed(c) && k < |c.children| && c.children[k].Chars?
    ensures k + 1 < |c.children| ==> !c.children[k + 1].Chars? && c.children[k + 1].lead == []
    ensures k + 1 == |c.children| ==> c.lead == []
  {}

  /** A further child starts with something, and with an angle bracket if it is set off by one. */
  lemma NextStart(text: seq<Byte>, p: nat, c: Rest, k: nat)
    requires c.Open? && k < |c.children| && WellFormed(c.children[k]) && Here(text, p, ChildrenText(c, k))
    ensures At(text, p) != 0
    ensures !c.children[k].Chars? && c.children[k].lead == [] ==> Bounded(text, p)
  {
    hide Here, At, ItemText, WellFormed;
    var i := c.children[k];
    HereSplit(text, p, ItemText(i), ChildrenText(c, k + 1));
    ItemStart(i);
    HereAt(text, p, ItemText(i), 0);
    if !i.Chars? && i.lead == [] { HereAt(text, p, ItemText(i), 1); }
  }

  lemma ItemStart(i: Item)
    requires WellFormed(i)
    ensures |ItemText(i)| > 0 && ItemText(i)[0] != 0
    ensures !i.Chars? && i.lead == [] ==> |ItemText(i)| > 1 && ItemText(i)[0] == Less && ItemText(i)[1] != 0
  {
    hide ChildrenText, ClosingText, AttributesText, Distinct, AttributesOf, Attributive, WellValued, Ending;
    match i
    case Tagged(lead, inner, name, _, _, _) =>
      var s := Ascii("<") + inner + name;
      assert StartText(i)[0] == s[0] == Less && StartText(i)[1] == s[1] != 0;
      LeadFirst(lead, ItemText(i)[|lead|..]);
      assert ItemText(i) == lead + ItemText(i)[|lead|..];
    case Valued(lead, kind, value) =>
      Marked(kind, value);
      LeadFirst(lead, Opening(kind) + value + Ending(kind));
    case Chars(value) =>
  }

  lemma LeadFirst(lead: seq<Byte>, t: seq<Byte>)
    requires Blank(lead) && t != [] && t[0] != 0
    ensures (lead + t)[0] != 0
  {}

  lemma ContentStart(text: seq<Byte>, p: nat, c: Rest)
    requires c.Open? && Closing(c) && forall k :: 0 <= k < |c.children| ==> WellFormed(c.children[k])
    requires Here(text, p, ChildrenText(c, 0)) && Here(text, p + |ChildrenText(c, 0)|, ClosingText(c))
    ensures At(text, p) != 0
  {
    hide Here, At, WellFormed, ItemText, LegalName;
    if c.children == [] {
      LeadFirst(c.lead, EndText(c));
      HereAt(text, p, ClosingText(c), 0);
    } else {
      NextStart(text, p, c, 0);
    }
  }

  // ----- whole documents -----

  /** A document is a list of items that does not end in plain text, and white space. */
  predicate Documented(items: seq<Item>, end: seq<Byte>) {
    && items != [] && !items[|items| - 1].Chars? && Placed(Open(items, [], [], [], [])) && Blank(end)
    && forall k :: 0 <= k < |items| ==> WellFormed(items[k])
  }

  function DocumentText(items: seq<Item>, end: seq<Byte>): seq<Byte> {
    ChildrenText(Open(items, [], [], [], []), 0) + end
  }

  /** It is found as its nodes. */
  lemma DocumentRead(items: seq<Item>, end: seq<Byte>)
    requires Documented(items, end)
    ensures DocumentAt(DocumentText(items, end)) == Good(NodesOf(items))
  {
    hide LevelAt, ChildrenText, WellFormed, Here, Placed, NodeOf, Blank;
    var c := Open(items, [], [], [], []);
    var text := DocumentText(items, end);
    HereWhole(text);
    HereSplit(text, 0, ChildrenText(c, 0), end);
    ChildrenRead(text, 0, c, 0);
    BlankEnd(text, |ChildrenText(c, 0)|, end);
    assert items[0..] == items;
    assert NodesOf(items) + [] == NodesOf(items);
    SomethingThere(text, NodesOf(items));
  }

  lemma HereWhole(text: seq<Byte>)
    ensures Here(text, 0, text)
  {
    assert text[0..|text|] == text;
  }

  lemma BlankEnd(text: seq<Byte>, p: nat, end: seq<Byte>)
    requires Blank(end) && Here(text, p, end) && p + |end| == |text|
    ensures LevelAt(text, p) == Ended([])
  {
    hide ElementAt, Find, Here, Identify, SkipSpaces, Prepend, Blank;
    AtEnd(text);
    SpacesRead(text, p, end);
    NothingThere(text, |text|);
    LevelCases(text, p);
  }

  lemma AtEnd(text: seq<Byte>)
    ensures At(text, |text|) == 0 && !IsSpace(0)
  {}

  lemma NothingThere(text: seq<Byte>, p: nat)
    requires At(text, p) == 0
    ensures Identify(text, p) == AsNothing
  {}

  /** A text in which nodes are found is not taken for an empty document. */
  lemma SomethingThere(text: seq<Byte>, nodes: seq<Node>)
    requires LevelAt(text, 0) == Ended(nodes) && nodes != []
    ensures var p := SkipSpaces(text, 0); At(text, p) != 0 && (Here(text, p, ByteOrderMark) ==> At(text, p + 3) != 0)
  {
    hide ElementAt, Find, Here;
    var p := SkipSpaces(text, 0);
    if Here(text, p, ByteOrderMark) {
      HereAt(text, p, ByteOrderMark, 0);
      HereAt(text, p, ByteOrderMark, 1);
      HereAt(text, p, ByteOrderMark, 2);
      OtherHeaders(text, p);
      TextLength(text, 0);
      FoundBehind(text, 0, ElementHeader, p + 3);
    }
  }

  /** No terminator stands in front of a tag that is found. */
  lemma {:induction false} FoundBehind(text: seq<Byte>, p: nat, tag: seq<Byte>, k: nat)
    requires p <= k && p <= |text| && |tag| > 0 && Find(text, p, tag) >= 0
    ensures At(text, Find(text, p, tag)) == tag[0]
    ensures k <= Find(text, p, tag) ==> At(text, k) != 0
    decreases |text| - p
  {
    if Here(text, p, tag) {
      HereAt(text, p, tag, 0);
    } else {
      FoundBehind(text, p + 1, tag, if k > p then k else p + 1);
    }
  }

  /** Nothing but white space, with or without a byte order mark behind it, is an empty document. */
  lemma EmptyDocuments(w: seq<Byte>)
    requires Blank(w)
    ensures DocumentAt(w) == Faulty([], EmptyDocument)
    ensures DocumentAt(w + Utf8(0xFEFF)) == Faulty([], EmptyDocument)
  {
    hide LevelAt, Here, Blank, SkipSpaces;
    var text := w + Utf8(0xFEFF);
    HereWhole(w);
    AtEnd(w);
    SpacesRead(w, 0, w);
    MarkBytes();
    HereWhole(text);
    HereSplit(text, 0, w, ByteOrderMark);
    HereAt(text, |w|, ByteOrderMark, 0);
    SpacesRead(text, 0, w);
    MarkHere(w, |w|);
  }

  lemma MarkBytes()
    ensures Utf8(0xFEFF) == ByteOrderMark && |ByteOrderMark| == 3 && !IsSpace(ByteOrderMark[0])
  {}

  lemma MarkHere(w: seq<Byte>, p: nat)
    requires p == |w|
    ensures !Here(w, p, ByteOrderMark)
  {}

  /** The strings of a node: line breaks are unified in all of them, and entities are replaced in plain
      text and attribute values only. */
  lemma StringsInterpreted(lines: seq<seq<Byte>>, breaks: seq<Break>, name: seq<Byte>)
    requires |lines| == |breaks| + 1 && (forall k :: 0 < k < |lines| - 1 ==> lines[k] != [])
    requires forall k :: 0 <= k < |lines| ==> Line(lines[k])
    ensures var raw, one := RawLined(lines, breaks), Unified(lines);
            && Interpreted(Comment(raw)) == Comment(one) && Interpreted(Declaration(raw)) == Declaration(one)
            && Interpreted(Node.Unknown(raw)) == Node.Unknown(one)
            && Interpreted(Characters(raw, true)) == Characters(one, true)
    ensures Interpreted(Characters(Lined(lines, breaks, true), false)) == Characters(Unified(lines), false)
    ensures InterpretedAttributes([Attribute(name, Lined(lines, breaks, false))]) == [Attribute(name, Unified(lines))]
  {
    hide Decode, Lined, RawLined, Unified;
    var raw := RawLined(lines, breaks);
    assert forall k :: 0 <= k < |lines| ==> Unbroken(lines[k]);
    assert raw[0..] == raw;
    RawBreaksUnified(raw, 0, 0, lines, breaks);
    var text, value := Lined(lines, breaks, true), Lined(lines, breaks, false);
    assert text[0..] == text && value[0..] == value;
    BreaksUnified(text, 0, 0, lines, breaks, true);
    BreaksUnified(value, 0, 0, lines, breaks, false);
  }

  // ----- refusals -----

  /** An element that is well formed but for its end, whose content stops in front of end or at the
      end of the text. */
  predicate WellStarted(i: Item) {
    && i.Tagged? && WellTagged(i) && Distinct(AttributesOf(i.attributes)) && i.content.Open? && Placed(i.content)
    && forall k :: 0 <= k < |i.content.children| ==> WellFormed(i.content.children[k])
  }

  /** A closing tag with another name is refused. */
  lemma Mismatched(text: seq<Byte>, p: nat, i: Item)
    requires WellStarted(i) && Closing(i.content) && i.content.end != i.name && Here(text, p, ItemText(i))
    ensures p <= |text| && LevelAt(text, p) == Broken([], MismatchedElement)
  {
    hide Here, At, LevelAt, ElementAt, NameEnd, TagAt, SkipSpaces, ItemText, ChildrenText, ClosingText, StartText,
         NodesOf, AttributesOf, WellTagged, Placed, Closing;
    HereInside(text, p, ItemText(i));
    OpenText(i);
    var c := i.content;
    var front := i.lead + StartText(i) + i.gap;
    var s := p + |i.lead| + 1 + |i.inner|;
    HereSplit(text, p, front, Ascii(">") + (ChildrenText(c, 0) + ClosingText(c)));
    HereSplit(text, p + |front|, Ascii(">"), ChildrenText(c, 0) + ClosingText(c));
    TagWhole(text, p, i);
    ContentRead(text, p + TagEndAt(i), c);
    ElementStep(text, s - |i.inner|, s, s + |i.name|, Tag(AttributesOf(i.attributes), false, p + TagEndAt(i)));
  }

  lemma OpenText(i: Item)
    requires i.Tagged? && i.content.Open?
    ensures |Ascii(">")| == 1
    ensures ItemText(i) == i.lead + StartText(i) + i.gap
                           + (Ascii(">") + (ChildrenText(i.content, 0) + ClosingText(i.content)))
  {
    hide StartText, ChildrenText, ClosingText;
  }

  /** A start tag whose content, not ending in plain text, is followed by the end of the document. */
  lemma Unclosed(text: seq<Byte>, p: nat, i: Item)
    requires WellStarted(i) && i.content.children != []
    requires !i.content.children[|i.content.children| - 1].Chars?
    requires Here(text, p, i.lead + StartText(i) + i.gap + (Ascii(">") + ChildrenText(i.content, 0)))
    requires |text| == p + |i.lead + StartText(i) + i.gap + (Ascii(">") + ChildrenText(i.content, 0))|
    ensures p <= |text| && LevelAt(text, p) == Broken([], Parsing)
  {
    hide Here, At, LevelAt, ElementAt, NameEnd, TagAt, SkipSpaces, ItemText, ChildrenText, StartText, NodesOf,
         AttributesOf, WellTagged, Placed, Identify;
    var c := i.content;
    var front := i.lead + StartText(i) + i.gap;
    var s := p + |i.lead| + 1 + |i.inner|;
    assert |Ascii(">")| == 1;
    HereSplit(text, p, front, Ascii(">") + ChildrenText(c, 0));
    HereSplit(text, p + |front|, Ascii(">"), ChildrenText(c, 0));
    TagWhole(text, p, i);
    ChildrenRead(text, p + TagEndAt(i), c, 0);
    HereWhole([]);
    assert Here(text, |text|, []) by { NothingAtEnd(text); }
    BlankEnd(text, |text|, []);
    NextStart(text, p + TagEndAt(i), c, 0);
    ElementStep(text, s - |i.inner|, s, s + |i.name|, Tag(AttributesOf(i.attributes), false, p + TagEndAt(i)));
  }

  lemma NothingAtEnd(text: seq<Byte>)
    ensures Here(text, |text|, [])
  {}
}
