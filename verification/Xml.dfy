/** XML trees of tinyxml2, their compact printed form, and what the parser makes of a text. */
module Xml {
  import opened Octets
  import opened Text
  import opened XmlText

  datatype Attribute = Attribute(name: seq<Byte>, value: seq<Byte>)

  datatype Node =
    | Element(name: seq<Byte>, attributes: seq<Attribute>, children: seq<Node>)
    | Characters(value: seq<Byte>, cdata: bool)
    | Comment(value: seq<Byte>)
    | Declaration(value: seq<Byte>)
    | Unknown(value: seq<Byte>)

  const Slash: Byte := 47
  const Equal: Byte := 61
  const ElementHeader: seq<Byte> := [Less]
  const DeclarationHeader: seq<Byte> := [Less, 63]
  const DeclarationEnd: seq<Byte> := [63, Greater]
  const CommentHeader: seq<Byte> := [Less, 33, Minus, Minus]
  const CommentEnd: seq<Byte> := [Minus, Minus, Greater]
  const CDataHeader: seq<Byte> := [Less, 33, 91, 67, 68, 65, 84, 65, 91]
  const CDataEnd: seq<Byte> := [93, 93, Greater]
  const UnknownHeader: seq<Byte> := [Less, 33]
  const UnknownEnd: seq<Byte> := [Greater]

  predicate IsSpace(c: Byte) {
    9 <= c <= 13 || c == 32
  }

  predicate IsNameStart(c: Byte) {
    IsAlpha(c) || c >= 128 || c == Colon || c == 95
  }

  predicate IsNameChar(c: Byte) {
    IsNameStart(c) || IsDigit(c) || c == Dot || c == Minus
  }

  // ----- printing -----

  /** The text of a node in compact mode. */
  function Print(n: Node): seq<Byte>
    decreases n, 1, 0
  {
    match n
    case Element(name, attributes, children) =>
      [Less] + name + PrintAttributes(attributes) +
      (if children == [] then [Slash, Greater] else [Greater] + PrintChildren(n, 0) + EndTag(name))
    case Characters(value, cdata) => if cdata then CDataHeader + value + CDataEnd else EscapeText(value, true)
    case Comment(value) => CommentHeader + value + CommentEnd
    case Declaration(value) => DeclarationHeader + value + DeclarationEnd
    case Unknown(value) => UnknownHeader + value + UnknownEnd
  }

  /** The text of a whole document: its nodes one after the other. */
  function PrintNodes(nodes: seq<Node>): seq<Byte> {
    PrintChildren(Element([], [], nodes), 0)
  }

  function EndTag(name: seq<Byte>): seq<Byte> {
    [Less, Slash] + name + [Greater]
  }

  function PrintAttribute(a: Attribute): seq<Byte> {
    [Space] + a.name + [Equal, DoubleQuote] + EscapeText(a.value, false) + [DoubleQuote]
  }

  function PrintAttributes(attributes: seq<Attribute>): seq<Byte> {
    if attributes == [] then [] else PrintAttribute(attributes[0]) + PrintAttributes(attributes[1..])
  }

  /** The children from the k-th on. */
  function PrintChildren(n: Node, k: nat): seq<Byte>
    requires n.Element? && k <= |n.children|
    decreases n, 0, |n.children| - k
  {
    if k == |n.children| then [] else Print(n.children[k]) + PrintChildren(n, k + 1)
  }

  // ----- parsing -----

  // The parser only notes where strings start and end; until they are asked for, the values of the
  // nodes below are the text as it stands in the document.

  datatype Error =
    | Parsing
    | ParsingElement
    | ParsingAttribute
    | ParsingText
    | ParsingCData
    | ParsingComment
    | ParsingDeclaration
    | ParsingUnknown
    | MismatchedElement
    | EmptyDocument

  function SkipSpaces(text: seq<Byte>, p: nat): (q: nat)
    requires p <= |text|
    ensures p <= q <= |text| && !IsSpace(At(text, q))
    decreases |text| - p
  {
    if IsSpace(At(text, p)) then SkipSpaces(text, p + 1) else p
  }

  /** ParseText: where the end tag stands, or -1. */
  function Find(text: seq<Byte>, p: nat, tag: seq<Byte>): (r: int)
    requires p <= |text| && |tag| > 0
    ensures r == -1 || (p <= r && r + |tag| <= |text|)
    decreases |text| - p
  {
    if At(text, p) == 0 then -1
    else if Here(text, p, tag) then p
    else Find(text, p + 1, tag)
  }

  /** ParseName: the position behind the name. */
  function NameEnd(text: seq<Byte>, p: nat): (q: nat)
    requires p <= |text|
    ensures p <= q <= |text|
  {
    if IsNameStart(At(text, p)) then NameRest(text, p + 1) else p
  }

  function NameRest(text: seq<Byte>, p: nat): (q: nat)
    requires p <= |text|
    ensures p <= q <= |text|
    decreases |text| - p
  {
    if IsNameChar(At(text, p)) then NameRest(text, p + 1) else p
  }

  datatype OneAttribute = Read(attribute: Attribute, next: nat) | Bad

  /** XMLAttribute::ParseDeep */
  function AttributeAt(text: seq<Byte>, p: nat): (r: OneAttribute)
    requires p <= |text|
    ensures r.Read? ==> p < r.next <= |text|
  {
    var n := NameEnd(text, p);
    if n == p || At(text, n) == 0 then Bad
    else
      var e := SkipSpaces(text, n);
      if At(text, e) != Equal then Bad
      else
        var q := SkipSpaces(text, e + 1);
        var quote := At(text, q);
        if quote != DoubleQuote && quote != Apostrophe then Bad
        else
          var end := Find(text, q + 1, [quote]);
          if end < 0 then Bad else Read(Attribute(text[p..n], text[q + 1..end]), end + 1)
  }

  predicate HasName(attributes: seq<Attribute>, name: seq<Byte>) {
    exists k :: 0 <= k < |attributes| && attributes[k].name == name
  }

  /** The rest of a tag: its attributes, whether it ends with a slash, and what follows. */
  datatype Tag = Tag(attributes: seq<Attribute>, sealed: bool, next: nat) | BadTag(error: Error)

  /** ParseAttributes, after the attributes already read. */
  function TagAt(text: seq<Byte>, p: nat, attributes: seq<Attribute>): (r: Tag)
    requires p <= |text|
    ensures r.Tag? ==> p < r.next <= |text|
    decreases |text| - p
  {
    var q := SkipSpaces(text, p);
    var c := At(text, q);
    if c == 0 then BadTag(ParsingElement)
    else if IsNameStart(c) then
      var a := AttributeAt(text, q);
      if a.Bad? || HasName(attributes, a.attribute.name) then BadTag(ParsingAttribute)
      else TagAt(text, a.next, attributes + [a.attribute])
    else if c == Slash && At(text, q + 1) == Greater then Tag(attributes, true, q + 2)
    else if c == Greater then Tag(attributes, false, q + 1)
    else BadTag(ParsingElement)
  }

  /** How a list of siblings ends: at a closing tag, which is handed to the level above, at the end
      of the text, or with an error. The siblings read so far are kept. */
  datatype Level =
    | Closed(nodes: seq<Node>, name: seq<Byte>, next: nat)
    | Ended(nodes: seq<Node>)
    | Broken(nodes: seq<Node>, error: Error)

  function Prepend(nodes: seq<Node>, l: Level): (r: Level)
    ensures r.Closed? == l.Closed? && (r.Closed? ==> r.next == l.next)
  {
    match l
    case Closed(rest, name, next) => Closed(nodes + rest, name, next)
    case Ended(rest) => Ended(nodes + rest)
    case Broken(rest, error) => Broken(nodes + rest, error)
  }

  lemma NothingBefore(l: Level)
    ensures Prepend([], l) == l
  {
    assert [] + l.nodes == l.nodes;
  }

  lemma PrependTwice(a: seq<Node>, b: seq<Node>, l: Level)
    ensures Prepend(a, Prepend(b, l)) == Prepend(a + b, l)
  {
    assert a + (b + l.nodes) == (a + b) + l.nodes;
  }

  /** Text that does not start with a tag reaches at least to its first visible character. */
  lemma {:induction false} TextLength(text: seq<Byte>, p: nat)
    requires p <= |text| && At(text, SkipSpaces(text, p)) != Less
    ensures var end := Find(text, p, ElementHeader); end == -1 || end > SkipSpaces(text, p)
    decreases |text| - p
  {
    if At(text, p) != 0 && IsSpace(At(text, p)) { TextLength(text, p + 1); }
  }

  /** What stands at a position. */
  datatype Kind = AsDeclaration | AsComment | AsCData | AsUnknown | AsElement | AsText | AsNothing

  /** XMLDocument::Identify, behind the white space. */
  function Identify(text: seq<Byte>, q: nat): Kind {
    if At(text, q) == 0 then AsNothing
    else if Here(text, q, DeclarationHeader) then AsDeclaration
    else if Here(text, q, CommentHeader) then AsComment
    else if Here(text, q, CDataHeader) then AsCData
    else if Here(text, q, UnknownHeader) then AsUnknown
    else if At(text, q) == Less then AsElement
    else AsText
  }

  /** The nodes that are a header, a value and an end tag. */
  type LeafKind = k: Kind | k in {AsDeclaration, AsComment, AsCData, AsUnknown} witness AsComment

  function Header(k: LeafKind): (h: seq<Byte>)
    ensures |h| >= 2
  {
    match k
    case AsDeclaration => DeclarationHeader
    case AsComment => CommentHeader
    case AsCData => CDataHeader
    case AsUnknown => UnknownHeader
  }

  function EndOf(k: LeafKind): (e: seq<Byte>)
    ensures |e| > 0
  {
    match k
    case AsDeclaration => DeclarationEnd
    case AsComment => CommentEnd
    case AsCData => CDataEnd
    case AsUnknown => UnknownEnd
  }

  function Leaf(k: LeafKind, value: seq<Byte>): Node {
    match k
    case AsDeclaration => Declaration(value)
    case AsComment => Comment(value)
    case AsCData => Characters(value, true)
    case AsUnknown => Unknown(value)
  }

  function LeafError(k: LeafKind): Error {
    match k
    case AsDeclaration => ParsingDeclaration
    case AsComment => ParsingComment
    case AsCData => ParsingCData
    case AsUnknown => ParsingUnknown
  }

  /** XMLNode::ParseDeep: the siblings from p on. */
  function LevelAt(text: seq<Byte>, p: nat): (r: Level)
    requires p <= |text|
    ensures r.Closed? ==> p < r.next <= |text|
    decreases |text| - p, 1
  {
    var q := SkipSpaces(text, p);
    match Identify(text, q)
    case AsNothing => Ended([])
    case AsElement => ElementAt(text, q + 1)
    case AsText => TextAt(text, p)
    case k => LeafAt(text, q, k)
  }

  /** XMLText::ParseDeep: the text reaches to the next tag, which must not end the document. */
  function TextAt(text: seq<Byte>, p: nat): (r: Level)
    requires p <= |text| && Identify(text, SkipSpaces(text, p)) == AsText
    ensures r.Closed? ==> p < r.next <= |text|
    decreases |text| - p, 0
  {
    TextLength(text, p);
    var end := Find(text, p, ElementHeader);
    if end < 0 then Broken([], ParsingText)
    else if At(text, end + 1) == 0 then Broken([], Parsing)
    else Prepend([Characters(text[p..end], false)], LevelAt(text, end))
  }

  /** ParseDeep of comments, declarations, unknown nodes and CDATA. */
  function LeafAt(text: seq<Byte>, q: nat, k: LeafKind): (r: Level)
    requires Identify(text, q) == k
    ensures r.Closed? ==> q < r.next <= |text|
    decreases |text| - q, 0
  {
    HeaderHere(text, q, k);
    var start := q + |Header(k)|;
    var end := Find(text, start, EndOf(k));
    if end < 0 then Broken([], LeafError(k))
    else Prepend([Leaf(k, text[start..end])], LevelAt(text, end + |EndOf(k)|))
  }

  /** XMLElement::ParseDeep and what the level does with its outcome; p is behind the opening
      angle bracket. */
  function ElementAt(text: seq<Byte>, p: nat): (r: Level)
    requires p <= |text|
    ensures r.Closed? ==> p < r.next <= |text|
    decreases |text| - p, 0
  {
    var s := SkipSpaces(text, p);
    var closing := At(text, s) == Slash;
    var n := if closing then s + 1 else s;
    var e := NameEnd(text, n);
    if e == n then Broken([], Parsing)
    else
      var name, tag := text[n..e], TagAt(text, e, []);
      if tag.BadTag? then Broken([], tag.error)
      else if tag.sealed then Prepend([Element(name, tag.attributes, [])], LevelAt(text, tag.next))
      else if closing then Closed([], name, tag.next)
      else if At(text, tag.next) == 0 then Broken([], MismatchedElement)
      else
        match LevelAt(text, tag.next)
        case Ended(_) => Broken([], Parsing)
        case Broken(_, error) => Broken([], error)
        case Closed(children, end, next) =>
          if end != name then Broken([], MismatchedElement)
          else Prepend([Element(name, tag.attributes, children)], LevelAt(text, next))
  }

  lemma LevelCases(text: seq<Byte>, p: nat)
    requires p <= |text|
    ensures var q := SkipSpaces(text, p);
            && (Identify(text, q) == AsNothing ==> LevelAt(text, p) == Ended([]))
            && (Identify(text, q) == AsElement ==> q < |text| && LevelAt(text, p) == ElementAt(text, q + 1))
            && (Identify(text, q) == AsText ==> LevelAt(text, p) == TextAt(text, p))
            && (Identify(text, q) !in {AsNothing, AsElement, AsText} ==>
                  LevelAt(text, p) == LeafAt(text, q, Identify(text, q)))
  {
    hide ElementAt, TextAt, LeafAt, SkipSpaces, Here;
  }

  lemma HeaderHere(text: seq<Byte>, q: nat, k: LeafKind)
    requires Identify(text, q) == k
    ensures Here(text, q, Header(k)) && q + |Header(k)| <= |text|
  {}

  // ----- what the strings stand for -----

  /** An attribute value or plain text: entities and line breaks are replaced. */
  function Decoded(s: seq<Byte>): seq<Byte> {
    Meaning(RawString(s, true, true))
  }

  /** The values in which entities are left alone. */
  function Normalised(s: seq<Byte>): seq<Byte> {
    Meaning(RawString(s, false, true))
  }

  function InterpretedAttributes(attributes: seq<Attribute>): seq<Attribute> {
    seq(|attributes|, i requires 0 <= i < |attributes| => Attribute(attributes[i].name, Decoded(attributes[i].value)))
  }

  /** The node that a caller sees once its strings have been read. */
  function Interpreted(n: Node): Node {
    match n
    case Element(name, attributes, children) =>
      Element(name, InterpretedAttributes(attributes),
              seq(|children|, i requires 0 <= i < |children| => Interpreted(children[i])))
    case Characters(value, cdata) => Characters(if cdata then Normalised(value) else Decoded(value), cdata)
    case Comment(value) => Comment(Normalised(value))
    case Declaration(value) => Declaration(Normalised(value))
    case Unknown(value) => Unknown(Normalised(value))
  }

  function InterpretedAll(nodes: seq<Node>): seq<Node> {
    seq(|nodes|, i requires 0 <= i < |nodes| => Interpreted(nodes[i]))
  }

  /** What XMLDocument::Parse leaves: the top nodes and the error. */
  datatype Document = Good(nodes: seq<Node>) | Faulty(nodes: seq<Node>, error: Error)

  const ByteOrderMark: seq<Byte> := [0xEF, 0xBB, 0xBF]

  /** The document as it is found. A byte order mark is stepped over only to see whether anything
      follows. */
  function DocumentAt(text: seq<Byte>): Document {
    var p := SkipSpaces(text, 0);
    var q := if Here(text, p, ByteOrderMark) then p + 3 else p;
    if At(text, q) == 0 then Faulty([], EmptyDocument)
    else
      match LevelAt(text, 0)
      case Broken(nodes, error) => Faulty(nodes, error)
      case Ended(nodes) => Good(nodes)
      case Closed(nodes, _, _) => Good(nodes)
  }

  /** The document as it is read. */
  function ParseDocument(text: seq<Byte>): Document {
    match DocumentAt(text)
    case Good(nodes) => Good(InterpretedAll(nodes))
    case Faulty(nodes, error) => Faulty(InterpretedAll(nodes), error)
  }
}
