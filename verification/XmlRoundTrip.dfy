/** Parsing a compactly printed tree gives the tree back. */
module XmlRoundTrip {
  import opened Octets
  import opened Text
  import opened XmlText
  import opened Xml
  import opened XmlGrammar
  import opened XmlPieces
  import opened XmlPrinter
  import opened XmlParser

  // ----- the trees that can be printed -----

  predicate PlainText(n: Node) {
    n.Characters? && !n.cdata
  }

  /** Text of this kind must not stand next to its like, nor at the end of a document. */
  predicate Separated(nodes: seq<Node>) {
    forall k :: 0 <= k < |nodes| - 1 ==> !(PlainText(nodes[k]) && PlainText(nodes[k + 1]))
  }

  predicate Legal(n: Node) {
    match n
    case Element(name, attributes, children) =>
      && LegalName(name) && LegalAttributes(attributes)
      && Separated(children) && forall k :: 0 <= k < |children| ==> Legal(children[k])
    case Characters(value, cdata) =>
      && Plain(value)
      && if cdata then !Contains(value, CDataEnd) else exists k :: 0 <= k < |value| && !IsSpace(value[k])
    case Comment(value) => Plain(value) && !Contains(value, CommentEnd)
    case Declaration(value) => Plain(value) && !Contains(value, DeclarationEnd)
    case Unknown(value) =>
      && Plain(value) && !Contains(value, UnknownEnd)
      && !Here(value, 0, CommentHeader[2..]) && !Here(value, 0, CDataHeader[2..])
  }

  predicate LegalAttributes(attributes: seq<Attribute>) {
    && Distinct(attributes)
    && forall k :: 0 <= k < |attributes| ==> LegalName(attributes[k].name) && Plain(attributes[k].value)
  }

  // ----- the strings of a printed tree, as they stand in the text -----

  function RawAttribute(a: Attribute): Attribute {
    Attribute(a.name, EscapeText(a.value, false))
  }

  function RawAttributes(attributes: seq<Attribute>): seq<Attribute> {
    seq(|attributes|, i requires 0 <= i < |attributes| => RawAttribute(attributes[i]))
  }

  function Raw(n: Node): Node {
    match n
    case Element(name, attributes, children) =>
      Element(name, RawAttributes(attributes), seq(|children|, i requires 0 <= i < |children| => Raw(children[i])))
    case Characters(value, cdata) => if cdata then n else Characters(EscapeText(value, true), false)
    case _ => n
  }

  function RawAll(nodes: seq<Node>): seq<Node> {
    seq(|nodes|, i requires 0 <= i < |nodes| => Raw(nodes[i]))
  }

  lemma RawElement(n: Node)
    requires n.Element?
    ensures Raw(n) == Element(n.name, RawAttributes(n.attributes), RawAll(n.children))
  {
    hide RawAttributes;
    assert Raw(n).children == RawAll(n.children);
  }

  lemma NormalisedPlain(v: seq<Byte>)
    requires Plain(v)
    ensures Normalised(v) == v
  {
    DecodePlain(v, 0);
    assert v[0..] == v;
  }

  lemma InterpretedRawAttributes(attributes: seq<Attribute>)
    requires forall k :: 0 <= k < |attributes| ==> Plain(attributes[k].value)
    ensures InterpretedAttributes(RawAttributes(attributes)) == attributes
  {
    hide EscapeText, Decode, Plain;
    forall k | 0 <= k < |attributes| ensures InterpretedAttributes(RawAttributes(attributes))[k] == attributes[k] {
      DecodeEscaped(attributes[k].value, false);
    }
  }

  /** Reading the strings gives the tree that was printed. */
  lemma {:induction false} InterpretedRaw(n: Node)
    requires Legal(n)
    ensures Interpreted(Raw(n)) == n
  {
    hide EscapeText, Normalised, Decode, RawAttributes, InterpretedAttributes;
    match n
    case Element(name, attributes, children) =>
      InterpretedRawAttributes(attributes);
      forall i | 0 <= i < |children| ensures Interpreted(Raw(children[i])) == children[i]
      {
        InterpretedRaw(children[i]);
      }
      assert Interpreted(Raw(n)).children == children;
    case Characters(value, cdata) =>
      if cdata { NormalisedPlain(value); } else { DecodeEscaped(value, true); }
    case Comment(value) => NormalisedPlain(value);
    case Declaration(value) => NormalisedPlain(value);
    case Unknown(value) => NormalisedPlain(value);
  }

  lemma InterpretedRawAll(nodes: seq<Node>)
    requires forall k :: 0 <= k < |nodes| ==> Legal(nodes[k])
    ensures InterpretedAll(RawAll(nodes)) == nodes
  {
    hide Legal, Interpreted, Raw;
    forall k | 0 <= k < |nodes| ensures InterpretedAll(RawAll(nodes))[k] == nodes[k] { InterpretedRaw(nodes[k]); }
  }

  // ----- how the printer writes them -----

  function WrittenAttributes(attributes: seq<Attribute>): seq<Spaced> {
    seq(|attributes|, k requires 0 <= k < |attributes| =>
      Spaced([Space], Spelling(attributes[k].name, [], [], DoubleQuote, EscapeText(attributes[k].value, false))))
  }

  /** A printed node has no white space but one blank in front of every attribute. */
  function Written(n: Node): Item {
    match n
    case Element(name, attributes, children) =>
      Tagged([], [], name, WrittenAttributes(attributes), [],
             if children == [] then Sealed
             else Open(seq(|children|, k requires 0 <= k < |children| => Written(children[k])), [], [], name, []))
    case Characters(value, cdata) => if cdata then Valued([], AsCData, value) else Chars(EscapeText(value, true))
    case Comment(value) => Valued([], AsComment, value)
    case Declaration(value) => Valued([], AsDeclaration, value)
    case Unknown(value) => Valued([], AsUnknown, value)
  }

  function WrittenAll(nodes: seq<Node>): seq<Item> {
    seq(|nodes|, k requires 0 <= k < |nodes| => Written(nodes[k]))
  }

  function AsRest(nodes: seq<Node>, name: seq<Byte>): Rest {
    Open(WrittenAll(nodes), [], [], name, [])
  }

  lemma WrittenElement(n: Node)
    requires n.Element?
    ensures Written(n) == Tagged([], [], n.name, WrittenAttributes(n.attributes), [],
                                 if n.children == [] then Sealed else AsRest(n.children, n.name))
  {
    hide WrittenAttributes;
    if n.children != [] { assert Written(n).content.children == WrittenAll(n.children); }
  }

  lemma {:induction false} AttributesPrinted(attributes: seq<Attribute>)
    ensures AttributesText(WrittenAttributes(attributes)) == PrintAttributes(attributes)
    ensures AttributesOf(WrittenAttributes(attributes)) == RawAttributes(attributes)
    decreases |attributes|
  {
    hide EscapeText;
    if attributes != [] {
      AttributesPrinted(attributes[1..]);
      assert WrittenAttributes(attributes)[1..] == WrittenAttributes(attributes[1..]);
      AttributePrinted(attributes[0]);
      Regroup([Space], Spelled(WrittenAttributes(attributes)[0].attribute), PrintAttributes(attributes[1..]));
    }
  }

  lemma AttributePrinted(a: Attribute)
    ensures PrintAttribute(a) == [Space] + Spelled(Spelling(a.name, [], [], DoubleQuote, EscapeText(a.value, false)))
  {
    hide EscapeText;
  }

  /** It is the text of the item, and the item is found as the node with its strings escaped. */
  lemma {:induction false} PrintedItem(n: Node)
    ensures ItemText(Written(n)) == Print(n) && NodeOf(Written(n)) == Raw(n)
    decreases n, 1, 0
  {
    match n
    case Element(name, attributes, children) => PrintedElement(n);
    case Characters(value, cdata) =>
      hide EscapeText;
      Marked(AsCData, value);
      if cdata { assert [] + (CDataHeader + value + CDataEnd) == CDataHeader + value + CDataEnd; }
    case Comment(value) => PrintedValue(AsComment, value);
    case Declaration(value) => PrintedValue(AsDeclaration, value);
    case Unknown(value) => PrintedValue(AsUnknown, value);
  }

  lemma PrintedValue(k: LeafKind, value: seq<Byte>)
    ensures ItemText(Valued([], k, value)) == Header(k) + value + EndOf(k)
  {
    hide Header, EndOf, Opening, Ending;
    Marked(k, value);
    assert [] + (Header(k) + value + EndOf(k)) == Header(k) + value + EndOf(k);
  }

  lemma {:induction false} PrintedElement(n: Node)
    requires n.Element?
    ensures ItemText(Written(n)) == Print(n) && NodeOf(Written(n)) == Raw(n)
    decreases n, 0, |n.children| + 1
  {
    hide EscapeText, WrittenAttributes, RawAttributes, ChildrenText, PrintChildren, Written, Raw;
    WrittenElement(n);
    RawElement(n);
    AttributesPrinted(n.attributes);
    forall k | 0 <= k < |n.children| ensures NodeOf(Written(n.children[k])) == Raw(n.children[k]) {
      PrintedItem(n.children[k]);
    }
    assert NodesOf(WrittenAll(n.children)) == RawAll(n.children);
    assert n.children == [] ==> RawAll(n.children) == [];
    Tags(n.name);
    if n.children != [] { PrintedChildren(n, n.name, 0); }
  }

  lemma Tags(name: seq<Byte>)
    ensures Ascii("<") == [Less] && Ascii(">") == [Greater] && Ascii("/") == [Slash] && Ascii("/>") == [Slash, Greater]
  {}

  lemma {:induction false} PrintedChildren(n: Node, name: seq<Byte>, k: nat)
    requires n.Element? && k <= |n.children|
    ensures ChildrenText(AsRest(n.children, name), k) == PrintChildren(n, k)
    decreases n, 0, |n.children| - k
  {
    hide Print, ItemText, Written;
    if k < |n.children| {
      PrintedItem(n.children[k]);
      PrintedChildren(n, name, k + 1);
    }
  }

  // ----- legal trees -----

  /** A legal tree is printed as a well-formed item. */
  lemma {:induction false} LegalWritten(n: Node)
    requires Legal(n)
    ensures WellFormed(Written(n)) && (Written(n).Chars? <==> PlainText(n)) && (!PlainText(n) ==> Written(n).lead == [])
  {
    match n
    case Element(name, attributes, children) =>
      hide Legal, WellFormed, Written, WrittenAttributes, LegalAttributes, PlainText;
      LegalElement(n);
      WrittenElement(n);
      LegalTag(n);
      forall k | 0 <= k < |children|
        ensures WellFormed(Written(children[k])) && (Written(children[k]).Chars? <==> PlainText(children[k]))
        ensures !PlainText(children[k]) ==> Written(children[k]).lead == []
      {
        LegalWritten(children[k]);
      }
      SeparatedPlaced(children, name);
      WellFormedElement(n);
    case Characters(value, cdata) =>
      hide EscapeText;
      Headers();
      Ends();
      if cdata { PlainNulFree(value); } else { TextVisible(value); }
    case Comment(value) => LegalValue(AsComment, value);
    case Declaration(value) => LegalValue(AsDeclaration, value);
    case Unknown(value) => LegalValue(AsUnknown, value);
  }

  lemma LegalElement(n: Node)
    requires n.Element? && Legal(n)
    ensures LegalName(n.name) && LegalAttributes(n.attributes) && Separated(n.children)
    ensures forall k :: 0 <= k < |n.children| ==> Legal(n.children[k])
  {}

  lemma PlainNulFree(v: seq<Byte>)
    requires Plain(v)
    ensures NulFree(v)
  {}

  lemma LegalValue(k: LeafKind, value: seq<Byte>)
    requires k != AsCData && Legal(Leaf(k, value))
    ensures WellFormed(Valued([], k, value))
  {
    Headers();
    Ends();
    PlainNulFree(value);
  }

  lemma LegalTag(n: Node)
    requires n.Element? && LegalName(n.name) && LegalAttributes(n.attributes)
    ensures WellTagged(Written(n)) && Distinct(AttributesOf(WrittenAttributes(n.attributes)))
  {
    hide EscapeText;
    forall k | 0 <= k < |n.attributes| ensures WellSpelled(WrittenAttributes(n.attributes)[k].attribute) {
      EscapedClean(n.attributes[k].value, false);
    }
  }

  lemma SeparatedPlaced(nodes: seq<Node>, name: seq<Byte>)
    requires Separated(nodes)
    requires forall k :: 0 <= k < |nodes| ==>
               && (Written(nodes[k]).Chars? <==> PlainText(nodes[k]))
               && (!PlainText(nodes[k]) ==> Written(nodes[k]).lead == [])
    ensures Placed(AsRest(nodes, name))
  {
    hide Written, PlainText;
  }

  lemma WellFormedElement(n: Node)
    requires n.Element? && WellTagged(Written(n)) && Distinct(AttributesOf(WrittenAttributes(n.attributes)))
    requires LegalName(n.name) && Placed(AsRest(n.children, n.name))
    requires forall k :: 0 <= k < |n.children| ==> WellFormed(Written(n.children[k]))
    ensures WellFormed(Written(n))
  {
    hide WrittenAttributes, Distinct, WellTagged, Placed;
    WrittenElement(n);
  }

  /** Escaping leaves something visible. */
  lemma TextVisible(value: seq<Byte>)
    requires Legal(Characters(value, false))
    ensures Visible(EscapeText(value, true))
  {
    hide EscapeText;
    EscapedClean(value, true);
    var k :| 0 <= k < |value| && !IsSpace(value[k]);
    var j := EscapedVisible(value, true, k);
    Classes(EscapeText(value, true)[j]);
  }

  lemma {:induction false} EscapedVisible(v: seq<Byte>, restricted: bool, k: nat) returns (j: nat)
    requires k < |v| && !IsSpace(v[k])
    ensures j < |EscapeText(v, restricted)| && !IsSpace(EscapeText(v, restricted)[j])
    decreases k
  {
    if k == 0 {
      j := 0;
    } else {
      j := EscapedVisible(v[1..], restricted, k - 1);
      j := j + |EscapeChar(v[0], restricted)|;
    }
  }

  /** So a printed node is read, and the parser goes on behind it. */
  lemma NodeBack(text: seq<Byte>, p: nat, n: Node)
    requires Legal(n) && Here(text, p, Print(n)) && (PlainText(n) ==> Bounded(text, p + |Print(n)|))
    ensures p + |Print(n)| <= |text|
    ensures LevelAt(text, p) == Prepend([Raw(n)], LevelAt(text, p + |Print(n)|))
  {
    hide LevelAt, Legal, Here, Print, WellFormed, Prepend;
    LegalWritten(n);
    PrintedItem(n);
    ItemRead(text, p, Written(n));
  }

  // ----- documents -----

  /** Every legal document whose last node is not plain text is found as it was printed and read
      back as it was. */
  lemma RoundTrip(nodes: seq<Node>)
    requires nodes != [] && Separated(nodes) && !PlainText(nodes[|nodes| - 1])
    requires forall k :: 0 <= k < |nodes| ==> Legal(nodes[k])
    ensures DocumentAt(PrintNodes(nodes)) == Good(RawAll(nodes))
    ensures ParseDocument(PrintNodes(nodes)) == Good(nodes)
  {
    hide DocumentAt, PrintChildren, Legal, Interpreted, WellFormed, Placed, DocumentText, PlainText;
    DocumentWritten(nodes);
    DocumentRead(WrittenAll(nodes), []);
    InterpretedRawAll(nodes);
  }

  lemma DocumentWritten(nodes: seq<Node>)
    requires Separated(nodes) && forall k :: 0 <= k < |nodes| ==> Legal(nodes[k])
    ensures NodesOf(WrittenAll(nodes)) == RawAll(nodes) && DocumentText(WrittenAll(nodes), []) == PrintNodes(nodes)
    ensures nodes != [] && !PlainText(nodes[|nodes| - 1]) ==> Documented(WrittenAll(nodes), [])
    ensures Placed(AsRest(nodes, [])) && forall k :: 0 <= k < |nodes| ==> WellFormed(Written(nodes[k]))
    ensures forall k :: 0 <= k < |nodes| ==> (Written(nodes[k]).Chars? <==> PlainText(nodes[k]))
  {
    hide PrintChildren, ChildrenText, Legal, Separated, Written, NodeOf, Raw, WellFormed, PlainText;
    forall k | 0 <= k < |nodes|
      ensures NodeOf(Written(nodes[k])) == Raw(nodes[k]) && WellFormed(Written(nodes[k]))
      ensures (Written(nodes[k]).Chars? <==> PlainText(nodes[k]))
              && (!PlainText(nodes[k]) ==> Written(nodes[k]).lead == [])
    {
      PrintedItem(nodes[k]);
      LegalWritten(nodes[k]);
    }
    PrintedChildren(Element([], [], nodes), [], 0);
    SeparatedPlaced(nodes, []);
    assert PrintNodes(nodes) + [] == PrintNodes(nodes);
  }

  // ----- when a document is not read back -----

  lemma SeparatedAfter(n: Node, rest: seq<Node>)
    requires Separated(rest) && !(PlainText(n) && rest != [] && PlainText(rest[0]))
    ensures Separated([n] + rest)
  {
    var all := [n] + rest;
    assert forall k :: 1 <= k < |all| ==> all[k] == rest[k - 1];
  }

  /** The parser never makes two nodes of adjacent text, and none at all of a tag. */
  lemma {:induction false} LevelSeparated(text: seq<Byte>, p: nat)
    requires p <= |text|
    ensures Separated(LevelAt(text, p).nodes)
    ensures At(text, p) == Less && LevelAt(text, p).nodes != [] ==> !PlainText(LevelAt(text, p).nodes[0])
    decreases |text| - p, 1
  {
    hide LevelAt, ElementAt, TextAt, LeafAt, Here, Identify, SkipSpaces, Separated;
    var q := SkipSpaces(text, p);
    TagNotText(text, p);
    SeparatedNone();
    LevelCases(text, p);
    match Identify(text, q)
    case AsNothing =>
    case AsElement => ElementSeparated(text, q + 1);
    case AsText => TextSeparated(text, p);
    case k => LeafSeparated(text, p, q, k);
  }

  lemma {:induction false} TextSeparated(text: seq<Byte>, p: nat)
    requires p <= |text| && Identify(text, SkipSpaces(text, p)) == AsText
    ensures Separated(TextAt(text, p).nodes)
    decreases |text| - p, 0
  {
    hide LevelAt, Find, Here, Identify, SkipSpaces, Separated;
    SeparatedNone();
    TextLengthAt(text, p);
    var end := Find(text, p, ElementHeader);
    if end >= 0 && At(text, end + 1) != 0 {
      FoundBehind(text, p, ElementHeader, p);
      LevelSeparated(text, end);
      SeparatedAfter(Characters(text[p..end], false), LevelAt(text, end).nodes);
    }
  }

  lemma TextLengthAt(text: seq<Byte>, p: nat)
    requires p <= |text| && Identify(text, SkipSpaces(text, p)) == AsText
    ensures var end := Find(text, p, ElementHeader); end == -1 || end > SkipSpaces(text, p)
  {
    hide Find;
    TextLength(text, p);
  }

  lemma {:induction false} LeafSeparated(text: seq<Byte>, p: nat, q: nat, k: LeafKind)
    requires p <= q && Identify(text, q) == k
    ensures Separated(LeafAt(text, q, k).nodes)
    ensures LeafAt(text, q, k).nodes != [] ==> !PlainText(LeafAt(text, q, k).nodes[0])
    decreases |text| - p, 0
  {
    hide LevelAt, Find, Here, Header, EndOf, Identify, Leaf, Separated;
    SeparatedNone();
    HeaderHere(text, q, k);
    var start := q + |Header(k)|;
    var end := Find(text, start, EndOf(k));
    if end >= 0 {
      LeafNotPlain(k, text[start..end]);
      LevelSeparated(text, end + |EndOf(k)|);
      SeparatedAfter(Leaf(k, text[start..end]), LevelAt(text, end + |EndOf(k)|).nodes);
    }
  }

  lemma TagNotText(text: seq<Byte>, p: nat)
    requires p <= |text|
    ensures At(text, p) == Less ==> Identify(text, SkipSpaces(text, p)) != AsText
  {
    hide Here;
  }

  lemma SeparatedNone()
    ensures Separated([])
  {}

  lemma LeafNotPlain(k: LeafKind, value: seq<Byte>)
    ensures !PlainText(Leaf(k, value))
  {}

  lemma {:induction false} ElementSeparated(text: seq<Byte>, p: nat)
    requires p <= |text|
    ensures Separated(ElementAt(text, p).nodes)
    ensures ElementAt(text, p).nodes != [] ==> !PlainText(ElementAt(text, p).nodes[0])
    decreases |text| - p, 0
  {
    hide LevelAt, TagAt, NameEnd, SkipSpaces;
    var s := SkipSpaces(text, p);
    var n := if At(text, s) == Slash then s + 1 else s;
    var e := NameEnd(text, n);
    if e != n && TagAt(text, e, []).Tag? {
      var name, tag := text[n..e], TagAt(text, e, []);
      if tag.sealed {
        LevelSeparated(text, tag.next);
        SeparatedAfter(Element(name, tag.attributes, []), LevelAt(text, tag.next).nodes);
      } else if LevelAt(text, tag.next).Closed? {
        var inner := LevelAt(text, tag.next);
        LevelSeparated(text, inner.next);
        SeparatedAfter(Element(name, tag.attributes, inner.nodes), LevelAt(text, inner.next).nodes);
      }
    }
  }

  lemma {:induction false} NotFound(text: seq<Byte>, p: nat, c: Byte)
    requires p <= |text| && forall k :: p <= k < |text| ==> text[k] != c
    ensures Find(text, p, [c]) == -1
    decreases |text| - p
  {
    if At(text, p) != 0 {
      if Here(text, p, [c]) { HereAt(text, p, [c], 0); }
      NotFound(text, p + 1, c);
    }
  }

  /** Plain text that no tag follows is an error. */
  lemma TextAtEnd(text: seq<Byte>, p: nat, value: seq<Byte>)
    requires Legal(Characters(value, false)) && Here(text, p, EscapeText(value, true))
    requires p + |EscapeText(value, true)| == |text|
    ensures LevelAt(text, p) == Level.Broken([], ParsingText)
  {
    hide EscapeText, Here, Find, ElementAt, Identify, LevelAt, SkipSpaces, Visible;
    var t := EscapeText(value, true);
    TextVisible(value);
    CharsIdentified(text, p, t);
    LevelCases(text, p);
    forall k | p <= k < |text| ensures text[k] != Less { HereAt(text, p, t, k - p); }
    NotFound(text, p, Less);
  }

  lemma {:induction false} PrintedLast(nodes: seq<Node>, n: Node, k: nat)
    requires k <= |nodes|
    ensures PrintChildren(Element([], [], nodes + [n]), k) == PrintChildren(Element([], [], nodes), k) + Print(n)
    decreases |nodes| - k
  {
    hide Print;
    var all := Element([], [], nodes + [n]);
    if k < |nodes| {
      PrintedLast(nodes, n, k + 1);
      Regroup(Print(nodes[k]), PrintChildren(Element([], [], nodes), k + 1), Print(n));
    } else {
      assert PrintChildren(all, k + 1) == [];
      assert all.children[k] == n;
    }
  }

  /** Nodes at the start of a text are read back, whatever follows, if the last is not plain text. */
  lemma FrontBack(text: seq<Byte>, front: seq<Node>)
    requires Separated(front) && (front == [] || !PlainText(front[|front| - 1])) && Here(text, 0, PrintNodes(front))
    requires forall k :: 0 <= k < |front| ==> Legal(front[k])
    ensures |PrintNodes(front)| <= |text|
    ensures LevelAt(text, 0) == Prepend(RawAll(front), LevelAt(text, |PrintNodes(front)|))
  {
    hide LevelAt, PrintChildren, ChildrenText, Legal, Here, Separated, PlainText, Prepend, WellFormed, Placed;
    DocumentWritten(front);
    PrintedChildren(Element([], [], front), [], 0);
    ChildrenRead(text, 0, AsRest(front, []), 0);
    assert WrittenAll(front)[0..] == WrittenAll(front);
  }

  lemma SeparatedFront(front: seq<Node>, last: Node)
    requires Separated(front + [last]) && PlainText(last)
    ensures Separated(front) && (front == [] || !PlainText(front[|front| - 1]))
  {
    var all := front + [last];
    assert forall k :: 0 <= k < |front| ==> all[k] == front[k];
    assert all[|front|] == last;
  }

  /** A document that ends in plain text is an error. */
  lemma PlainEnd(front: seq<Node>, last: Node)
    requires Separated(front + [last]) && PlainText(last) && Legal(last)
    requires forall k :: 0 <= k < |front| ==> Legal(front[k])
    ensures LevelAt(PrintNodes(front + [last]), 0).Broken?
  {
    hide LevelAt, PrintChildren, Legal, Here, EscapeText, Separated;
    var text, start := PrintNodes(front + [last]), PrintNodes(front);
    PrintedLast(front, last, 0);
    assert last == Characters(last.value, false);
    HereWhole(text);
    HereSplit(text, 0, start, Print(last));
    TextAtEnd(text, |start|, last.value);
    SeparatedFront(front, last);
    FrontBack(text, front);
  }

  lemma NoneBefore(n: Node)
    requires n.Element? && n.children == []
    ensures PrintChildren(n, 0) == []
  {}

  /** Legal nodes are read back exactly when there are some, no two plain texts stand side by side
      and the last one is not plain text. */
  lemma RoundTripIff(nodes: seq<Node>)
    requires forall k :: 0 <= k < |nodes| ==> Legal(nodes[k])
    ensures ParseDocument(PrintNodes(nodes)) == Good(nodes) <==>
            nodes != [] && Separated(nodes) && !PlainText(nodes[|nodes| - 1])
  {
    hide LevelAt, PrintChildren, Legal, Separated, Interpreted;
    if nodes == [] {
      NoneBefore(Element([], [], []));
    } else if Separated(nodes) {
      var front, last := nodes[..|nodes| - 1], nodes[|nodes| - 1];
      assert nodes == front + [last];
      if PlainText(last) { PlainEnd(front, last); } else { RoundTrip(nodes); }
    } else {
      LevelSeparated(PrintNodes(nodes), 0);
      SeparatedInterpreted(LevelAt(PrintNodes(nodes), 0).nodes);
    }
  }

  lemma SeparatedInterpreted(nodes: seq<Node>)
    requires Separated(nodes)
    ensures Separated(InterpretedAll(nodes))
  {
    hide Interpreted;
    forall k | 0 <= k < |nodes| ensures PlainText(Interpreted(nodes[k])) == PlainText(nodes[k]) { SameKind(nodes[k]); }
  }

  lemma SameKind(n: Node)
    ensures PlainText(Interpreted(n)) == PlainText(n)
  {
    hide Decoded, Normalised;
  }

  /** In particular one root element. */
  lemma RootRoundTrip(root: Node)
    requires root.Element? && Legal(root)
    ensures DocumentAt(Print(root)) == Good([Raw(root)]) && ParseDocument(Print(root)) == Good([root])
  {
    hide DocumentAt, ParseDocument, Raw, Print, PrintChildren;
    RoundTrip([root]);
    OneChild(root);
    assert RawAll([root]) == [Raw(root)];
  }

  lemma OneChild(root: Node)
    ensures PrintNodes([root]) == Print(root)
  {
    var n := Element([], [], [root]);
    assert PrintChildren(n, 1) == [];
    assert PrintChildren(n, 0) == Print(root) + [];
  }

  // ----- the printer, the parser and the reader together -----

  /** Printed strings hold no numeric references where these would be looked for. */
  lemma {:induction false} RawDecodable(n: Node)
    requires Legal(n)
    ensures forall r :: r in Strings(Raw(n)) ==> Decodable(r)
  {
    hide EscapeText, Decodable, AttributeStrings, RawAttributes;
    match n
    case Element(name, attributes, children) =>
      RawElement(n);
      ElementStrings(name, RawAttributes(attributes), RawAll(children));
      NameDecodable(name);
      AttributesDecodable(attributes);
      forall i | 0 <= i < |children| ensures forall r :: r in Strings(Raw(children[i])) ==> Decodable(r) {
        RawDecodable(children[i]);
      }
      AllDecodable(children);
    case Characters(value, cdata) => ContentDecodable(value, true);
    case Comment(value) => OtherDecodable(value);
    case Declaration(value) => OtherDecodable(value);
    case Unknown(value) => OtherDecodable(value);
  }

  lemma NameDecodable(v: seq<Byte>)
    ensures Decodable(Name(v))
  {}

  lemma OtherDecodable(v: seq<Byte>)
    ensures Decodable(RawString(v, false, true))
  {}

  lemma ContentDecodable(v: seq<Byte>, restricted: bool)
    requires Plain(v)
    ensures Decodable(Content(EscapeText(v, restricted))) && Decodable(RawString(v, false, true))
  {
    hide Readable;
    EscapedClean(v, restricted);
    NothingMalformed(EscapeText(v, restricted), true, 0);
  }

  lemma {:induction false} AttributesDecodable(attributes: seq<Attribute>)
    requires forall k :: 0 <= k < |attributes| ==> Plain(attributes[k].value)
    ensures forall r :: r in AttributeStrings(RawAttributes(attributes)) ==> Decodable(r)
    decreases |attributes|
  {
    hide EscapeText, Decodable, Plain;
    if attributes != [] {
      var n := |attributes| - 1;
      AttributesDecodable(attributes[..n]);
      assert RawAttributes(attributes)[..n] == RawAttributes(attributes[..n]);
      NameDecodable(attributes[n].name);
      ContentDecodable(attributes[n].value, false);
    }
  }

  lemma {:induction false} AllDecodable(nodes: seq<Node>)
    requires forall i :: 0 <= i < |nodes| ==> forall r :: r in Strings(Raw(nodes[i])) ==> Decodable(r)
    ensures forall r :: r in AllStrings(RawAll(nodes)) ==> Decodable(r)
    decreases |nodes|
  {
    hide Strings, Raw, Decodable;
    if nodes == [] {
      NoPieces();
      assert RawAll(nodes) == [];
    } else {
      var n := |nodes| - 1;
      AllDecodable(nodes[..n]);
      assert RawAll(nodes) == RawAll(nodes[..n]) + [Raw(nodes[n])];
      StringsLast(RawAll(nodes[..n]), Raw(nodes[n]));
    }
  }

  /** A printed document is parsed into pieces of a buffer; read in any order, any number of times,
      each piece gives the string of the document that stands in its place. */
  method PrintParseRead(nodes: seq<Node>, order: seq<nat>) returns (buf: array<Byte>, found: seq<Located>)
    requires nodes != [] && Separated(nodes) && !PlainText(nodes[|nodes| - 1])
    requires forall k :: 0 <= k < |nodes| ==> Legal(nodes[k])
    requires forall k :: 0 <= k < |order| ==> order[k] < |AllStrings(nodes)|
    ensures AllShape(found, nodes) && |AllPieces(found)| == |AllStrings(nodes)|
    ensures forall k :: 0 <= k < |order| ==>
              CString(buf[..], AllPieces(found)[order[k]].start, AllStrings(nodes)[order[k]].bytes)
  {
    hide PrintNodes, Legal, Separated, PlainText, DocumentAt, ParseDocument, AllShape, AllPieces, AllStrings, Laid,
         Settled, Decodable, CString, Reads, RawAll;
    var printer := new Printer(true);
    printer.AcceptDocument(nodes, false);
    assert printer.out == PrintNodes(nodes);
    RoundTrip(nodes);
    var r;
    ghost var ps;
    buf, r, ps := Parse(printer.out);
    found := r.nodes;
    ghost var raw := AllStrings(RawAll(nodes));
    LaidApart(ps, 0, buf.Length);
    StringsRead(nodes);
    ShapeRawAll(found, nodes);
    ReadInAnyOrder(buf, AllPieces(found), order, raw);
    forall k | 0 <= k < |order|
      ensures CString(buf[..], AllPieces(found)[order[k]].start, AllStrings(nodes)[order[k]].bytes)
    {
      WasRead(ps[order[k]], buf[..], raw[order[k]]);
      ReadsAt(raw, AllStrings(nodes), order[k]);
    }
  }

  /** The strings of a printed document can be read, and give those of the document. */
  lemma StringsRead(nodes: seq<Node>)
    requires forall k :: 0 <= k < |nodes| ==> Legal(nodes[k])
    ensures forall i :: 0 <= i < |AllStrings(RawAll(nodes))| ==> Decodable(AllStrings(RawAll(nodes))[i])
    ensures Reads(AllStrings(RawAll(nodes)), AllStrings(nodes))
    ensures |AllStrings(RawAll(nodes))| == |AllStrings(nodes)|
  {
    hide Strings, Raw, Decodable, Reads, Legal, AllStrings;
    forall i | 0 <= i < |nodes|
      ensures forall r :: r in Strings(Raw(nodes[i])) ==> Decodable(r)
      ensures Reads(Strings(RawAll(nodes)[i]), Strings(nodes[i]))
    {
      RawDecodable(nodes[i]);
      NodeRead(Raw(nodes[i]));
      InterpretedRaw(nodes[i]);
    }
    AllDecodable(nodes);
    AllRead(RawAll(nodes), nodes);
    ReadsCount(AllStrings(RawAll(nodes)), AllStrings(nodes));
  }

  lemma ReadsCount(rs: seq<RawString>, us: seq<RawString>)
    requires Reads(rs, us)
    ensures |rs| == |us|
  {}

  lemma ReadsAt(rs: seq<RawString>, us: seq<RawString>, i: nat)
    requires Reads(rs, us) && i < |rs|
    ensures |rs| == |us| && Meaning(rs[i]) == us[i].bytes
  {}

  lemma ShapeRawAll(ls: seq<Located>, nodes: seq<Node>)
    requires AllShape(ls, RawAll(nodes))
    ensures AllShape(ls, nodes)
  {
    hide Shape, Raw;
    forall i | 0 <= i < |ls| ensures Shape(ls[i], nodes[i]) {
      assert RawAll(nodes)[i] == Raw(nodes[i]);
      ShapeRaw(ls[i], nodes[i]);
    }
  }

  lemma WasRead(t: StrPair, s: seq<Byte>, r: RawString)
    requires Settled(t, s, r) && !t.needsFlush
    ensures CString(s, t.start, Meaning(r))
  {}

  lemma {:induction false} ShapeRaw(l: Located, n: Node)
    requires Shape(l, Raw(n))
    ensures Shape(l, n)
  {
    hide EscapeText, RawAttributes;
    if l.LocatedElement? {
      var m := Raw(n);
      assert |RawAttributes(n.attributes)| == |n.attributes| by { SameNumber(n.attributes); }
      forall i | 0 <= i < |l.children| ensures Shape(l.children[i], n.children[i]) {
        assert m.children[i] == Raw(n.children[i]);
        ShapeRaw(l.children[i], n.children[i]);
      }
    }
  }

  lemma SameNumber(attributes: seq<Attribute>)
    ensures |RawAttributes(attributes)| == |attributes|
  {}
}
