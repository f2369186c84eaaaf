/** XMLPrinter: a visitor that appends to a buffer and keeps a stack of open elements. */
module XmlPrinter {
  import opened Octets
  import opened Text
  import opened XmlText
  import opened Xml

  class Printer {
    var elementJustOpened: bool
    var firstElement: bool
    var depth: int
    var textDepth: int
    var processEntities: bool
    const compact: bool
    var stack: seq<seq<Byte>>
    /** What has been printed, without the terminator that follows it. */
    var out: seq<Byte>

    constructor (compact: bool)
      ensures !elementJustOpened && firstElement && depth == 0 && textDepth == -1 && processEntities
      ensures this.compact == compact && stack == [] && out == []
    {
      elementJustOpened, firstElement, depth, textDepth, processEntities := false, true, 0, -1, true;
      this.compact := compact;
      stack, out := [], [];
    }

    /** The line break and indentation of the mode that is not compact. */
    function Indent(wanted: bool): seq<Byte>
      reads this
    {
      if wanted && textDepth < 0 && !compact then NewLine(depth) else []
    }

    method Print(t: seq<Byte>)
      modifies this`out
      ensures out == old(out) + t
    {
      out := out + t;
    }

    /** Prints the runs of characters between those that need an entity. */
    method PrintString(v: seq<Byte>, restricted: bool)
      modifies this`out
      ensures out == old(out) + if processEntities then EscapeText(v, restricted) else v
    {
      hide EscapeText, EscapeChar, Flagged;
      var p, q := 0, 0;
      if processEntities {
        ghost var all := old(out) + EscapeText(v, restricted);
        assert v[0..] == v;
        while q < |v|
          invariant 0 <= p <= q <= |v| && out + EscapeText(v[p..], restricted) == all
          invariant forall k :: p <= k < q ==> !Flagged(v[k], restricted)
        {
          FlaggedSmall(v[q], restricted);
          if v[q] < 64 && Flagged(v[q], restricted) {
            EntityRun(v, p, q, restricted);
            Assoc(out, v[p..q], EscapeChar(v[q], restricted), EscapeText(v[q + 1..], restricted));
            Print(v[p..q]);
            Print([Ampersand] + Entities[EntityIndex(v[q])].pattern + [Semicolon]);
            p := q + 1;
          }
          q := q + 1;
        }
        LastRun(v, p, restricted);
      }
      if !processEntities || q > p {
        assert !processEntities ==> v[p..] == v;
        Print(v[p..]);
      }
    }

    method SealElement()
      modifies this`elementJustOpened, this`out
      ensures !elementJustOpened && out == old(out) + [Greater]
    {
      elementJustOpened := false;
      Print([Greater]);
    }

    method OpenElement(name: seq<Byte>)
      modifies this
      ensures elementJustOpened && !firstElement && depth == old(depth) + 1
      ensures textDepth == old(textDepth) && processEntities == old(processEntities)
      ensures stack == old(stack) + [name]
      ensures out == old(out) + Seal(old(elementJustOpened)) + old(Indent(!firstElement)) + [Less] + name
    {
      if elementJustOpened { SealElement(); }
      stack := stack + [name];
      if textDepth < 0 && !firstElement && !compact { Print(NewLine(depth)); }
      Print([Less]);
      Print(name);
      elementJustOpened := true;
      firstElement := false;
      depth := depth + 1;
    }

    method PushAttribute(name: seq<Byte>, value: seq<Byte>)
      requires elementJustOpened
      modifies this`out
      ensures out == old(out) + ([Space] + name + [Equal, DoubleQuote]
                     + (if processEntities then EscapeText(value, false) else value) + [DoubleQuote])
    {
      hide EscapeText;
      Print([Space]);
      Print(name);
      Print([Equal, DoubleQuote]);
      PrintString(value, false);
      Print([DoubleQuote]);
    }

    method CloseElement()
      requires stack != []
      modifies this
      ensures !elementJustOpened && depth == old(depth) - 1 && firstElement == old(firstElement)
      ensures textDepth == (if old(textDepth) == depth then -1 else old(textDepth))
      ensures processEntities == old(processEntities)
      ensures stack == old(stack)[..|old(stack)| - 1]
      ensures out == old(out) + (if old(elementJustOpened) then [Slash, Greater]
                                 else (if old(textDepth) < 0 && !compact then NewLine(depth) else []) +
                                      EndTag(old(stack)[|old(stack)| - 1]))
                              + if depth == 0 && !compact then [LineFeed] else []
    {
      hide EndTag, NewLine;
      depth := depth - 1;
      var name := stack[|stack| - 1];
      stack := stack[..|stack| - 1];
      if elementJustOpened {
        Print([Slash, Greater]);
      } else {
        ghost var indent := if textDepth < 0 && !compact then NewLine(depth) else [];
        Assoc(out, indent, [], EndTag(name));
        assert out + [] == out;
        if textDepth < 0 && !compact { Print(NewLine(depth)); }
        Print(EndTag(name));
      }
      if textDepth == depth { textDepth := -1; }
      assert out + [] == out;
      if depth == 0 && !compact { Print([LineFeed]); }
      elementJustOpened := false;
    }

    method PushText(value: seq<Byte>, cdata: bool)
      modifies this
      ensures !elementJustOpened && textDepth == depth - 1 && depth == old(depth) && firstElement == old(firstElement)
      ensures stack == old(stack) && processEntities == old(processEntities)
      ensures out == old(out) + Seal(old(elementJustOpened)) +
                     if cdata then CDataHeader + value + CDataEnd
                     else if processEntities then EscapeText(value, true) else value
    {
      textDepth := depth - 1;
      if elementJustOpened { SealElement(); }
      if cdata {
        Print(CDataHeader);
        Print(value);
        Print(CDataEnd);
      } else {
        PrintString(value, true);
      }
    }

    /** PushComment, PushDeclaration and PushUnknown. */
    method PushLeaf(k: LeafKind, value: seq<Byte>)
      modifies this
      ensures !elementJustOpened && !firstElement && depth == old(depth) && textDepth == old(textDepth)
      ensures stack == old(stack) && processEntities == old(processEntities)
      ensures out == old(out) + Seal(old(elementJustOpened)) + old(Indent(!firstElement)) +
              (Header(k) + value + EndOf(k))
    {
      if elementJustOpened { SealElement(); }
      if textDepth < 0 && !firstElement && !compact { Print(NewLine(depth)); }
      firstElement := false;
      Print(Header(k) + value + EndOf(k));
    }

    /** Accept of a document whose entities are processed: in compact mode a byte order mark, if it has
        one, and the text of its nodes. */
    method AcceptDocument(nodes: seq<Node>, bom: bool)
      requires compact
      modifies this
      ensures elementJustOpened == (old(elementJustOpened) && nodes == [])
      ensures stack == old(stack) && depth == old(depth) && processEntities
      ensures out == old(out) + (if bom then ByteOrderMark else [])
                   + (if nodes == [] then [] else Seal(old(elementJustOpened))) + PrintNodes(nodes)
    {
      hide PrintChildren;
      processEntities := true;
      assert out + [] == out;
      if bom { Print(ByteOrderMark); }
      AcceptChildren(Element([], [], nodes));
    }

    /** Accept: in compact mode a node adds exactly its text, behind the end of the tag in front of
        it, and leaves the stack and the depth as they were. */
    method Accept(n: Node)
      requires compact && processEntities
      modifies this
      ensures !elementJustOpened && stack == old(stack) && depth == old(depth) && processEntities
      ensures out == old(out) + Seal(old(elementJustOpened)) + Xml.Print(n)
      decreases n, 2
    {
      hide Xml.Print, Header, EndOf, EscapeText;
      ghost var before := out + Seal(elementJustOpened);
      PrintedLeaf(before, n);
      match n
      case Element(_, _, _) => AcceptElement(n);
      case Characters(value, cdata) => PushText(value, cdata);
      case Comment(value) => PushLeaf(AsComment, value);
      case Declaration(value) => PushLeaf(AsDeclaration, value);
      case Unknown(value) => PushLeaf(AsUnknown, value);
    }

    method AcceptElement(n: Node)
      requires n.Element? && compact && processEntities
      modifies this
      ensures !elementJustOpened && stack == old(stack) && depth == old(depth) && processEntities
      ensures out == old(out) + Seal(old(elementJustOpened)) + Xml.Print(n)
      decreases n, 1
    {
      hide PrintChildren, PrintAttributes, EndTag;
      OpenElement(n.name);
      ghost var tags, before := stack, old(out) + Seal(old(elementJustOpened));
      assert before + [] == before;
      PushAttributes(n.attributes);
      AcceptChildren(n);
      CloseElement();
      assert tags[..|tags| - 1] == old(stack);
      Joined(before, n.name, PrintAttributes(n.attributes), PrintChildren(n, 0), EndTag(n.name), n.children == []);
      if n.children == [] { NoChildren(n); }
    }

    method PushAttributes(attributes: seq<Attribute>)
      requires elementJustOpened && processEntities
      modifies this`out
      ensures out == old(out) + PrintAttributes(attributes)
    {
      hide PrintAttribute, PrintAttributes;
      assert attributes[0..] == attributes;
      for i := 0 to |attributes|
        invariant out + PrintAttributes(attributes[i..]) == old(out) + PrintAttributes(attributes)
      {
        AttributesSplit(attributes, i);
        Assoc(out, PrintAttribute(attributes[i]), [], PrintAttributes(attributes[i + 1..]));
        PrintedAttribute(attributes[i]);
        PushAttribute(attributes[i].name, attributes[i].value);
      }
      LastAttribute(attributes);
    }

    method AcceptChildren(n: Node)
      requires n.Element? && compact && processEntities
      modifies this
      ensures elementJustOpened == (old(elementJustOpened) && n.children == [])
      ensures stack == old(stack) && depth == old(depth) && processEntities
      ensures out == old(out) + (if n.children == [] then [] else Seal(old(elementJustOpened))) + PrintChildren(n, 0)
      decreases n, 0
    {
      hide Xml.Print, PrintChildren;
      ghost var seal := if n.children == [] then [] else Seal(elementJustOpened);
      for i := 0 to |n.children|
        invariant elementJustOpened == (old(elementJustOpened) && i == 0)
        invariant stack == old(stack) && depth == old(depth) && processEntities
        invariant out + (if i == 0 then seal else []) + PrintChildren(n, i) == old(out) + seal + PrintChildren(n, 0)
      {
        ChildrenSplit(n, i);
        Assoc(out + (if i == 0 then seal else []), Xml.Print(n.children[i]), [], PrintChildren(n, i + 1));
        Accept(n.children[i]);
      }
      NoMore(n);
    }
  }

  /** What the calls for the kinds of leaves add is the text of the node. */
  lemma PrintedLeaf(x: seq<Byte>, n: Node)
    ensures n.Characters? ==>
              Xml.Print(n) == if n.cdata then CDataHeader + n.value + CDataEnd else EscapeText(n.value, true)
    ensures n.Comment? ==> x + [] + (Header(AsComment) + n.value + EndOf(AsComment)) == x + Xml.Print(n)
    ensures n.Declaration? ==> x + [] + (Header(AsDeclaration) + n.value + EndOf(AsDeclaration)) == x + Xml.Print(n)
    ensures n.Unknown? ==> x + [] + (Header(AsUnknown) + n.value + EndOf(AsUnknown)) == x + Xml.Print(n)
  {
    hide EscapeText, PrintChildren, PrintAttributes;
    assert x + [] == x;
  }

  /** The end of a start tag that is still open. */
  function Seal(open: bool): seq<Byte> {
    if open then [Greater] else []
  }

  function NewLine(depth: int): seq<Byte> {
    [LineFeed] + Spaces(4 * depth)
  }

  function Spaces(n: int): seq<Byte> {
    if n <= 0 then [] else [Space] + Spaces(n - 1)
  }

  /** Four blanks for every level. */
  lemma {:induction false} Blanks(n: int)
    ensures |Spaces(n)| == (if n <= 0 then 0 else n) && forall k :: 0 <= k < |Spaces(n)| ==> Spaces(n)[k] == ' ' as int
    decreases n
  {
    if n > 0 { Blanks(n - 1); }
  }

  lemma NewLineText(depth: nat)
    ensures |NewLine(depth)| == 1 + 4 * depth && NewLine(depth)[0] == '\n' as int
    ensures forall k :: 1 <= k < |NewLine(depth)| ==> NewLine(depth)[k] == ' ' as int
  {
    Blanks(4 * depth);
  }

  lemma {:induction false} UnflaggedRun(v: seq<Byte>, p: nat, q: nat, restricted: bool)
    requires p <= q <= |v| && forall k :: p <= k < q ==> !Flagged(v[k], restricted)
    ensures EscapeText(v[p..], restricted) == v[p..q] + EscapeText(v[q..], restricted)
    decreases q - p
  {
    hide Flagged, EscapeChar;
    if p < q {
      assert v[p..][1..] == v[p + 1..];
      UnflaggedRun(v, p + 1, q, restricted);
      FlaggedSmall(v[p], restricted);
      Assoc([v[p]], v[p + 1..q], [], EscapeText(v[q..], restricted));
      assert v[p..q] == [v[p]] + v[p + 1..q];
    }
  }

  lemma Assoc(x: seq<Byte>, a: seq<Byte>, b: seq<Byte>, c: seq<Byte>)
    ensures x + (a + (b + c)) == ((x + a) + b) + c
    ensures b == [] ==> x + (a + c) == (x + a) + c && (x + a) + b + c == (x + a) + c
  {}

  lemma FlaggedSmall(c: Byte, restricted: bool)
    ensures !Flagged(c, restricted) ==> EscapeChar(c, restricted) == [c]
    ensures Flagged(c, restricted) ==> c < 64 && Flagged(c, false)
    ensures Flagged(c, restricted) ==>
              EscapeChar(c, restricted) == [Ampersand] + Entities[EntityIndex(c)].pattern + [Semicolon]
  {}

  lemma EntityRun(v: seq<Byte>, p: nat, q: nat, restricted: bool)
    requires p <= q < |v| && Flagged(v[q], restricted) && forall k :: p <= k < q ==> !Flagged(v[k], restricted)
    ensures EscapeText(v[p..], restricted) ==
            v[p..q] + (EscapeChar(v[q], restricted) + EscapeText(v[q + 1..], restricted))
  {
    UnflaggedRun(v, p, q, restricted);
    assert v[q..][1..] == v[q + 1..];
  }

  lemma LastRun(v: seq<Byte>, p: nat, restricted: bool)
    requires p <= |v| && forall k :: p <= k < |v| ==> !Flagged(v[k], restricted)
    ensures EscapeText(v[p..], restricted) == v[p..]
  {
    UnflaggedRun(v, p, |v|, restricted);
    assert v[|v|..] == [] && v[p..|v|] == v[p..];
  }

  lemma AttributesSplit(attributes: seq<Attribute>, i: nat)
    requires i < |attributes|
    ensures PrintAttributes(attributes[i..]) == PrintAttribute(attributes[i]) + PrintAttributes(attributes[i + 1..])
  {
    assert attributes[i..][1..] == attributes[i + 1..];
  }

  lemma PrintedAttribute(a: Attribute)
    ensures PrintAttribute(a) == [Space] + a.name + [Equal, DoubleQuote] + EscapeText(a.value, false) + [DoubleQuote]
  {}

  lemma LastAttribute(attributes: seq<Attribute>)
    ensures PrintAttributes(attributes[|attributes|..]) == []
  {}

  lemma ChildrenSplit(n: Node, k: nat)
    requires n.Element? && k < |n.children|
    ensures PrintChildren(n, k) == Xml.Print(n.children[k]) + PrintChildren(n, k + 1)
  {}

  lemma NoMore(n: Node)
    requires n.Element?
    ensures PrintChildren(n, |n.children|) == []
  {}

  lemma NoChildren(n: Node)
    requires n.Element? && n.children == []
    ensures PrintChildren(n, 0) == []
  {}

  lemma Joined(x: seq<Byte>, name: seq<Byte>, a: seq<Byte>, c: seq<Byte>, e: seq<Byte>, empty: bool)
    ensures x + [Less] + name + a + [Greater] + c + e == x + ([Less] + name + a + ([Greater] + c + e))
    ensures x + [Less] + name + a + [] + [] + [Slash, Greater] == x + ([Less] + name + a + [Slash, Greater])
  {}
}
