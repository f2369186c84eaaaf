/** The parser of tinyxml2. It runs over the document buffer, notes where strings start and end, and
    ends names in place, behind its own cursor, while it goes on. */
module XmlParser {
  import opened Octets
  import opened Text
  import opened XmlText
  import opened Xml
  import opened XmlPieces

  /** From p on the buffer still holds the text it was filled with, and its terminator. */
  ghost predicate Ahead(buf: array<Byte>, text: seq<Byte>, p: nat)
    reads buf
  {
    && buf.Length == |text| + 1 && p <= |text| && buf[|text|] == 0
    && forall k :: p <= k < |text| ==> buf[k] == text[k]
  }

  // ----- scanning -----

  /** SkipWhiteSpace */
  method SkipWhiteSpace(buf: array<Byte>, p: nat, ghost text: seq<Byte>) returns (q: nat)
    requires Ahead(buf, text, p)
    ensures q == SkipSpaces(text, p)
  {
    q := p;
    while IsSpace(buf[q])
      invariant p <= q <= |text| && SkipSpaces(text, q) == SkipSpaces(text, p)
      decreases |text| - q
    {
      q := q + 1;
    }
  }

  /** strncmp: whether the tag stands at p. */
  method Matches(buf: array<Byte>, p: nat, tag: seq<Byte>, ghost text: seq<Byte>) returns (r: bool)
    requires Ahead(buf, text, p) && NulFree(tag)
    ensures r == Here(text, p, tag)
  {
    var i := 0;
    while i < |tag| && buf[p + i] == tag[i]
      invariant 0 <= i <= |tag| && p + i <= |text|
      invariant forall k :: 0 <= k < i ==> text[p + k] == tag[k]
    {
      i := i + 1;
    }
    r := i == |tag|;
    if r {
      HereFrom(text, p, tag);
    } else if Here(text, p, tag) {
      HereAt(text, p, tag, i);
    }
  }

  /** StrPair::ParseText: where the end tag stands, or -1. */
  method ParseText(buf: array<Byte>, start: nat, tag: seq<Byte>, ghost text: seq<Byte>) returns (end: int)
    requires Ahead(buf, text, start) && |tag| > 0 && NulFree(tag)
    ensures end == Find(text, start, tag)
  {
    var p := start;
    while buf[p] != 0
      invariant start <= p <= |text| && Find(text, p, tag) == Find(text, start, tag)
      decreases |text| - p
    {
      var here := Matches(buf, p, tag, text);
      if here { return p; }
      p := p + 1;
    }
    end := -1;
  }

  /** StrPair::ParseName: the position behind the name, the start itself if there is none. */
  method ParseName(buf: array<Byte>, start: nat, ghost text: seq<Byte>) returns (p: nat)
    requires Ahead(buf, text, start)
    ensures p == NameEnd(text, start)
  {
    p := start;
    while buf[p] != 0 && if p == start then IsNameStart(buf[p]) else IsNameChar(buf[p])
      invariant start <= p <= |text|
      invariant NameEnd(text, start) == if p == start then NameEnd(text, start) else NameRest(text, p)
      decreases |text| - p
    {
      p := p + 1;
    }
  }

  lemma {:induction false} NameRestChars(text: seq<Byte>, p: nat)
    requires p <= |text|
    ensures !IsNameChar(At(text, NameRest(text, p)))
    ensures forall k :: p <= k < NameRest(text, p) ==> IsNameChar(text[k])
    decreases |text| - p
  {
    if IsNameChar(At(text, p)) { NameRestChars(text, p + 1); }
  }

  /** A name holds no terminator, and no name starts right behind it. */
  lemma NameChars(text: seq<Byte>, p: nat)
    requires p <= |text|
    ensures var e := NameEnd(text, p);
            && NulFree(text[p..e]) && !IsNameStart(At(text, e))
  {
    if IsNameStart(At(text, p)) { NameRestChars(text, p + 1); }
  }

  /** StrPair::Set on text that has not been touched. */
  method NewPiece(buf: array<Byte>, start: nat, end: nat, entities: bool, newlines: bool, ghost text: seq<Byte>,
                  ghost p: nat)
    returns (t: StrPair)
    requires Ahead(buf, text, p) && p <= start <= end <= |text|
    ensures fresh(t) && t.start == start && t.end == end && t.needsFlush && t.entities == entities
    ensures t.newlines == newlines
    ensures Settled(t, buf[..], RawString(text[start..end], entities, newlines))
  {
    t := new StrPair(start, end, entities, newlines);
    assert buf[..][start..end] == text[start..end];
  }

  /** StringEqual on two C strings. */
  method StringEqual(buf: array<Byte>, i: nat, j: nat, ghost u: seq<Byte>, ghost v: seq<Byte>) returns (r: bool)
    requires CString(buf[..], i, u) && CString(buf[..], j, v) && NulFree(u) && NulFree(v)
    ensures r == (u == v)
  {
    assert forall k :: 0 <= k < |u| ==> buf[i + k] == buf[..][i..i + |u|][k] == u[k];
    assert forall k :: 0 <= k < |v| ==> buf[j + k] == buf[..][j..j + |v|][k] == v[k];
    var n := 0;
    while buf[i + n] != 0 && buf[j + n] != 0 && buf[i + n] == buf[j + n]
      invariant 0 <= n <= |u| && n <= |v| && u[..n] == v[..n]
      decreases |u| - n
    {
      n := n + 1;
    }
    r := buf[i + n] == 0 && buf[j + n] == 0;
    if r {
      assert u[..|u|] == u && v[..|v|] == v;
    } else if n < |u| && n < |v| {
      assert u[n] != v[n];
    }
  }

  // ----- tags -----

  datatype FoundAttribute = Found(attribute: LocatedAttribute, next: nat) | NotFound

  /** The limits of an attribute: the end of its name, and the start and end of its value. */
  method ScanAttribute(buf: array<Byte>, p: nat, ghost text: seq<Byte>) returns (ok: bool, n: nat, start: nat, end: nat)
    requires Ahead(buf, text, p)
    ensures ok ==> n == NameEnd(text, p) && p < n < start <= end < |text|
    ensures AttributeAt(text, p) == if ok then Read(Attribute(text[p..n], text[start..end]), end + 1) else Bad
  {
    hide NameEnd, SkipSpaces, Find;
    ok, start, end := false, 0, 0;
    n := ParseName(buf, p, text);
    if n == p || buf[n] == 0 { return; }
    var e := SkipWhiteSpace(buf, n, text);
    if buf[e] != Equal { return; }
    var q := SkipWhiteSpace(buf, e + 1, text);
    var quote := buf[q];
    if quote != DoubleQuote && quote != Apostrophe { return; }
    var r := ParseText(buf, q + 1, [quote], text);
    if r < 0 { return; }
    ok, start, end := true, q + 1, r;
  }

  /** XMLAttribute::ParseDeep */
  method ParseAttribute(buf: array<Byte>, p: nat, ghost text: seq<Byte>) returns (r: FoundAttribute)
    requires Ahead(buf, text, p)
    ensures var a := AttributeAt(text, p);
            && r.Found? == a.Read?
            && (r.Found? ==>
                  && r.next == a.next && p < r.next && fresh(r.attribute.name) && fresh(r.attribute.value)
                  && NulFree(a.attribute.name)
                  && Laid([r.attribute.name, r.attribute.value], p, r.next)
                  && Shown([r.attribute.name, r.attribute.value],
                           [Name(a.attribute.name), Content(a.attribute.value)], buf[..]))
  {
    hide NameEnd, AttributeAt, Settled, NulFree;
    var ok, n, start, end := ScanAttribute(buf, p, text);
    if !ok { return NotFound; }
    NameChars(text, p);
    var name := NewPiece(buf, p, n, false, false, text, p);
    var value := NewPiece(buf, start, end, true, true, text, p);
    r := Found(LocatedAttribute(name, value), end + 1);
  }

  /** The rest of a tag, with its pieces. */
  datatype FoundTag = FoundTag(attributes: seq<LocatedAttribute>, sealed: bool, next: nat) | FaultyTag(error: Error)

  /** The attributes read so far: their pieces lie in order between lo and hi, show what stood
      there, and their names have been ended. */
  ghost predicate Attributes(s: seq<Byte>, found: seq<LocatedAttribute>, ps: seq<StrPair>, done: seq<Attribute>,
                             lo: nat, hi: nat)
    reads ps
  {
    && |found| == |done| && ps == AttributePieces(found) && |ps| == 2 * |found| && Laid(ps, lo, hi)
    && Shown(ps, AttributeStrings(done), s)
    && forall i :: 0 <= i < |found| ==> ps[2 * i] == found[i].name && !ps[2 * i].needsFlush && NulFree(done[i].name)
  }

  lemma {:induction false} NamePlace(done: seq<Attribute>, i: nat)
    requires i < |done|
    ensures |AttributeStrings(done)| == 2 * |done| && AttributeStrings(done)[2 * i] == Name(done[i].name)
    decreases |done|
  {
    var n := |done| - 1;
    if n > 0 { NamePlace(done[..n], if i < n then i else 0); }
  }

  lemma NameEnded(t: StrPair, s: seq<Byte>, v: seq<Byte>)
    requires Settled(t, s, Name(v)) && !t.needsFlush
    ensures CString(s, t.start, v)
  {}

  lemma NameShown(s: seq<Byte>, found: seq<LocatedAttribute>, ps: seq<StrPair>, done: seq<Attribute>, lo: nat,
                  hi: nat, i: nat)
    requires Attributes(s, found, ps, done, lo, hi) && i < |found|
    ensures CString(s, found[i].name.start, done[i].name)
  {
    hide Settled, CString;
    NamePlace(done, i);
    assert Settled(ps[2 * i], s, AttributeStrings(done)[2 * i]);
    NameEnded(found[i].name, s, done[i].name);
  }

  /** FindAttribute, on names that have been ended already. */
  method FindAttribute(buf: array<Byte>, found: seq<LocatedAttribute>, name: nat, ghost ps: seq<StrPair>,
                       ghost done: seq<Attribute>, ghost lo: nat, ghost hi: nat, ghost v: seq<Byte>) returns (r: bool)
    requires Attributes(buf[..], found, ps, done, lo, hi) && CString(buf[..], name, v) && NulFree(v)
    ensures r == HasName(done, v)
  {
    hide CString, Settled;
    var i := 0;
    while i < |found|
      invariant 0 <= i <= |found| && forall k :: 0 <= k < i ==> done[k].name != v
    {
      NameShown(buf[..], found, ps, done, lo, hi, i);
      var same := StringEqual(buf, found[i].name.start, name, done[i].name, v);
      if same { return true; }
      i := i + 1;
    }
    r := false;
  }

  /** Ends the name of an attribute that has just been found behind those in ps. */
  method EndName(buf: array<Byte>, a: LocatedAttribute, ghost v: Attribute, ghost ps: seq<StrPair>,
                 ghost rs: seq<RawString>, ghost lo: nat, ghost p: nat, ghost q: nat, ghost next: nat)
    requires Laid(ps, lo, p) && Shown(ps, rs, buf[..]) && lo <= p <= q <= next
    requires Laid([a.name, a.value], q, next) && Shown([a.name, a.value], [Name(v.name), Content(v.value)], buf[..])
    modifies buf, a.name
    ensures !a.name.needsFlush && a.name.start == old(a.name.start) && a.name.end == old(a.name.end)
    ensures Laid(ps + [a.name, a.value], lo, next)
    ensures Shown(ps + [a.name, a.value], rs + [Name(v.name), Content(v.value)], buf[..])
    ensures forall k :: 0 <= k < buf.Length && !(a.name.start <= k <= a.name.end) ==> buf[k] == old(buf[k])
    ensures a.name !in ps && CString(buf[..], a.name.start, v.name)
  {
    hide Settled, Laid;
    ghost var n := [a.name, a.value];
    ghost var all, raw := ps + n, rs + [Name(v.name), Content(v.value)];
    LaidBoth(ps, n, lo, p, q, next);
    ShownBoth(ps, n, rs, [Name(v.name), Content(v.value)], buf[..]);
    assert all[|ps|] == a.name && raw[|ps|] == Name(v.name);
    ReadLaid(buf, a.name, all, |ps|, raw, lo, next);
    assert forall i :: 0 <= i < |ps| ==> all[i] == ps[i];
    assert Settled(all[|ps|], buf[..], raw[|ps|]);
    NameEnded(a.name, buf[..], v.name);
  }

  /** An attribute behind those in found, and its name ended. */
  method LocateAttribute(buf: array<Byte>, q: nat, ghost found: seq<LocatedAttribute>, ghost ps: seq<StrPair>,
                         ghost done: seq<Attribute>, ghost lo: nat, ghost p: nat, ghost text: seq<Byte>)
    returns (r: FoundAttribute, ghost v: Attribute)
    requires Ahead(buf, text, q) && lo <= p <= q && Attributes(buf[..], found, ps, done, lo, p)
    modifies buf
    ensures forall k :: 0 <= k < q ==> buf[k] == old(buf[k])
    ensures r.NotFound? ==> AttributeAt(text, q).Bad?
    ensures r.Found? ==> AttributeAt(text, q) == Read(v, r.next) && q < r.next
    ensures r.Found? ==> NulFree(v.name) && Ahead(buf, text, r.next)
    ensures r.Found? ==> fresh(r.attribute.name) && fresh(r.attribute.value) && !r.attribute.name.needsFlush
    ensures r.Found? ==> CString(buf[..], r.attribute.name.start, v.name) && Attributes(buf[..], found, ps, done, lo, p)
    ensures r.Found? ==> Laid(ps + [r.attribute.name, r.attribute.value], lo, r.next)
    ensures r.Found? ==> Shown(ps + [r.attribute.name, r.attribute.value],
                               AttributeStrings(done) + [Name(v.name), Content(v.value)], buf[..])
  {
    hide AttributeAt, Settled, CString, AttributePieces, AttributeStrings, NulFree;
    v := *;
    r := ParseAttribute(buf, q, text);
    if r.NotFound? { return; }
    v := AttributeAt(text, q).attribute;
    ghost var rs, n := AttributeStrings(done), [r.attribute.name, r.attribute.value];
    assert n[0] == r.attribute.name && q <= n[0].start <= n[0].end < r.next;
    EndName(buf, r.attribute, v, ps, rs, lo, p, q, r.next);
    StillAttributes(buf[..], found, ps, done, lo, p, n, [Name(v.name), Content(v.value)], r.next);
  }

  /** One more attribute, unless it is malformed or its name is taken. */
  method AddAttribute(buf: array<Byte>, q: nat, found: seq<LocatedAttribute>, ghost ps: seq<StrPair>,
                      ghost done: seq<Attribute>, ghost lo: nat, ghost p: nat, ghost text: seq<Byte>)
    returns (ok: bool, r: FoundAttribute, ghost v: Attribute)
    requires Ahead(buf, text, q) && lo <= p <= q && Attributes(buf[..], found, ps, done, lo, p)
    modifies buf
    ensures forall k :: 0 <= k < q ==> buf[k] == old(buf[k])
    ensures !ok ==> AttributeAt(text, q).Bad? || HasName(done, AttributeAt(text, q).attribute.name)
    ensures ok ==> r.Found? && AttributeAt(text, q) == Read(v, r.next) && !HasName(done, v.name)
    ensures ok ==> q < r.next && Ahead(buf, text, r.next) && fresh(r.attribute.name) && fresh(r.attribute.value)
    ensures ok ==> Attributes(buf[..], found + [r.attribute], ps + [r.attribute.name, r.attribute.value],
                              done + [v], lo, r.next)
  {
    hide AttributeAt, HasName, Settled, CString, AttributePieces, AttributeStrings, NulFree, Laid, Shown;
    r, v := LocateAttribute(buf, q, found, ps, done, lo, p, text);
    if r.NotFound? { return false, r, v; }
    var taken := FindAttribute(buf, found, r.attribute.name.start, ps, done, lo, p, v.name);
    if taken { return false, r, v; }
    MoreAttributes(buf[..], found, ps, done, lo, p, r.attribute, v, r.next);
    ok := true;
  }

  lemma MoreAttributes(s: seq<Byte>, found: seq<LocatedAttribute>, ps: seq<StrPair>, done: seq<Attribute>, lo: nat,
                       p: nat, a: LocatedAttribute, v: Attribute, next: nat)
    requires Attributes(s, found, ps, done, lo, p) && !a.name.needsFlush && NulFree(v.name)
    requires Laid(ps + [a.name, a.value], lo, next)
    requires Shown(ps + [a.name, a.value], AttributeStrings(done) + [Name(v.name), Content(v.value)], s)
    ensures Attributes(s, found + [a], ps + [a.name, a.value], done + [v], lo, next)
  {
    hide Settled, AttributePieces, AttributeStrings, NulFree, Laid, Shown;
    AttributesLast(found, a, done, v);
    var all := ps + [a.name, a.value];
    forall i | 0 <= i < |found + [a]|
      ensures all[2 * i] == (found + [a])[i].name && !all[2 * i].needsFlush && NulFree((done + [v])[i].name)
    {
      if i < |found| { assert all[2 * i] == ps[2 * i]; } else { assert all[2 * i] == a.name; }
    }
  }

  lemma StillAttributes(s: seq<Byte>, found: seq<LocatedAttribute>, ps: seq<StrPair>, done: seq<Attribute>, lo: nat,
                        hi: nat, more: seq<StrPair>, raw: seq<RawString>, next: nat)
    requires |found| == |done| && ps == AttributePieces(found) && |ps| == 2 * |found| == |AttributeStrings(done)|
    requires Laid(ps, lo, hi)
    requires Laid(ps + more, lo, next) && Shown(ps + more, AttributeStrings(done) + raw, s)
    requires forall i :: 0 <= i < |found| ==>
               ps[2 * i] == found[i].name && !ps[2 * i].needsFlush && NulFree(done[i].name)
    ensures Attributes(s, found, ps, done, lo, hi)
  {
    hide Settled, AttributePieces, AttributeStrings;
    FrontPart(ps, more, AttributeStrings(done), raw, s, lo, next);
  }

  /** XMLElement::ParseAttributes, from the end of the element's name. Strings that are read only to
      report an error are left alone. */
  method ParseAttributes(buf: array<Byte>, start: nat, ghost text: seq<Byte>)
    returns (r: FoundTag, ghost ps: seq<StrPair>)
    requires Ahead(buf, text, start) && !IsNameStart(At(text, start))
    modifies buf
    ensures forall k :: 0 <= k <= start ==> buf[k] == old(buf[k])
    ensures r.FaultyTag? ==> TagAt(text, start, []) == BadTag(r.error)
    ensures r.FoundTag? ==>
              var t := TagAt(text, start, []);
              && t.Tag? && r.sealed == t.sealed && r.next == t.next && |r.attributes| == |t.attributes|
              && ps == AttributePieces(r.attributes) && fresh(ps) && Ahead(buf, text, r.next) && start < r.next
              && Laid(ps, start + 1, r.next) && Shown(ps, AttributeStrings(t.attributes), buf[..])
  {
    hide SkipSpaces, TagAt, AttributeAt, HasName, AttributePieces, AttributeStrings, Settled, Laid, Shown;
    var p: nat, found: seq<LocatedAttribute> := start, [];
    ghost var done: seq<Attribute>, reach: nat := [], start + 1;
    ps := [];
    NoAttributes(buf[..], start);
    while true
      invariant start <= p && Ahead(buf, text, p) && TagAt(text, p, done) == TagAt(text, start, [])
      invariant start < reach && (reach <= p || (p == start && reach == start + 1))
      invariant Attributes(buf[..], found, ps, done, start + 1, reach) && fresh(ps)
      invariant forall k :: 0 <= k <= start ==> buf[k] == old(buf[k])
      decreases |text| - p
    {
      TagCases(text, p, done);
      var q := SkipWhiteSpace(buf, p, text);
      var c := buf[q];
      if c == 0 { return FaultyTag(ParsingElement), ps; }
      if IsNameStart(c) {
        var ok, a, v := AddAttribute(buf, q, found, ps, done, start + 1, reach, text);
        if !ok { return FaultyTag(ParsingAttribute), ps; }
        ps := ps + [a.attribute.name, a.attribute.value];
        found, done, p, reach := found + [a.attribute], done + [v], a.next, a.next;
      } else if c == Slash && buf[q + 1] == Greater {
        AttributesDone(buf[..], found, ps, done, start + 1, reach, q + 2);
        return FoundTag(found, true, q + 2), ps;
      } else if c == Greater {
        AttributesDone(buf[..], found, ps, done, start + 1, reach, q + 1);
        return FoundTag(found, false, q + 1), ps;
      } else {
        return FaultyTag(ParsingElement), ps;
      }
    }
  }

  lemma TagCases(text: seq<Byte>, p: nat, done: seq<Attribute>)
    requires p <= |text|
    ensures var q := SkipSpaces(text, p);
            var c, t := At(text, q), TagAt(text, p, done);
            if c == 0 then t == BadTag(ParsingElement)
            else if IsNameStart(c) then
              var a := AttributeAt(text, q);
              t == if a.Bad? || HasName(done, a.attribute.name) then BadTag(ParsingAttribute)
                   else TagAt(text, a.next, done + [a.attribute])
            else if c == Slash && At(text, q + 1) == Greater then t == Tag(done, true, q + 2)
            else if c == Greater then t == Tag(done, false, q + 1)
            else t == BadTag(ParsingElement)
  {
    hide AttributeAt, HasName, SkipSpaces;
  }

  lemma AttributesDone(s: seq<Byte>, found: seq<LocatedAttribute>, ps: seq<StrPair>, done: seq<Attribute>, lo: nat,
                       hi: nat, next: nat)
    requires Attributes(s, found, ps, done, lo, hi) && hi <= next
    ensures |found| == |done| && ps == AttributePieces(found) && Laid(ps, lo, next)
    ensures Shown(ps, AttributeStrings(done), s)
  {
    hide Settled, AttributePieces, AttributeStrings;
    LaidWider(ps, lo, hi, lo, next);
  }

  lemma NoAttributes(s: seq<Byte>, start: nat)
    ensures Attributes(s, [], [], [], start + 1, start + 1)
  {
    NoPieces();
  }

  // ----- elements and levels -----

  /** What reading one node tells the level it stands on. */
  datatype FoundNode = Sibling(node: Located, next: nat) | ClosingTag(name: StrPair, next: nat) | Fault(error: Error)

  /** The same with strings for pieces. */
  datatype Outcome = NextNode(node: Node, next: nat) | ClosingName(name: seq<Byte>, next: nat) | Failure(error: Error)

  /** What that makes of the rest of the level. */
  function Continued(text: seq<Byte>, o: Outcome): Level
    requires o.NextNode? ==> o.next <= |text|
  {
    match o
    case NextNode(node, next) => Prepend([node], LevelAt(text, next))
    case ClosingName(name, next) => Closed([], name, next)
    case Failure(error) => Level.Broken([], error)
  }

  /** Text ends at the angle bracket that the next tag starts with; no piece of that tag starts
      there. So this is where pieces in front of p end and pieces from p on start. */
  function Bound(text: seq<Byte>, p: nat): nat {
    if At(text, p) == Less then p + 1 else p
  }

  /** The pieces ps of what was found lie from lo on, and show the strings of the outcome. */
  ghost predicate NodeAgrees(r: FoundNode, ps: seq<StrPair>, o: Outcome, s: seq<Byte>, lo: nat, text: seq<Byte>)
    reads ps
  {
    match r
    case Sibling(node, next) =>
      && o.NextNode? && o.next == next && Shape(node, o.node) && ps == Pieces(node)
      && Laid(ps, lo, Bound(text, next)) && Shown(ps, Strings(o.node), s)
    case ClosingTag(name, next) =>
      && o.ClosingName? && o.next == next && ps == [name] && NulFree(o.name)
      && Laid(ps, lo, next) && Shown(ps, [Name(o.name)], s)
    case Fault(error) => o == Failure(error)
  }

  /** How a list of siblings ended. */
  datatype FoundLevel =
    | LevelClosed(nodes: seq<Located>, name: StrPair, next: nat)
    | LevelEnded(nodes: seq<Located>)
    | LevelBroken(nodes: seq<Located>, error: Error)

  ghost predicate LevelAgrees(r: FoundLevel, ps: seq<StrPair>, l: Level, s: seq<Byte>, lo: nat)
    reads ps
  {
    && AllShape(r.nodes, l.nodes)
    && match r
       case LevelClosed(nodes, name, next) =>
         && l.Closed? && l.next == next && ps == AllPieces(nodes) + [name] && NulFree(l.name)
         && Laid(ps, lo, next) && Shown(ps, AllStrings(l.nodes) + [Name(l.name)], s)
       case LevelEnded(nodes) =>
         l.Ended? && ps == AllPieces(nodes) && Laid(ps, lo, |s|) && Shown(ps, AllStrings(l.nodes), s)
       case LevelBroken(nodes, error) =>
         && l.Broken? && l.error == error && ps == AllPieces(nodes)
         && Laid(ps, lo, |s|) && Shown(ps, AllStrings(l.nodes), s)
  }

  /** XMLText::ParseDeep: white space in front of the text belongs to it. */
  method ParseCharacters(buf: array<Byte>, p: nat, ghost text: seq<Byte>)
    returns (r: FoundNode, ghost ps: seq<StrPair>, ghost o: Outcome)
    requires Ahead(buf, text, p) && Identify(text, SkipSpaces(text, p)) == AsText
    ensures !r.Fault? ==> p < r.next <= |text| && fresh(ps)
    ensures NodeAgrees(r, ps, o, buf[..], p, text) && Continued(text, o) == TextAt(text, p)
    ensures !r.ClosingTag?
  {
    hide Find, SkipSpaces, Prepend, Here, Identify, Settled, LevelAt;
    TextReach(text, p);
    ps := [];
    var end := ParseText(buf, p, ElementHeader, text);
    if end < 0 { return Fault(ParsingText), ps, Failure(ParsingText); }
    if buf[end + 1] == 0 { return Fault(Parsing), ps, Failure(Parsing); }
    var t := NewPiece(buf, p, end, true, true, text, p);
    ps := [t];
    return Sibling(LocatedText(t), end), ps, NextNode(Characters(text[p..end], false), end);
  }

  lemma TextReach(text: seq<Byte>, p: nat)
    requires p <= |text| && Identify(text, SkipSpaces(text, p)) == AsText
    ensures var end := Find(text, p, ElementHeader);
            end == -1 || (p <= SkipSpaces(text, p) < end && At(text, end) == Less)
  {
    hide Find;
    TextLength(text, p);
    if Find(text, p, ElementHeader) >= 0 { TagFound(text, p); }
  }

  lemma {:induction false} TagFound(text: seq<Byte>, p: nat)
    requires p <= |text| && Find(text, p, ElementHeader) >= 0
    ensures At(text, Find(text, p, ElementHeader)) == Less
    decreases |text| - p
  {
    if Here(text, p, ElementHeader) {
      HereAt(text, p, ElementHeader, 0);
    } else {
      TagFound(text, p + 1);
    }
  }

  /** ParseDeep of comments, declarations, unknown nodes and CDATA. */
  method ParseLeaf(buf: array<Byte>, q: nat, k: LeafKind, ghost text: seq<Byte>)
    returns (r: FoundNode, ghost ps: seq<StrPair>, ghost o: Outcome)
    requires Ahead(buf, text, q) && Identify(text, q) == k
    ensures !r.Fault? ==> q < r.next <= |text| && fresh(ps)
    ensures NodeAgrees(r, ps, o, buf[..], q + 1, text) && Continued(text, o) == LeafAt(text, q, k)
    ensures !r.ClosingTag?
  {
    hide Find, Prepend, Here, Identify, Settled, LevelAt, Header, LeafError, NulFree;
    HeaderHere(text, q, k);
    EndTags(k);
    ps := [];
    var start := q + |Header(k)|;
    var end := ParseText(buf, start, EndOf(k), text);
    if end < 0 { return Fault(LeafError(k)), ps, Failure(LeafError(k)); }
    var t := NewPiece(buf, start, end, false, true, text, q);
    ps := [t];
    return Sibling(LocatedLeaf(k, t), end + |EndOf(k)|), ps, NextNode(Leaf(k, text[start..end]), end + |EndOf(k)|);
  }

  lemma EndTags(k: LeafKind)
    ensures NulFree(EndOf(k)) && NulFree(Header(k))
  {}

  /** The end tag against the name of the element, both ended in place. */
  method CompareNames(buf: array<Byte>, name: StrPair, endName: StrPair, ghost u: seq<Byte>, ghost v: seq<Byte>,
                      ghost ps: seq<StrPair>, ghost rs: seq<RawString>, ghost lo: nat, ghost hi: nat)
    returns (same: bool)
    requires Laid(ps, lo, hi) && Shown(ps, rs, buf[..]) && |ps| >= 2 && ps[0] == name && ps[|ps| - 1] == endName
    requires rs[0] == Name(u) && rs[|ps| - 1] == Name(v) && NulFree(u) && NulFree(v)
    modifies buf, name, endName
    ensures Laid(ps, lo, hi) && Shown(ps, rs, buf[..]) && same == (u == v)
    ensures forall k :: 0 <= k < buf.Length && !(lo <= k < hi) ==> buf[k] == old(buf[k])
  {
    hide Settled, NulFree, CString;
    ReadLaid(buf, endName, ps, |ps| - 1, rs, lo, hi);
    ReadLaid(buf, name, ps, 0, rs, lo, hi);
    assert Settled(ps[0], buf[..], rs[0]) && Settled(ps[|ps| - 1], buf[..], rs[|ps| - 1]);
    NameEnded(name, buf[..], u);
    NameEnded(endName, buf[..], v);
    same := StringEqual(buf, endName.start, name.start, v, u);
  }

  /** The start of an element: its tag and, if it is one, that it is a closing tag. */
  datatype FoundStart = FoundStart(closing: bool, name: StrPair, attributes: seq<LocatedAttribute>, sealed: bool,
                                   next: nat)
                      | NoStart(error: Error)

  /** The same with strings for pieces, as XMLElement::ParseDeep reads it. */
  datatype Start = Start(closing: bool, name: seq<Byte>, attributes: seq<Attribute>, sealed: bool, next: nat)
                 | BadStart(error: Error)

  function StartAt(text: seq<Byte>, p: nat): (r: Start)
    requires p <= |text|
    ensures r.Start? ==> p < r.next <= |text|
  {
    var s := SkipSpaces(text, p);
    var closing := At(text, s) == Slash;
    var n := if closing then s + 1 else s;
    var e := NameEnd(text, n);
    if e == n then BadStart(Parsing)
    else
      var tag := TagAt(text, e, []);
      if tag.BadTag? then BadStart(tag.error) else Start(closing, text[n..e], tag.attributes, tag.sealed, tag.next)
  }

  lemma ElementCases(text: seq<Byte>, p: nat)
    requires p <= |text|
    ensures var r, l := StartAt(text, p), ElementAt(text, p);
            if r.BadStart? then l == Level.Broken([], r.error)
            else if r.sealed then l == Prepend([Element(r.name, r.attributes, [])], LevelAt(text, r.next))
            else if r.closing then l == Closed([], r.name, r.next)
            else if At(text, r.next) == 0 then l == Level.Broken([], MismatchedElement)
            else
              var inner := LevelAt(text, r.next);
              if inner.Ended? then l == Level.Broken([], Parsing)
              else if inner.Broken? then l == Level.Broken([], inner.error)
              else if inner.name != r.name then l == Level.Broken([], MismatchedElement)
              else l == Prepend([Element(r.name, r.attributes, inner.nodes)], LevelAt(text, inner.next))
  {
    hide LevelAt, SkipSpaces, NameEnd, TagAt, Prepend;
  }

  method ParseStart(buf: array<Byte>, start: nat, ghost text: seq<Byte>) returns (r: FoundStart, ghost ps: seq<StrPair>)
    requires Ahead(buf, text, start)
    modifies buf
    ensures forall k :: 0 <= k < start ==> buf[k] == old(buf[k])
    ensures r.NoStart? ==> StartAt(text, start) == BadStart(r.error)
    ensures r.FoundStart? ==>
              var v := StartAt(text, start);
              && v.Start? && r.closing == v.closing && r.sealed == v.sealed && r.next == v.next
              && |r.attributes| == |v.attributes| && NulFree(v.name)
              && ps == [r.name] + AttributePieces(r.attributes) && fresh(ps)
              && start < r.next && Ahead(buf, text, r.next)
              && Laid(ps, start, r.next) && Shown(ps, [Name(v.name)] + AttributeStrings(v.attributes), buf[..])
  {
    hide StartAt, TagAt, NameEnd, NulFree, AttributePieces, AttributeStrings, Settled, Laid, Shown;
    ps := [];
    var closing, p, e := ScanName(buf, start, text);
    if e == p { return NoStart(Parsing), ps; }
    NameChars(text, p);
    var name := NewPiece(buf, p, e, false, false, text, start);
    var tag, aps := ParseAttributes(buf, e, text);
    if tag.FaultyTag? { return NoStart(tag.error), ps; }
    NameFirst(name, buf[..], text, start, p, e, aps, AttributeStrings(TagAt(text, e, []).attributes), tag.next);
    ps := [name] + aps;
    r := FoundStart(closing, name, tag.attributes, tag.sealed, tag.next);
  }

  /** Whether the tag is a closing one, and the limits of its name. */
  method ScanName(buf: array<Byte>, start: nat, ghost text: seq<Byte>) returns (closing: bool, p: nat, e: nat)
    requires Ahead(buf, text, start)
    ensures start <= p <= e <= |text| && e == NameEnd(text, p)
    ensures e == p ==> StartAt(text, start) == BadStart(Parsing)
    ensures e != p ==> var tag := TagAt(text, e, []);
                       StartAt(text, start) == if tag.BadTag? then BadStart(tag.error)
                                               else Start(closing, text[p..e], tag.attributes, tag.sealed, tag.next)
  {
    hide SkipSpaces, NameEnd, TagAt;
    p := SkipWhiteSpace(buf, start, text);
    closing := buf[p] == Slash;
    if closing { p := p + 1; }
    e := ParseName(buf, p, text);
  }

  /** The name of an element and the pieces of its attributes. */
  lemma NameFirst(name: StrPair, s: seq<Byte>, text: seq<Byte>, start: nat, p: nat, e: nat, aps: seq<StrPair>,
                  rs: seq<RawString>, next: nat)
    requires name.needsFlush && !name.entities && !name.newlines && name.start == p && name.end == e
    requires start <= p <= e < next && e < |s| && e <= |text| && forall k :: p <= k < e ==> s[k] == text[k]
    requires Laid(aps, e + 1, next) && Shown(aps, rs, s)
    ensures Laid([name] + aps, start, next) && Shown([name] + aps, [Name(text[p..e])] + rs, s)
  {
    assert s[p..e] == text[p..e];
    NameStill(name, s, text[p..e]);
    hide Settled;
    LaidBoth([name], aps, start, e + 1, e + 1, next);
    ShownBoth([name], aps, [Name(text[p..e])], rs, s);
  }

  lemma NameStill(t: StrPair, s: seq<Byte>, v: seq<Byte>)
    requires t.needsFlush && !t.entities && !t.newlines && t.start <= t.end < |s| && s[t.start..t.end] == v
    ensures Settled(t, s, Name(v))
  {}

  /** XMLElement::ParseDeep and the checks of its caller; start is behind the angle bracket. */
  method ParseElement(buf: array<Byte>, start: nat, ghost text: seq<Byte>)
    returns (r: FoundNode, ghost ps: seq<StrPair>, ghost o: Outcome)
    requires Ahead(buf, text, start)
    modifies buf
    ensures forall k :: 0 <= k < start ==> buf[k] == old(buf[k])
    ensures !r.Fault? ==> start < r.next && fresh(ps) && Ahead(buf, text, r.next)
    ensures NodeAgrees(r, ps, o, buf[..], start, text) && Continued(text, o) == ElementAt(text, start)
    decreases |text| - start, 0
  {
    hide StartAt, ElementAt, LevelAt, Pieces, Strings, Settled, NulFree, AttributePieces, AttributeStrings, Laid,
         Shown, Prepend;
    ElementCases(text, start);
    ghost var v := StartAt(text, start);
    var f, head := ParseStart(buf, start, text);
    ps := [];
    if f.NoStart? { return Fault(f.error), ps, Failure(f.error); }
    assert head[0] == f.name;
    if f.sealed {
      ps := head;
      SealedElement(f.name, f.attributes, v.name, v.attributes, head, buf[..], start, f.next, text);
      return Sibling(LocatedElement(f.name, f.attributes, []), f.next), ps,
        NextNode(Element(v.name, v.attributes, []), f.next);
    }
    if f.closing {
      ps := [f.name];
      ClosingElement(f.name, AttributePieces(f.attributes), v.name, AttributeStrings(v.attributes), buf[..], start,
                     f.next);
      return ClosingTag(f.name, f.next), ps, ClosingName(v.name, f.next);
    }
    if buf[f.next] == 0 { return Fault(MismatchedElement), ps, Failure(MismatchedElement); }
    r, ps, o := ParseContent(buf, f, head, start, text);
    assert !r.Fault? ==> forall i :: 0 <= i < |ps| ==> ps[i] in ps && fresh(ps[i]);
  }

  lemma SealedElement(name: StrPair, attributes: seq<LocatedAttribute>, n: seq<Byte>, vs: seq<Attribute>,
                      ps: seq<StrPair>, s: seq<Byte>, lo: nat, next: nat, text: seq<Byte>)
    requires ps == [name] + AttributePieces(attributes) && |attributes| == |vs|
    requires Laid(ps, lo, next) && Shown(ps, [Name(n)] + AttributeStrings(vs), s)
    ensures var l, e := LocatedElement(name, attributes, []), Element(n, vs, []);
            Shape(l, e) && ps == Pieces(l) && Laid(ps, lo, Bound(text, next)) && Shown(ps, Strings(e), s)
  {
    hide Settled, AttributePieces, AttributeStrings;
    ElementPieces(name, attributes, []);
    ElementStrings(n, vs, []);
    NoPieces();
    LaidWider(ps, lo, next, lo, Bound(text, next));
  }

  lemma ClosingElement(name: StrPair, aps: seq<StrPair>, n: seq<Byte>, rs: seq<RawString>, s: seq<Byte>, lo: nat,
                       next: nat)
    requires Laid([name] + aps, lo, next) && Shown([name] + aps, [Name(n)] + rs, s)
    ensures Laid([name], lo, next) && Shown([name], [Name(n)], s)
  {
    hide Settled;
    FrontPart([name], aps, [Name(n)], rs, s, lo, next);
  }

  /** The children of an element that is open, up to its end tag. */
  method ParseContent(buf: array<Byte>, f: FoundStart, ghost head: seq<StrPair>, ghost start: nat,
                      ghost text: seq<Byte>)
    returns (r: FoundNode, ghost ps: seq<StrPair>, ghost o: Outcome)
    requires start <= |text| && f.FoundStart? && start < f.next && Ahead(buf, text, f.next) && At(text, f.next) != 0
    requires var v := StartAt(text, start);
             && v.Start? && !v.sealed && !v.closing && v.next == f.next && |f.attributes| == |v.attributes|
             && NulFree(v.name) && head == [f.name] + AttributePieces(f.attributes)
             && Laid(head, start, f.next) && Shown(head, [Name(v.name)] + AttributeStrings(v.attributes), buf[..])
    modifies buf, f.name
    ensures forall k :: 0 <= k < start ==> buf[k] == old(buf[k])
    ensures !r.Fault? ==> start < r.next && Ahead(buf, text, r.next) && forall t :: t in ps ==> t in head || fresh(t)
    ensures NodeAgrees(r, ps, o, buf[..], start, text) && Continued(text, o) == ElementAt(text, start)
    decreases |text| - f.next, 4
  {
    hide StartAt, ElementAt, LevelAt, Pieces, Strings, Settled, NulFree, AttributePieces, AttributeStrings, Laid,
         Shown, Prepend;
    ElementCases(text, start);
    ghost var v, l := StartAt(text, start), LevelAt(text, f.next);
    ghost var hs := [Name(v.name)] + AttributeStrings(v.attributes);
    ghost var was := buf[..];
    var inner, ips := ParseLevel(buf, f.next, text);
    ps := [];
    if inner.LevelEnded? { return Fault(Parsing), ps, Failure(Parsing); }
    if inner.LevelBroken? { return Fault(inner.error), ps, Failure(inner.error); }
    ShownBelow(head, hs, was, buf[..], start, f.next);
    ghost var all, raw := head + ips, hs + (AllStrings(l.nodes) + [Name(l.name)]);
    LaidBoth(head, ips, start, f.next, Bound(text, f.next), inner.next);
    ShownBoth(head, ips, hs, AllStrings(l.nodes) + [Name(l.name)], buf[..]);
    EndsOf(f.name, AttributePieces(f.attributes), AllPieces(inner.nodes), inner.name, v.name,
           AttributeStrings(v.attributes), AllStrings(l.nodes), l.name, all, raw, buf[..]);
    var same := CompareNames(buf, f.name, inner.name, v.name, l.name, all, raw, start, inner.next);
    if !same { return Fault(MismatchedElement), ps, Failure(MismatchedElement); }
    ps := head + AllPieces(inner.nodes);
    forall t | t in ps ensures t in head || fresh(t) {
      if t in AllPieces(inner.nodes) { assert t in ips; }
    }
    ContentElement(f, inner.nodes, inner.name, v, l, ps, all, raw, buf[..], start, inner.next, text);
    return Sibling(LocatedElement(f.name, f.attributes, inner.nodes), inner.next), ps,
           NextNode(Element(v.name, v.attributes, l.nodes), inner.next);
  }

  lemma EndsOf(name: StrPair, a: seq<StrPair>, b: seq<StrPair>, endName: StrPair, u: seq<Byte>,
               x: seq<RawString>, y: seq<RawString>, v: seq<Byte>, ps: seq<StrPair>, rs: seq<RawString>, s: seq<Byte>)
    requires ps == ([name] + a) + (b + [endName]) && rs == ([Name(u)] + x) + (y + [Name(v)]) && Shown(ps, rs, s)
    ensures |ps| >= 2 && ps[0] == name && ps[|ps| - 1] == endName && rs[0] == Name(u) && rs[|ps| - 1] == Name(v)
  {
    hide Settled;
  }

  lemma ContentElement(f: FoundStart, nodes: seq<Located>, endName: StrPair, v: Start, l: Level, ps: seq<StrPair>,
                       all: seq<StrPair>, raw: seq<RawString>, s: seq<Byte>, lo: nat, next: nat, text: seq<Byte>)
    requires f.FoundStart? && v.Start? && |f.attributes| == |v.attributes| && l.Closed? && AllShape(nodes, l.nodes)
    requires ps == [f.name] + AttributePieces(f.attributes) + AllPieces(nodes)
    requires all == ([f.name] + AttributePieces(f.attributes)) + (AllPieces(nodes) + [endName])
    requires raw == ([Name(v.name)] + AttributeStrings(v.attributes)) + (AllStrings(l.nodes) + [Name(l.name)])
    requires Laid(all, lo, next) && Shown(all, raw, s)
    ensures var e, n := LocatedElement(f.name, f.attributes, nodes), Element(v.name, v.attributes, l.nodes);
            Shape(e, n) && ps == Pieces(e) && Laid(ps, lo, Bound(text, next)) && Shown(ps, Strings(n), s)
  {
    hide Settled, AttributePieces, AttributeStrings, AllPieces, AllStrings, Pieces, Strings, Laid;
    ElementPieces(f.name, f.attributes, nodes);
    ElementStrings(v.name, v.attributes, l.nodes);
    var rs := [Name(v.name)] + AttributeStrings(v.attributes) + AllStrings(l.nodes);
    assert all == ps + [endName] && raw == rs + [Name(l.name)];
    FrontPart(ps, [endName], rs, [Name(l.name)], s, lo, next);
    LaidWider(ps, lo, next, lo, Bound(text, next));
  }

  /** XMLDocument::Identify, behind the white space. */
  method IdentifyNode(buf: array<Byte>, q: nat, ghost text: seq<Byte>) returns (k: Kind)
    requires Ahead(buf, text, q)
    ensures k == Identify(text, q)
  {
    if buf[q] == 0 { return AsNothing; }
    var here := Matches(buf, q, DeclarationHeader, text);
    if here { return AsDeclaration; }
    here := Matches(buf, q, CommentHeader, text);
    if here { return AsComment; }
    here := Matches(buf, q, CDataHeader, text);
    if here { return AsCData; }
    here := Matches(buf, q, UnknownHeader, text);
    if here { return AsUnknown; }
    k := if buf[q] == Less then AsElement else AsText;
  }

  /** One node of a level; none is left at the end of the text. */
  method ParseNode(buf: array<Byte>, p: nat, ghost text: seq<Byte>)
    returns (none: bool, r: FoundNode, ghost ps: seq<StrPair>, ghost o: Outcome)
    requires Ahead(buf, text, p)
    modifies buf
    ensures forall k :: 0 <= k < Bound(text, p) && k < buf.Length ==> buf[k] == old(buf[k])
    ensures none ==> LevelAt(text, p) == Ended([])
    ensures !none && !r.Fault? ==> p < r.next && fresh(ps) && Ahead(buf, text, r.next)
    ensures !none ==> NodeAgrees(r, ps, o, buf[..], Bound(text, p), text) && Continued(text, o) == LevelAt(text, p)
    decreases |text| - p, 1
  {
    hide ElementAt, TextAt, LeafAt, LevelAt, SkipSpaces, Identify, Prepend, Laid, Shown, Settled, Here, Continued,
         NodeAgrees;
    LevelCases(text, p);
    WhereItStarts(text, p);
    ps, o := [], Failure(Parsing);
    var q := SkipWhiteSpace(buf, p, text);
    var kind := IdentifyNode(buf, q, text);
    none := kind == AsNothing;
    match kind {
      case AsNothing => r := Fault(Parsing);
      case AsElement =>
        r, ps, o := ParseElement(buf, q + 1, text);
        NodeFrom(r, ps, o, buf[..], q + 1, Bound(text, p), text);
      case AsText =>
        r, ps, o := ParseCharacters(buf, p, text);
      case k =>
        r, ps, o := ParseLeaf(buf, q, k, text);
        NodeFrom(r, ps, o, buf[..], q + 1, Bound(text, p), text);
    }
  }

  /** Behind white space no tag starts at p itself. */
  lemma WhereItStarts(text: seq<Byte>, p: nat)
    requires p <= |text|
    ensures var q := SkipSpaces(text, p);
            && Bound(text, p) <= q + 1 && (Identify(text, q) == AsText ==> Bound(text, p) == p)
            && (Identify(text, q) != AsNothing ==> q < |text|)
  {
    hide Here;
  }

  lemma NodeFrom(r: FoundNode, ps: seq<StrPair>, o: Outcome, s: seq<Byte>, lo: nat, lo': nat, text: seq<Byte>)
    requires NodeAgrees(r, ps, o, s, lo, text) && lo' <= lo
    ensures NodeAgrees(r, ps, o, s, lo', text)
  {
    hide Shown, Pieces, Strings, Shape;
  }

  /** XMLNode::ParseDeep: siblings are appended until a closing tag, which is handed to the element
      that opened the level, the end or an error. */
  method ParseLevel(buf: array<Byte>, start: nat, ghost text: seq<Byte>) returns (r: FoundLevel, ghost ps: seq<StrPair>)
    requires Ahead(buf, text, start)
    modifies buf
    ensures forall k :: 0 <= k < Bound(text, start) && k < buf.Length ==> buf[k] == old(buf[k])
    ensures fresh(ps) && (r.LevelClosed? ==> start < r.next && Ahead(buf, text, r.next))
    ensures LevelAgrees(r, ps, LevelAt(text, start), buf[..], Bound(text, start))
    decreases |text| - start, 3
  {
    hide LevelAt, Pieces, Strings, AllPieces, AllStrings, Settled, Laid, Shown, Shape, AllShape;
    var p: nat, nodes: seq<Located> := start, [];
    ghost var vals: seq<Node> := [];
    ps := [];
    NothingBefore(LevelAt(text, start));
    NothingFound(buf[..], Bound(text, start));
    while true
      invariant start <= p && Ahead(buf, text, p) && LevelAt(text, start) == Prepend(vals, LevelAt(text, p))
      invariant AllShape(nodes, vals) && ps == AllPieces(nodes) && fresh(ps)
      invariant Laid(ps, Bound(text, start), Bound(text, p)) && Shown(ps, AllStrings(vals), buf[..])
      invariant forall k :: 0 <= k < Bound(text, start) && k < buf.Length ==> buf[k] == old(buf[k])
      decreases |text| - p
    {
      ghost var was := buf[..];
      var none, f, fps, o := ParseNode(buf, p, text);
      ShownBelow(ps, AllStrings(vals), was, buf[..], Bound(text, start), Bound(text, p));
      if none {
        LevelStops(vals, p, text, ps, buf[..], start);
        return LevelEnded(nodes), ps;
      }
      match f {
        case Fault(error) =>
          LevelStops(vals, p, text, ps, buf[..], start);
          return LevelBroken(nodes, error), ps;
        case ClosingTag(name, next) =>
          LevelCloses(vals, o.name, next, ps, name, buf[..], Bound(text, start), Bound(text, p));
          ps := ps + [name];
          return LevelClosed(nodes, name, next), ps;
        case Sibling(node, next) =>
          LevelGrows(nodes, vals, node, o.node, ps, fps, buf[..], Bound(text, start), Bound(text, p),
                     Bound(text, next));
          PrependTwice(vals, [o.node], LevelAt(text, next));
          nodes, vals, ps, p := nodes + [node], vals + [o.node], ps + fps, next;
      }
    }
  }

  lemma NothingFound(s: seq<Byte>, lo: nat)
    ensures AllShape([], []) && AllPieces([]) == [] && Laid([], lo, lo) && Shown([], AllStrings([]), s)
  {
    NoPieces();
  }

  /** Where the level ends without a closing tag. */
  lemma LevelStops(vals: seq<Node>, p: nat, text: seq<Byte>, ps: seq<StrPair>, s: seq<Byte>, start: nat)
    requires Laid(ps, Bound(text, start), Bound(text, p)) && p <= |text| && |s| == |text| + 1
    ensures Laid(ps, Bound(text, start), |s|) && vals + [] == vals
  {
    LaidWider(ps, Bound(text, start), Bound(text, p), Bound(text, start), |s|);
  }

  lemma LevelCloses(vals: seq<Node>, v: seq<Byte>, next: nat, ps: seq<StrPair>, name: StrPair, s: seq<Byte>, lo: nat,
                    mid: nat)
    requires Laid(ps, lo, mid) && Shown(ps, AllStrings(vals), s) && Laid([name], mid, next)
    requires Shown([name], [Name(v)], s) && lo <= mid
    ensures Laid(ps + [name], lo, next) && Shown(ps + [name], AllStrings(vals) + [Name(v)], s) && vals + [] == vals
  {
    hide Settled, AllStrings;
    assert [name][0] == name;
    LaidBoth(ps, [name], lo, mid, mid, next);
    ShownBoth(ps, [name], AllStrings(vals), [Name(v)], s);
  }

  lemma LevelGrows(nodes: seq<Located>, vals: seq<Node>, node: Located, v: Node, ps: seq<StrPair>, fps: seq<StrPair>,
                   s: seq<Byte>, lo: nat, mid: nat, hi: nat)
    requires AllShape(nodes, vals) && Shape(node, v) && ps == AllPieces(nodes) && fps == Pieces(node) && lo <= mid <= hi
    requires Laid(ps, lo, mid) && Shown(ps, AllStrings(vals), s) && Laid(fps, mid, hi) && Shown(fps, Strings(v), s)
    ensures AllShape(nodes + [node], vals + [v]) && ps + fps == AllPieces(nodes + [node])
    ensures Laid(ps + fps, lo, hi) && Shown(ps + fps, AllStrings(vals + [v]), s)
  {
    hide Settled, AllStrings, AllPieces, Pieces, Strings, Shape;
    PiecesLast(nodes, node);
    StringsLast(vals, v);
    LaidBoth(ps, fps, lo, mid, mid, hi);
    ShownBoth(ps, fps, AllStrings(vals), Strings(v), s);
  }

  // ----- documents -----

  /** The nodes of a document and its error. */
  datatype FoundDocument = GoodDocument(nodes: seq<Located>) | FaultyDocument(nodes: seq<Located>, error: Error)

  ghost predicate DocumentAgrees(r: FoundDocument, d: Document, ps: seq<StrPair>, s: seq<Byte>)
    reads ps
  {
    && (if r.GoodDocument? then d.Good? else d.Faulty? && d.error == r.error)
    && AllShape(r.nodes, d.nodes) && ps == AllPieces(r.nodes) && Laid(ps, 0, |s|) && Shown(ps, AllStrings(d.nodes), s)
  }

  /** XMLDocument::Parse: the text is copied into a buffer, and the pieces of all nodes lie in it in
      the order of the text, each where its string stood. */
  method Parse(text: seq<Byte>) returns (buf: array<Byte>, r: FoundDocument, ghost ps: seq<StrPair>)
    ensures fresh(buf) && buf.Length == |text| + 1 && fresh(ps) && DocumentAgrees(r, DocumentAt(text), ps, buf[..])
  {
    hide LevelAt, SkipSpaces, AllShape, AllPieces, AllStrings, Laid, Shown;
    buf := new Byte[|text| + 1](i requires 0 <= i <= |text| => if i < |text| then text[i] else 0);
    ps := [];
    NothingFound(buf[..], 0);
    LaidWider([], 0, 0, 0, |text| + 1);
    var p := SkipWhiteSpace(buf, 0, text);
    var bom := Matches(buf, p, ByteOrderMark, text);
    if bom { p := p + 3; }
    if buf[p] == 0 { return buf, FaultyDocument([], EmptyDocument), ps; }
    var level;
    level, ps := ParseLevel(buf, 0, text);
    DocumentPieces(level, LevelAt(text, 0), ps, buf[..], Bound(text, 0));
    ghost var all := AllPieces(level.nodes);
    forall i | 0 <= i < |all| ensures fresh(all[i]) {
      assert all[i] in all && all[i] in ps;
      var j :| 0 <= j < |ps| && ps[j] == all[i];
    }
    match level {
      case LevelBroken(nodes, error) => r := FaultyDocument(nodes, error);
      case LevelEnded(nodes) => r := GoodDocument(nodes);
      case LevelClosed(nodes, name, next) =>
        r := GoodDocument(nodes);
        ps := AllPieces(nodes);
    }
  }

  lemma DocumentPieces(r: FoundLevel, l: Level, ps: seq<StrPair>, s: seq<Byte>, lo: nat)
    requires LevelAgrees(r, ps, l, s, lo) && (r.LevelClosed? ==> r.next <= |s|)
    ensures Laid(AllPieces(r.nodes), 0, |s|) && Shown(AllPieces(r.nodes), AllStrings(l.nodes), s)
    ensures forall t :: t in AllPieces(r.nodes) ==> t in ps
  {
    hide Settled, AllPieces, AllStrings, AllShape;
    if r.LevelClosed? {
      CountAll(AllPieces(r.nodes), [r.name], AllStrings(l.nodes), [Name(l.name)], s);
      FrontPart(AllPieces(r.nodes), [r.name], AllStrings(l.nodes), [Name(l.name)], s, lo, r.next);
      LaidWider(AllPieces(r.nodes), lo, r.next, 0, |s|);
    } else {
      LaidWider(ps, lo, |s|, 0, |s|);
    }
  }

  lemma CountAll(a: seq<StrPair>, b: seq<StrPair>, x: seq<RawString>, y: seq<RawString>, s: seq<Byte>)
    requires Shown(a + b, x + y, s) && |b| == |y|
    ensures |a| == |x|
  {}
}
