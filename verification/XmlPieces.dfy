/** Trees whose strings are pieces of the document buffer. */
module XmlPieces {
  import opened Octets
  import opened Text
  import opened XmlText
  import opened Xml

  datatype LocatedAttribute = LocatedAttribute(name: StrPair, value: StrPair)

  /** A node as the parser makes it. */
  datatype Located =
    | LocatedElement(name: StrPair, attributes: seq<LocatedAttribute>, children: seq<Located>)
    | LocatedLeaf(kind: LeafKind, value: StrPair)
    | LocatedText(value: StrPair)

  function Flatten<T>(ss: seq<seq<T>>): seq<T> {
    if ss == [] then [] else Flatten(ss[..|ss| - 1]) + ss[|ss| - 1]
  }

  // ----- the pieces of a tree and the strings of a node, in the order of the text -----

  function AttributePieces(attributes: seq<LocatedAttribute>): seq<StrPair> {
    if attributes == [] then []
    else
      var a := attributes[|attributes| - 1];
      AttributePieces(attributes[..|attributes| - 1]) + [a.name, a.value]
  }

  function Pieces(n: Located): seq<StrPair> {
    match n
    case LocatedElement(name, attributes, children) =>
      [name] + AttributePieces(attributes)
      + Flatten(seq(|children|, i requires 0 <= i < |children| => Pieces(children[i])))
    case LocatedLeaf(_, value) => [value]
    case LocatedText(value) => [value]
  }

  function AllPieces(nodes: seq<Located>): seq<StrPair> {
    Flatten(seq(|nodes|, i requires 0 <= i < |nodes| => Pieces(nodes[i])))
  }

  function Name(bytes: seq<Byte>): RawString {
    RawString(bytes, false, false)
  }

  function Content(bytes: seq<Byte>): RawString {
    RawString(bytes, true, true)
  }

  function AttributeStrings(attributes: seq<Attribute>): seq<RawString> {
    if attributes == [] then []
    else
      var a := attributes[|attributes| - 1];
      AttributeStrings(attributes[..|attributes| - 1]) + [Name(a.name), Content(a.value)]
  }

  function Strings(n: Node): seq<RawString> {
    match n
    case Element(name, attributes, children) =>
      [Name(name)] + AttributeStrings(attributes)
      + Flatten(seq(|children|, i requires 0 <= i < |children| => Strings(children[i])))
    case Characters(value, cdata) => [RawString(value, !cdata, true)]
    case Comment(value) => [RawString(value, false, true)]
    case Declaration(value) => [RawString(value, false, true)]
    case Unknown(value) => [RawString(value, false, true)]
  }

  function AllStrings(nodes: seq<Node>): seq<RawString> {
    Flatten(seq(|nodes|, i requires 0 <= i < |nodes| => Strings(nodes[i])))
  }

  /** The same kinds of nodes in the same places. */
  predicate Shape(l: Located, n: Node) {
    match l
    case LocatedElement(_, attributes, children) =>
      && n.Element? && |attributes| == |n.attributes| && |children| == |n.children|
      && forall i :: 0 <= i < |children| ==> Shape(children[i], n.children[i])
    case LocatedLeaf(k, _) => !n.Element? && n == Leaf(k, n.value)
    case LocatedText(_) => n.Characters? && !n.cdata
  }

  predicate AllShape(ls: seq<Located>, nodes: seq<Node>) {
    |ls| == |nodes| && forall i :: 0 <= i < |ls| ==> Shape(ls[i], nodes[i])
  }

  // ----- growing -----

  lemma FlattenLast<T>(ss: seq<seq<T>>, s: seq<T>)
    ensures Flatten(ss + [s]) == Flatten(ss) + s
  {
    assert (ss + [s])[..|ss|] == ss;
  }

  lemma PiecesLast(nodes: seq<Located>, n: Located)
    ensures AllPieces(nodes + [n]) == AllPieces(nodes) + Pieces(n)
  {
    hide Pieces;
    var ss := seq(|nodes|, i requires 0 <= i < |nodes| => Pieces(nodes[i]));
    var all := nodes + [n];
    assert seq(|all|, i requires 0 <= i < |all| => Pieces(all[i])) == ss + [Pieces(n)];
    FlattenLast(ss, Pieces(n));
  }

  lemma StringsLast(nodes: seq<Node>, n: Node)
    ensures AllStrings(nodes + [n]) == AllStrings(nodes) + Strings(n)
  {
    hide Strings;
    var ss := seq(|nodes|, i requires 0 <= i < |nodes| => Strings(nodes[i]));
    var all := nodes + [n];
    assert seq(|all|, i requires 0 <= i < |all| => Strings(all[i])) == ss + [Strings(n)];
    FlattenLast(ss, Strings(n));
  }

  lemma ElementPieces(name: StrPair, attributes: seq<LocatedAttribute>, children: seq<Located>)
    ensures Pieces(LocatedElement(name, attributes, children)) ==
            [name] + AttributePieces(attributes) + AllPieces(children)
  {
    var n := LocatedElement(name, attributes, children);
    assert seq(|children|, i requires 0 <= i < |children| => Pieces(n.children[i]))
        == seq(|children|, i requires 0 <= i < |children| => Pieces(children[i]));
  }

  lemma ElementStrings(name: seq<Byte>, attributes: seq<Attribute>, children: seq<Node>)
    ensures Strings(Element(name, attributes, children)) ==
            [Name(name)] + AttributeStrings(attributes) + AllStrings(children)
  {
    var n := Element(name, attributes, children);
    assert seq(|children|, i requires 0 <= i < |children| => Strings(n.children[i]))
        == seq(|children|, i requires 0 <= i < |children| => Strings(children[i]));
  }

  lemma NoPieces()
    ensures AllPieces([]) == [] && AllStrings([]) == [] && AttributePieces([]) == [] && AttributeStrings([]) == []
  {}

  lemma AttributesLast(attributes: seq<LocatedAttribute>, a: LocatedAttribute, vs: seq<Attribute>, v: Attribute)
    ensures AttributePieces(attributes + [a]) == AttributePieces(attributes) + [a.name, a.value]
    ensures AttributeStrings(vs + [v]) == AttributeStrings(vs) + [Name(v.name), Content(v.value)]
  {
    assert (attributes + [a])[..|attributes|] == attributes;
    assert (vs + [v])[..|vs|] == vs;
  }

  // ----- where pieces lie and what they show -----

  /** One behind the other between lo and hi, each with a byte to spare. */
  ghost predicate Laid(ps: seq<StrPair>, lo: nat, hi: nat)
    reads ps
  {
    && (forall i :: 0 <= i < |ps| ==> lo <= ps[i].start <= ps[i].end < hi)
    && forall i, j :: 0 <= i < j < |ps| ==> ps[i].end < ps[j].start
  }

  /** Each piece is where its string stood. */
  ghost predicate Shown(ps: seq<StrPair>, rs: seq<RawString>, s: seq<Byte>)
    reads ps
  {
    |ps| == |rs| && forall i :: 0 <= i < |ps| ==> Settled(ps[i], s, rs[i])
  }

  lemma LaidBoth(a: seq<StrPair>, b: seq<StrPair>, lo: nat, mid: nat, mid': nat, hi: nat)
    requires Laid(a, lo, mid) && Laid(b, mid', hi) && lo <= mid <= mid' <= hi
    ensures Laid(a + b, lo, hi)
  {
    var all := a + b;
    assert forall i :: 0 <= i < |all| ==> all[i] == if i < |a| then a[i] else b[i - |a|];
  }

  lemma ShownBoth(a: seq<StrPair>, b: seq<StrPair>, rs: seq<RawString>, ts: seq<RawString>, s: seq<Byte>)
    requires Shown(a, rs, s) && Shown(b, ts, s)
    ensures Shown(a + b, rs + ts, s)
  {
    hide Settled;
    var all, us := a + b, rs + ts;
    assert forall i :: 0 <= i < |all| ==> all[i] == if i < |a| then a[i] else b[i - |a|];
    assert forall i :: 0 <= i < |us| ==> us[i] == if i < |rs| then rs[i] else ts[i - |rs|];
  }

  /** The first part of pieces that lie and show as they should. */
  lemma FrontPart(a: seq<StrPair>, b: seq<StrPair>, rs: seq<RawString>, ts: seq<RawString>, s: seq<Byte>, lo: nat,
                  hi: nat)
    requires |a| == |rs| && Shown(a + b, rs + ts, s) && Laid(a + b, lo, hi)
    ensures Shown(a, rs, s) && Laid(a, lo, hi)
  {
    hide Settled;
    assert forall i :: 0 <= i < |a| ==> (a + b)[i] == a[i] && (rs + ts)[i] == rs[i];
  }

  /** Writing at or behind hi leaves what is shown below it. */
  lemma ShownBelow(ps: seq<StrPair>, rs: seq<RawString>, s: seq<Byte>, s': seq<Byte>, lo: nat, hi: nat)
    requires Shown(ps, rs, s) && Laid(ps, lo, hi) && |s| == |s'| && forall k :: 0 <= k < hi && k < |s| ==> s[k] == s'[k]
    ensures Shown(ps, rs, s')
  {
    hide Settled;
    forall i | 0 <= i < |ps| ensures Settled(ps[i], s', rs[i]) {
      SettledInside(ps[i], s, rs[i]);
      SettledElsewhere(ps[i], s, s', rs[i]);
    }
  }

  /** Pieces laid out like this are apart, so they can be read in any order. */
  lemma LaidApart(ps: seq<StrPair>, lo: nat, hi: nat)
    requires Laid(ps, lo, hi)
    ensures forall i, j :: 0 <= i < j < |ps| ==> ps[i] != ps[j] && Apart(ps[i], ps[j])
  {}

  lemma LaidWider(ps: seq<StrPair>, lo: nat, hi: nat, lo': nat, hi': nat)
    requires Laid(ps, lo, hi) && lo' <= lo && hi <= hi'
    ensures Laid(ps, lo', hi')
  {}

  /** One of the pieces read; all of them stay where they are and show what they did. */
  method ReadLaid(buf: array<Byte>, t: StrPair, ghost ps: seq<StrPair>, ghost j: nat, ghost rs: seq<RawString>,
                  ghost lo: nat, ghost hi: nat)
    requires Laid(ps, lo, hi) && Shown(ps, rs, buf[..]) && j < |ps| && t == ps[j] && Decodable(rs[j])
    modifies buf, t
    ensures Laid(ps, lo, hi) && Shown(ps, rs, buf[..])
    ensures !t.needsFlush && t.start == old(t.start) && t.end == old(t.end)
    ensures forall k :: 0 <= k < buf.Length && !(t.start <= k <= t.end) ==> buf[k] == old(buf[k])
    ensures forall i :: 0 <= i < |ps| && i != j ==> ps[i] != t
  {
    hide Settled, Decodable;
    LaidApart(ps, lo, hi);
    ReadOne(buf, t, ps, j, rs);
    assert forall i :: 0 <= i < |ps| ==> ps[i].start == old(ps[i].start) && ps[i].end == old(ps[i].end);
  }

  // ----- what reading the pieces gives -----

  /** The strings rs stand for the strings us. */
  predicate Reads(rs: seq<RawString>, us: seq<RawString>) {
    |rs| == |us| && forall i :: 0 <= i < |rs| ==> Meaning(rs[i]) == us[i].bytes
  }

  lemma ReadsBoth(a: seq<RawString>, b: seq<RawString>, x: seq<RawString>, y: seq<RawString>)
    requires Reads(a, x) && Reads(b, y)
    ensures Reads(a + b, x + y)
  {
    hide Meaning;
    var all, us := a + b, x + y;
    assert forall i :: 0 <= i < |all| ==> all[i] == if i < |a| then a[i] else b[i - |a|];
    assert forall i :: 0 <= i < |us| ==> us[i] == if i < |x| then x[i] else y[i - |x|];
  }

  lemma {:induction false} ReadsAll(ss: seq<seq<RawString>>, ts: seq<seq<RawString>>)
    requires |ss| == |ts| && forall k :: 0 <= k < |ss| ==> Reads(ss[k], ts[k])
    ensures Reads(Flatten(ss), Flatten(ts))
  {
    hide Reads;
    if ss == [] {
      ReadsNothing();
    } else {
      var n := |ss| - 1;
      ReadsAll(ss[..n], ts[..n]);
      ReadsBoth(Flatten(ss[..n]), ss[n], Flatten(ts[..n]), ts[n]);
    }
  }

  lemma ReadsNothing()
    ensures Reads([], [])
  {}

  lemma ReadsName(v: seq<Byte>)
    ensures Reads([Name(v)], [Name(v)])
  {}

  lemma {:induction false} AttributesRead(attributes: seq<Attribute>)
    ensures Reads(AttributeStrings(attributes), AttributeStrings(InterpretedAttributes(attributes)))
    decreases |attributes|
  {
    hide Reads, Meaning;
    var vs := InterpretedAttributes(attributes);
    if attributes == [] {
      ReadsNothing();
    } else {
      var n := |attributes| - 1;
      AttributesRead(attributes[..n]);
      assert vs[..n] == InterpretedAttributes(attributes[..n]);
      OneAttributeRead(attributes[n]);
      var a, v := attributes[n], vs[n];
      ReadsBoth(AttributeStrings(attributes[..n]), [Name(a.name), Content(a.value)], AttributeStrings(vs[..n]),
                [Name(v.name), Content(v.value)]);
    }
  }

  lemma OneAttributeRead(a: Attribute)
    ensures Reads([Name(a.name), Content(a.value)], [Name(a.name), Content(Decoded(a.value))])
  {}

  /** Reading the pieces of a node as it is found gives the strings of the node as it is seen. */
  lemma {:induction false} NodeRead(n: Node)
    ensures Reads(Strings(n), Strings(Interpreted(n)))
  {
    hide Meaning, AttributeStrings, InterpretedAttributes;
    match n
    case Element(name, attributes, children) =>
      hide Reads;
      var m := Interpreted(n);
      forall i | 0 <= i < |children| ensures Reads(Strings(children[i]), Strings(m.children[i]))
      {
        NodeRead(children[i]);
      }
      AllRead(children, m.children);
      ElementStrings(name, attributes, children);
      ElementStrings(m.name, m.attributes, m.children);
      AttributesRead(attributes);
      ReadsName(name);
      ReadsBoth([Name(name)], AttributeStrings(attributes), [Name(name)], AttributeStrings(m.attributes));
      ReadsBoth([Name(name)] + AttributeStrings(attributes), AllStrings(children),
                [Name(name)] + AttributeStrings(m.attributes), AllStrings(m.children));
    case _ =>
  }

  lemma AllRead(ns: seq<Node>, ms: seq<Node>)
    requires |ns| == |ms| && forall i :: 0 <= i < |ns| ==> Reads(Strings(ns[i]), Strings(ms[i]))
    ensures Reads(AllStrings(ns), AllStrings(ms))
  {
    hide Reads, Strings;
    ReadsAll(seq(|ns|, i requires 0 <= i < |ns| => Strings(ns[i])),
             seq(|ms|, i requires 0 <= i < |ms| => Strings(ms[i])));
  }

  // ----- the strings determine the tree -----

  lemma {:induction false} FlattenLength<T, U>(ss: seq<seq<T>>, ts: seq<seq<U>>)
    requires |ss| == |ts| && forall k :: 0 <= k < |ss| ==> |ss[k]| == |ts[k]|
    ensures |Flatten(ss)| == |Flatten(ts)|
  {
    if ss != [] { FlattenLength(ss[..|ss| - 1], ts[..|ts| - 1]); }
  }

  lemma {:induction false} FlattenSame<T>(ss: seq<seq<T>>, ts: seq<seq<T>>)
    requires |ss| == |ts| && (forall k :: 0 <= k < |ss| ==> |ss[k]| == |ts[k]|) && Flatten(ss) == Flatten(ts)
    ensures ss == ts
  {
    if ss != [] {
      var n := |ss| - 1;
      FlattenLength(ss[..n], ts[..n]);
      Halves(Flatten(ss[..n]), ss[n], Flatten(ts[..n]), ts[n]);
      FlattenSame(ss[..n], ts[..n]);
      assert ss == ss[..n] + [ss[n]] && ts == ts[..n] + [ts[n]];
    }
  }

  lemma Halves<T>(a: seq<T>, b: seq<T>, x: seq<T>, y: seq<T>)
    requires a + b == x + y && |a| == |x|
    ensures a == x && b == y
  {
    assert a == (a + b)[..|a|] && x == (x + y)[..|x|];
    assert b == (a + b)[|a|..] && y == (x + y)[|x|..];
  }

  lemma {:induction false} AttributesSame(a: seq<Attribute>, b: seq<Attribute>)
    requires |a| == |b| && AttributeStrings(a) == AttributeStrings(b)
    ensures a == b
    decreases |a|
  {
    if a != [] {
      var n := |a| - 1;
      AttributeCount(a[..n]);
      AttributeCount(b[..n]);
      var x, y := [Name(a[n].name), Content(a[n].value)], [Name(b[n].name), Content(b[n].value)];
      Halves(AttributeStrings(a[..n]), x, AttributeStrings(b[..n]), y);
      assert x[0] == y[0] && x[1] == y[1];
      AttributesSame(a[..n], b[..n]);
      assert a == a[..n] + [a[n]] && b == b[..n] + [b[n]];
    }
  }

  lemma {:induction false} AttributeCount(a: seq<Attribute>)
    ensures |AttributeStrings(a)| == 2 * |a|
  {
    if a != [] { AttributeCount(a[..|a| - 1]); }
  }

  lemma {:induction false} LocatedCount(a: seq<LocatedAttribute>)
    ensures |AttributePieces(a)| == 2 * |a|
  {
    if a != [] { LocatedCount(a[..|a| - 1]); }
  }

  /** Nodes of one shape have as many strings as it has pieces. */
  lemma {:induction false} PieceCount(l: Located, n: Node)
    requires Shape(l, n)
    ensures |Strings(n)| == |Pieces(l)|
  {
    if l.LocatedElement? {
      ElementPieces(l.name, l.attributes, l.children);
      ElementStrings(n.name, n.attributes, n.children);
      AttributeCount(n.attributes);
      LocatedCount(l.attributes);
      hide AttributeStrings, AttributePieces;
      var ss := seq(|n.children|, i requires 0 <= i < |n.children| => Strings(n.children[i]));
      var ps := seq(|l.children|, i requires 0 <= i < |l.children| => Pieces(l.children[i]));
      forall i | 0 <= i < |ss| ensures |ss[i]| == |ps[i]| { PieceCount(l.children[i], n.children[i]); }
      FlattenLength(ss, ps);
      assert AllStrings(n.children) == Flatten(ss) && AllPieces(l.children) == Flatten(ps);
    }
  }

  /** Nodes of one shape with the same strings are the same. */
  lemma {:induction false} SameNode(l: Located, n: Node, m: Node)
    requires Shape(l, n) && Shape(l, m) && Strings(n) == Strings(m)
    ensures n == m
  {
    if l.LocatedElement? {
      SameParts(l, n, m);
      forall i | 0 <= i < |n.children| ensures n.children[i] == m.children[i] {
        SameNode(l.children[i], n.children[i], m.children[i]);
      }
      assert n.children == m.children;
    }
  }

  lemma SameParts(l: Located, n: Node, m: Node)
    requires l.LocatedElement? && Shape(l, n) && Shape(l, m) && Strings(n) == Strings(m)
    ensures n.name == m.name && n.attributes == m.attributes && |n.children| == |m.children|
    ensures forall i :: 0 <= i < |n.children| ==> Strings(n.children[i]) == Strings(m.children[i])
  {
    ElementStrings(n.name, n.attributes, n.children);
    ElementStrings(m.name, m.attributes, m.children);
    AttributeCount(n.attributes);
    AttributeCount(m.attributes);
    hide Strings, AttributeStrings;
    var a, x := [Name(n.name)] + AttributeStrings(n.attributes), [Name(m.name)] + AttributeStrings(m.attributes);
    Halves(a, AllStrings(n.children), x, AllStrings(m.children));
    assert a[0] == x[0];
    Halves([Name(n.name)], AttributeStrings(n.attributes), [Name(m.name)], AttributeStrings(m.attributes));
    AttributesSame(n.attributes, m.attributes);
    var ss := seq(|n.children|, i requires 0 <= i < |n.children| => Strings(n.children[i]));
    var ts := seq(|m.children|, i requires 0 <= i < |m.children| => Strings(m.children[i]));
    forall i | 0 <= i < |ss| ensures |ss[i]| == |ts[i]| {
      PieceCount(l.children[i], n.children[i]);
      PieceCount(l.children[i], m.children[i]);
    }
    FlattenSame(ss, ts);
    forall i | 0 <= i < |n.children| ensures Strings(n.children[i]) == Strings(m.children[i]) {
      assert ss[i] == ts[i];
    }
  }
}
