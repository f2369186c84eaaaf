/** Character data of tinyxml2: escaping when it is printed, decoding in place when it is read. */
module XmlText {
  import opened Octets
  import opened Text
  import opened CharRef

  const Return: Byte := 13
  const Apostrophe: Byte := 39
  const Less: Byte := 60
  const Greater: Byte := 62

  datatype Entity = Entity(pattern: seq<Byte>, value: Byte)

  /** The named entities, in the order in which they are tried: quot, amp, apos, lt, gt. */
  const Entities: seq<Entity> := [
    Entity([113, 117, 111, 116], DoubleQuote),
    Entity([97, 109, 112], Ampersand),
    Entity([97, 112, 111, 115], Apostrophe),
    Entity([108, 116], Less),
    Entity([103, 116], Greater)]

  // ----- printing -----

  /** The characters replaced by entities: all five in attributes, three of them in text. */
  predicate Flagged(c: Byte, restricted: bool) {
    c in {Ampersand, Less, Greater} || (!restricted && c in {DoubleQuote, Apostrophe})
  }

  function EntityIndex(c: Byte): (i: nat)
    requires Flagged(c, false)
    ensures i < 5 && Entities[i].value == c
  {
    if c == DoubleQuote then 0 else if c == Ampersand then 1 else if c == Apostrophe then 2
    else if c == Less then 3 else 4
  }

  function EscapeChar(c: Byte, restricted: bool): (t: seq<Byte>)
    ensures |t| > 0
  {
    if Flagged(c, restricted) then [Ampersand] + Entities[EntityIndex(c)].pattern + [Semicolon] else [c]
  }

  function EscapeText(v: seq<Byte>, restricted: bool): seq<Byte> {
    if v == [] then [] else EscapeChar(v[0], restricted) + EscapeText(v[1..], restricted)
  }

  // ----- decoding -----

  /** The first entity from the i-th on that stands at p, or 5. */
  function FindEntity(s: seq<Byte>, p: nat, i: nat): (r: nat)
    requires i <= 5
    ensures i <= r <= 5
    ensures r < 5 ==> p + |Entities[r].pattern| + 2 <= |s|
    decreases 5 - i
  {
    if i == 5 then 5
    else if EntityAt(s, p, i) then i
    else FindEntity(s, p, i + 1)
  }

  predicate EntityAt(s: seq<Byte>, p: nat, i: nat)
    requires i < 5
  {
    var e := Entities[i].pattern;
    Here(s, p + 1, e) && At(s, p + 1 + |e|) == Semicolon
  }

  /** What decoding makes of the slice s from position p on when q bytes have been written: an
      unknown entity keeps whatever byte is there under the write pointer. */
  function Decode(s: seq<Byte>, entities: bool, newlines: bool, p: nat, q: nat): seq<Byte>
    requires q <= p <= |s|
    decreases |s| - p
  {
    if p == |s| then []
    else
      var (b, n) := Step(s, entities, newlines, p, q);
      b + Decode(s, entities, newlines, p + n, q + |b|)
  }

  /** One round: the bytes written and the number read, which is never the smaller. */
  function Step(s: seq<Byte>, entities: bool, newlines: bool, p: nat, q: nat): (r: (seq<Byte>, nat))
    requires q <= p < |s|
    ensures 0 < r.1 && p + r.1 <= |s| && |r.0| <= r.1
  {
    if newlines && s[p] == Return then ([LineFeed], if At(s, p + 1) == LineFeed then 2 else 1)
    else if newlines && s[p] == LineFeed then ([LineFeed], if At(s, p + 1) == Return then 2 else 1)
    else if entities && s[p] == Ampersand then
      if At(s, p + 1) == Hash then Referred(s, p)
      else
        var i := FindEntity(s, p, 0);
        if i < 5 then ([Entities[i].value], |Entities[i].pattern| + 2) else ([s[q]], 1)
    else ([s[p]], 1)
  }

  /** A numeric reference; for a malformed one the source has no answer. */
  function Referred(s: seq<Byte>, p: nat): (r: (seq<Byte>, nat))
    requires At(s, p + 1) == Hash
    ensures 0 < r.1 && p + r.1 <= |s| && |r.0| <= r.1
  {
    match ReferenceAt(s, p)
    case Malformed => ([], 1)
    case Cut => ([], 1)
    case Reference(value, next) => (RefBytes(value), next - p)
  }

  /** No malformed reference is come across: on one the source goes on from a null pointer. */
  predicate Readable(s: seq<Byte>, newlines: bool, p: nat)
    requires p <= |s|
    decreases |s| - p
  {
    p == |s| || (!MalformedAt(s, p) && Readable(s, newlines, p + Step(s, true, newlines, p, p).1))
  }

  predicate MalformedAt(s: seq<Byte>, p: nat)
    requires p < |s|
  {
    s[p] == Ampersand && At(s, p + 1) == Hash && ReferenceAt(s, p).Malformed?
  }

  lemma {:induction false} DecodeShrinks(s: seq<Byte>, entities: bool, newlines: bool, p: nat, q: nat)
    requires q <= p <= |s|
    ensures |Decode(s, entities, newlines, p, q)| <= |s| - p
    decreases |s| - p
  {
    hide Step;
    if p < |s| {
      var (b, n) := Step(s, entities, newlines, p, q);
      DecodeShrinks(s, entities, newlines, p + n, q + |b|);
    }
  }

  lemma DecodeOne(s: seq<Byte>, entities: bool, newlines: bool, p: nat, q: nat)
    requires q <= p < |s|
    ensures var (b, n) := Step(s, entities, newlines, p, q);
            Decode(s, entities, newlines, p, q) == b + Decode(s, entities, newlines, p + n, q + |b|)
  {}

  lemma DecodeEnd(s: seq<Byte>, entities: bool, newlines: bool, q: nat)
    requires q <= |s|
    ensures Decode(s, entities, newlines, |s|, q) == []
  {}

  /** A slice without numeric character references. */
  predicate NoCharRef(s: seq<Byte>) {
    forall k :: 0 <= k < |s| - 1 && s[k] == Ampersand ==> s[k + 1] != Hash
  }

  lemma {:induction false} NothingMalformed(s: seq<Byte>, newlines: bool, p: nat)
    requires NoCharRef(s) && p <= |s|
    ensures Readable(s, newlines, p)
    decreases |s| - p
  {
    hide Step;
    if p < |s| { NothingMalformed(s, newlines, p + Step(s, true, newlines, p, p).1); }
  }

  /** A piece of text as it stands in the document, and what is to be done to it. */
  datatype RawString = RawString(bytes: seq<Byte>, entities: bool, newlines: bool)

  /** The string it stands for. */
  function Meaning(r: RawString): seq<Byte> {
    if r.entities || r.newlines then Decode(r.bytes, r.entities, r.newlines, 0, 0) else r.bytes
  }

  /** Free of malformed references, where references would be looked for. */
  predicate Decodable(r: RawString) {
    r.entities ==> Readable(r.bytes, r.newlines, 0)
  }

  /** A C string in a buffer. */
  predicate CString(s: seq<Byte>, i: nat, v: seq<Byte>) {
    i + |v| < |s| && s[i..i + |v|] == v && s[i + |v|] == 0
  }

  /** A piece of the document buffer, decoded when it is first asked for. */
  class StrPair {
    var needsFlush: bool
    var entities: bool
    var newlines: bool
    var start: nat
    var end: nat

    /** Set */
    constructor (start: nat, end: nat, entities: bool, newlines: bool)
      ensures needsFlush && this.entities == entities && this.newlines == newlines
      ensures this.start == start && this.end == end
    {
      needsFlush := true;
      this.entities, this.newlines, this.start, this.end := entities, newlines, start, end;
    }

    /** What the piece stands for. */
    ghost function Value(buf: array<Byte>): seq<Byte>
      requires start <= end <= buf.Length
      reads this, buf
    {
      Meaning(RawString(buf[start..end], entities, newlines))
    }

    /** GetStr: the C string that starts at the position returned. Only the bytes of the piece and
        the one behind it are written, and a second call changes nothing. */
    method GetStr(buf: array<Byte>) returns (r: nat)
      requires needsFlush ==> start <= end < buf.Length && Decodable(RawString(buf[start..end], entities, newlines))
      modifies this, buf
      ensures r == start == old(start) && end == old(end)
      ensures !needsFlush
      ensures old(needsFlush) ==>
                var v := old(Value(buf));
                && start + |v| <= end && buf[start..start + |v|] == v && buf[start + |v|] == 0
                && !entities && !newlines
      ensures forall k :: 0 <= k < buf.Length && !(start <= k <= end) ==> buf[k] == old(buf[k])
      ensures !old(needsFlush) ==> buf[..] == old(buf[..])
    {
      hide Decode, Readable;
      if needsFlush {
        ghost var s := buf[start..end];
        buf[end] := 0;
        assert buf[start..end] == s;
        needsFlush := false;
        if entities || newlines { DecodeInPlace(buf, start, end, entities, newlines); }
        entities, newlines := false, false;
      }
      r := start;
    }
  }

  /** Whether or not it has been read yet, the piece is where r stood. */
  ghost predicate Settled(t: StrPair, s: seq<Byte>, r: RawString)
    reads t
  {
    && t.start + |r.bytes| == t.end < |s|
    && if t.needsFlush
       then s[t.start..t.end] == r.bytes && t.entities == r.entities && t.newlines == r.newlines
       else t.start + |Meaning(r)| <= t.end && CString(s, t.start, Meaning(r))
  }

  /** Pieces that share neither a byte nor the byte behind them. */
  predicate Apart(a: StrPair, b: StrPair)
    reads a, b
  {
    a.end < b.start || b.end < a.start
  }

  lemma SettledElsewhere(t: StrPair, s: seq<Byte>, s': seq<Byte>, r: RawString)
    requires Settled(t, s, r) && |s| == |s'| && forall k :: t.start <= k <= t.end ==> s[k] == s'[k]
    ensures Settled(t, s', r)
  {
    hide Meaning;
    assert s[t.start..t.end] == s'[t.start..t.end];
    var v := Meaning(r);
    if !t.needsFlush { assert s[t.start..t.start + |v|] == s'[t.start..t.start + |v|]; }
  }

  /** Pieces of one buffer can be read in any order, any number of times: each keeps standing for
      what the unread text said. */
  method ReadInAnyOrder(buf: array<Byte>, pieces: seq<StrPair>, order: seq<nat>, ghost raw: seq<RawString>)
    requires |raw| == |pieces| && forall k :: 0 <= k < |order| ==> order[k] < |pieces|
    requires forall i, j :: 0 <= i < j < |pieces| ==> pieces[i] != pieces[j] && Apart(pieces[i], pieces[j])
    requires forall i :: 0 <= i < |pieces| ==> Settled(pieces[i], buf[..], raw[i])
    requires forall i :: 0 <= i < |raw| ==> Decodable(raw[i])
    modifies buf, pieces
    ensures forall i :: 0 <= i < |pieces| ==> Settled(pieces[i], buf[..], raw[i])
    ensures forall k :: 0 <= k < |order| ==> !pieces[order[k]].needsFlush
    ensures forall i :: 0 <= i < |pieces| ==>
              pieces[i].start == old(pieces[i].start) && pieces[i].end == old(pieces[i].end)
  {
    hide Settled;
    for n := 0 to |order|
      invariant forall i, j :: 0 <= i < j < |pieces| ==> Apart(pieces[i], pieces[j])
      invariant forall i :: 0 <= i < |pieces| ==> Settled(pieces[i], buf[..], raw[i])
      invariant forall k :: 0 <= k < n ==> !pieces[order[k]].needsFlush
      invariant forall i :: 0 <= i < |pieces| ==>
                  pieces[i].start == old(pieces[i].start) && pieces[i].end == old(pieces[i].end)
    {
      ReadOne(buf, pieces[order[n]], pieces, order[n], raw);
    }
  }

  /** One piece read, the others untouched. */
  method ReadOne(buf: array<Byte>, t: StrPair, ghost pieces: seq<StrPair>, ghost j: nat, ghost raw: seq<RawString>)
    requires |raw| == |pieces| && j < |pieces| && t == pieces[j] && Decodable(raw[j])
    requires forall i, j :: 0 <= i < j < |pieces| ==> pieces[i] != pieces[j] && Apart(pieces[i], pieces[j])
    requires forall i :: 0 <= i < |pieces| ==> Settled(pieces[i], buf[..], raw[i])
    modifies buf, t
    ensures forall i :: 0 <= i < |pieces| ==> Settled(pieces[i], buf[..], raw[i])
    ensures !t.needsFlush && t.start == old(t.start) && t.end == old(t.end)
    ensures forall k :: 0 <= k < buf.Length && !(t.start <= k <= t.end) ==> buf[k] == old(buf[k])
  {
    hide Settled;
    ghost var was := buf[..];
    ReadSettled(buf, t, raw[j]);
    forall i | 0 <= i < |pieces| && i != j ensures Settled(pieces[i], buf[..], raw[i]) {
      assert Apart(pieces[i], pieces[j]);
      SettledInside(pieces[i], was, raw[i]);
      SettledElsewhere(pieces[i], was, buf[..], raw[i]);
    }
  }

  method ReadSettled(buf: array<Byte>, t: StrPair, ghost r: RawString)
    requires Settled(t, buf[..], r) && Decodable(r)
    modifies buf, t
    ensures Settled(t, buf[..], r) && !t.needsFlush && t.start == old(t.start) && t.end == old(t.end)
    ensures forall k :: 0 <= k < buf.Length && !(t.start <= k <= t.end) ==> buf[k] == old(buf[k])
  {
    hide Decode, Readable, Meaning;
    ghost var v := Meaning(r);
    assert buf[..][t.start..t.end] == buf[t.start..t.end];
    assert t.needsFlush ==> r == RawString(buf[t.start..t.end], t.entities, t.newlines);
    var _ := t.GetStr(buf);
    assert buf[..][t.start..t.start + |v|] == buf[t.start..t.start + |v|];
  }

  lemma SettledInside(t: StrPair, s: seq<Byte>, r: RawString)
    requires Settled(t, s, r)
    ensures t.start <= t.end < |s|
  {}

  /** The two-pointer loop: p reads, q writes and never overtakes it. */
  method DecodeInPlace(buf: array<Byte>, start: nat, end: nat, entities: bool, newlines: bool)
    requires start <= end < buf.Length && buf[end] == 0
    requires entities ==> Readable(buf[start..end], newlines, 0)
    modifies buf
    ensures var v := Decode(old(buf[start..end]), entities, newlines, 0, 0);
            && start + |v| <= end && buf[start..start + |v|] == v && buf[start + |v|] == 0
    ensures forall k :: 0 <= k < buf.Length && !(start <= k <= end) ==> buf[k] == old(buf[k])
  {
    hide Decode, Step, Readable;
    ghost var s := buf[start..end];
    ghost var v := Decode(s, entities, newlines, 0, 0);
    DecodeShrinks(s, entities, newlines, 0, 0);
    var p, q := start, start;
    while p < end
      invariant start <= q <= p <= end
      invariant buf[start..q] + Decode(s, entities, newlines, p - start, q - start) == v
      invariant entities ==> Readable(s, newlines, p - start)
      invariant forall k :: q <= k < buf.Length ==> buf[k] == old(buf[k])
      invariant forall k :: 0 <= k < start ==> buf[k] == old(buf[k])
    {
      ghost var done := buf[start..q];
      DecodeOne(s, entities, newlines, p - start, q - start);
      if entities { ReadableOn(s, newlines, p - start, q - start); }
      ghost var b := Step(s, entities, newlines, p - start, q - start).0;
      p, q := DecodeStep(buf, p, q, entities, newlines, s, start, end);
      Regroup(done, b, Decode(s, entities, newlines, p - start, q - start));
    }
    DecodeEnd(s, entities, newlines, q - start);
    assert buf[start..q] == v;
    buf[q] := 0;
  }

  lemma ReadableOn(s: seq<Byte>, newlines: bool, p: nat, q: nat)
    requires q <= p < |s| && Readable(s, newlines, p)
    ensures !MalformedAt(s, p) && Readable(s, newlines, p + Step(s, true, newlines, p, q).1)
  {
    hide FindEntity, Referred;
  }

  /** One round of the loop. */
  method DecodeStep(buf: array<Byte>, p: nat, q: nat, entities: bool, newlines: bool, ghost s: seq<Byte>,
                    ghost start: nat, end: nat)
    returns (p': nat, q': nat)
    requires start <= q <= p < end < buf.Length && |s| == end - start
    requires entities ==> !MalformedAt(s, p - start)
    requires forall k :: q <= k < end ==> buf[k] == s[k - start]
    requires buf[end] == 0
    modifies buf
    ensures var (b, n) := Step(s, entities, newlines, p - start, q - start);
            p' == p + n && q' == q + |b| && buf[start..q'] == old(buf[start..q]) + b
    ensures forall k :: 0 <= k < buf.Length && !(q <= k < q') ==> buf[k] == old(buf[k])
  {
    hide FindEntity, Referred, MalformedAt;
    p', q' := p + 1, q + 1;
    if newlines && buf[p] == Return {
      if buf[p + 1] == LineFeed { p' := p + 2; }
      buf[q] := LineFeed;
    } else if newlines && buf[p] == LineFeed {
      if buf[p + 1] == Return { p' := p + 2; }
      buf[q] := LineFeed;
    } else if entities && buf[p] == Ampersand {
      if buf[p + 1] == Hash {
        p', q' := DecodeReference(buf, p, q, s, start, end);
        return;
      }
      assert buf[p..end] == s[p - start..];
      var i := MatchEntity(buf[p..end], s, p - start);
      if i < 5 {
        buf[q] := Entities[i].value;
        p' := p + |Entities[i].pattern| + 2;
      }
    } else {
      buf[q] := buf[p];
    }
    assert buf[start..q'] == old(buf[start..q]) + [buf[q]];
  }

  /** A numeric reference: its bytes are stored in a buffer of their own and copied from there. */
  method DecodeReference(buf: array<Byte>, p: nat, q: nat, ghost s: seq<Byte>, ghost start: nat, end: nat)
    returns (p': nat, q': nat)
    requires start <= q <= p && p + 1 < end < buf.Length && |s| == end - start
    requires s[p - start] == Ampersand && s[p + 1 - start] == Hash && !MalformedAt(s, p - start)
    requires forall k :: q <= k < end ==> buf[k] == s[k - start]
    modifies buf
    ensures var (b, n) := Referred(s, p - start);
            p' == p + n && q' == q + |b| && buf[start..q'] == old(buf[start..q]) + b
    ensures forall k :: 0 <= k < buf.Length && !(q <= k < q') ==> buf[k] == old(buf[k])
  {
    hide ReferenceAt, RefBytes;
    var value := new Byte[10];
    ghost var i := p - start;
    assert buf[p..end] == s[i..];
    ReferenceShift(s, i);
    var next, len := GetCharacterRef(buf[p..end], value);
    ghost var b := value[..len];
    assert Referred(s, i) == (b, next);
    q' := CopyBytes(buf, start, q, value, len);
    p' := p + next;
  }

  method CopyBytes(buf: array<Byte>, ghost start: nat, q: nat, value: array<Byte>, len: nat) returns (q': nat)
    requires start <= q && q + len <= buf.Length && len <= value.Length && buf != value
    modifies buf
    ensures q' == q + len && buf[start..q'] == old(buf[start..q]) + value[..len]
    ensures forall k :: 0 <= k < buf.Length && !(q <= k < q') ==> buf[k] == old(buf[k])
  {
    q' := q;
    for i := 0 to len
      invariant q' == q + i && buf[start..q'] == old(buf[start..q]) + value[..i]
      invariant forall k :: 0 <= k < buf.Length && !(q <= k < q') ==> buf[k] == old(buf[k])
    {
      buf[q'] := value[i];
      q' := q' + 1;
    }
  }

  /** The search through the table. */
  method MatchEntity(rest: seq<Byte>, ghost s: seq<Byte>, ghost p: nat) returns (i: nat)
    requires p < |s| && rest == s[p..]
    ensures i == FindEntity(s, p, 0)
  {
    i := 0;
    while i < 5
      invariant i <= 5 && FindEntity(s, p, i) == FindEntity(s, p, 0)
    {
      EntityShift(s, p, i);
      if Here(rest, 1, Entities[i].pattern) && At(rest, 1 + |Entities[i].pattern|) == Semicolon { return; }
      i := i + 1;
    }
  }

  lemma EntityShift(s: seq<Byte>, p: nat, i: nat)
    requires p < |s| && i < 5
    ensures EntityAt(s, p, i) == EntityAt(s[p..], 0, i)
  {
    var e := Entities[i].pattern;
    if p + 1 + |e| <= |s| { assert s[p..][1..1 + |e|] == s[p + 1..p + 1 + |e|]; }
  }

  // ----- decoding undoes escaping -----

  /** Patterns differ, so the entity found is the one that was written. */
  lemma EntityFound(s: seq<Byte>, p: nat, c: Byte)
    requires Flagged(c, false) && Here(s, p, [Ampersand] + Entities[EntityIndex(c)].pattern + [Semicolon])
    ensures FindEntity(s, p, 0) == EntityIndex(c) && At(s, p + 1) != Hash
  {
    var i := EntityIndex(c);
    var e := Entities[i].pattern;
    HereSplit(s, p, [Ampersand] + e, [Semicolon]);
    HereSplit(s, p, [Ampersand], e);
    HereAt(s, p + 1 + |e|, [Semicolon], 0);
    assert EntityAt(s, p, i);
    hide Here, EntityAt, EntityIndex, FindEntity;
    HereAt(s, p + 1, e, 0);
    HereAt(s, p + 1, e, 1);
    forall j | 0 <= j < i ensures !EntityAt(s, p, j) {
      OtherEntity(s, p, j);
      PatternsDiffer(j, i);
    }
    FirstFound(s, p, i, 0);
    PatternsDiffer(5, i);
  }

  lemma PatternsDiffer(j: nat, i: nat)
    requires i < 5 && j <= 5
    ensures Entities[i].pattern[0] != Hash
    ensures j < i ==>
              Entities[j].pattern[0] != Entities[i].pattern[0] || Entities[j].pattern[1] != Entities[i].pattern[1]
  {}

  lemma {:induction false} FirstFound(s: seq<Byte>, p: nat, i: nat, k: nat)
    requires k <= i < 5 && EntityAt(s, p, i) && forall j :: k <= j < i ==> !EntityAt(s, p, j)
    ensures FindEntity(s, p, k) == i
    decreases i - k
  {
    hide EntityAt;
    if k < i { FirstFound(s, p, i, k + 1); }
  }

  lemma OtherEntity(s: seq<Byte>, p: nat, j: nat)
    requires j < 5
    ensures EntityAt(s, p, j) ==> At(s, p + 1) == Entities[j].pattern[0] && At(s, p + 2) == Entities[j].pattern[1]
  {
    if EntityAt(s, p, j) {
      HereAt(s, p + 1, Entities[j].pattern, 0);
      HereAt(s, p + 1, Entities[j].pattern, 1);
    }
  }

  predicate Plain(v: seq<Byte>) {
    forall k :: 0 <= k < |v| ==> v[k] != 0 && v[k] != Return
  }

  lemma StepBack(s: seq<Byte>, p: nat, q: nat, c: Byte, restricted: bool)
    requires c != 0 && c != Return && q <= p < |s| && Here(s, p, EscapeChar(c, restricted)) && Return !in s
    ensures Step(s, true, true, p, q) == ([c], |EscapeChar(c, restricted)|)
  {
    hide FindEntity, Referred;
    HereAt(s, p, EscapeChar(c, restricted), 0);
    if Flagged(c, restricted) { EntityFound(s, p, c); }
  }

  lemma {:induction false} DecodeBack(s: seq<Byte>, p: nat, q: nat, v: seq<Byte>, restricted: bool)
    requires Plain(v) && q <= p <= |s| && s[p..] == EscapeText(v, restricted) && Return !in s
    ensures Decode(s, true, true, p, q) == v
    decreases |v|
  {
    hide Step, EscapeChar, Plain, Here, Decode;
    if v == [] {
      DecodeEnd(s, true, true, q);
    } else {
      PlainParts(v);
      var e, rest := EscapeChar(v[0], restricted), EscapeText(v[1..], restricted);
      assert s[p..p + |e + rest|] == e + rest;
      HereFrom(s, p, e + rest);
      HereSplit(s, p, e, rest);
      StepBack(s, p, q, v[0], restricted);
      DecodeOne(s, true, true, p, q);
      assert s[p + |e|..] == rest;
      DecodeBack(s, p + |e|, q + 1, v[1..], restricted);
      assert [v[0]] + v[1..] == v;
    }
  }

  lemma PlainParts(v: seq<Byte>)
    requires Plain(v) && v != []
    ensures v[0] != 0 && v[0] != Return && Plain(v[1..])
  {}

  /** What printed text never contains. */
  predicate Clean(t: seq<Byte>, restricted: bool) {
    && Plain(t) && NoCharRef(t) && Less !in t && (!restricted ==> DoubleQuote !in t)
    && (t != [] ==> t[|t| - 1] != Ampersand)
  }

  lemma CleanBoth(a: seq<Byte>, b: seq<Byte>, restricted: bool)
    requires Clean(a, restricted) && Clean(b, restricted)
    ensures Clean(a + b, restricted)
  {}

  lemma CleanEntity(i: nat, restricted: bool)
    requires i < 5
    ensures Clean([Ampersand] + Entities[i].pattern + [Semicolon], restricted)
  {
    var t := [Ampersand] + Entities[i].pattern + [Semicolon];
    LowerCase(i);
    assert forall k :: 1 <= k < |t| - 1 ==> t[k] == Entities[i].pattern[k - 1];
  }

  lemma LowerCase(i: nat)
    requires i < 5
    ensures forall k :: 0 <= k < |Entities[i].pattern| ==> 97 <= Entities[i].pattern[k] <= 122
  {}

  lemma CleanChar(c: Byte, restricted: bool)
    requires c != 0 && c != Return
    ensures Clean(EscapeChar(c, restricted), restricted)
  {
    hide EntityIndex;
    if Flagged(c, restricted) { CleanEntity(EntityIndex(c), restricted); }
  }

  lemma {:induction false} EscapedClean(v: seq<Byte>, restricted: bool)
    requires Plain(v)
    ensures Clean(EscapeText(v, restricted), restricted)
  {
    hide Plain, EscapeChar, Clean;
    if v == [] {
      CleanNothing(restricted);
    } else {
      PlainParts(v);
      CleanChar(v[0], restricted);
      EscapedClean(v[1..], restricted);
      CleanBoth(EscapeChar(v[0], restricted), EscapeText(v[1..], restricted), restricted);
    }
  }

  lemma CleanNothing(restricted: bool)
    ensures Clean([], restricted)
  {}

  /** Decoding is the identity on printed text, with either set of entities. */
  lemma DecodeEscaped(v: seq<Byte>, restricted: bool)
    requires Plain(v)
    ensures Decode(EscapeText(v, restricted), true, true, 0, 0) == v
  {
    var s := EscapeText(v, restricted);
    EscapedClean(v, restricted);
    assert s[0..] == s;
    DecodeBack(s, 0, 0, v, restricted);
  }

  /** Without entities, text free of carriage returns is left as it is. */
  lemma {:induction false} DecodePlain(s: seq<Byte>, p: nat)
    requires Plain(s) && p <= |s|
    ensures Decode(s, false, true, p, p) == s[p..]
    decreases |s| - p
  {
    if p < |s| { DecodePlain(s, p + 1); }
  }

  // ----- numeric references -----

  datatype Numeral = Numeral(digits: seq<Byte>, hex: bool)

  /** References one behind the other, and the bytes of their numbers. */
  function ReferencesText(ns: seq<Numeral>): seq<Byte> {
    if ns == [] then [] else ReferenceText(ns[0].digits, ns[0].hex) + ReferencesText(ns[1..])
  }

  function NumbersBytes(ns: seq<Numeral>): seq<Byte>
    requires forall k :: 0 <= k < |ns| ==> Digits(ns[k].digits, ns[k].hex)
  {
    if ns == [] then [] else RefBytes(Number(ns[0].digits, ns[0].hex)) + NumbersBytes(ns[1..])
  }

  /** One reference, whatever stands around it. */
  lemma ReferenceDecoded(s: seq<Byte>, newlines: bool, p: nat, q: nat, ds: seq<Byte>, hex: bool)
    requires q <= p && Digits(ds, hex) && Here(s, p, ReferenceText(ds, hex))
    ensures var r, b := p + |ReferenceText(ds, hex)|, RefBytes(Wrapped(ds, hex));
            && q + |b| <= r <= |s|
            && Decode(s, true, newlines, p, q) == b + Decode(s, true, newlines, r, q + |b|)
            && (Readable(s, newlines, p) <==> Readable(s, newlines, r))
  {
    hide Here, ReferenceAt, Decode, Wrapped, RefBytes, Digits, FindEntity;
    HereEnd(s, p, ReferenceText(ds, hex));
    ReferenceRead(s, p, ds, hex);
    DecodeOne(s, true, newlines, p, q);
  }

  /** References to numbers below 2^32 are decoded to the bytes of the numbers, however they are
      written, and none of them is taken for malformed. */
  lemma {:induction false} ReferencesBack(s: seq<Byte>, newlines: bool, p: nat, q: nat, ns: seq<Numeral>)
    requires q <= p <= |s| && s[p..] == ReferencesText(ns)
    requires forall k :: 0 <= k < |ns| ==>
               Digits(ns[k].digits, ns[k].hex) && Number(ns[k].digits, ns[k].hex) < Word
    ensures Readable(s, newlines, p) && Decode(s, true, newlines, p, q) == NumbersBytes(ns)
    decreases |ns|
  {
    hide Here, Decode, Readable, Digits, Number, Wrapped, RefBytes, ReferenceText;
    if ns == [] {
      DecodeEnd(s, true, newlines, q);
      ReadableEnd(s, newlines);
    } else {
      var ds, hex := ns[0].digits, ns[0].hex;
      var t, rest := ReferenceText(ds, hex), ReferencesText(ns[1..]);
      HereFrom(s, p, t + rest);
      HereSplit(s, p, t, rest);
      WrappedExact(ds, hex);
      ReferenceDecoded(s, newlines, p, q, ds, hex);
      assert s[p + |t|..] == rest;
      ReferencesBack(s, newlines, p + |t|, q + |RefBytes(Wrapped(ds, hex))|, ns[1..]);
    }
  }

  lemma ReadableEnd(s: seq<Byte>, newlines: bool)
    ensures Readable(s, newlines, |s|)
  {}

  // ----- unknown entities -----

  /** An ampersand that starts neither an entity nor a reference. */
  predicate Unknown(s: seq<Byte>, k: nat) {
    k < |s| && s[k] == Ampersand && At(s, k + 1) != Hash && FindEntity(s, k, 0) == 5
  }

  /** What decoding should make of the slice: an unknown entity stays as it is. */
  function Intended(s: seq<Byte>, newlines: bool, p: nat): seq<Byte>
    requires p <= |s|
    decreases |s| - p
  {
    if p == |s| then []
    else
      var (b, n) := Step(s, true, newlines, p, p);
      (if Unknown(s, p) then [Ampersand] else b) + Intended(s, newlines, p + n)
  }

  /** The number of bytes written when the read pointer comes to k, from p and q on; -1 if it steps
      over k. */
  function WrittenFrom(s: seq<Byte>, newlines: bool, p: nat, q: nat, k: nat): (r: int)
    requires q <= p <= |s|
    ensures r == -1 || q <= r <= k
    decreases |s| - p
  {
    if p == k then q
    else if p > k || p == |s| then -1
    else
      var (b, n) := Step(s, true, newlines, p, p);
      WrittenFrom(s, newlines, p + n, q + |b|, k)
  }

  function Written(s: seq<Byte>, newlines: bool, k: nat): int {
    WrittenFrom(s, newlines, 0, 0, k)
  }

  /** An unknown entity read at k is kept exactly when the byte under the write pointer happens to
      be an ampersand; that is the byte that stands there in the slice. */
  ghost predicate Kept(s: seq<Byte>, newlines: bool, p: nat, q: nat)
    requires q <= p <= |s|
  {
    forall k :: p <= k < |s| && Unknown(s, k) && WrittenFrom(s, newlines, p, q, k) >= 0 ==>
      s[WrittenFrom(s, newlines, p, q, k)] == Ampersand
  }

  lemma KeptStep(s: seq<Byte>, newlines: bool, p: nat, q: nat)
    requires q <= p < |s|
    ensures var (b, n) := Step(s, true, newlines, p, p);
            Kept(s, newlines, p, q) <==> (Unknown(s, p) ==> s[q] == Ampersand) && Kept(s, newlines, p + n, q + |b|)
  {
    hide Unknown, Step;
    var (b, n) := Step(s, true, newlines, p, p);
    assert WrittenFrom(s, newlines, p, q, p) == q;
    forall k | p < k < |s|
      ensures WrittenFrom(s, newlines, p, q, k) == WrittenFrom(s, newlines, p + n, q + |b|, k)
      ensures k < p + n ==> WrittenFrom(s, newlines, p, q, k) == -1
    {}
  }

  lemma {:induction false} KeptIff(s: seq<Byte>, newlines: bool, p: nat, q: nat)
    requires q <= p <= |s|
    ensures Decode(s, true, newlines, p, q) == Intended(s, newlines, p) <==> Kept(s, newlines, p, q)
    decreases |s| - p
  {
    hide Kept, Step, Unknown, FindEntity;
    if p < |s| {
      var (b, n) := Step(s, true, newlines, p, p);
      SameRound(s, newlines, p, q);
      KeptStep(s, newlines, p, q);
      KeptIff(s, newlines, p + n, q + |b|);
      Heads(Step(s, true, newlines, p, q).0, Decode(s, true, newlines, p + n, q + |b|),
            if Unknown(s, p) then [Ampersand] else b, Intended(s, newlines, p + n));
    } else {
      NothingKept(s, newlines, p, q);
    }
  }

  /** The write pointer decides only what an unknown entity turns into. */
  lemma SameRound(s: seq<Byte>, newlines: bool, p: nat, q: nat)
    requires q <= p < |s|
    ensures Step(s, true, newlines, p, q).1 == Step(s, true, newlines, p, p).1
    ensures Unknown(s, p) ==> Step(s, true, newlines, p, q).0 == [s[q]] && |Step(s, true, newlines, p, p).0| == 1
    ensures !Unknown(s, p) ==> Step(s, true, newlines, p, q) == Step(s, true, newlines, p, p)
  {
    hide FindEntity, Referred;
  }

  lemma Heads(a: seq<Byte>, x: seq<Byte>, b: seq<Byte>, y: seq<Byte>)
    requires |a| == |b|
    ensures a + x == b + y <==> a == b && x == y
  {
    if a + x == b + y {
      assert (a + x)[..|a|] == a && (b + y)[..|a|] == b;
      assert (a + x)[|a|..] == x && (b + y)[|a|..] == y;
    }
  }

  lemma NothingKept(s: seq<Byte>, newlines: bool, p: nat, q: nat)
    requires q <= p == |s|
    ensures Kept(s, newlines, p, q)
  {}

  /** Decoding does what it should exactly when, for every unknown entity that is read, the bytes
      written before it number the place of an ampersand. */
  lemma UnknownEntityIff(s: seq<Byte>, newlines: bool)
    ensures Decode(s, true, newlines, 0, 0) == Intended(s, newlines, 0) <==>
            forall k :: 0 <= k < |s| && Unknown(s, k) && Written(s, newlines, k) >= 0 ==>
              s[Written(s, newlines, k)] == Ampersand
  {
    hide Unknown, Step;
    KeptIff(s, newlines, 0, 0);
  }

  /** In particular where no entity is known: nothing is shortened and the text stays as it is. */
  lemma {:induction false} UnknownEntitiesKept(s: seq<Byte>, p: nat)
    requires Plain(s) && p <= |s| && forall k :: 0 <= k < |s| && s[k] == Ampersand ==> Unknown(s, k)
    ensures Decode(s, true, true, p, p) == s[p..]
    decreases |s| - p
  {
    hide FindEntity;
    if p < |s| {
      DecodeOne(s, true, true, p, p);
      UnknownEntitiesKept(s, p + 1);
    }
  }

  // ----- the five entities: section 4.6 of XML 1.0 -----

  datatype Named = Named(name: string, character: char)

  const PredefinedEntities: set<Named> :=
    {Named("lt", '<'), Named("gt", '>'), Named("amp", '&'), Named("apos", '\''), Named("quot", '"')}

  function EntityReference(e: Named): seq<Byte> {
    Ascii("&" + e.name + ";")
  }

  /** Wherever one of them stands, decoding writes its character and reads just the entity. */
  lemma EntityDecoded(s: seq<Byte>, newlines: bool, p: nat, q: nat, e: Named)
    requires e in PredefinedEntities && q <= p && Here(s, p, EntityReference(e))
    ensures p + |e.name| + 2 <= |s|
    ensures Decode(s, true, newlines, p, q) ==
            [e.character as int] + Decode(s, true, newlines, p + |e.name| + 2, q + 1)
  {
    hide Decode, FindEntity, Here, EntityIndex;
    EntityPattern(e);
    HereEnd(s, p, EntityReference(e));
    HereAt(s, p, EntityReference(e), 0);
    EntityFound(s, p, e.character as int);
    DecodeOne(s, true, newlines, p, q);
  }

  /** Any other ampersand that starts no numeric reference is unknown. */
  lemma NoOtherEntity(s: seq<Byte>, p: nat)
    requires At(s, p) == Ampersand && At(s, p + 1) != Hash
    ensures Unknown(s, p) <==> forall e :: e in PredefinedEntities ==> !Here(s, p, EntityReference(e))
  {
    hide Here;
    if FindEntity(s, p, 0) < 5 {
      var e := PatternEntity(FindEntity(s, p, 0));
      FoundStands(s, p, 0);
      EntityStands(s, p, FindEntity(s, p, 0), e);
    }
    forall e | e in PredefinedEntities && Here(s, p, EntityReference(e)) ensures FindEntity(s, p, 0) < 5 {
      EntityPattern(e);
      EntityFound(s, p, e.character as int);
    }
  }

  /** The five characters are written as their entities, the quotes only in attributes, and every
      other byte as itself. */
  lemma EntitiesWritten(v: seq<Byte>, restricted: bool)
    requires v != []
    ensures forall e :: e in PredefinedEntities && v[0] == e.character as int ==>
              EscapeText(v, restricted) ==
              (if restricted && e.character in {'"', '\''} then [v[0]] else EntityReference(e)) +
              EscapeText(v[1..], restricted)
    ensures (forall e :: e in PredefinedEntities ==> v[0] != e.character as int) ==>
              EscapeText(v, restricted) == [v[0]] + EscapeText(v[1..], restricted)
  {
    hide EscapeText;
    assert EscapeText(v, restricted) == EscapeChar(v[0], restricted) + EscapeText(v[1..], restricted) by {
      EscapeFirst(v, restricted);
    }
    forall e | e in PredefinedEntities && v[0] == e.character as int
      ensures EscapeChar(v[0], restricted) ==
              if restricted && e.character in {'"', '\''} then [v[0]] else EntityReference(e)
    {
      EntityPattern(e);
    }
    if forall e :: e in PredefinedEntities ==> v[0] != e.character as int {
      assert Named("lt", '<') in PredefinedEntities && Named("gt", '>') in PredefinedEntities;
      assert Named("amp", '&') in PredefinedEntities && Named("apos", '\'') in PredefinedEntities;
      assert Named("quot", '"') in PredefinedEntities;
    }
  }

  lemma EscapeFirst(v: seq<Byte>, restricted: bool)
    requires v != []
    ensures EscapeText(v, restricted) == EscapeChar(v[0], restricted) + EscapeText(v[1..], restricted)
  {}

  /** The table holds just these. */
  lemma EntityPattern(e: Named)
    requires e in PredefinedEntities
    ensures Flagged(e.character as int, false)
    ensures Flagged(e.character as int, true) <==> e.character !in {'"', '\''}
    ensures EntityReference(e) == [Ampersand] + Entities[EntityIndex(e.character as int)].pattern + [Semicolon]
  {}

  lemma PatternEntity(i: nat) returns (e: Named)
    requires i < 5
    ensures e in PredefinedEntities && EntityReference(e) == [Ampersand] + Entities[i].pattern + [Semicolon]
  {
    e := if i == 0 then Named("quot", '"') else if i == 1 then Named("amp", '&')
    else if i == 2 then Named("apos", '\'') else if i == 3 then Named("lt", '<') else Named("gt", '>');
  }

  lemma {:induction false} FoundStands(s: seq<Byte>, p: nat, i: nat)
    requires i <= 5
    ensures FindEntity(s, p, i) < 5 ==> EntityAt(s, p, FindEntity(s, p, i))
    decreases 5 - i
  {
    if i < 5 && !EntityAt(s, p, i) { FoundStands(s, p, i + 1); }
  }

  lemma EntityStands(s: seq<Byte>, p: nat, i: nat, e: Named)
    requires i < 5 && At(s, p) == Ampersand && EntityAt(s, p, i)
    requires EntityReference(e) == [Ampersand] + Entities[i].pattern + [Semicolon]
    ensures Here(s, p, EntityReference(e))
  {
    var t := Entities[i].pattern;
    forall k | 0 <= k < |t| ensures s[p + 1 + k] == t[k] { HereAt(s, p + 1, t, k); }
    HereFrom(s, p, EntityReference(e));
  }

  // ----- line breaks: section 2.11 of XML 1.0 -----

  /** A reference that asks for a carriage return. */
  predicate ReturnReferred(s: seq<Byte>, k: nat) {
    At(s, k) == Ampersand && At(s, k + 1) == Hash && Return in Referred(s, k).0
  }

  /** Where unknown entities are kept, no carriage return is left but those that references ask for. */
  lemma {:induction false} NoReturnLeft(s: seq<Byte>, p: nat)
    requires p <= |s|
    ensures Return in Intended(s, true, p) ==> exists k :: p <= k < |s| && ReturnReferred(s, k)
    decreases |s| - p
  {
    hide FindEntity, Referred;
    if p < |s| {
      ValuesPlain();
      var (b, n) := Step(s, true, true, p, p);
      NoReturnLeft(s, p + n);
      if Return in Intended(s, true, p) && !(Return in Intended(s, true, p + n)) {
        assert ReturnReferred(s, p);
      }
    }
  }

  lemma ValuesPlain()
    ensures forall i :: 0 <= i < 5 ==> Entities[i].value != Return
  {}

  datatype Break = CrLf | LfCr | Cr | Lf

  function BreakText(b: Break): (t: seq<Byte>)
    ensures |t| > 0
  {
    match b
    case CrLf => [Return, LineFeed]
    case LfCr => [LineFeed, Return]
    case Cr => [Return]
    case Lf => [LineFeed]
  }

  /** Printed lines with any breaks between them. */
  function Lined(lines: seq<seq<Byte>>, breaks: seq<Break>, restricted: bool): seq<Byte>
    requires |lines| == |breaks| + 1
  {
    if breaks == [] then EscapeText(lines[0], restricted)
    else EscapeText(lines[0], restricted) + (BreakText(breaks[0]) + Lined(lines[1..], breaks[1..], restricted))
  }

  /** The lines themselves, with line feeds. */
  function Unified(lines: seq<seq<Byte>>): seq<Byte>
    requires |lines| > 0
  {
    if |lines| == 1 then lines[0] else lines[0] + ([LineFeed] + Unified(lines[1..]))
  }

  predicate Line(v: seq<Byte>) {
    Plain(v) && LineFeed !in v
  }

  lemma LineStep(s: seq<Byte>, p: nat, q: nat, c: Byte, restricted: bool)
    requires c !in {0, Return, LineFeed} && q <= p < |s| && Here(s, p, EscapeChar(c, restricted))
    ensures Step(s, true, true, p, q) == ([c], |EscapeChar(c, restricted)|)
  {
    hide FindEntity, Referred;
    HereAt(s, p, EscapeChar(c, restricted), 0);
    if Flagged(c, restricted) { EntityFound(s, p, c); }
  }

  /** A printed line is decoded to itself, whatever follows. */
  lemma {:induction false} LineBack(s: seq<Byte>, p: nat, q: nat, v: seq<Byte>, restricted: bool)
    requires Line(v) && q <= p && Here(s, p, EscapeText(v, restricted))
    ensures var e := |EscapeText(v, restricted)|;
            && q + |v| <= p + e <= |s|
            && Decode(s, true, true, p, q) == v + Decode(s, true, true, p + e, q + |v|)
    decreases |v|
  {
    hide Step, EscapeChar, Here, Decode;
    if v == [] {
      HereEnd(s, p, EscapeText(v, restricted));
      assert v + Decode(s, true, true, p, q) == Decode(s, true, true, p, q);
    } else {
      var e, rest := EscapeChar(v[0], restricted), EscapeText(v[1..], restricted);
      HereSplit(s, p, e, rest);
      HereEnd(s, p, e);
      LineStep(s, p, q, v[0], restricted);
      DecodeOne(s, true, true, p, q);
      LineBack(s, p + |e|, q + 1, v[1..], restricted);
      Regroup([v[0]], v[1..], Decode(s, true, true, p + |e + rest|, q + |v|));
      assert [v[0]] + v[1..] == v;
    }
  }

  lemma HereEnd(s: seq<Byte>, p: nat, t: seq<Byte>)
    requires Here(s, p, t)
    ensures p + |t| <= |s|
  {}

  /** A break that is not the first half of another one gives one line feed. */
  lemma BreakStep(s: seq<Byte>, p: nat, q: nat, b: Break)
    requires q <= p < |s| && Here(s, p, BreakText(b)) && At(s, p + |BreakText(b)|) !in {Return, LineFeed}
    ensures Step(s, true, true, p, q) == ([LineFeed], |BreakText(b)|)
  {
    HereAt(s, p, BreakText(b), 0);
    if |BreakText(b)| == 2 { HereAt(s, p, BreakText(b), 1); }
  }

  /** CRLF, LFCR, CR and LF each become one line feed, and the lines between them are unescaped.
      Lines between two breaks must not be empty, or two breaks could be taken for one. */
  lemma {:induction false} BreaksUnified(s: seq<Byte>, p: nat, q: nat, lines: seq<seq<Byte>>, breaks: seq<Break>,
                                         restricted: bool)
    requires |lines| == |breaks| + 1 && q <= p <= |s| && s[p..] == Lined(lines, breaks, restricted)
    requires forall k :: 0 <= k < |lines| ==> Line(lines[k])
    requires forall k :: 0 < k < |lines| - 1 ==> lines[k] != []
    ensures Decode(s, true, true, p, q) == Unified(lines)
    decreases |lines|
  {
    hide Step, Here, Decode, EscapeText, Line, Unified, BreakText;
    UnifiedStep(lines);
    var t, v := Lined(lines, breaks, restricted), lines[0];
    var e := EscapeText(v, restricted);
    HereFrom(s, p, t);
    if breaks == [] {
      LineBack(s, p, q, v, restricted);
      DecodeEnd(s, true, true, q + |v|);
      assert v + [] == v;
    } else {
      var b := BreakText(breaks[0]);
      var rest := Lined(lines[1..], breaks[1..], restricted);
      HereSplit(s, p, e, b + rest);
      HereSplit(s, p + |e|, b, rest);
      LineBack(s, p, q, v, restricted);
      var p', q' := p + |e|, q + |v|;
      var r := p' + |b|;
      assert s[r..] == rest;
      NextLine(lines[1..], breaks[1..], restricted);
      if rest != [] { HereAt(s, r, rest, 0); }
      assert At(s, r) !in {Return, LineFeed};
      BreakStep(s, p', q', breaks[0]);
      DecodeOne(s, true, true, p', q');
      BreaksUnified(s, r, q' + 1, lines[1..], breaks[1..], restricted);
    }
  }

  /** The same breaks between lines in which nothing is escaped. */
  function RawLined(lines: seq<seq<Byte>>, breaks: seq<Break>): seq<Byte>
    requires |lines| == |breaks| + 1
  {
    if breaks == [] then lines[0] else lines[0] + (BreakText(breaks[0]) + RawLined(lines[1..], breaks[1..]))
  }

  predicate Unbroken(v: seq<Byte>) {
    Return !in v && LineFeed !in v
  }

  lemma {:induction false} RawLine(s: seq<Byte>, p: nat, q: nat, v: seq<Byte>)
    requires Unbroken(v) && q <= p && Here(s, p, v)
    ensures p + |v| <= |s| && Decode(s, false, true, p, q) == v + Decode(s, false, true, p + |v|, q + |v|)
    decreases |v|
  {
    hide Here, Decode;
    HereEnd(s, p, v);
    if v == [] {
      assert v + Decode(s, false, true, p, q) == Decode(s, false, true, p, q);
    } else {
      assert v == [v[0]] + v[1..];
      HereSplit(s, p, [v[0]], v[1..]);
      HereAt(s, p, v, 0);
      DecodeOne(s, false, true, p, q);
      RawLine(s, p + 1, q + 1, v[1..]);
      Regroup([v[0]], v[1..], Decode(s, false, true, p + |v|, q + |v|));
    }
  }

  lemma RawBreakStep(s: seq<Byte>, p: nat, q: nat, b: Break)
    requires q <= p < |s| && Here(s, p, BreakText(b)) && At(s, p + |BreakText(b)|) !in {Return, LineFeed}
    ensures Step(s, false, true, p, q) == ([LineFeed], |BreakText(b)|)
  {
    HereAt(s, p, BreakText(b), 0);
    if |BreakText(b)| == 2 { HereAt(s, p, BreakText(b), 1); }
  }

  /** Where entities are left alone, breaks become line feeds all the same. */
  lemma {:induction false} RawBreaksUnified(s: seq<Byte>, p: nat, q: nat, lines: seq<seq<Byte>>, breaks: seq<Break>)
    requires |lines| == |breaks| + 1 && q <= p <= |s| && s[p..] == RawLined(lines, breaks)
    requires forall k :: 0 <= k < |lines| ==> Unbroken(lines[k])
    requires forall k :: 0 < k < |lines| - 1 ==> lines[k] != []
    ensures Decode(s, false, true, p, q) == Unified(lines)
    decreases |lines|
  {
    hide Step, Here, Decode, Unbroken, Unified, BreakText;
    UnifiedStep(lines);
    var t, v := RawLined(lines, breaks), lines[0];
    HereFrom(s, p, t);
    if breaks == [] {
      RawLine(s, p, q, v);
      RawEnd(s, q + |v|);
      assert v + [] == v;
    } else {
      var b := BreakText(breaks[0]);
      var rest := RawLined(lines[1..], breaks[1..]);
      HereSplit(s, p, v, b + rest);
      HereSplit(s, p + |v|, b, rest);
      RawLine(s, p, q, v);
      var p', q' := p + |v|, q + |v|;
      var r := p' + |b|;
      assert s[r..] == rest;
      NextRawLine(lines[1..], breaks[1..]);
      if rest != [] { HereAt(s, r, rest, 0); }
      assert At(s, r) !in {Return, LineFeed};
      RawBreakStep(s, p', q', breaks[0]);
      DecodeOne(s, false, true, p', q');
      RawBreaksUnified(s, r, q' + 1, lines[1..], breaks[1..]);
    }
  }

  lemma RawEnd(s: seq<Byte>, q: nat)
    requires q <= |s|
    ensures Decode(s, false, true, |s|, q) == []
  {}

  lemma NextRawLine(lines: seq<seq<Byte>>, breaks: seq<Break>)
    requires |lines| == |breaks| + 1 && Unbroken(lines[0]) && (breaks != [] ==> lines[0] != [])
    ensures var t := RawLined(lines, breaks); t != [] ==> t[0] !in {Return, LineFeed}
  {
    hide BreakText;
    if lines[0] != [] { assert RawLined(lines, breaks)[0] == lines[0][0]; }
  }

  lemma UnifiedStep(lines: seq<seq<Byte>>)
    requires |lines| > 0
    ensures |lines| == 1 ==> Unified(lines) == lines[0]
    ensures |lines| > 1 ==> Unified(lines) == lines[0] + ([LineFeed] + Unified(lines[1..]))
  {}

  /** What follows a break does not start with another half of one. */
  lemma NextLine(lines: seq<seq<Byte>>, breaks: seq<Break>, restricted: bool)
    requires |lines| == |breaks| + 1 && Line(lines[0]) && (breaks != [] ==> lines[0] != [])
    ensures var t := Lined(lines, breaks, restricted); t != [] ==> t[0] !in {Return, LineFeed}
  {
    var v := lines[0];
    if v != [] { assert EscapeText(v, restricted)[0] == EscapeChar(v[0], restricted)[0]; }
  }

  /** Behind a known entity that is no longer so: here the ampersand turns into a letter left over
      from the entity in front of it. */
  lemma UnknownEntityCounterexample(s: seq<Byte>)
    requires s == [Ampersand, 108, 116, Semicolon, Ampersand, 97, Semicolon]
    ensures Decode(s, true, true, 0, 0) == [Less, 108, 97, Semicolon]
  {
    hide Decode, Here, FindEntity;
    assert s[0..4] == [Ampersand] + Entities[3].pattern + [Semicolon];
    HereFrom(s, 0, [Ampersand] + Entities[3].pattern + [Semicolon]);
    EntityFound(s, 0, Less);
    NoEntity(s, 4);
    DecodeOne(s, true, true, 0, 0);
    DecodeOne(s, true, true, 4, 1);
    DecodeOne(s, true, true, 5, 2);
    DecodeOne(s, true, true, 6, 3);
    DecodeEnd(s, true, true, 4);
  }

  lemma NoEntity(s: seq<Byte>, p: nat)
    requires forall j :: 0 <= j < 5 ==> At(s, p + 2) != Entities[j].pattern[1]
    ensures FindEntity(s, p, 0) == 5
  {
    forall j | 0 <= j < 5 ensures !EntityAt(s, p, j) { OtherEntity(s, p, j); }
  }
}
