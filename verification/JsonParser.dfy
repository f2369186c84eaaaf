/** The parser of cJSON: cursors moving over the text, one buffer per string. */
module JsonParser {
  import opened Octets
  import opened Text
  import opened CodePoints
  import opened Json

  /** skip */
  method SkipSpace(text: seq<Byte>, p: nat) returns (q: nat)
    requires p <= |text|
    ensures q == Skip(text, p)
  {
    q := p;
    while 0 < At(text, q) <= 32
      invariant p <= q <= |text| && Skip(text, q) == Skip(text, p)
      decreases |text| - q
    {
      q := q + 1;
    }
  }

  /** parse_number, on integers. */
  method ParseNumber(text: seq<Byte>, p: nat) returns (r: Parse<Json>)
    requires p < |text| && (text[p] == Minus || IsDigit(text[p]))
    ensures r == NumberAt(text, p)
  {
    var n: nat, sign, num := 0, 1, p;
    if At(text, num) == Minus { sign, num := -1, num + 1; }
    if At(text, num) == Zero { num := num + 1; }
    if 49 <= At(text, num) <= 57 {
      ghost var all := ParsedNatural(text, num, 0);
      while IsDigit(At(text, num))
        invariant num <= |text| && ParsedNatural(text, num, n) == all
        decreases |text| - num
      {
        n, num := 10 * n + (At(text, num) - Zero), num + 1;
      }
    }
    if At(text, num) in {69, 101} || (At(text, num) == Dot && IsDigit(At(text, num + 1))) || !Int32(sign * n) {
      return Outside;
    }
    r := Parsed(Number(sign * n), num);
  }

  /** The size that the first pass over a string computes. */
  function Pass(text: seq<Byte>, p: nat, plain: bool): nat
    requires p <= |text|
    decreases |text| - p
  {
    var c := At(text, p);
    if c == 0 || IsEnd(c, plain) then 0
    else if c != Backslash then 1 + Pass(text, p + 1, plain)
    else if At(text, p + 1) == 0 then 1
    else 1 + Pass(text, p + 2, plain)
  }

  lemma HexPass(text: seq<Byte>, p: nat)
    requires Hex4(text, p) >= 0
    ensures Pass(text, p, false) == 4 + Pass(text, p + 4, false)
  {
    assert HexValue(text[p]) < 16 && HexValue(text[p + 1]) < 16;
    assert HexValue(text[p + 2]) < 16 && HexValue(text[p + 3]) < 16;
    assert Pass(text, p, false) == 1 + Pass(text, p + 1, false);
    assert Pass(text, p + 1, false) == 1 + Pass(text, p + 2, false);
    assert Pass(text, p + 2, false) == 1 + Pass(text, p + 3, false);
  }

  /** A u escape never gives more bytes than the first pass counted for it. */
  lemma UnicodePass(text: seq<Byte>, p: nat)
    requires Unicode(text, p).Parsed?
    ensures Pass(text, p, false) >= |Unicode(text, p).value| + Pass(text, Unicode(text, p).next, false)
  {
    hide Utf8, Hex4;
    HexPass(text, p);
    if Unicode(text, p).next == p + 10 {
      assert Pass(text, p + 4, false) == 1 + Pass(text, p + 6, false);
      HexPass(text, p + 6);
    }
  }

  /** The buffer sized by the first pass takes all that the second one writes. */
  lemma {:induction false} RoomForChars(text: seq<Byte>, p: nat, plain: bool)
    requires p <= |text| && CharsAt(text, p, plain).Parsed?
    ensures |CharsAt(text, p, plain).value| <= Pass(text, p, plain)
    decreases |text| - p
  {
    hide Unicode;
    var c := At(text, p);
    if c == 0 || IsEnd(c, plain) {
    } else if c != Backslash {
      RoomForChars(text, p + 1, plain);
    } else if At(text, p + 1) != 117 {
      RoomForChars(text, p + 2, plain);
    } else {
      RoomForChars(text, Unicode(text, p + 2).next, plain);
      UnicodePass(text, p + 2);
    }
  }

  /** parse_string. Where a backslash is the last character the source reads on behind the
      terminator; here the pass stops. */
  method ParseString(text: seq<Byte>, p: nat) returns (r: Parse<seq<Byte>>)
    requires p <= |text|
    ensures r == StringAt(text, p)
  {
    hide CharsAt, Pass;
    var plain := At(text, p) != DoubleQuote;
    var start := if plain then p else p + 1;
    var len := FirstPass(text, start, plain);
    var out := new Byte[len + 1];
    var ok, ptr, ptr2 := SecondPass(text, start, plain, out);
    if !ok { return Outside; }
    out[ptr2] := 0;
    r := Parsed(out[..ptr2], if At(text, ptr) == DoubleQuote then ptr + 1 else ptr);
  }

  method FirstPass(text: seq<Byte>, start: nat, plain: bool) returns (len: nat)
    requires start <= |text|
    ensures len == Pass(text, start, plain)
  {
    var ptr := start;
    len := 0;
    while !IsEnd(At(text, ptr), plain) && At(text, ptr) != 0
      invariant start <= ptr <= |text| && len + Pass(text, ptr, plain) == Pass(text, start, plain)
      decreases |text| - ptr
    {
      len := len + 1;
      var c := At(text, ptr);
      ptr := ptr + 1;
      if c == Backslash {
        if At(text, ptr) == 0 { break; }
        ptr := ptr + 1;
      }
    }
  }

  /** Copies the characters; the writes stay inside the buffer even where the text turns out bad. */
  method SecondPass(text: seq<Byte>, start: nat, plain: bool, out: array<Byte>) returns (ok: bool, ptr: nat, ptr2: nat)
    requires start <= |text| && out.Length == Pass(text, start, plain) + 1
    modifies out
    ensures ptr2 < out.Length
    ensures CharsAt(text, start, plain) == if ok then Parsed(out[..ptr2], ptr) else Outside
  {
    hide Unicode, CharsAt, Pass;
    ptr, ptr2 := start, 0;
    ghost var all := CharsAt(text, start, plain);
    NothingBefore(all);
    while !IsEnd(At(text, ptr), plain) && At(text, ptr) != 0
      invariant start <= ptr <= |text| && ptr2 + Pass(text, ptr, plain) < out.Length
      invariant all == Prefixed(out[..ptr2], CharsAt(text, ptr, plain))
      decreases |text| - ptr
    {
      NextChar(text, ptr, plain);
      ghost var done := out[..ptr2];
      if At(text, ptr) != Backslash {
        Append(done, [At(text, ptr)], CharsAt(text, ptr + 1, plain));
        out[ptr2] := At(text, ptr);
        ptr, ptr2 := ptr + 1, ptr2 + 1;
        assert out[..ptr2] == done + [out[ptr2 - 1]];
      } else {
        var e := At(text, ptr + 1);
        if e == 0 { return false, ptr, ptr2; }
        if e == 117 {
          var next, j;
          ok, next, j := PutUnicode(text, ptr + 2, out, ptr2);
          if !ok { return false, ptr, ptr2; }
          Append(done, Unicode(text, ptr + 2).value, CharsAt(text, next, plain));
          ptr, ptr2 := next, j;
        } else {
          Append(done, [Unescape(e)], CharsAt(text, ptr + 2, plain));
          out[ptr2] := Unescape(e);
          ptr, ptr2 := ptr + 2, ptr2 + 1;
          assert out[..ptr2] == done + [out[ptr2 - 1]];
        }
      }
    }
    LastChar(text, ptr, plain);
    assert out[..ptr2] + [] == out[..ptr2];
    ok := true;
  }

  lemma NothingBefore(r: Parse<seq<Byte>>)
    ensures Prefixed([], r) == r
  {
    if r.Parsed? { assert [] + r.value == r.value; }
  }

  lemma LastChar(text: seq<Byte>, p: nat, plain: bool)
    requires p <= |text| && (IsEnd(At(text, p), plain) || At(text, p) == 0)
    ensures CharsAt(text, p, plain) == Parsed([], p)
  {}

  /** One character of a string: what it gives, and that the first pass counted enough for it. */
  lemma NextChar(text: seq<Byte>, p: nat, plain: bool)
    requires p <= |text| && !IsEnd(At(text, p), plain) && At(text, p) != 0
    ensures p < |text|
    ensures var c, e := At(text, p), At(text, p + 1);
            if c != Backslash then
              && Pass(text, p, plain) == 1 + Pass(text, p + 1, plain)
              && CharsAt(text, p, plain) == Prefixed([c], CharsAt(text, p + 1, plain))
            else if e == 0 then CharsAt(text, p, plain) == Outside
            else if e != 117 then
              && Pass(text, p, plain) == 1 + Pass(text, p + 2, plain)
              && CharsAt(text, p, plain) == Prefixed([Unescape(e)], CharsAt(text, p + 2, plain))
            else
              var u := Unicode(text, p + 2);
              if u.Parsed? then
                && Pass(text, p, plain) > |u.value| + Pass(text, u.next, plain)
                && CharsAt(text, p, plain) == Prefixed(u.value, CharsAt(text, u.next, plain))
              else CharsAt(text, p, plain) == Outside
  {
    hide Unicode;
    if At(text, p) == Backslash && At(text, p + 1) == 117 && Unicode(text, p + 2).Parsed? { UnicodePass(text, p + 2); }
  }

  /** The u escape whose digits start at p. */
  method PutUnicode(text: seq<Byte>, p: nat, out: array<Byte>, j: nat) returns (ok: bool, next: nat, j': nat)
    requires var u := Unicode(text, p); j <= out.Length && (u.Parsed? ==> j + |u.value| <= out.Length)
    modifies out
    ensures var u := Unicode(text, p);
            && ok == u.Parsed?
            && (ok ==> next == u.next && j' == j + |u.value| && out[..j'] == old(out[..j]) + u.value)
  {
    hide Utf8, Hex4;
    next, j' := p + 4, j;
    var uc := Hex4(text, p);
    if uc < 0 { return false, next, j'; }
    if 0xDC00 <= uc <= 0xDFFF || uc == 0 { return true, next, j'; }
    if 0xD800 <= uc <= 0xDBFF {
      if At(text, next) != Backslash || At(text, next + 1) != 117 { return true, next, j'; }
      var uc2 := Hex4(text, next + 2);
      if uc2 < 0 { return false, next, j'; }
      next := next + 6;
      if uc2 < 0xDC00 || uc2 > 0xDFFF { return true, next, j'; }
      LowBits(uc, uc2);
      uc := 0x10000 + (uc % 1024) * 1024 + uc2 % 1024;
    }
    j' := PutUtf8(out, j, uc);
    ok := true;
  }

  lemma LowBits(uc: nat, uc2: nat)
    requires 0xD800 <= uc <= 0xDBFF && 0xDC00 <= uc2 <= 0xDFFF
    ensures uc % 1024 == uc - 0xD800 && uc2 % 1024 == uc2 - 0xDC00
  {}

  /** parse_value */
  method ParseValue(text: seq<Byte>, p: nat) returns (r: Parse<Json>)
    requires p <= |text|
    ensures r == ValueAt(text, p)
    decreases |text| - p, 2
  {
    hide NumberAt, StringAt, ArrayAt, ObjectAt, Here;
    var c := At(text, p);
    if Here(text, p, NullText) { return Parsed(Null, p + 4); }
    if Here(text, p, FalseText) { return Parsed(False, p + 5); }
    if Here(text, p, TrueText) { return Parsed(True, p + 4); }
    if c == Minus || IsDigit(c) {
      r := ParseNumber(text, p);
      return;
    }
    if c == OpenBracket {
      r := ParseArray(text, p);
      return;
    }
    if c == OpenBrace {
      r := ParseObject(text, p);
      return;
    }
    if c == DoubleQuote || IsAlpha(c) {
      var s := ParseString(text, p);
      return if s.Parsed? then Parsed(String(s.value), s.next) else Outside;
    }
    r := Failed(p);
  }

  /** parse_array: the children are appended in the order of the text. */
  method ParseArray(text: seq<Byte>, p: nat) returns (r: Parse<Json>)
    requires At(text, p) == OpenBracket
    ensures r == ArrayAt(text, p)
    decreases |text| - p, 1
  {
    hide ValueAt, Skip;
    var value := SkipSpace(text, p + 1);
    if At(text, value) == CloseBracket { return Parsed(Array([]), value + 1); }
    ghost var all := ItemsAt(text, value);
    value := SkipSpace(text, value);
    var child := ParseValue(text, value);
    if !child.Parsed? { return Failure(child); }
    value := SkipSpace(text, child.next);
    var items := [child.value];
    while At(text, value) == Comma
      invariant p < value <= |text| && all == Prefixed(items, ItemsRest(text, value))
      decreases |text| - value
    {
      ghost var comma := value;
      value := SkipSpace(text, value + 1);
      child := ParseValue(text, value);
      if !child.Parsed? { return Failure(child); }
      value := SkipSpace(text, child.next);
      Append(items, [child.value], ItemsRest(text, value));
      items := items + [child.value];
    }
    if At(text, value) == CloseBracket {
      assert items + [] == items;
      return Parsed(Array(items), value + 1);
    }
    r := Failed(value);
  }

  lemma Append<T>(items: seq<T>, more: seq<T>, r: Parse<seq<T>>)
    ensures Prefixed(items, Prefixed(more, r)) == Prefixed(items + more, r)
  {
    if r.Parsed? { assert items + (more + r.value) == (items + more) + r.value; }
  }

  /** parse_object */
  method ParseObject(text: seq<Byte>, p: nat) returns (r: Parse<Json>)
    requires At(text, p) == OpenBrace
    ensures r == ObjectAt(text, p)
    decreases |text| - p, 1
  {
    hide ValueAt, Skip, MemberAt;
    var value := SkipSpace(text, p + 1);
    if At(text, value) == CloseBrace { return Parsed(Object([]), value + 1); }
    ghost var all := MembersAt(text, value);
    var child := ParseMember(text, value);
    if !child.Parsed? { return Failure(child); }
    value := SkipSpace(text, child.next);
    var members := [child.value];
    while At(text, value) == Comma
      invariant p < value <= |text| && all == Prefixed(members, MembersRest(text, value))
      decreases |text| - value
    {
      child := ParseMember(text, value + 1);
      if !child.Parsed? { return Failure(child); }
      value := SkipSpace(text, child.next);
      Append(members, [child.value], MembersRest(text, value));
      members := members + [child.value];
    }
    if At(text, value) == CloseBrace {
      assert members + [] == members;
      return Parsed(Object(members), value + 1);
    }
    r := Failed(value);
  }

  /** A name, a colon and a value. */
  method ParseMember(text: seq<Byte>, p: nat) returns (r: Parse<Member>)
    requires p <= |text|
    ensures r == MemberAt(text, p)
    decreases |text| - p, 3
  {
    hide ValueAt, StringAt, Skip;
    var value := SkipSpace(text, p);
    var name := ParseString(text, value);
    if !name.Parsed? { return Failure(name); }
    value := SkipSpace(text, name.next);
    if At(text, value) != Colon { return Failed(value); }
    value := SkipSpace(text, value + 1);
    var v := ParseValue(text, value);
    if !v.Parsed? { return Failure(v); }
    r := Parsed(Member(name.value, v.value), v.next);
  }

  /** cJSON_ParseWithOpts */
  method ParseDocument(text: seq<Byte>, whole: bool) returns (r: Parse<Json>)
    ensures r == Document(text, whole)
  {
    hide ValueAt, Skip;
    var start := SkipSpace(text, 0);
    r := ParseValue(text, start);
    if r.Parsed? && whole {
      var end := SkipSpace(text, r.next);
      if At(text, end) != 0 { return Failed(end); }
      r := Parsed(r.value, end);
    }
  }
}
