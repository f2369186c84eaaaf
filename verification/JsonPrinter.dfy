/** The printer of cJSON: every piece of text in a buffer whose size is computed first. */
module JsonPrinter {
  import opened Octets
  import opened Text
  import opened Json

  /** A C string in a buffer. */
  predicate Written(out: array<Byte>, t: seq<Byte>)
    reads out
  {
    |t| < out.Length && out[..|t|] == t && out[|t|] == 0
  }

  /** The size of the buffer that print_value allocates. */
  function Allocated(v: Json, depth: nat, fmt: bool): nat
    decreases v, 1, 0
  {
    match v
    case Null => 5
    case False => 6
    case True => 5
    case Number(_) => 21
    case String(s) => |EscapeAll(s)| + 3
    case Array(items) => if items == [] then 3 else 5 + ItemSizes(v, 0, depth + 1, fmt)
    case Object(members) =>
      if members == [] then (if fmt then depth + 3 else 3)
      else 7 + (if fmt then depth + 1 else 0) + MemberSizes(v, 0, depth + 1, fmt)
  }

  /** What the items from the k-th on add to it. */
  function ItemSizes(v: Json, k: nat, depth: nat, fmt: bool): nat
    requires v.Array? && k <= |v.items|
    decreases v, 0, |v.items| - k
  {
    if k == |v.items| then 0
    else |Print(v.items[k], depth, fmt)| + 2 + (if fmt then 1 else 0) + ItemSizes(v, k + 1, depth, fmt)
  }

  function MemberSizes(v: Json, k: nat, depth: nat, fmt: bool): nat
    requires v.Object? && k <= |v.members|
    decreases v, 0, |v.members| - k
  {
    if k == |v.members| then 0
    else
      |Print(v.members[k].value, depth, fmt)| + |Quoted(v.members[k].name)| + 2 + (if fmt then 2 + depth else 0)
      + MemberSizes(v, k + 1, depth, fmt)
  }

  lemma {:induction false} TabsLength(n: int)
    ensures |Tabs(n)| == if n <= 0 then 0 else n
  {
    if n > 0 { TabsLength(n - 1); }
  }

  lemma {:induction false} ItemsRoom(v: Json, k: nat, depth: nat, fmt: bool)
    requires v.Array? && k <= |v.items|
    ensures |PrintItems(v, k, depth, fmt)| <= ItemSizes(v, k, depth, fmt)
    decreases |v.items| - k
  {
    if k < |v.items| { ItemsRoom(v, k + 1, depth, fmt); }
  }

  lemma {:induction false} MembersRoom(v: Json, k: nat, depth: nat, fmt: bool)
    requires v.Object? && k <= |v.members|
    ensures |PrintMembers(v, k, depth, fmt)| <= MemberSizes(v, k, depth, fmt)
    decreases |v.members| - k
  {
    if k < |v.members| {
      MembersRoom(v, k + 1, depth, fmt);
      TabsLength(depth);
    }
  }

  lemma {:induction false} NaturalLength(m: nat, bound: nat, digits: nat)
    requires m < bound && bound == Power10(digits) && digits > 0
    ensures |Natural(m)| <= digits
    decreases digits
  {
    if m >= 10 {
      hide Natural, Power10;
      PowerStep(digits);
      NaturalStep(m);
      NaturalLength(m / 10, Power10(digits - 1), digits - 1);
    } else {
      NaturalStep(m);
    }
  }

  lemma PowerStep(n: nat)
    requires n > 0
    ensures Power10(n) == 10 * Power10(n - 1) && (n == 1 ==> Power10(n) == 10)
  {}

  lemma NaturalStep(m: nat)
    ensures m < 10 ==> |Natural(m)| == 1
    ensures m >= 10 ==> |Natural(m)| == |Natural(m / 10)| + 1
  {}

  function Power10(n: nat): nat {
    if n == 0 then 1 else 10 * Power10(n - 1)
  }

  /** The computed size covers every byte written, the terminator included, except for an empty
      object printed with formatting at depth 0. */
  lemma SizeIff(v: Json, depth: nat, fmt: bool)
    requires Printable(v)
    ensures |Print(v, depth, fmt)| < Allocated(v, depth, fmt) <==> !(v == Object([]) && fmt && depth == 0)
  {
    hide PrintItems, PrintMembers, ItemSizes, MemberSizes, Tabs, Natural, Power10, EscapeAll;
    match v
    case Number(n) =>
      TenDigits(if n < 0 then -n else n);
    case Array(items) =>
      ItemsRoom(v, 0, depth + 1, fmt);
      LastItem(v, depth + 1, fmt);
    case Object(members) =>
      TabsLength(depth);
      TabsLength(depth - 1);
      MembersRoom(v, 0, depth + 1, fmt);
    case _ =>
  }

  lemma TenDigits(m: nat)
    requires m <= 0x8000_0000
    ensures |Natural(m)| <= 10
  {
    hide Natural;
    NaturalLength(m, 10_000_000_000, 10);
  }

  // ----- printed text is a C string -----

  lemma {:induction false} EscapeNulFree(s: seq<Byte>)
    requires NulFree(s)
    ensures NulFree(EscapeAll(s))
  {
    if s != [] { EscapeNulFree(s[1..]); }
  }

  lemma {:induction false} NaturalNulFree(m: nat)
    ensures NulFree(Natural(m))
  {
    if m >= 10 { NaturalNulFree(m / 10); }
  }

  lemma {:induction false} TabsNulFree(n: int)
    ensures NulFree(Tabs(n))
  {
    if n > 0 { TabsNulFree(n - 1); }
  }

  lemma BothNulFree(a: seq<Byte>, b: seq<Byte>)
    requires NulFree(a) && NulFree(b)
    ensures NulFree(a + b)
  {}

  lemma QuotedNulFree(s: seq<Byte>)
    requires NulFree(s)
    ensures NulFree(Quoted(s))
  {
    EscapeNulFree(s);
  }

  lemma {:induction false} PrintNulFree(v: Json, depth: nat, fmt: bool)
    requires Printable(v)
    ensures NulFree(Print(v, depth, fmt))
    decreases v, 1, 0
  {
    hide PrintItems, PrintMembers, Tabs, Natural, Quoted;
    match v
    case Number(n) => NaturalNulFree(if n < 0 then -n else n);
    case String(s) => QuotedNulFree(s);
    case Array(items) => ItemsNulFree(v, 0, depth + 1, fmt);
    case Object(members) =>
      TabsNulFree(depth);
      TabsNulFree(depth - 1);
      MembersNulFree(v, 0, depth + 1, fmt);
    case _ =>
  }

  lemma {:induction false} ItemsNulFree(v: Json, k: nat, depth: nat, fmt: bool)
    requires v.Array? && Printable(v) && k <= |v.items|
    ensures NulFree(PrintItems(v, k, depth, fmt))
    decreases v, 0, |v.items| - k
  {
    hide Print;
    if k < |v.items| {
      PrintNulFree(v.items[k], depth, fmt);
      ItemsNulFree(v, k + 1, depth, fmt);
    }
  }

  lemma {:induction false} MembersNulFree(v: Json, k: nat, depth: nat, fmt: bool)
    requires v.Object? && Printable(v) && k <= |v.members|
    ensures NulFree(PrintMembers(v, k, depth, fmt))
    decreases v, 0, |v.members| - k
  {
    hide Print, MemberStart;
    if k < |v.members| {
      var start, value := MemberStart(v.members[k].name, depth, fmt), Print(v.members[k].value, depth, fmt);
      StartNulFree(v.members[k].name, depth, fmt);
      PrintNulFree(v.members[k].value, depth, fmt);
      MembersNulFree(v, k + 1, depth, fmt);
      BothNulFree(start, value);
      BothNulFree(start + value, MemberEnd(k + 1 < |v.members|, fmt));
      BothNulFree(start + value + MemberEnd(k + 1 < |v.members|, fmt), PrintMembers(v, k + 1, depth, fmt));
    }
  }

  lemma StartNulFree(name: seq<Byte>, depth: nat, fmt: bool)
    requires NulFree(name)
    ensures NulFree(MemberStart(name, depth, fmt))
  {
    hide Tabs, Quoted;
    TabsNulFree(depth);
    QuotedNulFree(name);
  }

  // ----- C strings -----

  method StrLen(s: array<Byte>, ghost t: seq<Byte>) returns (n: nat)
    requires Written(s, t) && NulFree(t)
    ensures n == |t|
  {
    assert forall k :: 0 <= k < |t| ==> s[k] == s[..|t|][k] == t[k];
    n := 0;
    while s[n] != 0
      invariant n <= |t|
      decreases |t| - n
    {
      n := n + 1;
    }
  }

  /** Copies a C string, terminator included, and returns the position of the terminator. */
  method StrCpy(out: array<Byte>, ptr: nat, s: array<Byte>, ghost t: seq<Byte>) returns (ptr': nat)
    requires Written(s, t) && NulFree(t) && s != out && ptr + |t| < out.Length
    modifies out
    ensures ptr' == ptr + |t| && out[ptr'] == 0 && out[..ptr'] == old(out[..ptr]) + t
  {
    var n := StrLen(s, t);
    forall k | 0 <= k <= n { out[ptr + k] := s[k]; }
    ptr' := ptr + n;
    assert out[..ptr'] == old(out[..ptr]) + s[..n];
  }

  /** Stores characters one after the other. */
  method Put(out: array<Byte>, ptr: nat, t: seq<Byte>) returns (ptr': nat)
    requires ptr + |t| <= out.Length
    modifies out
    ensures ptr' == ptr + |t| && out[..ptr'] == old(out[..ptr]) + t
  {
    forall k | 0 <= k < |t| { out[ptr + k] := t[k]; }
    ptr' := ptr + |t|;
  }

  /** cJSON_strdup of a literal. */
  method StrDup(t: seq<Byte>) returns (out: array<Byte>)
    requires NulFree(t)
    ensures fresh(out) && out.Length == |t| + 1 && Written(out, t)
  {
    out := new Byte[|t| + 1];
    var p := Put(out, 0, t);
    out[p] := 0;
    assert out[..p] == [] + t;
  }

  // ----- strings -----

  /** print_string_ptr */
  method PrintStringPtr(str: seq<Byte>) returns (out: array<Byte>)
    requires NulFree(str)
    ensures fresh(out) && out.Length == |Quoted(str)| + 1 && Written(out, Quoted(str))
  {
    hide Escape;
    var len := EscapedLength(str);
    out := new Byte[len + 3];
    out[0] := DoubleQuote;
    var ptr: nat, i := 1, 0;
    assert str[0..] == str;
    assert out[..1] == [DoubleQuote];
    while i < |str|
      invariant i <= |str| && ptr + |EscapeAll(str[i..])| == len + 1
      invariant out[..ptr] + EscapeAll(str[i..]) == [DoubleQuote] + EscapeAll(str)
    {
      assert str[i..][1..] == str[i + 1..];
      ghost var done := out[..ptr];
      ptr := PutEscaped(out, ptr, str[i]);
      assert (done + Escape(str[i])) + EscapeAll(str[i + 1..]) == done + (Escape(str[i]) + EscapeAll(str[i + 1..]));
      i := i + 1;
    }
    assert out[..ptr] == [DoubleQuote] + EscapeAll(str);
    out[ptr] := DoubleQuote;
    out[ptr + 1] := 0;
    assert out[..ptr + 1] == out[..ptr] + [DoubleQuote];
  }

  method EscapedLength(str: seq<Byte>) returns (len: nat)
    requires NulFree(str)
    ensures len == |EscapeAll(str)|
  {
    len := 0;
    var i := 0;
    assert str[0..] == str;
    while i < |str|
      invariant i <= |str| && len + |EscapeAll(str[i..])| == |EscapeAll(str)|
    {
      assert str[i..][1..] == str[i + 1..];
      var token := str[i];
      len := len + 1;
      if token in {DoubleQuote, Backslash, 8, 12, LineFeed, 13, Tab} {
        len := len + 1;
      } else if token < 32 {
        len := len + 5;
      }
      i := i + 1;
    }
  }

  /** One character. */
  method PutEscaped(out: array<Byte>, ptr: nat, c: Byte) returns (ptr': nat)
    requires c != 0 && ptr + |Escape(c)| <= out.Length
    modifies out
    ensures ptr' == ptr + |Escape(c)| && out[..ptr'] == old(out[..ptr]) + Escape(c)
  {
    if c > 31 && c != DoubleQuote && c != Backslash {
      ptr' := Put(out, ptr, [c]);
    } else if ShortEscape(c) != 0 {
      ptr' := Put(out, ptr, [Backslash, ShortEscape(c)]);
    } else {
      ptr' := Put(out, ptr, [Backslash, 117, Zero, Zero, HexDigit(c / 16), HexDigit(c % 16)]);
    }
  }

  // ----- values -----

  /** print_value. An empty object with formatting at depth 0 is the one value whose buffer is too
      small, as SizeIff says. */
  method PrintValue(v: Json, depth: nat, fmt: bool) returns (out: array<Byte>)
    requires Printable(v) && !(v == Object([]) && fmt && depth == 0)
    ensures fresh(out) && out.Length == Allocated(v, depth, fmt) && Written(out, Print(v, depth, fmt))
    decreases v, 2
  {
    SizeIff(v, depth, fmt);
    match v
    case Null => out := StrDup(NullText);
    case False => out := StrDup(FalseText);
    case True => out := StrDup(TrueText);
    case Number(n) => out := PrintNumber(n);
    case String(s) => out := PrintStringPtr(s);
    case Array(items) => out := PrintArray(v, depth, fmt);
    case Object(members) => out := PrintObject(v, depth, fmt);
  }

  /** print_number, on the integers that it prints with "%d". */
  method PrintNumber(n: int) returns (out: array<Byte>)
    requires Int32(n)
    ensures fresh(out) && out.Length == 21 && Written(out, Decimal(n))
  {
    TenDigits(if n < 0 then -n else n);
    out := new Byte[21];
    var p := Put(out, 0, Decimal(n));
    out[p] := 0;
    assert out[..p] == [] + Decimal(n);
  }

  /** print_array */
  method PrintArray(v: Json, depth: nat, fmt: bool) returns (out: array<Byte>)
    requires v.Array? && Printable(v)
    ensures fresh(out) && out.Length == Allocated(v, depth, fmt) && Written(out, Print(v, depth, fmt))
    decreases v, 1
  {
    hide PrintItems, ItemSizes;
    if |v.items| == 0 {
      LastItem(v, depth + 1, fmt);
      out := StrDup([OpenBracket, CloseBracket]);
      return;
    }
    var entries, len := ItemEntries(v, depth + 1, fmt);
    out := new Byte[len];
    ComposeItems(v, depth + 1, fmt, entries, out);
  }

  /** Prints the items and adds up the size. */
  method ItemEntries(v: Json, depth: nat, fmt: bool) returns (entries: seq<array<Byte>>, len: nat)
    requires v.Array? && Printable(v) && depth > 0
    ensures |entries| == |v.items| && len == 5 + ItemSizes(v, 0, depth, fmt)
    ensures forall k :: 0 <= k < |entries| ==> Written(entries[k], Print(v.items[k], depth, fmt))
    decreases v, 0
  {
    hide Print, Written;
    entries, len := [], 5;
    for i := 0 to |v.items|
      invariant |entries| == i && len + ItemSizes(v, i, depth, fmt) == 5 + ItemSizes(v, 0, depth, fmt)
      invariant forall k :: 0 <= k < i ==> Written(entries[k], Print(v.items[k], depth, fmt))
    {
      var ret := PrintValue(v.items[i], depth, fmt);
      PrintNulFree(v.items[i], depth, fmt);
      var n := StrLen(ret, Print(v.items[i], depth, fmt));
      entries := entries + [ret];
      len := len + n + 2 + if fmt then 1 else 0;
    }
  }

  /** Copies the printed items between the brackets. */
  method ComposeItems(v: Json, depth: nat, fmt: bool, entries: seq<array<Byte>>, out: array<Byte>)
    requires v.Array? && Printable(v) && |entries| == |v.items| && out !in entries
    requires forall k :: 0 <= k < |entries| ==> Written(entries[k], Print(v.items[k], depth, fmt))
    requires out.Length == 5 + ItemSizes(v, 0, depth, fmt)
    modifies out
    ensures Written(out, [OpenBracket] + PrintItems(v, 0, depth, fmt) + [CloseBracket])
  {
    hide Print, PrintItems, ItemSizes;
    ghost var all := PrintItems(v, 0, depth, fmt);
    ItemsRoom(v, 0, depth, fmt);
    out[0] := OpenBracket;
    var ptr: nat := 1;
    out[ptr] := 0;
    assert out[..1] == [OpenBracket];
    for i := 0 to |entries|
      invariant ptr + |PrintItems(v, i, depth, fmt)| == 1 + |all|
      invariant out[..ptr] + PrintItems(v, i, depth, fmt) == [OpenBracket] + all
      invariant forall k :: 0 <= k < |entries| ==> Written(entries[k], Print(v.items[k], depth, fmt))
    {
      ghost var done := out[..ptr];
      ghost var item, rest := Print(v.items[i], depth, fmt), PrintItems(v, i + 1, depth, fmt);
      ItemsStep(v, i, depth, fmt);
      PrintNulFree(v.items[i], depth, fmt);
      assert entries[i] in entries;
      ptr := StrCpy(out, ptr, entries[i], item);
      if i != |entries| - 1 {
        ptr := Put(out, ptr, if fmt then [Comma, Space] else [Comma]);
        out[ptr] := 0;
      }
      Assoc(done, item, ItemEnd(i + 1 < |v.items|, fmt), rest);
    }
    LastItem(v, depth, fmt);
    ghost var done := out[..ptr];
    assert done == [OpenBracket] + all;
    out[ptr] := CloseBracket;
    out[ptr + 1] := 0;
    assert out[..ptr + 1] == done + [CloseBracket];
  }

  lemma Assoc(a: seq<Byte>, b: seq<Byte>, c: seq<Byte>, d: seq<Byte>)
    ensures a + (b + c + d) == a + b + c + d
    ensures a + b + [] + d == a + b + d
  {}

  /** print_object */
  method PrintObject(v: Json, depth: nat, fmt: bool) returns (out: array<Byte>)
    requires v.Object? && Printable(v) && !(v == Object([]) && fmt && depth == 0)
    ensures fresh(out) && out.Length == Allocated(v, depth, fmt) && Written(out, Print(v, depth, fmt))
    decreases v, 1
  {
    hide PrintMembers, MemberSizes;
    if |v.members| == 0 {
      out := PrintEmptyObject(depth, fmt);
      return;
    }
    var names, entries, len := MemberEntries(v, depth + 1, fmt);
    out := new Byte[len];
    ComposeMembers(v, depth + 1, fmt, names, entries, out);
  }

  method PrintEmptyObject(depth: nat, fmt: bool) returns (out: array<Byte>)
    requires fmt ==> depth > 0
    ensures fresh(out) && out.Length == Allocated(Object([]), depth, fmt) && Written(out, Print(Object([]), depth, fmt))
  {
    hide Tabs;
    TabsLength(depth - 1);
    out := new Byte[if fmt then depth + 3 else 3];
    var ptr: nat := Put(out, 0, [OpenBrace]);
    if fmt {
      ptr := Put(out, ptr, [LineFeed]);
      ptr := PutTabs(out, ptr, depth - 1);
    }
    ghost var done := out[..ptr];
    out[ptr] := CloseBrace;
    out[ptr + 1] := 0;
    assert out[..ptr + 1] == done + [CloseBrace];
    assert done == [OpenBrace] + if fmt then [LineFeed] + Tabs(depth - 1) else [];
  }

  method PutTabs(out: array<Byte>, ptr: nat, n: int) returns (ptr': nat)
    requires ptr + |Tabs(n)| <= out.Length
    modifies out
    ensures ptr' == ptr + |Tabs(n)| && out[..ptr'] == old(out[..ptr]) + Tabs(n)
  {
    TabsLength(n);
    ptr' := ptr;
    var i := 0;
    assert old(out[..ptr]) + Tabs(0) == old(out[..ptr]);
    while i < n
      invariant ptr' == ptr + i && (n <= 0 ==> i == 0) && (n > 0 ==> 0 <= i <= n)
      invariant out[..ptr'] == old(out[..ptr]) + Tabs(i)
    {
      ghost var done := out[..ptr'];
      out[ptr'] := Tab;
      ptr' := ptr' + 1;
      i := i + 1;
      TabsLast(i);
      assert out[..ptr'] == done + [Tab];
    }
  }

  lemma {:induction false} TabsLast(n: int)
    requires n > 0
    ensures Tabs(n) == Tabs(n - 1) + [Tab]
  {
    if n > 1 { TabsLast(n - 1); }
  }

  method MemberEntries(v: Json, depth: nat, fmt: bool)
    returns (names: seq<array<Byte>>, entries: seq<array<Byte>>, len: nat)
    requires v.Object? && Printable(v) && depth > 0
    ensures |names| == |entries| == |v.members|
    ensures len == 7 + (if fmt then depth else 0) + MemberSizes(v, 0, depth, fmt)
    ensures forall k :: 0 <= k < |names| ==> Written(names[k], Quoted(v.members[k].name))
    ensures forall k :: 0 <= k < |entries| ==> Written(entries[k], Print(v.members[k].value, depth, fmt))
    decreases v, 0
  {
    hide Print, Written, Quoted, Allocated;
    names, entries, len := [], [], 7;
    if fmt { len := len + depth; }
    ghost var total := len + MemberSizes(v, 0, depth, fmt);
    for i := 0 to |v.members|
      invariant |names| == |entries| == i && len + MemberSizes(v, i, depth, fmt) == total
      invariant forall k :: 0 <= k < i ==> Written(names[k], Quoted(v.members[k].name))
      invariant forall k :: 0 <= k < i ==> Written(entries[k], Print(v.members[k].value, depth, fmt))
    {
      var str := PrintStringPtr(v.members[i].name);
      var ret := PrintValue(v.members[i].value, depth, fmt);
      PrintNulFree(v.members[i].value, depth, fmt);
      QuotedNulFree(v.members[i].name);
      var n := StrLen(ret, Print(v.members[i].value, depth, fmt));
      var m := StrLen(str, Quoted(v.members[i].name));
      names, entries := names + [str], entries + [ret];
      len := len + n + m + 2 + if fmt then 2 + depth else 0;
    }
  }

  /** Copies the printed names and values between the braces; depth counts the members' tabs. */
  method ComposeMembers(v: Json, depth: nat, fmt: bool, names: seq<array<Byte>>, entries: seq<array<Byte>>,
                        out: array<Byte>)
    requires v.Object? && Printable(v) && |names| == |entries| == |v.members| && out !in names && out !in entries
    requires depth > 0
    requires forall k :: 0 <= k < |names| ==> Written(names[k], Quoted(v.members[k].name))
    requires forall k :: 0 <= k < |entries| ==> Written(entries[k], Print(v.members[k].value, depth, fmt))
    requires out.Length == 7 + (if fmt then depth else 0) + MemberSizes(v, 0, depth, fmt)
    modifies out
    ensures Written(out, [OpenBrace] + (if fmt then [LineFeed] else []) + PrintMembers(v, 0, depth, fmt) +
                    Closing(depth - 1, fmt))
  {
    hide Print, PrintMembers, MemberSizes, Tabs, MemberStart, MemberEnd, Quoted, Closing, Written;
    ghost var start: seq<Byte> := [OpenBrace] + (if fmt then [LineFeed] else []);
    ghost var all := PrintMembers(v, 0, depth, fmt);
    MembersRoom(v, 0, depth, fmt);
    ClosingLength(depth - 1, fmt);
    var ptr: nat := Put(out, 0, [OpenBrace]);
    if fmt { ptr := Put(out, ptr, [LineFeed]); }
    out[ptr] := 0;
    assert out[..ptr] == start;
    for i := 0 to |entries|
      invariant ptr + |PrintMembers(v, i, depth, fmt)| == |start| + |all| < out.Length
      invariant out[..ptr] + PrintMembers(v, i, depth, fmt) == start + all
      invariant forall k :: 0 <= k < |names| ==> Written(names[k], Quoted(v.members[k].name))
      invariant forall k :: 0 <= k < |entries| ==> Written(entries[k], Print(v.members[k].value, depth, fmt))
    {
      ghost var done := out[..ptr];
      ghost var m := v.members[i];
      ghost var rest := PrintMembers(v, i + 1, depth, fmt);
      MembersStep(v, i, depth, fmt);
      assert names[i] in names && entries[i] in entries;
      ptr := ComposeMember(out, ptr, names[i], entries[i], m, depth, fmt, i != |entries| - 1);
      Assoc(done, MemberStart(m.name, depth, fmt) + Print(m.value, depth, fmt), MemberEnd(i + 1 < |v.members|, fmt),
            rest);
    }
    LastMember(v, depth, fmt);
    assert out[..ptr] == start + all;
    PutClosing(out, ptr, depth - 1, fmt);
  }

  lemma ClosingLength(depth: nat, fmt: bool)
    ensures |Closing(depth, fmt)| == 1 + if fmt then depth else 0
  {
    TabsLength(depth);
  }

  /** The closing brace, its tabs and the terminator. */
  method PutClosing(out: array<Byte>, at: nat, depth: nat, fmt: bool)
    requires at + |Closing(depth, fmt)| < out.Length
    modifies out
    ensures Written(out, old(out[..at]) + Closing(depth, fmt))
  {
    hide Tabs;
    var ptr := at;
    if fmt { ptr := PutTabs(out, ptr, depth); }
    ghost var done := out[..ptr];
    out[ptr] := CloseBrace;
    out[ptr + 1] := 0;
    assert out[..ptr + 1] == done + [CloseBrace];
    assert done + [CloseBrace] == old(out[..at]) + Closing(depth, fmt);
  }

  /** One member. */
  method ComposeMember(out: array<Byte>, at: nat, name: array<Byte>, entry: array<Byte>, ghost m: Member, depth: nat,
                       fmt: bool, more: bool)
    returns (ptr: nat)
    requires NulFree(m.name) && Printable(m.value) && out != name && out != entry
    requires Written(name, Quoted(m.name)) && Written(entry, Print(m.value, depth, fmt))
    requires at + |MemberStart(m.name, depth, fmt)| + |Print(m.value, depth, fmt)| + |MemberEnd(more, fmt)| < out.Length
    modifies out
    ensures ptr == at + |MemberStart(m.name, depth, fmt)| + |Print(m.value, depth, fmt)| + |MemberEnd(more, fmt)|
    ensures out[..ptr] == old(out[..at]) + (MemberStart(m.name, depth, fmt) + Print(m.value, depth, fmt)) +
            MemberEnd(more, fmt)
  {
    hide Print, Quoted, MemberStart, Printable;
    PrintNulFree(m.value, depth, fmt);
    ptr := ComposeName(out, at, name, m.name, depth, fmt);
    ptr := StrCpy(out, ptr, entry, Print(m.value, depth, fmt));
    ghost var done := out[..ptr];
    if more { ptr := Put(out, ptr, [Comma]); }
    if fmt { ptr := Put(out, ptr, [LineFeed]); }
    assert out[..ptr] == done + MemberEnd(more, fmt);
    out[ptr] := 0;
    Assoc(old(out[..at]), MemberStart(m.name, depth, fmt), Print(m.value, depth, fmt), []);
  }

  /** The name of a member, up to the colon. */
  method ComposeName(out: array<Byte>, at: nat, name: array<Byte>, ghost t: seq<Byte>, depth: nat, fmt: bool)
    returns (ptr: nat)
    requires NulFree(t) && out != name && Written(name, Quoted(t)) && at + |MemberStart(t, depth, fmt)| <= out.Length
    modifies out
    ensures ptr == at + |MemberStart(t, depth, fmt)| && out[..ptr] == old(out[..at]) + MemberStart(t, depth, fmt)
  {
    hide Tabs, Quoted;
    QuotedNulFree(t);
    ptr := at;
    if fmt { ptr := PutTabs(out, ptr, depth); }
    ptr := StrCpy(out, ptr, name, Quoted(t));
    ptr := Put(out, ptr, if fmt then [Colon, Tab] else [Colon]);
    assert out[..ptr] == old(out[..at]) + MemberStart(t, depth, fmt);
  }
}
