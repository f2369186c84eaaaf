/** Text import and export of mpi numbers in radix 2 to 16. */
module RadixText {
  import opened Octets
  import opened Arith
  import opened Bits
  import opened Limbs
  import opened MpiBase
  import opened Compare
  import opened Shift
  import opened AddSub
  import opened Multiply
  import opened Divide
  import opened Modulo
  import opened Bytes

  /** The digit a character stands for; 255 for any other character. */
  function Digit(c: char): nat {
    if '0' <= c <= '9' then (c - '0') as nat
    else if 'A' <= c <= 'F' then (c - 'A') as nat + 10
    else if 'a' <= c <= 'f' then (c - 'a') as nat + 10
    else 255
  }

  /** The character written for a digit. */
  function DigitChar(r: nat): (c: char)
    requires r < 16
    ensures Digit(c) == r && c != '-' && c != '\0'
  {
    if r < 10 then '0' + r as char else '7' + r as char
  }

  predicate AllDigits(s: string, radix: nat) {
    forall i :: 0 <= i < |s| ==> Digit(s[i]) < radix
  }

  /** The number spelled by digits, the most significant first. */
  function Horner(s: string, radix: nat): nat {
    if s == [] then 0
    else
      MulNat(Horner(s[..|s| - 1], radix), radix);
      Horner(s[..|s| - 1], radix) * radix + Digit(s[|s| - 1])
  }

  predicate Minus(s: string) {
    |s| > 0 && s[0] == '-'
  }

  function Body(s: string): string {
    if Minus(s) then s[1..] else s
  }

  /** The integer spelled by an optional minus sign and digits. */
  function Number(s: string, radix: nat): int {
    Signed(if Minus(s) then -1 else 1, Horner(Body(s), radix))
  }

  // ----- what the characters stand for -----

  /** The sixteen digits, in upper and in lower case, and nothing else. */
  lemma DigitCharacters(c: char, v: nat)
    requires v < 16
    ensures Digit(c) == v <==> c == "0123456789ABCDEF"[v] || c == "0123456789abcdef"[v]
    ensures DigitChar(v) == "0123456789ABCDEF"[v]
  {}

  lemma OtherCharacters(c: char)
    ensures Digit(c) < 16 <==> exists v :: 0 <= v < 16 && (c == "0123456789ABCDEF"[v] || c == "0123456789abcdef"[v])
  {
    hide Digit;
    DigitRange(c);
    if Digit(c) < 16 { DigitCharacters(c, Digit(c)); }
    forall v | 0 <= v < 16 && (c == "0123456789ABCDEF"[v] || c == "0123456789abcdef"[v]) ensures Digit(c) < 16 {
      DigitCharacters(c, v);
    }
  }

  lemma DigitRange(c: char)
    ensures Digit(c) < 16 || Digit(c) == 255
  {}

  function UpperCase(s: string): (t: string)
    ensures |t| == |s|
  {
    seq(|s|, k requires 0 <= k < |s| => if 'a' <= s[k] <= 'z' then 'A' + (s[k] - 'a') else s[k])
  }

  /** Lower-case letters spell what upper-case ones do. */
  lemma CaseIgnored(s: string, radix: nat)
    requires radix <= 16
    ensures AllDigits(UpperCase(s), radix) == AllDigits(s, radix)
    ensures Minus(UpperCase(s)) == Minus(s) && Number(UpperCase(s), radix) == Number(s, radix)
  {
    var u := UpperCase(s);
    assert forall k :: 0 <= k < |s| ==> Digit(u[k]) == Digit(s[k]);
    assert Body(u) == UpperCase(Body(s));
    HornerCase(Body(s), radix);
  }

  lemma {:induction false} HornerCase(s: string, radix: nat)
    ensures Horner(UpperCase(s), radix) == Horner(s, radix)
  {
    if s != [] {
      HornerCase(s[..|s| - 1], radix);
      assert UpperCase(s)[..|s| - 1] == UpperCase(s[..|s| - 1]);
    }
  }

  /** The first digit counts for the power of the radix that its place says. */
  lemma {:induction false} FirstPlace(c: char, s: string, radix: nat)
    ensures Horner([c] + s, radix) == Digit(c) * Pow(radix, |s|) + Horner(s, radix)
  {
    hide Digit;
    var t := [c] + s;
    if s == [] {
      assert t[..0] == [];
    } else {
      var front := s[..|s| - 1];
      FirstPlace(c, front, radix);
      assert t[..|t| - 1] == [c] + front;
      PlaceUp(Digit(c), Pow(radix, |front|), Horner(front, radix), radix);
    }
  }

  lemma PlaceUp(d: int, p: int, h: int, radix: int)
    ensures (d * p + h) * radix == d * (p * radix) + h * radix
  {
    MulAssoc(d, p, radix);
    MulDist(d * p, h, radix);
  }

  /** mpi_read_string; s is the text before its terminator. */
  method ReadString(X: Mpi, radix: int, s: string) returns (ret: Status)
    modifies X
    ensures ret == if radix < 2 || radix > 16 then BadInputData
                   else if !AllDigits(Body(s), radix) then InvalidCharacter
                   else Ok
    ensures ret.BadInputData? ==> X.s == old(X.s) && X.p == old(X.p)
    ensures ret.Ok? ==> X.Value() == Number(s, radix) && X.s == (if Minus(s) then -1 else 1)
  {
    if radix < 2 || radix > 16 { return BadInputData; }
    if radix == 16 {
      ret := ReadHex(X, s);
    } else {
      ret := ReadDigits(X, radix, s);
    }
  }

  /** Radix 16: four bits a digit, from the end of the text. */
  method ReadHex(X: Mpi, s: string) returns (ret: Status)
    modifies X
    ensures ret == if AllDigits(Body(s), 16) then Ok else InvalidCharacter
    ensures ret.Ok? ==> X.Value() == Number(s, 16) && X.s == (if Minus(s) then -1 else 1)
  {
    hide V, P, Pow2, BitsToLimbs, Horner, AllDigits, Body, Number, Digit, Minus;
    X.Grow(BitsToLimbs(4 * |s|));
    WFacts();
    X.Lset(0);
    SingleLimb(X.p);
    var i, j := |s|, 0;
    NoDigits(s[|s|..], 16);
    Pow2Double(0);
    while i > 0
      invariant 0 <= i <= |s| && i + j == |s| && X.s == 1
      invariant |X.p| >= BitsToLimbs(4 * |s|) && |X.p| > 0
      invariant AllDigits(s[i..], 16)
      invariant X.Mag() == Horner(s[i..], 16) < Pow2(4 * j)
    {
      if i == 1 && s[i - 1] == '-' {
        X.s := -1;
        Negative(s, 16);
        return Ok;
      }
      var d := Digit(s[i - 1]);
      if d >= 16 {
        NotADigit(s, i - 1, 16);
        return InvalidCharacter;
      }
      StoreHex(X, j, d, |s|);
      HexFront(s, i - 1, j);
      i := i - 1;
      j := j + 1;
    }
    assert s[0..] == s;
    NotNegative(s, 16);
    ret := Ok;
  }

  lemma NoDigits(s: string, radix: nat)
    requires s == []
    ensures AllDigits(s, radix) && Horner(s, radix) == 0
  {}

  lemma Negative(s: string, radix: nat)
    requires |s| > 0 && s[0] == '-'
    ensures Minus(s) && AllDigits(Body(s), radix) == AllDigits(s[1..], radix)
    ensures Number(s, radix) == -(Horner(s[1..], radix) as int)
  {}

  lemma NotNegative(s: string, radix: nat)
    requires radix <= 16 && AllDigits(s, radix)
    ensures !Minus(s) && AllDigits(Body(s), radix) && Number(s, radix) == Horner(s, radix)
  {}

  /** Digit j from the end goes to bit 4j of the number. */
  method StoreHex(X: Mpi, j: nat, d: nat, ghost total: nat)
    requires d < 16 && j < total && |X.p| >= BitsToLimbs(4 * total) && X.Mag() < Pow2(4 * j)
    modifies X
    ensures X.s == old(X.s) && |X.p| == old(|X.p|)
    ensures X.Mag() == old(X.Mag()) + d * Pow2(4 * j) < Pow2(4 * (j + 1))
  {
    HexRoom(j, total, |X.p|);
    assert Pow2(4) == 16;
    var q, e := j / (2 * CIL), (j % (2 * CIL)) * 4;
    StoreDigit(X, q, e, d, 4, 4 * j);
  }

  /** Any other radix: multiply by the radix and add the digit, from the front. */
  method ReadDigits(X: Mpi, radix: nat, s: string) returns (ret: Status)
    requires 2 <= radix < 16
    modifies X
    ensures ret == if AllDigits(Body(s), radix) then Ok else InvalidCharacter
    ensures ret.Ok? ==> X.Value() == Number(s, radix) && X.s == (if Minus(s) then -1 else 1)
  {
    hide V, P, Pow2, BitLen, Horner, Number, AllDigits, Digit;
    WFacts();
    X.Lset(0);
    var T := new Mpi();
    var i := 0;
    NothingYet(s[..0], radix);
    while i < |s|
      invariant 0 <= i <= |s| && |X.p| > 0
      invariant AllDigits(Body(s[..i]), radix)
      invariant X.Value() == Number(s[..i], radix)
      invariant X.s == if i > 0 && Minus(s) then -1 else 1
    {
      if i == 0 && s[i] == '-' {
        X.s := -1;
        NothingYet(s[..1], radix);
        i := i + 1;
        continue;
      }
      var d := Digit(s[i]);
      if d >= radix {
        NotADigit(s, i, radix);
        return InvalidCharacter;
      }
      NextChar(s, i, radix);
      MulInt(T, X, radix);
      if X.s == 1 { AddInt(X, T, d); } else { SubInt(X, T, d); }
      i := i + 1;
    }
    assert s[..|s|] == s;
    ret := Ok;
  }

  lemma NothingYet(t: string, radix: nat)
    requires t == [] || t == ['-']
    ensures AllDigits(Body(t), radix) && Number(t, radix) == 0
  {}

  // ----- export -----

  /** Digits of m in a radix other than 16, without leading zeros. */
  function NumDigits(m: nat, radix: nat): (n: nat)
    requires radix >= 2
    ensures n > 0
  {
    if m < radix then 1 else DivShrinks(m, radix); 1 + NumDigits(m / radix, radix)
  }

  /** The buffer size that mpi_write_string asks for. */
  function NeededSize(m: nat, radix: nat): nat {
    var n := BitLen(m);
    var n' := if radix >= 4 then n / 2 else n;
    (if radix >= 16 then n' / 2 else n') + 3
  }

  /** The characters it stores, terminator included. */
  function WrittenSize(s: Sign, m: nat, radix: nat): nat
    requires radix >= 2
  {
    (if s == -1 then 1 else 0) + (if radix == 16 then 2 * ByteLen(m) else NumDigits(m, radix)) + 1
  }

  /** mpi_write_string. The last requires is what the caller of the source must know beyond the
      size the function reports; SizeIff says when the reported size is enough. */
  method WriteString(X: Mpi, radix: int, buf: array<char>, slen: nat) returns (ret: Status, used: nat)
    requires |X.p| > 0
    requires 2 <= radix <= 16 && slen >= NeededSize(X.Mag(), radix) ==> WrittenSize(X.s, X.Mag(), radix) <= buf.Length
    modifies buf
    ensures ret == if radix < 2 || radix > 16 then BadInputData
                   else if slen < NeededSize(X.Mag(), radix) then BufferTooSmall
                   else Ok
    ensures ret.BadInputData? ==> used == slen && buf[..] == old(buf[..])
    ensures ret.BufferTooSmall? ==> used == NeededSize(X.Mag(), radix) && buf[..] == old(buf[..])
    ensures ret.Ok? ==> used == WrittenSize(X.s, X.Mag(), radix) && buf[used - 1] == '\0'
    ensures ret.Ok? ==> buf[used..] == old(buf[used..])
    ensures ret.Ok? ==> var t := buf[..used - 1];
                        AllDigits(Body(t), radix) && Number(t, radix) == X.Value() && Minus(t) == (X.s == -1)
  {
    hide V, P, Horner, NumDigits, BitLen, AllDigits;
    if radix < 2 || radix > 16 { return BadInputData, slen; }
    var n := X.Msb();
    if radix >= 4 { n := n / 2; }
    if radix >= 16 { n := n / 2; }
    n := n + 3;
    if slen < n { return BufferTooSmall, n; }
    var p := 0;
    ghost var orig := buf[..];
    if X.s == -1 {
      buf[p] := '-';
      p := p + 1;
      assert buf[..1] == ['-'];
      assert buf[1..] == orig[1..];
    }
    ghost var start, mid := p, buf[..];
    p := WriteMagnitude(X, radix, buf, p);
    SameTail(mid, orig, start, p);
    buf[p] := '\0';
    assert buf[p + 1..] == orig[p + 1..];
    Assembled(buf[..p], start, buf[start..p], X.s, radix);
    p := p + 1;
    return Ok, p;
  }

  /** Text written in a radix and read back in it is the number again. */
  method RoundTrip(X: Mpi, radix: int, buf: array<char>, Y: Mpi) returns (ret: Status)
    requires |X.p| > 0 && Y != X && 2 <= radix <= 16
    requires NeededSize(X.Mag(), radix) <= buf.Length && WrittenSize(X.s, X.Mag(), radix) <= buf.Length
    modifies buf, Y
    ensures ret.Ok? && Y.Value() == X.Value()
  {
    var used;
    ret, used := WriteString(X, radix, buf, buf.Length);
    ret := ReadString(Y, radix, buf[..used - 1]);
  }

  /** The digits of |X|, by limbs in radix 16 and by division otherwise. */
  method WriteMagnitude(X: Mpi, radix: nat, buf: array<char>, p: nat) returns (q: nat)
    requires 2 <= radix <= 16 && |X.p| > 0 && p + WrittenSize(1, X.Mag(), radix) <= buf.Length
    modifies buf
    ensures q + 1 == p + WrittenSize(1, X.Mag(), radix)
    ensures buf[..p] == old(buf[..p]) && buf[q..] == old(buf[q..])
    ensures AllDigits(buf[p..q], radix) && Horner(buf[p..q], radix) == X.Mag() && !Minus(buf[p..q])
  {
    if radix == 16 {
      q := WriteHex(X, buf, p);
    } else {
      var T := new Mpi();
      T.Copy(X);
      if T.s == -1 { T.s := 1; }
      q := WriteHlp(T, radix, buf, p);
    }
  }

  /** mpi_write_hlp: the digits, high-order first, by recursion on the quotient. */
  method WriteHlp(X: Mpi, radix: nat, buf: array<char>, p: nat) returns (q: nat)
    requires 2 <= radix < 16 && |X.p| > 0 && X.s == 1
    requires p + NumDigits(X.Mag(), radix) < buf.Length
    modifies X, buf
    ensures q == p + old(NumDigits(X.Mag(), radix))
    ensures buf[..p] == old(buf[..p]) && buf[q..] == old(buf[q..])
    ensures AllDigits(buf[p..q], radix) && Horner(buf[p..q], radix) == old(X.Mag()) && !Minus(buf[p..q])
    decreases X.Mag()
  {
    hide NumDigits, Horner, V, P;
    WFacts();
    HalfSquare();
    ghost var orig := buf[..];
    ghost var m := X.Mag();
    var _, r := ModInt(X, radix);
    DivMod(m, radix);
    DivNat(m, radix);
    var _ := DivInt(X, null, X, radix);
    q := p;
    var order := CmpInt(X, 0);
    DigitSplit(m, radix);
    if order != 0 {
      q := WriteHlp(X, radix, buf, q);
    } else {
      NothingWritten(buf[p..q], radix);
    }
    SameTail(buf[..], orig, q, q + 1);
    q := WriteDigit(buf, p, q, r, radix);
  }

  /** One more digit behind those between p and q. */
  method WriteDigit(buf: array<char>, p: nat, q: nat, r: nat, radix: nat) returns (q': nat)
    requires p <= q < buf.Length && r < radix <= 16 && AllDigits(buf[p..q], radix) && !Minus(buf[p..q])
    modifies buf
    ensures q' == q + 1 && buf[..p] == old(buf[..p]) && buf[q'..] == old(buf[q'..])
    ensures AllDigits(buf[p..q'], radix) && !Minus(buf[p..q'])
    ensures Horner(buf[p..q'], radix) == old(Horner(buf[p..q], radix)) * radix + r
  {
    ghost var before := buf[p..q];
    buf[q] := DigitChar(r);
    q' := q + 1;
    assert buf[p..q'] == before + [DigitChar(r)];
    assert buf[p..q'][..q - p] == before;
  }

  /** (x >> e) & 0xFF */
  function ByteAt(x: Limb, e: nat): Byte {
    (x / Pow2(e)) % 256
  }

  /** Radix 16: two characters a byte, from the top byte that is not zero. */
  method WriteHex(X: Mpi, buf: array<char>, start: nat) returns (p: nat)
    requires start + 2 * ByteLen(X.Mag()) < buf.Length
    modifies buf
    ensures p == start + 2 * ByteLen(X.Mag())
    ensures buf[..start] == old(buf[..start]) && buf[p..] == old(buf[p..])
    ensures AllDigits(buf[start..p], 16) && Horner(buf[start..p], 16) == X.Mag() && !Minus(buf[start..p])
  {
    p := start;
    var i, k := |X.p|, 0;
    ghost var m, v: nat := X.Mag(), 0;
    AllAbove(X.p);
    assert buf[start..p] == [];
    while i > 0
      invariant 0 <= i <= |X.p| && start <= p < buf.Length
      invariant CIL * i >= 0 && v == m / Pow2(8 * (CIL * i)) && HexSoFar(buf[start..p], v, k)
      invariant buf[..start] == old(buf[..start]) && buf[p..] == old(buf[p..])
    {
      p, k, v := WriteLimb(X, i - 1, buf, start, p, k, v);
      i := i - 1;
    }
    DivUnique(m, 1, m, 0);
  }

  /** The bytes of one limb, from the top. */
  method WriteLimb(X: Mpi, i: nat, buf: array<char>, start: nat, p0: nat, k0: nat, ghost v0: nat)
    returns (p: nat, k: nat, ghost v: nat)
    requires i < |X.p| && start <= p0 && start + 2 * ByteLen(X.Mag()) < buf.Length
    requires CIL * (i + 1) >= 0 && v0 == X.Mag() / Pow2(8 * (CIL * (i + 1)))
    requires p0 < buf.Length && HexSoFar(buf[start..p0], v0, k0)
    modifies buf
    ensures start <= p < buf.Length && CIL * i >= 0
    ensures v == X.Mag() / Pow2(8 * (CIL * i)) && HexSoFar(buf[start..p], v, k)
    ensures buf[..start] == old(buf[..start]) && p0 <= p && buf[p..] == old(buf[p..])
  {
    hide V, P, Pow2, Horner, BitLen;
    p, k, v := p0, k0, v0;
    ghost var m := X.Mag();
    MulNat(CIL, i);
    MulDist(i, 1, CIL);
    ghost var pos: nat := CIL * (i + 1);
    var j: nat := CIL;
    while j > 0
      invariant 0 <= j <= CIL && pos == CIL * i + j && p0 <= p < buf.Length
      invariant v == m / Pow2(8 * pos) && HexSoFar(buf[start..p], v, k)
      invariant buf[..start] == old(buf[..start]) && buf[p..] == old(buf[p..])
    {
      var c := ByteAt(X.p[i], (j - 1) * 8);
      pos := pos - 1;
      HexByte(X.p, i, j - 1, pos, v);
      ByteGrows(v, c, m, pos);
      v := 256 * v + c;
      j := j - 1;
      if c == 0 && k == 0 { continue; }
      p := WritePair(buf, start, p, c);
      k := 1;
    }
  }

  /** Two characters for a byte. */
  method WritePair(buf: array<char>, start: nat, p: nat, c: Byte) returns (q: nat)
    requires start <= p && p + 2 < buf.Length && AllDigits(buf[start..p], 16) && !Minus(buf[start..p])
    modifies buf
    ensures q == p + 2
    ensures buf[..start] == old(buf[..start]) && buf[q..] == old(buf[q..])
    ensures AllDigits(buf[start..q], 16) && !Minus(buf[start..q])
    ensures Horner(buf[start..q], 16) == 256 * old(Horner(buf[start..p], 16)) + c
  {
    ghost var before := buf[start..p];
    buf[p] := DigitChar(c / 16);
    buf[p + 1] := DigitChar(c % 16);
    q := p + 2;
    assert buf[start..q] == before + [DigitChar(c / 16), DigitChar(c % 16)];
    HexPair(before, buf[start..q], c / 16, c % 16);
  }

  /** The hexadecimal text of v, empty for zero. */
  ghost predicate HexSoFar(t: string, v: nat, k: nat) {
    && AllDigits(t, 16) && Horner(t, 16) == v && |t| == 2 * ByteLen(v) && !Minus(t)
    && (k == 0 <==> v == 0)
  }

  /** The size asked for is enough exactly when no minus sign precedes a hexadecimal number
      whose top byte holds one to three bits. */
  lemma SizeIff(s: Sign, m: nat, radix: nat)
    requires 2 <= radix <= 16
    ensures WrittenSize(s, m, radix) <= NeededSize(m, radix) <==>
            !(radix == 16 && s == -1 && 1 <= BitLen(m) % 8 <= 3)
  {
    hide V, P, Pow2, BitLen;
    var b := BitLen(m);
    if radix == 16 {
      var q, r := b / 8, b % 8;
      assert (b + 7) / 8 == if r == 0 then q else q + 1;
      assert (b / 2) / 2 == 2 * q + r / 4;
    } else {
      DigitsBelowBits(m, radix);
      assert b / 2 * 2 + 1 >= b;
    }
  }

  /** -1 in radix 16: three characters asked for, four stored. */
  lemma SizeCounterexample()
    ensures NeededSize(1, 16) == 3 && WrittenSize(-1, 1, 16) == 4
  {
    assert BitLen(1) == 1;
  }

  // ----- lemmas -----

  lemma NothingWritten(t: string, radix: nat)
    requires t == []
    ensures Horner(t, radix) == 0
  {}

  lemma SameTail(a: string, b: string, i: nat, j: nat)
    requires i <= j <= |a| == |b| && a[i..] == b[i..]
    ensures a[j..] == b[j..]
  {
    assert a[j..] == a[i..][j - i..];
    assert b[j..] == b[i..][j - i..];
  }

  lemma Assembled(t: string, start: nat, digits: string, s: Sign, radix: nat)
    requires start <= |t| && start == (if s == -1 then 1 else 0) && digits == t[start..]
    requires s == -1 ==> t[0] == '-'
    requires AllDigits(digits, radix) && !Minus(digits)
    ensures Body(t) == digits && Minus(t) == (s == -1)
    ensures Number(t, radix) == Signed(s, Horner(digits, radix))
  {
    if start == 0 { assert t[0..] == t; }
  }

  lemma DivShrinks(m: nat, radix: nat)
    requires 2 <= radix <= m
    ensures 0 <= m / radix < m
  {
    DivNat(m, radix);
    DivMod(m, radix);
    if m / radix >= m { MulLe(2, radix, m / radix); }
  }

  lemma HexRoom(j: nat, total: nat, limbs: nat)
    requires j < total && limbs >= BitsToLimbs(4 * total)
    ensures 0 <= j / (2 * CIL) < limbs
    ensures 4 * j == BIL * (j / (2 * CIL)) + (j % (2 * CIL)) * 4 && (j % (2 * CIL)) * 4 + 4 <= BIL
  {
    var c := 2 * CIL;
    var q := j / c;
    DivMod(j, c);
    DivNat(j, c);
    MulAssoc(4, q, c);
    MulAssoc(4, c, q);
    MulComm(c, q);
    if q >= limbs { MulLe(limbs, q, BIL); MulLe(BitsToLimbs(4 * total), limbs, BIL); }
  }

  lemma {:induction false} HexAbove(s: string, j: nat)
    requires |s| == j + 1
    ensures Horner(s, 16) == Digit(s[0]) * Pow2(4 * j) + Horner(s[1..], 16)
  {
    if j == 0 {
      assert s[..0] == [] && s[1..] == [];
    } else {
      var t := s[..j];
      HexAbove(t, j - 1);
      assert s[1..][..j - 1] == t[1..];
      assert Pow2(4) == 16;
      Pow2Split(4 * (j - 1), 4, 4 * j);
      MulDist(Digit(t[0]) * Pow2(4 * (j - 1)), Horner(t[1..], 16), 16);
      MulAssoc(Digit(t[0]), Pow2(4 * (j - 1)), 16);
    }
  }

  lemma HexFront(s: string, i: nat, j: nat)
    requires i + j + 1 == |s|
    ensures Horner(s[i..], 16) == Horner(s[i + 1..], 16) + Digit(s[i]) * Pow2(4 * j)
    ensures Digit(s[i]) < 16 && AllDigits(s[i + 1..], 16) ==> AllDigits(s[i..], 16)
  {
    assert s[i..][1..] == s[i + 1..];
    HexAbove(s[i..], j);
  }

  lemma NotADigit(s: string, i: nat, radix: nat)
    requires i < |s| && Digit(s[i]) >= radix && !(i == 0 && s[i] == '-')
    ensures !AllDigits(Body(s), radix)
  {
    assert s[i] == Body(s)[if Minus(s) then i - 1 else i];
  }

  /** One more character in front of the cursor. */
  lemma NextChar(s: string, i: nat, radix: nat)
    requires i < |s| && !(i == 0 && s[i] == '-') && AllDigits(Body(s[..i]), radix) && Digit(s[i]) < radix
    ensures AllDigits(Body(s[..i + 1]), radix)
    ensures Number(s[..i + 1], radix) ==
            Number(s[..i], radix) * radix + (if Minus(s) then -(Digit(s[i]) as int) else Digit(s[i]))
  {
    var b, b' := Body(s[..i]), Body(s[..i + 1]);
    assert b' == b + [s[i]];
    assert b'[..|b'| - 1] == b;
    MulDistSub(0, Horner(b, radix), radix);
  }

  /** The last digit and the digits before it. */
  lemma DigitSplit(m: nat, radix: nat)
    requires radix >= 2
    ensures 0 <= m / radix && 0 <= m % radix < radix
    ensures m == (m / radix) * radix + m % radix
    ensures m / radix == 0 <==> m < radix
    ensures NumDigits(m, radix) == if m / radix == 0 then 1 else NumDigits(m / radix, radix) + 1
    ensures m / radix > 0 ==> m / radix < m
  {
    DivNat(m, radix);
    DivMod(m, radix);
    if m < radix { DivUnique(m, radix, 0, m); } else { DivShrinks(m, radix); }
    if m / radix == 0 { MulAssoc(0, 0, radix); }
  }

  lemma AllAbove(s: seq<Limb>)
    ensures CIL * |s| >= 0 && Val(s) / Pow2(8 * (CIL * |s|)) == 0
    ensures BitLen(0) == 0
  {
    MulNat(CIL, |s|);
    MulAssoc(8, CIL, |s|);
    VBound(s, 0, |s|);
    PPow2(|s|);
    DivUnique(Val(s), P(|s|), 0, Val(s));
  }

  /** The byte at position pos, read from its limb, extends the value above it. */
  lemma HexByte(s: seq<Limb>, q: nat, j: nat, pos: nat, v: nat)
    requires q < |s| && j < CIL && pos == CIL * q + j && v == Val(s) / Pow2(8 * (pos + 1))
    ensures Val(s) / Pow2(8 * pos) == 256 * v + ByteAt(s[q], j * 8)
  {
    MulAssoc(8, CIL, q);
    assert Pow2(4) == 16;
    Pow2Split(4, 4, 8);
    DigitOf(s, q, j * 8, 8, 8 * pos);
    Pow2Split(8 * pos, 8, 8 * (pos + 1));
    DivDiv(Val(s), Pow2(8 * pos), 256);
    DivMod(Val(s) / Pow2(8 * pos), 256);
  }

  /** A byte more, unless nothing but zeros has been seen. */
  lemma ByteGrows(v: nat, c: nat, m: nat, pos: nat)
    requires c < 256 && 256 * v + c == m / Pow2(8 * pos)
    ensures v == 0 && c == 0 ==> ByteLen(256 * v + c) == ByteLen(v)
    ensures v > 0 || c > 0 ==> ByteLen(256 * v + c) == ByteLen(v) + 1
    ensures ByteLen(256 * v + c) <= ByteLen(m)
  {
    DivNat(m, Pow2(8 * pos));
    BitLenMono(256 * v + c, m);
    if v > 0 || c > 0 { OneMoreByte(v, c); }
  }

  lemma BitLenMono(a: nat, b: nat)
    requires a <= b
    ensures BitLen(a) <= BitLen(b)
  {
    BitLenBounds(a);
    BitLenBounds(b);
    if a > 0 { Pow2Less(BitLen(a) - 1, BitLen(b)); }
  }

  lemma Pow2Less(i: nat, j: nat)
    requires Pow2(i) < Pow2(j)
    ensures i < j
  {
    if i >= j { Pow2Mono(j, i); }
  }

  lemma HexPair(t: string, t': string, a: nat, b: nat)
    requires a < 16 && b < 16 && t' == t + [DigitChar(a), DigitChar(b)] && AllDigits(t, 16) && !Minus(t)
    ensures AllDigits(t', 16) && Horner(t', 16) == (Horner(t, 16) * 16 + a) * 16 + b && !Minus(t')
  {
    var u := t + [DigitChar(a)];
    assert u[..|t|] == t;
    assert t'[..|u|] == u;
  }

  lemma {:induction false} DigitsBelowBits(m: nat, radix: nat)
    requires 2 <= radix
    ensures m > 0 ==> NumDigits(m, radix) <= BitLen(m)
    ensures m > 0 && radix >= 4 ==> 2 * NumDigits(m, radix) <= BitLen(m) + 1
    ensures m == 0 ==> NumDigits(m, radix) == 1 && BitLen(m) == 0
    decreases m
  {
    if m >= radix {
      DivShrinks(m, radix);
      DigitSplit(m, radix);
      DigitsBelowBits(m / radix, radix);
      SmallerQuotient(m, radix, 2);
      BitLenMono(m / radix, m / 2);
      if radix >= 4 {
        SmallerQuotient(m, radix, 4);
        assert m / 4 == (m / 2) / 2;
        BitLenMono(m / radix, m / 4);
      }
    }
  }

  lemma SmallerQuotient(m: nat, radix: nat, k: nat)
    requires 0 < k <= radix
    ensures 0 <= m / radix <= m / k
  {
    DivMod(m, radix);
    DivMod(m, k);
    DivNat(m, radix);
    MulLe(k, radix, m / radix);
    if m / radix > m / k {
      MulLe(m / k + 1, m / radix, k);
      MulDist(m / k, 1, k);
    }
  }
}
