/** Numeric character references of tinyxml2, such as &#20013; and &#x4e2d; with their overflow. */
module CharRef {
  import opened Octets
  import opened Text
  import opened CodePoints
  import opened Arith

  const SmallX: Byte := 120

  /** The ranges of unsigned and of unsigned long. */
  const Word: nat := 0x1_0000_0000
  const LongWord: nat := 0x1_0000_0000_0000_0000

  /** The value of a digit, or -1. */
  function DigitValue(c: Byte, hex: bool): (d: int)
    ensures -1 <= d < Base(hex)
  {
    if IsDigit(c) then c - 48
    else if hex && 97 <= c <= 102 then c - 87
    else if hex && 65 <= c <= 70 then c - 55
    else -1
  }

  function Base(hex: bool): nat {
    if hex then 16 else 10
  }

  /** Just the digits of the base, in either case. */
  lemma DigitIff(c: Byte, hex: bool, v: nat)
    ensures DigitValue(c, hex) == v <==> Spells(c, v) && v < Base(hex)
  {}

  predicate Digits(ds: seq<Byte>, hex: bool) {
    forall k :: 0 <= k < |ds| ==> DigitValue(ds[k], hex) >= 0
  }

  function Weight(hex: bool, i: nat): (w: nat)
    ensures w > 0
  {
    if i == 0 then 1 else Weight(hex, i - 1) * Base(hex)
  }

  /** The number that digits spell. */
  function Number(ds: seq<Byte>, hex: bool): (n: nat)
    requires Digits(ds, hex)
  {
    if ds == [] then 0
    else
      MulNat(DigitValue(ds[0], hex), Weight(hex, |ds| - 1));
      DigitValue(ds[0], hex) * Weight(hex, |ds| - 1) + Number(ds[1..], hex)
  }

  /** What the source computes from them: weights and products wrap around at 32 bits. */
  function Wrapped(ds: seq<Byte>, hex: bool): (n: nat)
    requires Digits(ds, hex)
    ensures n < LongWord
  {
    if ds == [] then 0
    else (Product(Weight(hex, |ds| - 1) % Word, DigitValue(ds[0], hex)) + Wrapped(ds[1..], hex)) % LongWord
  }

  function Product(mult: nat, d: nat): (r: nat)
    ensures r < Word && (mult == 0 ==> r == 0)
  {
    MulNat(mult, d);
    (mult * d) % Word
  }

  /** strchr: the first semicolon from k on, or -1. */
  function SemicolonFrom(s: seq<Byte>, k: nat): (r: int)
    ensures r == -1 || (k <= r < |s| && s[r] == Semicolon)
    decreases |s| - k
  {
    if At(s, k) == 0 then -1 else if At(s, k) == Semicolon then k else SemicolonFrom(s, k + 1)
  }

  /** The character that the digits are read back to: the x or the hash sign. */
  function Stop(hex: bool): Byte {
    if hex then SmallX else Hash
  }

  /** The position behind the last stop character in front of e; there is one at lo. */
  function DigitsFrom(s: seq<Byte>, lo: nat, e: nat, hex: bool): (d: nat)
    requires lo < e <= |s| && s[lo] == Stop(hex)
    ensures lo < d <= e && s[d - 1] == Stop(hex)
    decreases e
  {
    if s[e - 1] == Stop(hex) then e else DigitsFrom(s, lo, e - 1, hex)
  }

  /** A reference that is malformed, one cut off behind its hash sign, or one that is read. */
  datatype Reference = Malformed | Cut | Reference(value: nat, next: nat)

  /** The reference whose ampersand stands at p and its hash sign behind it. */
  function ReferenceAt(s: seq<Byte>, p: nat): (r: Reference)
    requires At(s, p + 1) == Hash
    ensures r.Reference? ==> p + 3 <= r.next <= |s| && (r.value > 0 ==> p + 4 <= r.next)
  {
    if At(s, p + 2) == 0 then Cut
    else if At(s, p + 2) == SmallX then NumberAfter(s, p + 2, true)
    else NumberAfter(s, p + 1, false)
  }

  /** The digits up to the next semicolon, read back to the x or the hash sign at lo. */
  function NumberAfter(s: seq<Byte>, lo: nat, hex: bool): (r: Reference)
    requires At(s, lo) == Stop(hex)
    ensures !r.Cut?
    ensures r.Reference? ==> lo + 2 <= r.next <= |s| && (r.value > 0 ==> lo + 3 <= r.next)
  {
    var e := SemicolonFrom(s, lo + 1);
    if e < 0 then Malformed
    else
      var ds := s[DigitsFrom(s, lo, e, hex)..e];
      if Digits(ds, hex) then Reference(Wrapped(ds, hex), e + 1) else Malformed
  }

  /** The bytes for a number; none for one that is too large. */
  function RefBytes(value: nat): (t: seq<Byte>)
    ensures |t| <= 4 && (value == 0 ==> |t| == 1)
  {
    if value < 0x200000 then Utf8(value) else []
  }

  // ----- reading -----

  /** XMLUtil::GetCharacterRef on the text from an ampersand on: the position behind the reference,
      -1 for the null pointer, and the number of bytes stored. */
  method GetCharacterRef(rest: seq<Byte>, value: array<Byte>) returns (next: int, length: nat)
    requires At(rest, 1) == Hash && value.Length == 10
    modifies value
    ensures var r := ReferenceAt(rest, 0);
            && next == (if r.Malformed? then -1 else if r.Cut? then 1 else r.next)
            && length <= 4 && value[..length] == if r.Reference? then RefBytes(r.value) else []
  {
    hide Wrapped, RefBytes, Digits, SemicolonFrom;
    length := 0;
    if At(rest, 2) == 0 { return 1, length; }
    var hex := At(rest, 2) == SmallX;
    if hex && At(rest, 3) == 0 {
      NoSemicolon(rest, 3);
      return -1, length;
    }
    var lo := if hex then 2 else 1;
    var q := FindSemicolon(rest, lo + 1);
    if q < 0 { return -1, length; }
    var ok, ucs := ReadDigits(rest, lo, q, hex);
    if !ok { return -1, length; }
    length := ConvertUtf32(ucs, value);
    next := q + 1;
  }

  lemma NoSemicolon(s: seq<Byte>, k: nat)
    requires At(s, k) == 0
    ensures SemicolonFrom(s, k) == -1
  {}

  method FindSemicolon(s: seq<Byte>, from: nat) returns (q: int)
    ensures q == SemicolonFrom(s, from)
  {
    var k := from;
    while At(s, k) != 0
      invariant SemicolonFrom(s, k) == SemicolonFrom(s, from)
      decreases |s| - k
    {
      if At(s, k) == Semicolon { return k; }
      k := k + 1;
    }
    q := -1;
  }

  /** The digits in front of e, from the last to the first. */
  method ReadDigits(s: seq<Byte>, lo: nat, e: nat, hex: bool) returns (ok: bool, ucs: nat)
    requires lo < e <= |s| && s[lo] == Stop(hex)
    ensures var ds := s[DigitsFrom(s, lo, e, hex)..e];
            ok == Digits(ds, hex) && (ok ==> ucs == Wrapped(ds, hex))
  {
    hide DigitValue, Digits, Product, Weight, Wrapped;
    var q, mult := e - 1, 1;
    ucs := 0;
    NoDigits(s[e..e], hex);
    while s[q] != Stop(hex)
      invariant lo <= q < e && DigitsFrom(s, lo, q + 1, hex) == DigitsFrom(s, lo, e, hex)
      invariant Digits(s[q + 1..e], hex) && ucs == Wrapped(s[q + 1..e], hex)
      invariant mult == Weight(hex, e - 1 - q) % Word
      decreases q
    {
      var d := DigitValue(s[q], hex);
      if d < 0 {
        NotADigit(s, DigitsFrom(s, lo, e, hex), q, e, hex);
        return false, 0;
      }
      NextDigit(s, q, e, hex);
      NextWeight(hex, e - 1 - q);
      ucs := (ucs + Product(mult, d)) % LongWord;
      mult := (mult * Base(hex)) % Word;
      q := q - 1;
    }
    ok := true;
  }

  lemma NoDigits(ds: seq<Byte>, hex: bool)
    requires ds == []
    ensures Digits(ds, hex) && Wrapped(ds, hex) == 0 && Weight(hex, 0) % Word == 1
  {}

  lemma NotADigit(s: seq<Byte>, d: nat, q: nat, e: nat, hex: bool)
    requires d <= q < e <= |s| && DigitValue(s[q], hex) < 0
    ensures !Digits(s[d..e], hex)
  {
    assert s[d..e][q - d] == s[q];
  }

  /** One more digit in front. */
  lemma NextDigit(s: seq<Byte>, q: nat, e: nat, hex: bool)
    requires q < e <= |s| && Digits(s[q + 1..e], hex) && DigitValue(s[q], hex) >= 0
    ensures Digits(s[q..e], hex)
    ensures Wrapped(s[q..e], hex) ==
            (Product(Weight(hex, e - 1 - q) % Word, DigitValue(s[q], hex)) + Wrapped(s[q + 1..e], hex)) % LongWord
  {
    hide DigitValue, Product, Weight;
    assert s[q..e] == [s[q]] + s[q + 1..e];
    assert s[q..e][1..] == s[q + 1..e];
  }

  lemma NextWeight(hex: bool, i: nat)
    ensures ((Weight(hex, i) % Word) * Base(hex)) % Word == Weight(hex, i + 1) % Word
  {
    WrappedFactor(Weight(hex, i), Base(hex));
  }

  lemma WrappedFactor(a: nat, b: nat)
    ensures ((a % Word) * b) % Word == (a * b) % Word
  {
    DivMod(a, Word);
    MulDist((a / Word) * Word, a % Word, b);
    MulAssoc(a / Word, Word, b);
    MulComm(Word, b);
    MulAssoc(a / Word, b, Word);
    ModMultiple((a % Word) * b, (a / Word) * b, Word);
  }

  /** XMLUtil::ConvertUTF32ToUTF8 */
  method ConvertUtf32(input: nat, output: array<Byte>) returns (length: nat)
    requires output.Length >= 4
    modifies output
    ensures length == |RefBytes(input)| && output[..length] == RefBytes(input)
  {
    hide Utf8;
    if input >= 0x200000 { return 0; }
    length := PutUtf8(output, 0, input);
  }

  // ----- what a reference means -----

  /** Numbers below 2^32 are computed exactly, however many zeros stand in front. */
  lemma {:induction false} WrappedExact(ds: seq<Byte>, hex: bool)
    requires Digits(ds, hex) && Number(ds, hex) < Word
    ensures Wrapped(ds, hex) == Number(ds, hex)
  {
    hide DigitValue, Weight;
    if ds != [] {
      var d, w := DigitValue(ds[0], hex), Weight(hex, |ds| - 1);
      MulNat(d, w);
      WrappedExact(ds[1..], hex);
      SmallProduct(w, d);
      DivUnique(Number(ds, hex), LongWord, 0, Number(ds, hex));
    }
  }

  lemma SmallProduct(w: nat, d: nat)
    requires d * w < Word
    ensures Product(w % Word, d) == d * w
  {
    if d > 0 {
      MulLe(1, d, w);
      DivUnique(w, Word, 0, w);
    }
    MulComm(w, d);
    DivUnique(d * w, Word, 0, d * w);
  }

  /** Of hexadecimal digits the last eight count. */
  lemma {:induction false} HexWrapped(ds: seq<Byte>)
    requires Digits(ds, true)
    ensures Wrapped(ds, true) == Number(ds, true) % Word
  {
    hide DigitValue, Weight, Product;
    if ds == [] {
      DivUnique(0, Word, 0, 0);
    } else if |ds| <= 8 {
      HexBound(ds);
      WrappedExact(ds, true);
      DivUnique(Number(ds, true), Word, 0, Number(ds, true));
    } else {
      var d, n := DigitValue(ds[0], true), Number(ds[1..], true);
      HexWrapped(ds[1..]);
      var k := HexWeight(|ds| - 1);
      NothingLeft(k, d, n);
    }
  }

  lemma NothingLeft(k: nat, d: nat, n: nat)
    ensures Product((k * Word) % Word, d) == 0 && (0 + n % Word) % LongWord == n % Word
    ensures (d * (k * Word) + n) % Word == n % Word
  {
    DivUnique(k * Word, Word, k, 0);
    DivUnique(n % Word, LongWord, 0, n % Word);
    MulAssoc(d, k, Word);
    ModMultiple(n, d * k, Word);
  }

  lemma {:induction false} HexBound(ds: seq<Byte>)
    requires Digits(ds, true) && |ds| <= 8
    ensures Number(ds, true) < Weight(true, |ds|) <= Word
  {
    hide DigitValue;
    HexSizes(|ds|);
    if ds != [] {
      HexBound(ds[1..]);
      var d, w := DigitValue(ds[0], true), Weight(true, |ds| - 1);
      MulLe(d, 15, w);
    }
  }

  lemma {:induction false} HexSizes(i: nat)
    requires i <= 8
    ensures Weight(true, i) <= Word
    decreases 8 - i
  {
    if i < 8 { HexSizes(i + 1); } else { assert Weight(true, 4) == 0x10000; }
  }

  lemma {:induction false} HexWeight(i: nat) returns (k: nat)
    requires i >= 8
    ensures Weight(true, i) == k * Word
  {
    if i == 8 {
      assert Weight(true, 4) == 0x10000;
      k := 1;
    } else {
      k := HexWeight(i - 1);
      k := 16 * k;
    }
  }

  // ----- which numbers come out wrong -----

  /** What the digit at k contributes to the number. */
  function PlaceValue(ds: seq<Byte>, k: nat, hex: bool): nat
    requires Digits(ds, hex) && k < |ds|
  {
    MulNat(DigitValue(ds[k], hex), Weight(hex, |ds| - 1 - k));
    DigitValue(ds[k], hex) * Weight(hex, |ds| - 1 - k)
  }

  /** All digits but the last seven contribute multiples of 2^32. */
  predicate Vanishes(ds: seq<Byte>, hex: bool)
    requires Digits(ds, hex)
  {
    forall k :: 0 <= k < |ds| - 7 ==> PlaceValue(ds, k, hex) % Word == 0
  }

  /** A reference gives the bytes of its number exactly when the number is below 2^32, or its rest
      modulo 2^32 has no bytes either, or some digit in front of the last seven leaves a rest of its
      own. */
  lemma ReferenceIff(ds: seq<Byte>, hex: bool)
    requires Digits(ds, hex)
    ensures RefBytes(Wrapped(ds, hex)) == RefBytes(Number(ds, hex)) <==>
            Number(ds, hex) < Word || Number(ds, hex) % Word >= 0x200000 || !Vanishes(ds, hex)
  {
    hide Wrapped, Number, Digits, Vanishes;
    if Number(ds, hex) < Word { WrappedExact(ds, hex); } else { WrappedCases(ds, hex); }
  }

  /** For hexadecimal numbers the rest decides. */
  lemma HexReferenceIff(ds: seq<Byte>)
    requires Digits(ds, true)
    ensures RefBytes(Wrapped(ds, true)) == RefBytes(Number(ds, true)) <==>
            Number(ds, true) < Word || Number(ds, true) % Word >= 0x200000
  {
    hide Wrapped, Number, Digits, Vanishes;
    ReferenceIff(ds, true);
    HexWrapped(ds);
    WrappedCases(ds, true);
  }

  /** The value computed is the rest of the number, or a digit in front makes it too large for any
      code point. */
  lemma {:induction false} WrappedCases(ds: seq<Byte>, hex: bool)
    requires Digits(ds, hex)
    ensures if Vanishes(ds, hex) then Wrapped(ds, hex) == Number(ds, hex) % Word else Wrapped(ds, hex) >= 0x200000
  {
    hide DigitValue, Weight, Wrapped, Number, Vanishes;
    if |ds| <= 7 {
      NoneInFront(ds, hex);
      SevenDigits(ds, hex);
      WrappedExact(ds, hex);
      DivUnique(Number(ds, hex), Word, 0, Number(ds, hex));
    } else {
      WrappedCases(ds[1..], hex);
      VanishesFront(ds, hex);
      var v, n := PlaceValue(ds, 0, hex), Number(ds[1..], hex);
      FirstPlace(ds, hex);
      PlaceResidue(hex, |ds| - 1, DigitValue(ds[0], hex));
      if v % Word == 0 {
        DivMod(v, Word);
        ModMultiple(n, v / Word, Word);
      }
    }
  }

  lemma NoneInFront(ds: seq<Byte>, hex: bool)
    requires Digits(ds, hex) && |ds| <= 7
    ensures Vanishes(ds, hex)
  {}

  lemma VanishesFront(ds: seq<Byte>, hex: bool)
    requires Digits(ds, hex) && |ds| > 7
    ensures Vanishes(ds, hex) <==> PlaceValue(ds, 0, hex) % Word == 0 && Vanishes(ds[1..], hex)
  {
    hide DigitValue, Weight;
    var rest := ds[1..];
    assert forall k :: 0 <= k < |rest| ==> PlaceValue(rest, k, hex) == PlaceValue(ds, k + 1, hex);
    if Vanishes(rest, hex) && PlaceValue(ds, 0, hex) % Word == 0 {
      forall k | 0 <= k < |ds| - 7 ensures PlaceValue(ds, k, hex) % Word == 0 {
        if k > 0 { assert PlaceValue(rest, k - 1, hex) == PlaceValue(ds, k, hex); }
      }
    }
  }

  /** The first digit, and the sum that never reaches 2^64. */
  lemma FirstPlace(ds: seq<Byte>, hex: bool)
    requires Digits(ds, hex) && ds != []
    ensures Wrapped(ds, hex) == PlaceValue(ds, 0, hex) % Word + Wrapped(ds[1..], hex)
    ensures Number(ds, hex) == PlaceValue(ds, 0, hex) + Number(ds[1..], hex)
  {
    hide DigitValue, Weight;
    var d, w := DigitValue(ds[0], hex), Weight(hex, |ds| - 1);
    WrappedFactor(w, d);
    MulComm(w, d);
    WrappedBound(ds[1..], hex);
    SmallSum((d * w) % Word, Wrapped(ds[1..], hex));
  }

  lemma SmallSum(x: nat, y: nat)
    requires x < Word && y <= 32 * Word
    ensures (x + y) % LongWord == x + y
  {
    DivUnique(x + y, LongWord, 0, x + y);
  }

  /** Places from the 33rd on contribute nothing, so the sum stays small. */
  lemma {:induction false} WrappedBound(ds: seq<Byte>, hex: bool)
    requires Digits(ds, hex)
    ensures Wrapped(ds, hex) <= (if |ds| <= 32 then |ds| else 32) * Word
  {
    hide DigitValue, Weight, Product;
    if ds != [] {
      WrappedBound(ds[1..], hex);
      var x := Product(Weight(hex, |ds| - 1) % Word, DigitValue(ds[0], hex));
      if |ds| > 32 { FarWeight(hex, |ds| - 1); }
      SmallSum(x, Wrapped(ds[1..], hex));
    }
  }

  lemma {:induction false} SevenDigits(ds: seq<Byte>, hex: bool)
    requires Digits(ds, hex) && |ds| <= 7
    ensures Number(ds, hex) < Weight(hex, |ds|) <= Word
  {
    hide DigitValue;
    assert Weight(hex, 7) <= Word by { assert hex || !hex; SeventhWeight(); }
    WeightMono(hex, |ds|, 7);
    if ds != [] {
      SevenDigits(ds[1..], hex);
      var d, w := DigitValue(ds[0], hex), Weight(hex, |ds| - 1);
      MulLe(d, Base(hex) - 1, w);
      MulDistSub(Base(hex), 1, w);
    }
  }

  lemma SeventhWeight()
    ensures Weight(true, 7) == 0x1000_0000 && Weight(false, 7) == 10_000_000
  {}

  lemma {:induction false} WeightMono(hex: bool, i: nat, j: nat)
    requires i <= j
    ensures Weight(hex, i) <= Weight(hex, j)
  {
    if i < j { WeightMono(hex, i, j - 1); }
  }

  // ----- the places from the eighth on -----

  /** A place from the eighth on contributes either nothing or too much for a code point. */
  lemma PlaceResidue(hex: bool, i: nat, d: nat)
    requires i >= 7 && d < Base(hex)
    ensures var r := (d * Weight(hex, i)) % Word; r == 0 || r >= 0x200000
  {
    hide Weight;
    var w := Weight(hex, i);
    WrappedFactor(w, d);
    MulComm(w, d);
    SeventhWeight();
    if hex && i == 7 {
      DivUnique(d * 0x1000_0000, Word, 0, d * 0x1000_0000);
    } else if hex || i >= 32 {
      FarWeight(hex, i);
    } else {
      var c := Powers(10_000_000, i - 7);
      DecimalRest(i);
      AllHeavy();
      HeavyPower(10_000_000, 25, i - 7);
      assert Product(c, d) == 0 || Product(c, d) >= 0x200000;
    }
  }

  lemma {:induction false} FarWeight(hex: bool, i: nat)
    requires i >= if hex then 8 else 32
    ensures Weight(hex, i) % Word == 0
  {
    if hex {
      var k := HexWeight(i);
      DivUnique(k * Word, Word, k, 0);
    } else if i == 32 {
      DecimalRest(32);
      AllHeavy();
    } else {
      FarWeight(hex, i - 1);
      NextWeight(hex, i - 1);
    }
  }

  /** c times 10^n, modulo 2^32. */
  function Powers(c: nat, n: nat): nat
    decreases n
  {
    if n == 0 then c else Powers((c * 10) % Word, n - 1)
  }

  lemma {:induction false} DecimalRest(i: nat)
    requires i >= 7
    ensures Weight(false, i) % Word == Powers(10_000_000, i - 7)
  {
    hide Weight;
    SeventhWeight();
    if i > 7 {
      DecimalRest(i - 1);
      NextWeight(false, i - 1);
      LastStep(10_000_000, i - 7);
    } else {
      DivUnique(10_000_000, Word, 0, 10_000_000);
    }
  }

  lemma {:induction false} LastStep(c: nat, n: nat)
    requires n > 0
    ensures Powers(c, n) == (Powers(c, n - 1) * 10) % Word
    decreases n
  {
    if n > 1 { LastStep((c * 10) % Word, n - 1); }
  }

  /** No digit makes something small of the weight c, unless it makes nothing of it. */
  predicate Heavy(c: nat) {
    forall d: nat :: d <= 9 ==> Product(c, d) == 0 || Product(c, d) >= 0x200000
  }

  predicate HeavyPowers(c: nat, n: nat)
    decreases n
  {
    n == 0 || (Heavy(c) && HeavyPowers((c * 10) % Word, n - 1))
  }

  /** One power more, at the front. */
  lemma OneMore(c: nat, next: nat, n: nat)
    requires (c * 10) % Word == next && HeavyPowers(next, n) && Powers(next, n) == 0
    requires Large(c) && Large(2 * c) && Large(3 * c) && Large(4 * c) && Large(5 * c)
    requires Large(6 * c) && Large(7 * c) && Large(8 * c) && Large(9 * c)
    ensures HeavyPowers(c, n + 1) && Powers(c, n + 1) == 0
  {
    hide Large;
    forall d: nat | d <= 9 ensures Large(d * c) {
      if d == 0 { NothingLarge(); }
    }
    HeavyProducts(c);
  }

  /** Nothing modulo 2^32, or beyond the code points. */
  predicate Large(x: nat) {
    x % Word == 0 || x % Word >= 0x200000
  }

  lemma NothingLarge()
    ensures Large(0)
  {}

  lemma HeavyProducts(c: nat)
    requires forall d: nat :: d <= 9 ==> Large(d * c)
    ensures Heavy(c)
  {
    forall d: nat | d <= 9 ensures Product(c, d) == 0 || Product(c, d) >= 0x200000 {
      assert Large(d * c);
      MulComm(d, c);
    }
  }

  lemma NothingHeavy()
    ensures HeavyPowers(0, 0) && Powers(0, 0) == 0
  {}

  lemma HeavyFrom28()
    ensures HeavyPowers(0x1000_0000, 4) && Powers(0x1000_0000, 4) == 0
  {
    hide HeavyPowers, Powers;
    NothingHeavy();
    OneMore(0x8000_0000, 0x0, 0);
    OneMore(0x4000_0000, 0x8000_0000, 1);
    OneMore(0xA000_0000, 0x4000_0000, 2);
    OneMore(0x1000_0000, 0xA000_0000, 3);
  }

  lemma HeavyFrom23()
    ensures HeavyPowers(0xF680_0000, 9) && Powers(0xF680_0000, 9) == 0
  {
    hide HeavyPowers, Powers;
    HeavyFrom28();
    OneMore(0xE800_0000, 0x1000_0000, 4);
    OneMore(0xE400_0000, 0xE800_0000, 5);
    OneMore(0x4A00_0000, 0xE400_0000, 6);
    OneMore(0xA100_0000, 0x4A00_0000, 7);
    OneMore(0xF680_0000, 0xA100_0000, 8);
  }

  lemma HeavyFrom18()
    ensures HeavyPowers(0xA764_0000, 14) && Powers(0xA764_0000, 14) == 0
  {
    hide HeavyPowers, Powers;
    HeavyFrom23();
    OneMore(0xB240_0000, 0xF680_0000, 9);
    OneMore(0xDEA0_0000, 0xB240_0000, 10);
    OneMore(0x6310_0000, 0xDEA0_0000, 11);
    OneMore(0x89E8_0000, 0x6310_0000, 12);
    OneMore(0xA764_0000, 0x89E8_0000, 13);
  }

  lemma HeavyFrom13()
    ensures HeavyPowers(0x4E72_A000, 19) && Powers(0x4E72_A000, 19) == 0
  {
    hide HeavyPowers, Powers;
    HeavyFrom18();
    OneMore(0x5D8A_0000, 0xA764_0000, 14);
    OneMore(0x6FC1_0000, 0x5D8A_0000, 15);
    OneMore(0xA4C6_8000, 0x6FC1_0000, 16);
    OneMore(0x107A_4000, 0xA4C6_8000, 17);
    OneMore(0x4E72_A000, 0x107A_4000, 18);
  }

  lemma HeavyFrom7()
    ensures HeavyPowers(0x98_9680, 25) && Powers(0x98_9680, 25) == 0
  {
    hide HeavyPowers, Powers;
    HeavyFrom13();
    OneMore(0xD4A5_1000, 0x4E72_A000, 19);
    OneMore(0x4876_E800, 0xD4A5_1000, 20);
    OneMore(0x540B_E400, 0x4876_E800, 21);
    OneMore(0x3B9A_CA00, 0x540B_E400, 22);
    OneMore(0x5F5_E100, 0x3B9A_CA00, 23);
    OneMore(0x98_9680, 0x5F5_E100, 24);
  }

  lemma AllHeavy()
    ensures HeavyPowers(10_000_000, 25) && Powers(10_000_000, 25) == 0
  {
    hide HeavyPowers, Powers;
    HeavyFrom7();
  }

  lemma {:induction false} HeavyPower(c: nat, n: nat, k: nat)
    requires HeavyPowers(c, n) && k < n
    ensures Heavy(Powers(c, k))
    decreases n
  {
    if k > 0 { HeavyPower((c * 10) % Word, n - 1, k - 1); }
  }

  /** A reference as it is written. */
  function ReferenceText(ds: seq<Byte>, hex: bool): seq<Byte> {
    [Ampersand, Hash] + (if hex then [SmallX] else []) + ds + [Semicolon]
  }

  lemma ReferenceSpelled(ds: seq<Byte>, hex: bool)
    ensures ReferenceText(ds, hex) == (if hex then Ascii("&#x") else Ascii("&#")) + ds + Ascii(";")
  {}

  /** It is read as what the source makes of its digits, whatever follows. */
  lemma ReferenceRead(s: seq<Byte>, p: nat, ds: seq<Byte>, hex: bool)
    requires Digits(ds, hex) && Here(s, p, ReferenceText(ds, hex))
    ensures At(s, p) == Ampersand && At(s, p + 1) == Hash
    ensures ReferenceAt(s, p) == Reference(Wrapped(ds, hex), p + |ReferenceText(ds, hex)|)
  {
    hide Here, NumberAfter, Wrapped;
    var front := [Ampersand, Hash] + (if hex then [SmallX] else []);
    HereSplit(s, p, front + ds, [Semicolon]);
    HereSplit(s, p, front, ds);
    HereAt(s, p, front, 0);
    HereAt(s, p, front, 1);
    var lo := p + |front| - 1;
    HereAt(s, lo + 1 + |ds|, [Semicolon], 0);
    if hex {
      HereAt(s, p, front, 2);
    } else if ds != [] {
      HereAt(s, lo + 1, ds, 0);
    }
    NumberRead(s, lo, ds, hex);
  }

  lemma NumberRead(s: seq<Byte>, lo: nat, ds: seq<Byte>, hex: bool)
    requires Digits(ds, hex) && At(s, lo) == Stop(hex) && Here(s, lo + 1, ds) && At(s, lo + 1 + |ds|) == Semicolon
    ensures NumberAfter(s, lo, hex) == Reference(Wrapped(ds, hex), lo + 2 + |ds|)
  {
    hide Here, Wrapped, Digits, SemicolonFrom, DigitsFrom;
    DigitsEnd(s, lo + 1, ds, hex);
    DigitsStart(s, lo, ds, hex);
    HereSlice(s, lo + 1, ds);
  }

  lemma {:induction false} DigitsEnd(s: seq<Byte>, k: nat, ds: seq<Byte>, hex: bool)
    requires Digits(ds, hex) && Here(s, k, ds) && At(s, k + |ds|) == Semicolon
    ensures SemicolonFrom(s, k) == k + |ds|
    decreases |ds|
  {
    if ds != [] {
      HereAt(s, k, ds, 0);
      assert ds == [ds[0]] + ds[1..];
      HereSplit(s, k, [ds[0]], ds[1..]);
      DigitsEnd(s, k + 1, ds[1..], hex);
    }
  }

  lemma NoStop(c: Byte, hex: bool)
    requires DigitValue(c, hex) >= 0
    ensures c != Stop(hex)
  {}

  lemma HereSlice(s: seq<Byte>, k: nat, t: seq<Byte>)
    requires Here(s, k, t)
    ensures k + |t| <= |s| && s[k..k + |t|] == t
  {}

  lemma {:induction false} DigitsStart(s: seq<Byte>, lo: nat, ds: seq<Byte>, hex: bool)
    requires Digits(ds, hex) && Here(s, lo + 1, ds) && lo < |s| && s[lo] == Stop(hex)
    ensures lo + 1 + |ds| <= |s| && DigitsFrom(s, lo, lo + 1 + |ds|, hex) == lo + 1
    decreases |ds|
  {
    hide Here, DigitValue, Stop;
    HereSlice(s, lo + 1, ds);
    if ds != [] {
      var n := |ds| - 1;
      HereAt(s, lo + 1, ds, n);
      NoStop(ds[n], hex);
      assert ds == ds[..n] + ds[n..];
      HereSplit(s, lo + 1, ds[..n], ds[n..]);
      DigitsStart(s, lo, ds[..n], hex);
    }
  }

  /** Zeros and a one far enough in front of a number change nothing but the number. */
  lemma OneInFront(n: nat, r: seq<Byte>, hex: bool) returns (ds: seq<Byte>)
    requires Digits(r, hex) && Number(r, hex) < Word && n + |r| >= if hex then 8 else 32
    ensures ds == [49] + (Zeros(n) + r) && Digits(ds, hex)
    ensures Number(ds, hex) == Weight(hex, n + |r|) + Number(r, hex) >= Word
    ensures Wrapped(ds, hex) == Number(r, hex)
  {
    hide Number, Weight, Wrapped;
    ZerosInFront(n, r, hex);
    var t := Zeros(n) + r;
    ds := [49] + t;
    assert ds[1..] == t;
    FirstPlace(ds, hex);
    FarWeight(hex, n + |r|);
    WrappedExact(t, hex);
    assert PlaceValue(ds, 0, hex) == Weight(hex, n + |r|);
    DivMod(Weight(hex, n + |r|), Word);
  }

  function Zeros(n: nat): (z: seq<Byte>)
    ensures |z| == n
  {
    if n == 0 then [] else [48] + Zeros(n - 1)
  }

  lemma {:induction false} ZerosInFront(n: nat, r: seq<Byte>, hex: bool)
    requires Digits(r, hex)
    ensures Digits(Zeros(n) + r, hex) && Number(Zeros(n) + r, hex) == Number(r, hex)
  {
    hide Weight;
    var t := Zeros(n) + r;
    if n == 0 {
      assert t == r;
    } else {
      ZerosInFront(n - 1, r, hex);
      assert t == [48] + (Zeros(n - 1) + r);
      assert t[1..] == Zeros(n - 1) + r;
    }
  }

  /** The hexadecimal number 0x100000041 and the decimal number 10^32 + 65 both come out as the
      letter A. */
  lemma ReferenceCounterexample() returns (h: seq<Byte>, d: seq<Byte>)
    ensures h == [49] + (Zeros(6) + [52, 49]) && Digits(h, true)
    ensures Number(h, true) == Word + 0x41 && RefBytes(Wrapped(h, true)) == [65]
    ensures d == [49] + (Zeros(30) + [54, 53]) && Digits(d, false)
    ensures Number(d, false) == Weight(false, 32) + 65 >= Word && RefBytes(Wrapped(d, false)) == [65]
  {
    hide Number, Weight, Wrapped;
    TwoDigits();
    h := OneInFront(6, [52, 49], true);
    d := OneInFront(30, [54, 53], false);
  }

  lemma TwoDigits()
    ensures Number([52, 49], true) == 65 && Number([54, 53], false) == 65 && Weight(true, 8) == Word
  {
    assert [52, 49][1..] == [49] && [54, 53][1..] == [53];
    assert Weight(true, 4) == 0x10000;
  }

  // ----- the rest of a text -----

  /** Reading from an ampersand on is reading at its position. */
  lemma ReferenceShift(s: seq<Byte>, p: nat)
    requires p + 1 < |s| && s[p + 1] == Hash
    ensures var r, t := ReferenceAt(s, p), ReferenceAt(s[p..], 0);
            && t.Malformed? == r.Malformed? && t.Cut? == r.Cut?
            && (r.Reference? ==> t.value == r.value && r.next == p + t.next)
  {
    hide NumberAfter;
    if At(s, p + 2) == SmallX { NumberShift(s, p, 2, true); } else { NumberShift(s, p, 1, false); }
  }

  lemma NumberShift(s: seq<Byte>, p: nat, lo: nat, hex: bool)
    requires p + lo < |s| && s[p + lo] == Stop(hex)
    ensures var r, t := NumberAfter(s, p + lo, hex), NumberAfter(s[p..], lo, hex);
            && t.Malformed? == r.Malformed?
            && (r.Reference? ==> t.value == r.value && r.next == p + t.next)
  {
    hide Wrapped, Digits, SemicolonFrom, DigitsFrom;
    var rest := s[p..];
    SemicolonShift(s, p, lo + 1);
    var e := SemicolonFrom(rest, lo + 1);
    if e >= 0 {
      DigitsShift(s, p, lo, e, hex);
      var d := DigitsFrom(rest, lo, e, hex);
      SliceShift(s, p, d, e);
    }
  }

  lemma SliceShift(s: seq<Byte>, p: nat, d: nat, e: nat)
    requires p + e <= |s| && d <= e
    ensures s[p..][d..e] == s[p + d..p + e]
  {}

  lemma {:induction false} SemicolonShift(s: seq<Byte>, p: nat, k: nat)
    requires p <= |s|
    ensures var r := SemicolonFrom(s[p..], k); SemicolonFrom(s, p + k) == if r < 0 then -1 else p + r
    decreases |s| - k
  {
    if p + k < |s| { SemicolonShift(s, p, k + 1); }
  }

  lemma {:induction false} DigitsShift(s: seq<Byte>, p: nat, lo: nat, e: nat, hex: bool)
    requires lo < e && p + e <= |s| && s[p + lo] == Stop(hex)
    ensures DigitsFrom(s, p + lo, p + e, hex) == p + DigitsFrom(s[p..], lo, e, hex)
    decreases e
  {
    if s[p + e - 1] != Stop(hex) { DigitsShift(s, p, lo, e - 1, hex); }
  }
}
