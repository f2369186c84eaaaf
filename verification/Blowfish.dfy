/** The Blowfish block cipher, for any subkeys and substitution boxes. */
module Blowfish {

  /** The words P and S that the key schedule leaves. */
  datatype Context = Context(P: seq<bv32>, S: seq<seq<bv32>>)

  predicate Valid(ctx: Context) {
    |ctx.P| == 18 && |ctx.S| == 4 && forall i :: 0 <= i < 4 ==> |ctx.S[i]| == 256
  }

  type Block = s: seq<bv8> | |s| == 8 witness [0, 0, 0, 0, 0, 0, 0, 0]

  /** Byte i of a word, counted from the low end. */
  function ByteOf(x: bv32, i: nat): (r: nat)
    requires i < 4
    ensures r < 256
  {
    if i == 0 then (x & 0xFF) as int
    else if i == 1 then ((x >> 8) & 0xFF) as int
    else if i == 2 then ((x >> 16) & 0xFF) as int
    else ((x >> 24) & 0xFF) as int
  }

  function F(ctx: Context, x: bv32): bv32
    requires Valid(ctx)
  {
    Add(Xor(Add(ctx.S[0][ByteOf(x, 3)], ctx.S[1][ByteOf(x, 2)]), ctx.S[2][ByteOf(x, 1)]), ctx.S[3][ByteOf(x, 0)])
  }

  function Xor(a: bv32, b: bv32): bv32 {
    a ^ b
  }

  /** Addition modulo 2^32. */
  function Add(a: bv32, b: bv32): bv32 {
    a + b
  }

  /** The two halves of a block. */
  datatype Halves = Halves(l: bv32, r: bv32)

  /** The halves after i rounds with the subkeys in keys. */
  function Rounds(ctx: Context, keys: seq<bv32>, i: nat, x: Halves): Halves
    requires Valid(ctx) && i <= |keys|
  {
    if i == 0 then x
    else
      var y := Rounds(ctx, keys, i - 1, x);
      Halves(Xor(F(ctx, Xor(y.l, keys[i - 1])), y.r), Xor(y.l, keys[i - 1]))
  }

  /** Sixteen rounds, the last exchange undone, and the two remaining subkeys. */
  function Feistel(ctx: Context, keys: seq<bv32>, x: Halves): Halves
    requires Valid(ctx) && |keys| == 18
  {
    var y := Rounds(ctx, keys, 16, x);
    Halves(Xor(y.r, keys[17]), Xor(y.l, keys[16]))
  }

  function Reversed(keys: seq<bv32>): (r: seq<bv32>)
    ensures |r| == |keys| && forall i :: 0 <= i < |keys| ==> r[i] == keys[|keys| - 1 - i]
  {
    seq(|keys|, i requires 0 <= i < |keys| => keys[|keys| - 1 - i])
  }

  /** blowfish_enc */
  method Encipher(ctx: Context, xl: bv32, xr: bv32) returns (Xl: bv32, Xr: bv32)
    requires Valid(ctx)
    ensures Halves(Xl, Xr) == Feistel(ctx, ctx.P, Halves(xl, xr))
  {
    hide F, Rounds, Xor;
    Xl, Xr := xl, xr;
    NoRound(ctx, ctx.P, Halves(xl, xr));
    for i := 0 to 16
      invariant Halves(Xl, Xr) == Rounds(ctx, ctx.P, i, Halves(xl, xr))
    {
      OneRound(ctx, ctx.P, i + 1, Halves(xl, xr));
      Xl := Xor(Xl, ctx.P[i]);
      Xr := Xor(F(ctx, Xl), Xr);
      Xl, Xr := Xr, Xl;
    }
    Xl, Xr := Xr, Xl;
    Xr := Xor(Xr, ctx.P[16]);
    Xl := Xor(Xl, ctx.P[17]);
  }

  /** blowfish_dec: the same with the subkeys in the opposite order. */
  method Decipher(ctx: Context, xl: bv32, xr: bv32) returns (Xl: bv32, Xr: bv32)
    requires Valid(ctx)
    ensures Halves(Xl, Xr) == Feistel(ctx, Reversed(ctx.P), Halves(xl, xr))
  {
    hide F, Rounds, Xor;
    Xl, Xr := xl, xr;
    NoRound(ctx, Reversed(ctx.P), Halves(xl, xr));
    var i := 17;
    while i > 1
      invariant 1 <= i <= 17 && Halves(Xl, Xr) == Rounds(ctx, Reversed(ctx.P), 17 - i, Halves(xl, xr))
    {
      OneRound(ctx, Reversed(ctx.P), 18 - i, Halves(xl, xr));
      Xl := Xor(Xl, ctx.P[i]);
      Xr := Xor(F(ctx, Xl), Xr);
      Xl, Xr := Xr, Xl;
      i := i - 1;
    }
    Xl, Xr := Xr, Xl;
    Xr := Xor(Xr, ctx.P[1]);
    Xl := Xor(Xl, ctx.P[0]);
  }

  lemma NoRound(ctx: Context, keys: seq<bv32>, x: Halves)
    requires Valid(ctx)
    ensures Rounds(ctx, keys, 0, x) == x
  {}

  lemma OneRound(ctx: Context, keys: seq<bv32>, i: nat, x: Halves)
    requires Valid(ctx) && 0 < i <= |keys|
    ensures var y := Rounds(ctx, keys, i - 1, x);
            Rounds(ctx, keys, i, x) == Halves(Xor(F(ctx, Xor(y.l, keys[i - 1])), y.r), Xor(y.l, keys[i - 1]))
  {
    hide F, Xor;
  }

  lemma XorCancels(x: bv32, k: bv32)
    ensures Xor(Xor(x, k), k) == x
  {}

  lemma XorAssoc(a: bv32, b: bv32, c: bv32)
    ensures Xor(a, Xor(b, c)) == Xor(Xor(a, b), c)
  {}

  lemma XorComm(a: bv32, b: bv32)
    ensures Xor(a, b) == Xor(b, a)
  {}

  lemma XorBack(f: bv32, x: bv32, k: bv32)
    ensures Xor(Xor(x, k), k) == x && Xor(f, Xor(Xor(f, x), k)) == Xor(x, k)
  {
    hide Xor;
    XorCancels(x, k);
    XorAssoc(f, Xor(f, x), k);
    XorComm(f, x);
    XorComm(f, Xor(x, f));
    XorCancels(x, f);
  }

  /** After j rounds back, the halves are those of 16 - j rounds, under the next subkeys. */
  lemma {:induction false} RoundsBack(ctx: Context, keys: seq<bv32>, x: Halves, j: nat)
    requires Valid(ctx) && |keys| == 18 && j <= 16
    ensures var y := Rounds(ctx, keys, 16 - j, x);
            Rounds(ctx, Reversed(keys), j, Feistel(ctx, keys, x)) ==
            Halves(Xor(y.r, keys[17 - j]), Xor(y.l, keys[16 - j]))
  {
    hide F, Rounds, Xor;
    var rev := Reversed(keys);
    if j == 0 {
      NoRound(ctx, rev, Feistel(ctx, keys, x));
    } else {
      RoundsBack(ctx, keys, x, j - 1);
      var i := 17 - j;
      OneRound(ctx, keys, i, x);
      OneRound(ctx, rev, j, Feistel(ctx, keys, x));
      var y, z := Rounds(ctx, keys, i - 1, x), Rounds(ctx, keys, i, x);
      XorBack(0, z.r, keys[i + 1]);
      XorBack(F(ctx, z.r), y.r, keys[i]);
    }
  }

  /** Deciphering inverts enciphering, and the other way round. */
  lemma FeistelBack(ctx: Context, keys: seq<bv32>, x: Halves)
    requires Valid(ctx) && |keys| == 18
    ensures Feistel(ctx, Reversed(keys), Feistel(ctx, keys, x)) == x
  {
    hide F, Rounds, Xor;
    RoundsBack(ctx, keys, x, 16);
    NoRound(ctx, keys, x);
    XorBack(0, x.l, keys[0]);
    XorBack(0, x.r, keys[1]);
  }

  // ----- what is computed, apart from these functions -----

  lemma Operations(a: bv32, b: bv32)
    ensures Xor(a, b) == a ^ b && Add(a, b) == a + b
  {}

  /** The word with the bytes a, b, c and d. */
  function Four(a: bv8, b: bv8, c: bv8, d: bv8): bv32 {
    (a as bv32) * 0x100_0000 + (b as bv32) * 0x1_0000 + (c as bv32) * 0x100 + (d as bv32)
  }

  lemma FourBytes(a: bv8, b: bv8, c: bv8, d: bv8)
    ensures var x := Four(a, b, c, d);
            ByteOf(x, 3) == a as int && ByteOf(x, 2) == b as int && ByteOf(x, 1) == c as int && ByteOf(x, 0) == d as int
  {
    FourJoined(a, b, c, d);
  }

  lemma FourJoined(a: bv8, b: bv8, c: bv8, d: bv8)
    ensures Four(a, b, c, d) == ((a as bv32) << 24) | ((b as bv32) << 16) | ((c as bv32) << 8) | (d as bv32)
  {}

  /** F sends the bytes of a word, from the top, through the four boxes in order. */
  lemma FValue(ctx: Context, a: bv8, b: bv8, c: bv8, d: bv8)
    requires Valid(ctx)
    ensures F(ctx, Four(a, b, c, d)) ==
            Add(Xor(Add(ctx.S[0][a as int], ctx.S[1][b as int]), ctx.S[2][c as int]), ctx.S[3][d as int])
  {
    hide Four, Add, Xor, ByteOf;
    FourBytes(a, b, c, d);
  }

  /** So with three boxes empty it is the entry of the remaining one. */
  lemma OneBox(ctx: Context, a: bv8, b: bv8, c: bv8, d: bv8, k: nat)
    requires Valid(ctx) && k < 4 && forall i, j :: 0 <= i < 4 && i != k && 0 <= j < 256 ==> ctx.S[i][j] == 0
    ensures F(ctx, Four(a, b, c, d)) == ctx.S[k][[a as int, b as int, c as int, d as int][k]]
  {
    hide Four, Add, Xor, ByteOf, F;
    FValue(ctx, a, b, c, d);
    OneOf(ctx.S[0][a as int], ctx.S[1][b as int], ctx.S[2][c as int], ctx.S[3][d as int], k);
  }

  lemma OneOf(w: bv32, x: bv32, y: bv32, z: bv32, k: nat)
    requires k < 4 && (k != 0 ==> w == 0) && (k != 1 ==> x == 0) && (k != 2 ==> y == 0) && (k != 3 ==> z == 0)
    ensures Add(Xor(Add(w, x), y), z) == [w, x, y, z][k]
  {
    hide Add, Xor;
    Neutral(w);
    Neutral(x);
    Neutral(y);
    Neutral(z);
  }

  lemma Neutral(x: bv32)
    ensures Add(x, 0) == x && Add(0, x) == x && Xor(x, 0) == x && Xor(0, x) == x
  {}

  /** The halves at the start and after every round, from the definition of the network. */
  predicate Trace(ctx: Context, l: seq<bv32>, r: seq<bv32>)
    requires Valid(ctx)
  {
    && |l| == |r| == 17
    && forall i :: 0 <= i < 16 ==> TraceStep(ctx, l, r, i)
  }

  predicate TraceStep(ctx: Context, l: seq<bv32>, r: seq<bv32>, i: nat)
    requires Valid(ctx) && |l| == |r| == 17 && i < 16
  {
    r[i + 1] == Xor(l[i], ctx.P[i]) && l[i + 1] == Xor(r[i], F(ctx, Xor(l[i], ctx.P[i])))
  }

  lemma {:induction false} TraceRounds(ctx: Context, l: seq<bv32>, r: seq<bv32>, i: nat)
    requires Valid(ctx) && Trace(ctx, l, r) && i <= 16
    ensures |l| == |r| == 17 && Rounds(ctx, ctx.P, i, Halves(l[0], r[0])) == Halves(l[i], r[i])
  {
    hide F, Xor, Rounds;
    if i == 0 {
      NoRound(ctx, ctx.P, Halves(l[0], r[0]));
    } else {
      TraceRounds(ctx, l, r, i - 1);
      assert TraceStep(ctx, l, r, i - 1);
      OneRound(ctx, ctx.P, i, Halves(l[0], r[0]));
      XorComm(F(ctx, Xor(l[i - 1], ctx.P[i - 1])), r[i - 1]);
    }
  }

  /** Enciphering gives the last halves of any such trace, exchanged, under the last two subkeys. */
  lemma TraceEnciphered(ctx: Context, l: seq<bv32>, r: seq<bv32>)
    requires Valid(ctx) && Trace(ctx, l, r)
    ensures |l| == |r| == 17
    ensures Feistel(ctx, ctx.P, Halves(l[0], r[0])) == Halves(Xor(r[16], ctx.P[17]), Xor(l[16], ctx.P[16]))
  {
    hide F, Rounds, Trace, Xor;
    TraceRounds(ctx, l, r, 16);
  }

  /** The first n of every other subkey from the k-th on, combined with x. */
  function Mixed(keys: seq<bv32>, k: nat, n: nat, x: bv32): bv32
    requires n == 0 || k + 2 * (n - 1) < |keys|
  {
    if n == 0 then x else Xor(Mixed(keys, k, n - 1, x), keys[k + 2 * (n - 1)])
  }

  /** Without boxes the even subkeys go into the right half and the odd ones into the left. */
  lemma NoBoxes(ctx: Context, x: Halves)
    requires Valid(ctx) && forall i, j :: 0 <= i < 4 && 0 <= j < 256 ==> ctx.S[i][j] == 0
    ensures Feistel(ctx, ctx.P, x) == Halves(Mixed(ctx.P, 1, 9, x.r), Mixed(ctx.P, 0, 9, x.l))
  {
    hide F, Rounds, Xor;
    EvenRounds(ctx, x, 8);
  }

  lemma {:induction false} EvenRounds(ctx: Context, x: Halves, n: nat)
    requires Valid(ctx) && forall i, j :: 0 <= i < 4 && 0 <= j < 256 ==> ctx.S[i][j] == 0
    requires n <= 8
    ensures Rounds(ctx, ctx.P, 2 * n, x) == Halves(Mixed(ctx.P, 0, n, x.l), Mixed(ctx.P, 1, n, x.r))
  {
    hide F, Rounds, Xor;
    if n == 0 {
      NoRound(ctx, ctx.P, x);
    } else {
      EvenRounds(ctx, x, n - 1);
      var y := Rounds(ctx, ctx.P, 2 * n - 2, x);
      OneRound(ctx, ctx.P, 2 * n - 1, x);
      OneRound(ctx, ctx.P, 2 * n, x);
      NoF(ctx, Xor(y.l, ctx.P[2 * n - 2]));
      NoF(ctx, Xor(y.r, ctx.P[2 * n - 1]));
      Neutral(y.r);
      Neutral(Xor(y.l, ctx.P[2 * n - 2]));
    }
  }

  lemma NoF(ctx: Context, x: bv32)
    requires Valid(ctx) && forall i, j :: 0 <= i < 4 && 0 <= j < 256 ==> ctx.S[i][j] == 0
    ensures F(ctx, x) == 0
  {
    hide ByteOf, Add, Xor;
    Neutral(0);
  }

  // ----- blocks of bytes -----

  /** GET_UINT32_BE */
  function Word(b: seq<bv8>): bv32
    requires |b| == 4
  {
    ((b[0] as bv32) << 24) | ((b[1] as bv32) << 16) | ((b[2] as bv32) << 8) | (b[3] as bv32)
  }

  /** PUT_UINT32_BE */
  function WordBytes(n: bv32): (b: seq<bv8>)
    ensures |b| == 4
  {
    [((n >> 24) & 0xFF) as bv8, ((n >> 16) & 0xFF) as bv8, ((n >> 8) & 0xFF) as bv8, (n & 0xFF) as bv8]
  }

  /** The bytes of a word, the highest first. */
  lemma WordIs(a: bv8, b: bv8, c: bv8, d: bv8)
    ensures Word([a, b, c, d]) == Four(a, b, c, d)
  {
    hide Four;
    FourJoined(a, b, c, d);
  }

  lemma WordBack(n: bv32)
    ensures Word(WordBytes(n)) == n
  {}

  lemma BytesBack(b: seq<bv8>)
    requires |b| == 4
    ensures WordBytes(Word(b)) == b
  {}

  function Split(b: Block): Halves {
    Halves(Word(b[..4]), Word(b[4..]))
  }

  function Join(x: Halves): Block {
    WordBytes(x.l) + WordBytes(x.r)
  }

  /** blowfish_crypt_ecb */
  function Ecb(ctx: Context, decrypt: bool, b: Block): Block
    requires Valid(ctx)
  {
    Join(Feistel(ctx, if decrypt then Reversed(ctx.P) else ctx.P, Split(b)))
  }

  method CryptEcb(ctx: Context, decrypt: bool, input: Block) returns (output: Block)
    requires Valid(ctx)
    ensures output == Ecb(ctx, decrypt, input)
  {
    hide Feistel, Word, WordBytes;
    var X0, X1 := Word(input[..4]), Word(input[4..]);
    if decrypt {
      X0, X1 := Decipher(ctx, X0, X1);
    } else {
      X0, X1 := Encipher(ctx, X0, X1);
    }
    output := WordBytes(X0) + WordBytes(X1);
  }

  /** A block is its left half and its right half, in both directions. */
  lemma EcbIs(ctx: Context, decrypt: bool, a: seq<bv8>, b: seq<bv8>)
    requires Valid(ctx) && |a| == |b| == 4
    ensures var c := Ecb(ctx, decrypt, a + b);
            Halves(Word(c[..4]), Word(c[4..])) ==
            Feistel(ctx, if decrypt then Reversed(ctx.P) else ctx.P, Halves(Word(a), Word(b)))
  {
    hide Feistel, Word, WordBytes;
    assert (a + b)[..4] == a && (a + b)[4..] == b;
    JoinBack(Feistel(ctx, if decrypt then Reversed(ctx.P) else ctx.P, Halves(Word(a), Word(b))));
  }

  lemma JoinBack(x: Halves)
    ensures Split(Join(x)) == x
  {
    hide Word, WordBytes;
    var b := Join(x);
    assert b[..4] == WordBytes(x.l) && b[4..] == WordBytes(x.r);
    WordBack(x.l);
    WordBack(x.r);
  }

  lemma SplitBack(b: Block)
    ensures Join(Split(b)) == b
  {
    hide Word, WordBytes;
    BytesBack(b[..4]);
    BytesBack(b[4..]);
    assert b[..4] + b[4..] == b;
  }

  lemma ReversedTwice(keys: seq<bv32>)
    ensures Reversed(Reversed(keys)) == keys
  {}

  /** One direction of the block cipher undoes the other. */
  lemma EcbBack(ctx: Context, decrypt: bool, b: Block)
    requires Valid(ctx)
    ensures Ecb(ctx, !decrypt, Ecb(ctx, decrypt, b)) == b
  {
    hide Feistel, Join, Split;
    var keys := if decrypt then Reversed(ctx.P) else ctx.P;
    ReversedTwice(ctx.P);
    JoinBack(Feistel(ctx, keys, Split(b)));
    FeistelBack(ctx, keys, Split(b));
    SplitBack(b);
  }
}
