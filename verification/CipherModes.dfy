/** The modes of operation of the Blowfish functions, with the state they carry between calls. */
module CipherModes {
  import opened Arith
  import opened Blowfish

  function Xor8(a: bv8, b: bv8): bv8 {
    a ^ b
  }

  lemma Xor8Back(a: bv8, b: bv8)
    ensures Xor8(Xor8(a, b), b) == a
  {}

  function XorBlock(a: Block, b: Block): Block {
    seq(8, i requires 0 <= i < 8 => Xor8(a[i], b[i]))
  }

  lemma XorBlockBack(a: Block, b: Block)
    ensures XorBlock(XorBlock(a, b), b) == a
  {
    hide Xor8;
    forall i | 0 <= i < 8 ensures XorBlock(XorBlock(a, b), b)[i] == a[i] { Xor8Back(a[i], b[i]); }
  }

  // ----- cipher block chaining: section 6.2 of NIST SP 800-38A -----

  predicate Whole(s: seq<bv8>) {
    |s| % 8 == 0
  }

  function CbcEncrypt(ctx: Context, iv: Block, s: seq<bv8>): (r: seq<bv8>)
    requires Valid(ctx) && Whole(s)
    ensures |r| == |s|
    decreases |s|
  {
    if s == [] then []
    else
      var c := Ecb(ctx, false, XorBlock(s[..8], iv));
      c + CbcEncrypt(ctx, c, s[8..])
  }

  function CbcDecrypt(ctx: Context, iv: Block, s: seq<bv8>): (r: seq<bv8>)
    requires Valid(ctx) && Whole(s)
    ensures |r| == |s|
    decreases |s|
  {
    if s == [] then []
    else XorBlock(Ecb(ctx, true, s[..8]), iv) + CbcDecrypt(ctx, s[..8], s[8..])
  }

  /** The block that chains the next call to this one: the last block of ciphertext. */
  function Chain(iv: Block, ciphertext: seq<bv8>): Block
    requires Whole(ciphertext)
  {
    if ciphertext == [] then iv else ciphertext[|ciphertext| - 8..]
  }

  /** CBC decryption inverts CBC encryption on every whole number of blocks. */
  lemma {:induction false} CbcBack(ctx: Context, iv: Block, s: seq<bv8>)
    requires Valid(ctx) && Whole(s)
    ensures CbcDecrypt(ctx, iv, CbcEncrypt(ctx, iv, s)) == s
    decreases |s|
  {
    hide Ecb, XorBlock;
    if s != [] {
      var x := XorBlock(s[..8], iv);
      var c := Ecb(ctx, false, x);
      var t := CbcEncrypt(ctx, iv, s);
      assert t[..8] == c && t[8..] == CbcEncrypt(ctx, c, s[8..]);
      EcbBack(ctx, false, x);
      XorBlockBack(s[..8], iv);
      CbcBack(ctx, c, s[8..]);
      assert s[..8] + s[8..] == s;
    }
  }

  /** Calls split between blocks equal one call, the chaining block carried from one to the next. */
  lemma {:induction false} CbcSplit(ctx: Context, iv: Block, a: seq<bv8>, b: seq<bv8>)
    requires Valid(ctx) && Whole(a) && Whole(b)
    ensures var x := CbcEncrypt(ctx, iv, a); CbcEncrypt(ctx, iv, a + b) == x + CbcEncrypt(ctx, Chain(iv, x), b)
    decreases |a|
  {
    hide Ecb, XorBlock;
    if a == [] {
      assert a + b == b;
      assert [] + CbcEncrypt(ctx, iv, b) == CbcEncrypt(ctx, iv, b);
    } else {
      var c := Ecb(ctx, false, XorBlock(a[..8], iv));
      var rest := CbcEncrypt(ctx, c, a[8..]);
      assert (a + b)[..8] == a[..8] && (a + b)[8..] == a[8..] + b;
      CbcSplit(ctx, c, a[8..], b);
      assert Chain(iv, c + rest) == Chain(c, rest);
      Regroup(c, rest, CbcEncrypt(ctx, Chain(c, rest), b));
    }
  }

  /** The same for decryption: the block carried over is the last one of ciphertext read. */
  lemma {:induction false} CbcDecryptSplit(ctx: Context, iv: Block, a: seq<bv8>, b: seq<bv8>)
    requires Valid(ctx) && Whole(a) && Whole(b)
    ensures CbcDecrypt(ctx, iv, a + b) == CbcDecrypt(ctx, iv, a) + CbcDecrypt(ctx, Chain(iv, a), b)
    decreases |a|
  {
    hide Ecb, XorBlock;
    if a == [] {
      assert a + b == b;
      assert [] + CbcDecrypt(ctx, iv, b) == CbcDecrypt(ctx, iv, b);
    } else {
      var c, rest := a[..8], a[8..];
      assert (a + b)[..8] == c && (a + b)[8..] == rest + b && c + rest == a;
      CbcDecryptSplit(ctx, c, rest, b);
      assert Chain(iv, c + rest) == Chain(c, rest);
      Regroup(XorBlock(Ecb(ctx, true, c), iv), CbcDecrypt(ctx, c, rest), CbcDecrypt(ctx, Chain(c, rest), b));
    }
  }

  /** Block i of the ciphertext is the encryption of the block, combined with the ciphertext block in
      front of it, at first with the initial vector. */
  lemma {:induction false} CbcBlock(ctx: Context, iv: Block, s: seq<bv8>, i: nat)
    requires Valid(ctx) && Whole(s) && 8 * i + 8 <= |s|
    ensures var c := CbcEncrypt(ctx, iv, s);
            var before := if i == 0 then iv else c[8 * i - 8..8 * i];
            c[8 * i..8 * i + 8] == Ecb(ctx, false, XorBlock(s[8 * i..8 * i + 8], before))
    decreases |s|
  {
    hide Ecb, XorBlock, CbcEncrypt;
    NextCbc(ctx, iv, s, 0);
    assert s[0..] == s;
    var first: seq<bv8> := Ecb(ctx, false, XorBlock(s[0..8], iv));
    var rest: seq<bv8> := CbcEncrypt(ctx, first, s[8..]);
    if i == 0 {
      assert (first + rest)[0..8] == first;
    } else {
      CbcBlock(ctx, first, s[8..], i - 1);
      Later(first, rest, i);
      Later(s[..8], s[8..], i);
      assert s[..8] + s[8..] == s;
    }
  }

  /** Blocks behind the first one. */
  lemma Later(first: seq<bv8>, rest: seq<bv8>, i: nat)
    requires |first| == 8 && i > 0 && 8 * i <= |rest|
    ensures (first + rest)[8 * i..8 * i + 8] == rest[8 * i - 8..8 * i]
    ensures (first + rest)[8 * i - 8..8 * i] == if i == 1 then first else rest[8 * i - 16..8 * i - 8]
  {}

  /** The combination is the exclusive or of the bytes. */
  lemma XorBlockBytes(a: Block, b: Block, j: nat)
    requires j < 8
    ensures XorBlock(a, b)[j] == a[j] ^ b[j]
  {}

  /** Decryption: the block deciphered, combined with the ciphertext block in front of it. */
  lemma {:induction false} CbcDecryptBlock(ctx: Context, iv: Block, s: seq<bv8>, i: nat)
    requires Valid(ctx) && Whole(s) && 8 * i + 8 <= |s|
    ensures var before := if i == 0 then iv else s[8 * i - 8..8 * i];
            CbcDecrypt(ctx, iv, s)[8 * i..8 * i + 8] == XorBlock(Ecb(ctx, true, s[8 * i..8 * i + 8]), before)
    decreases |s|
  {
    hide Ecb, XorBlock, CbcDecrypt;
    NextCbc(ctx, iv, s, 0);
    assert s[0..] == s;
    var first: seq<bv8> := XorBlock(Ecb(ctx, true, s[0..8]), iv);
    var rest: seq<bv8> := CbcDecrypt(ctx, s[0..8], s[8..]);
    if i == 0 {
      assert (first + rest)[0..8] == first;
    } else {
      CbcDecryptBlock(ctx, s[0..8], s[8..], i - 1);
      Later(first, rest, i);
      Later(s[..8], s[8..], i);
      assert s[..8] + s[8..] == s;
    }
  }

  datatype Status = Ok | InvalidInputLength

  /** blowfish_crypt_cbc. The output may be the input: every block is read before it is written. */
  method CryptCbc(ctx: Context, decrypt: bool, length: nat, iv: array<bv8>, input: array<bv8>, output: array<bv8>)
    returns (ret: Status)
    requires Valid(ctx) && iv.Length == 8 && iv != input && iv != output && length <= input.Length
    requires length <= output.Length
    modifies iv, output
    ensures ret == if length % 8 != 0 then InvalidInputLength else Ok
    ensures ret != Ok ==> iv[..] == old(iv[..]) && output[..] == old(output[..])
    ensures ret == Ok ==>
              var s := old(input[..length]);
              && output[..length] == (if decrypt then CbcDecrypt(ctx, old(iv[..]), s)
                                      else CbcEncrypt(ctx, old(iv[..]), s))
              && iv[..] == Chain(old(iv[..]), if decrypt then s else output[..length])
    ensures forall k :: length <= k < output.Length ==> output[k] == old(output[k])
  {
    if length % 8 != 0 { return InvalidInputLength; }
    if decrypt {
      DecryptBlocks(ctx, length, iv, input, output);
    } else {
      EncryptBlocks(ctx, length, iv, input, output);
    }
    ret := Ok;
  }

  method EncryptBlocks(ctx: Context, length: nat, iv: array<bv8>, input: array<bv8>, output: array<bv8>)
    requires Valid(ctx) && iv.Length == 8 && iv != input && iv != output && length <= input.Length
    requires length <= output.Length && length % 8 == 0
    modifies iv, output
    ensures output[..length] == CbcEncrypt(ctx, old(iv[..]), old(input[..length]))
    ensures iv[..] == Chain(old(iv[..]), output[..length])
    ensures forall k :: length <= k < output.Length ==> output[k] == old(output[k])
  {
    hide Ecb, XorBlock, CbcEncrypt, Chain;
    StartOfChain(iv[..], output[..0]);
    ghost var s, iv0 := input[..length], iv[..];
    ghost var all := CbcEncrypt(ctx, iv0, s);
    var pos := 0;
    assert s[0..] == s;
    while pos < length
      invariant 0 <= pos <= length && pos % 8 == 0
      invariant output[..pos] + CbcEncrypt(ctx, iv[..], s[pos..]) == all
      invariant iv[..] == Chain(iv0, output[..pos])
      invariant forall k :: pos <= k < input.Length ==> input[k] == old(input[k])
      invariant forall k :: pos <= k < output.Length ==> output[k] == old(output[k])
    {
      ghost var done, v := output[..pos], iv[..];
      NextCbc(ctx, v, s, pos);
      assert input[pos..pos + 8] == s[pos..pos + 8];
      var block := XorBlock(input[pos..pos + 8], iv[..]);
      block := CryptEcb(ctx, false, block);
      Store(output, pos, block);
      Store(iv, 0, block);
      ChainNext(iv0, done, block);
      Regroup(done, block, CbcEncrypt(ctx, block, s[pos + 8..]));
      pos := pos + 8;
    }
    LastCbc(ctx, iv[..], s[length..]);
    assert output[..length] + [] == output[..length];
  }

  method DecryptBlocks(ctx: Context, length: nat, iv: array<bv8>, input: array<bv8>, output: array<bv8>)
    requires Valid(ctx) && iv.Length == 8 && iv != input && iv != output && length <= input.Length
    requires length <= output.Length && length % 8 == 0
    modifies iv, output
    ensures output[..length] == CbcDecrypt(ctx, old(iv[..]), old(input[..length]))
    ensures iv[..] == Chain(old(iv[..]), old(input[..length]))
    ensures forall k :: length <= k < output.Length ==> output[k] == old(output[k])
  {
    hide Ecb, XorBlock, CbcDecrypt, Chain;
    StartOfChain(iv[..], input[..length][..0]);
    ghost var s, iv0 := input[..length], iv[..];
    ghost var all := CbcDecrypt(ctx, iv0, s);
    var pos := 0;
    assert s[0..] == s;
    while pos < length
      invariant 0 <= pos <= length && pos % 8 == 0
      invariant output[..pos] + CbcDecrypt(ctx, iv[..], s[pos..]) == all
      invariant iv[..] == Chain(iv0, s[..pos])
      invariant forall k :: pos <= k < input.Length ==> input[k] == old(input[k])
      invariant forall k :: pos <= k < output.Length ==> output[k] == old(output[k])
    {
      ghost var done, v := output[..pos], iv[..];
      var temp := input[pos..pos + 8];
      NextCbc(ctx, v, s, pos);
      assert temp == s[pos..pos + 8];
      var block := CryptEcb(ctx, true, temp);
      block := XorBlock(block, iv[..]);
      Store(output, pos, block);
      Store(iv, 0, temp);
      assert s[..pos + 8] == s[..pos] + temp;
      ChainNext(iv0, s[..pos], temp);
      Regroup(done, block, CbcDecrypt(ctx, temp, s[pos + 8..]));
      pos := pos + 8;
    }
    LastCbc(ctx, iv[..], s[length..]);
    assert output[..length] + [] == output[..length];
    assert s[..length] == s;
  }

  method Store(a: array<bv8>, pos: nat, b: Block)
    requires pos + 8 <= a.Length
    modifies a
    ensures a[..pos + 8] == old(a[..pos]) + b
    ensures forall k :: pos + 8 <= k < a.Length ==> a[k] == old(a[k])
    ensures pos == 0 && a.Length == 8 ==> a[..] == b
  {
    forall i | 0 <= i < 8 { a[pos + i] := b[i]; }
    assert a[..pos + 8] == old(a[..pos]) + b;
    if pos == 0 && a.Length == 8 { assert a[..] == b; }
  }

  lemma StartOfChain(iv: Block, s: seq<bv8>)
    requires s == []
    ensures Chain(iv, s) == iv
  {}

  lemma ChainNext(iv: Block, done: seq<bv8>, block: Block)
    requires Whole(done)
    ensures Chain(iv, done + block) == block
  {}

  /** The block at pos, which is a block boundary before the end. */
  lemma NextCbc(ctx: Context, iv: Block, s: seq<bv8>, pos: nat)
    requires Valid(ctx) && Whole(s) && pos % 8 == 0 && pos < |s|
    ensures (pos + 8) % 8 == 0 && pos + 8 <= |s| && Whole(s[pos..]) && Whole(s[pos + 8..])
    ensures var c := Ecb(ctx, false, XorBlock(s[pos..pos + 8], iv));
            CbcEncrypt(ctx, iv, s[pos..]) == c + CbcEncrypt(ctx, c, s[pos + 8..])
    ensures CbcDecrypt(ctx, iv, s[pos..]) ==
            XorBlock(Ecb(ctx, true, s[pos..pos + 8]), iv) + CbcDecrypt(ctx, s[pos..pos + 8], s[pos + 8..])
  {
    hide Ecb, XorBlock;
    assert s[pos..][..8] == s[pos..pos + 8];
    assert s[pos..][8..] == s[pos + 8..];
  }

  lemma LastCbc(ctx: Context, iv: Block, s: seq<bv8>)
    requires Valid(ctx) && s == []
    ensures CbcEncrypt(ctx, iv, s) == [] && CbcDecrypt(ctx, iv, s) == []
  {}

  lemma Nothing(a: seq<bv8>)
    ensures [] + a == a && a + [] == a
  {}

  lemma Regroup(a: seq<bv8>, b: seq<bv8>, c: seq<bv8>)
    ensures a + (b + c) == (a + b) + c
  {}

  // ----- cipher feedback: section 6.3 -----

  /** The feedback register and the position in it. */
  datatype Feedback = Feedback(iv: Block, n: nat)

  /** What a call produces and the state it leaves for the next one. */
  datatype Done<S> = Done(bytes: seq<bv8>, state: S)

  function Register(ctx: Context, st: Feedback): Block
    requires Valid(ctx)
  {
    if st.n == 0 then Ecb(ctx, false, st.iv) else st.iv
  }

  /** One byte; the register takes up the ciphertext, whichever side that is. */
  function CfbByte(ctx: Context, st: Feedback, decrypt: bool, c: bv8): (r: (bv8, Feedback))
    requires Valid(ctx) && st.n < 8
    ensures r.1.n < 8
  {
    var iv := Register(ctx, st);
    var o := Xor8(c, iv[st.n]);
    (o, Feedback(iv[st.n := if decrypt then c else o], (st.n + 1) % 8))
  }

  function Cfb(ctx: Context, st: Feedback, decrypt: bool, s: seq<bv8>): (r: Done<Feedback>)
    requires Valid(ctx) && st.n < 8
    ensures |r.bytes| == |s| && r.state.n < 8
    decreases |s|
  {
    if s == [] then Done([], st)
    else
      var (o, st') := CfbByte(ctx, st, decrypt, s[0]);
      var rest := Cfb(ctx, st', decrypt, s[1..]);
      Done([o] + rest.bytes, rest.state)
  }

  /** Calls split at any point equal one call. */
  lemma {:induction false} CfbSplit(ctx: Context, st: Feedback, decrypt: bool, a: seq<bv8>, b: seq<bv8>)
    requires Valid(ctx) && st.n < 8
    ensures var x := Cfb(ctx, st, decrypt, a);
            var y := Cfb(ctx, x.state, decrypt, b);
            Cfb(ctx, st, decrypt, a + b) == Done(x.bytes + y.bytes, y.state)
    decreases |a|
  {
    hide CfbByte, Cfb;
    CfbStep(ctx, st, decrypt, a);
    if a == [] {
      assert a + b == b;
      Nothing(Cfb(ctx, st, decrypt, b).bytes);
    } else {
      var (o, next) := CfbByte(ctx, st, decrypt, a[0]);
      var rest := Cfb(ctx, next, decrypt, a[1..]);
      CfbStep(ctx, st, decrypt, a + b);
      assert (a + b)[1..] == a[1..] + b;
      CfbSplit(ctx, next, decrypt, a[1..], b);
      Regroup([o], rest.bytes, Cfb(ctx, rest.state, decrypt, b).bytes);
    }
  }

  lemma CfbStep(ctx: Context, st: Feedback, decrypt: bool, s: seq<bv8>)
    requires Valid(ctx) && st.n < 8
    ensures s == [] ==> Cfb(ctx, st, decrypt, s) == Done([], st)
    ensures s != [] ==> var (o, next) := CfbByte(ctx, st, decrypt, s[0]);
                        var rest := Cfb(ctx, next, decrypt, s[1..]);
                        Cfb(ctx, st, decrypt, s) == Done([o] + rest.bytes, rest.state)
  {
    hide CfbByte;
  }

  lemma CfbLast(ctx: Context, st: Feedback, decrypt: bool, a: seq<bv8>, c: bv8)
    requires Valid(ctx) && st.n < 8
    ensures var x := Cfb(ctx, st, decrypt, a);
            var (o, next) := CfbByte(ctx, x.state, decrypt, c);
            Cfb(ctx, st, decrypt, a + [c]) == Done(x.bytes + [o], next)
  {
    hide CfbByte, Cfb;
    var x := Cfb(ctx, st, decrypt, a);
    var (o, next) := CfbByte(ctx, x.state, decrypt, c);
    CfbSplit(ctx, st, decrypt, a, [c]);
    CfbStep(ctx, x.state, decrypt, [c]);
    CfbStep(ctx, next, decrypt, []);
    assert [c][1..] == [];
    Nothing([o]);
  }

  /** The ciphertext, whichever side it is. */
  function Cipher(ctx: Context, st: Feedback, decrypt: bool, s: seq<bv8>): (c: seq<bv8>)
    requires Valid(ctx) && st.n < 8
    ensures |c| == |s|
  {
    if decrypt then s else Cfb(ctx, st, decrypt, s).bytes
  }

  /** The bytes are those of s combined with those of e. */
  predicate Combined(s: seq<bv8>, bytes: seq<bv8>, e: Block) {
    |bytes| == |s| <= 8 && forall j :: 0 <= j < |s| ==> bytes[j] == Xor8(s[j], e[j])
  }

  lemma CombinedMore(s: seq<bv8>, bytes: seq<bv8>, e: Block, c: bv8)
    requires Combined(s, bytes, e) && |s| < 8
    ensures Combined(s + [c], bytes + [Xor8(c, e[|s|])], e)
  {
    hide Xor8;
  }

  lemma CombinedNone(e: Block)
    ensures Combined([], [], e)
  {}

  /** Within the first block, and the register left behind. */
  lemma {:induction false} CfbBlock(ctx: Context, st: Feedback, decrypt: bool, s: seq<bv8>)
    requires Valid(ctx) && st.n == 0 && 0 < |s| <= 8
    ensures var e := Ecb(ctx, false, st.iv);
            && Combined(s, Cfb(ctx, st, decrypt, s).bytes, e)
            && Cfb(ctx, st, decrypt, s).state == Feedback(Cipher(ctx, st, decrypt, s) + e[|s|..], |s| % 8)
    decreases |s|
  {
    hide Ecb, Xor8, Cfb, CfbByte, Combined;
    var e, m := Ecb(ctx, false, st.iv), |s| - 1;
    var a, c := s[..m], s[m];
    CfbLast(ctx, st, decrypt, a, c);
    assert a + [c] == s;
    if m == 0 {
      CfbStep(ctx, st, decrypt, a);
      FirstByte(ctx, st, decrypt, c);
      CombinedNone(e);
      CombinedMore([], [], e, c);
    } else {
      CfbBlock(ctx, st, decrypt, a);
      LaterByte(ctx, Cipher(ctx, st, decrypt, a), e, decrypt, c);
      CombinedMore(a, Cfb(ctx, st, decrypt, a).bytes, e, c);
    }
  }

  lemma FirstByte(ctx: Context, st: Feedback, decrypt: bool, c: bv8)
    requires Valid(ctx) && st.n == 0
    ensures var e := Ecb(ctx, false, st.iv);
            var o := Xor8(c, e[0]);
            CfbByte(ctx, st, decrypt, c) == (o, Feedback([] + [if decrypt then c else o] + e[1..], 1))
  {
    hide Ecb, Xor8;
    var e := Ecb(ctx, false, st.iv);
    var x := if decrypt then c else Xor8(c, e[0]);
    assert e[0 := x] == [] + [x] + e[1..];
  }

  lemma LaterByte(ctx: Context, done: seq<bv8>, e: Block, decrypt: bool, c: bv8)
    requires Valid(ctx) && 0 < |done| < 8
    ensures var m := |done|;
            var o := Xor8(c, e[m]);
            CfbByte(ctx, Feedback(done + e[m..], m), decrypt, c) ==
            (o, Feedback((done + [if decrypt then c else o]) + e[m + 1..], (m + 1) % 8))
  {
    hide Ecb, Xor8;
    var m := |done|;
    assert (done + e[m..])[m] == e[m];
    var x := if decrypt then c else Xor8(c, e[m]);
    assert (done + e[m..])[m := x] == (done + [x]) + e[m + 1..];
  }

  /** From the start of a block, byte k is combined with byte k mod 8 of the encryption of the
      ciphertext block in front of its own, at first of the register. */
  lemma {:induction false} CfbStream(ctx: Context, st: Feedback, decrypt: bool, s: seq<bv8>, k: nat)
    requires Valid(ctx) && st.n == 0 && k < |s|
    ensures var b := k / 8 * 8;
            var before := if k < 8 then st.iv else Cipher(ctx, st, decrypt, s)[b - 8..b];
            Cfb(ctx, st, decrypt, s).bytes[k] == s[k] ^ Ecb(ctx, false, before)[k % 8]
    decreases |s|
  {
    hide Ecb, Xor8, Cfb;
    if |s| <= 8 {
      CfbBlock(ctx, st, decrypt, s);
      XorIs(s[k], Ecb(ctx, false, st.iv)[k]);
    } else {
      var a, b := s[..8], s[8..];
      var x := Cfb(ctx, st, decrypt, a);
      assert a + b == s;
      CfbSplit(ctx, st, decrypt, a, b);
      CfbBlock(ctx, st, decrypt, a);
      assert Cipher(ctx, st, decrypt, a) + Ecb(ctx, false, st.iv)[8..] == Cipher(ctx, st, decrypt, a);
      if k < 8 {
        XorIs(s[k], Ecb(ctx, false, st.iv)[k]);
      } else {
        CfbStream(ctx, x.state, decrypt, b, k - 8);
        LaterBlock(ctx, st, decrypt, s, k);
      }
    }
  }

  /** The block in front of byte k, seen from the second block on. */
  lemma LaterBlock(ctx: Context, st: Feedback, decrypt: bool, s: seq<bv8>, k: nat)
    requires Valid(ctx) && st.n == 0 && 8 <= k < |s|
    requires var x := Cfb(ctx, st, decrypt, s[..8]);
             x.state.n < 8 && Cfb(ctx, st, decrypt, s).bytes == x.bytes + Cfb(ctx, x.state, decrypt, s[8..]).bytes
    requires Cfb(ctx, st, decrypt, s[..8]).state.iv == Cipher(ctx, st, decrypt, s[..8])
    ensures var x := Cfb(ctx, st, decrypt, s[..8]);
            var b := k / 8 * 8;
            && (k - 8) / 8 * 8 == b - 8 && (k - 8) % 8 == k % 8
            && (if k < 16 then x.state.iv else Cipher(ctx, x.state, decrypt, s[8..])[b - 16..b - 8]) ==
               Cipher(ctx, st, decrypt, s)[b - 8..b]
  {
    hide Cfb;
    assert Cipher(ctx, st, decrypt, s) ==
           Cipher(ctx, st, decrypt, s[..8]) + Cipher(ctx, Cfb(ctx, st, decrypt, s[..8]).state, decrypt, s[8..]);
  }

  lemma XorIs(a: bv8, b: bv8)
    ensures Xor8(a, b) == a ^ b
  {}

  lemma CfbByteBack(ctx: Context, st: Feedback, c: bv8)
    requires Valid(ctx) && st.n < 8
    ensures var (o, next) := CfbByte(ctx, st, false, c); CfbByte(ctx, st, true, o) == (c, next)
  {
    hide Register, Xor8;
    Xor8Back(c, Register(ctx, st)[st.n]);
  }

  /** Decryption inverts encryption from the same state and leaves the same state. */
  lemma {:induction false} CfbBack(ctx: Context, st: Feedback, s: seq<bv8>)
    requires Valid(ctx) && st.n < 8
    ensures var e := Cfb(ctx, st, false, s); Cfb(ctx, st, true, e.bytes) == Done(s, e.state)
    decreases |s|
  {
    hide CfbByte, Cfb;
    var e := Cfb(ctx, st, false, s);
    CfbStep(ctx, st, false, s);
    CfbStep(ctx, st, true, e.bytes);
    if s != [] {
      var (o, next) := CfbByte(ctx, st, false, s[0]);
      CfbByteBack(ctx, st, s[0]);
      CfbBack(ctx, next, s[1..]);
      assert e.bytes[1..] == Cfb(ctx, next, false, s[1..]).bytes;
      assert [s[0]] + s[1..] == s;
    }
  }

  /** blowfish_crypt_cfb64, in place or not; n is the value behind iv_off. */
  method CryptCfb64(ctx: Context, decrypt: bool, length: nat, off: nat, iv: array<bv8>, input: array<bv8>,
                    output: array<bv8>)
    returns (n: nat)
    requires Valid(ctx) && off < 8 && iv.Length == 8 && iv != input && iv != output && length <= input.Length
    requires length <= output.Length
    modifies iv, output
    ensures Done(output[..length], Feedback(iv[..], n)) ==
            Cfb(ctx, Feedback(old(iv[..]), off), decrypt, old(input[..length]))
    ensures forall k :: length <= k < output.Length ==> output[k] == old(output[k])
  {
    hide CfbByte, Cfb;
    ghost var s := input[..length];
    ghost var all := Cfb(ctx, Feedback(iv[..], off), decrypt, s);
    n := off;
    var i := 0;
    assert s[0..] == s;
    while i < length
      invariant 0 <= i <= length && n < 8
      invariant var rest := Cfb(ctx, Feedback(iv[..], n), decrypt, s[i..]);
                all == Done(output[..i] + rest.bytes, rest.state)
      invariant forall k :: i <= k < input.Length ==> input[k] == old(input[k])
      invariant forall k :: i <= k < output.Length ==> output[k] == old(output[k])
    {
      ghost var done, st := output[..i], Feedback(iv[..], n);
      assert s[i..][0] == input[i] && s[i..][1..] == s[i + 1..];
      CfbStep(ctx, st, decrypt, s[i..]);
      var c := input[i];
      output[i], n := FeedByte(ctx, decrypt, n, iv, c);
      assert output[..i + 1] == done + [output[i]];
      Regroup(done, [output[i]], Cfb(ctx, Feedback(iv[..], n), decrypt, s[i + 1..]).bytes);
      i := i + 1;
    }
    CfbStep(ctx, Feedback(iv[..], n), decrypt, s[length..]);
    assert output[..length] + [] == output[..length];
  }

  /** One round of the loop. */
  method FeedByte(ctx: Context, decrypt: bool, n: nat, iv: array<bv8>, c: bv8) returns (o: bv8, n': nat)
    requires Valid(ctx) && n < 8 && iv.Length == 8
    modifies iv
    ensures (o, Feedback(iv[..], n')) == CfbByte(ctx, Feedback(old(iv[..]), n), decrypt, c)
  {
    hide Ecb, Xor8;
    if n == 0 {
      var b := CryptEcb(ctx, false, iv[..]);
      Store(iv, 0, b);
      assert iv[..] == b;
    }
    o := Xor8(c, iv[n]);
    iv[n] := if decrypt then c else o;
    n' := (n + 1) % 8;
  }

  // ----- counter mode: section 6.5 -----

  datatype Counter = Counter(counter: Block, stream: Block, n: nat)

  function Int8(b: bv8): (r: nat)
    ensures r < 256
  {
    b as int
  }

  function Succ8(b: bv8): bv8 {
    b + 1
  }

  lemma Succ8Value(b: bv8)
    ensures Int8(Succ8(b)) == if Int8(b) == 255 then 0 else Int8(b) + 1
    ensures Succ8(b) == 0 <==> Int8(b) == 255
  {}

  /** The number spelled by the first i bytes. */
  function Value(b: seq<bv8>, i: nat): nat
    requires i <= |b|
  {
    if i == 0 then 0 else Value(b, i - 1) * 256 + Int8(b[i - 1])
  }

  function Size(i: nat): (r: nat)
    ensures r > 0
  {
    if i == 0 then 1 else 256 * Size(i - 1)
  }

  /** The first i bytes with one added, the carry running to the left. */
  function Incremented(b: Block, i: nat): Block
    requires i <= 8
    decreases i
  {
    if i == 0 then b
    else
      var c := b[i - 1 := Succ8(b[i - 1])];
      if c[i - 1] != 0 then c else Incremented(c, i - 1)
  }

  lemma {:induction false} SameValue(b: seq<bv8>, c: seq<bv8>, i: nat)
    requires i <= |b| && i <= |c| && forall k :: 0 <= k < i ==> b[k] == c[k]
    ensures Value(b, i) == Value(c, i)
  {
    if i > 0 { SameValue(b, c, i - 1); }
  }

  lemma {:induction false} ValueBound(b: seq<bv8>, i: nat)
    requires i <= |b|
    ensures Value(b, i) < Size(i)
  {
    if i > 0 { ValueBound(b, i - 1); }
  }

  /** The carry wraps around at the width of the counter. */
  lemma {:induction false} IncrementValue(b: Block, i: nat)
    requires i <= 8
    ensures Value(Incremented(b, i), i) == (Value(b, i) + 1) % Size(i)
    ensures forall k :: i <= k < 8 ==> Incremented(b, i)[k] == b[k]
    decreases i
  {
    hide Int8, Succ8, Value, Size, Incremented;
    IncrementedStep(b, i);
    ValueStep(b, i);
    if i > 0 {
      var c := b[i - 1 := Succ8(b[i - 1])];
      Succ8Value(b[i - 1]);
      SameValue(b, c, i - 1);
      ValueBound(b, i - 1);
      ValueStep(c, i);
      Carry(Value(b, i - 1), Int8(b[i - 1]), Size(i - 1));
      if c[i - 1] == 0 {
        IncrementValue(c, i - 1);
        ValueStep(Incremented(c, i - 1), i);
      }
    }
  }

  lemma ValueStep(b: seq<bv8>, i: nat)
    requires i <= |b|
    ensures i == 0 ==> Value(b, i) == 0 && Size(i) == 1
    ensures i > 0 ==> Value(b, i) == Value(b, i - 1) * 256 + Int8(b[i - 1]) && Size(i) == 256 * Size(i - 1)
  {
    hide Int8;
  }

  lemma IncrementedStep(b: Block, i: nat)
    requires i <= 8
    ensures i == 0 ==> Incremented(b, i) == b
    ensures i > 0 ==> var c := b[i - 1 := Succ8(b[i - 1])];
                      Incremented(b, i) == if c[i - 1] != 0 then c else Incremented(c, i - 1)
  {
    hide Succ8;
  }

  lemma Carry(v: nat, d: nat, m: nat)
    requires v < m && d < 256
    ensures d < 255 ==> (v * 256 + d + 1) % (256 * m) == v * 256 + d + 1
    ensures d == 255 ==> (v * 256 + d + 1) % (256 * m) == (v + 1) % m * 256
  {
    var x := v * 256 + d + 1;
    if d < 255 || v + 1 < m {
      DivUnique(x, 256 * m, 0, x);
      DivUnique(v, m, 0, v);
      if v + 1 < m { DivUnique(v + 1, m, 0, v + 1); }
    } else {
      DivUnique(x, 256 * m, 1, 0);
      DivUnique(v + 1, m, 1, 0);
    }
  }

  function Advance(ctx: Context, st: Counter): (r: Counter)
    requires Valid(ctx)
  {
    if st.n == 0 then Counter(Incremented(st.counter, 8), Ecb(ctx, false, st.counter), 0) else st
  }

  function CtrByte(ctx: Context, st: Counter, c: bv8): (r: (bv8, Counter))
    requires Valid(ctx) && st.n < 8
    ensures r.1.n < 8
  {
    var a := Advance(ctx, st);
    (Xor8(c, a.stream[a.n]), Counter(a.counter, a.stream, (a.n + 1) % 8))
  }

  function Ctr(ctx: Context, st: Counter, s: seq<bv8>): (r: Done<Counter>)
    requires Valid(ctx) && st.n < 8
    ensures |r.bytes| == |s| && r.state.n < 8
    decreases |s|
  {
    if s == [] then Done([], st)
    else
      var (o, st') := CtrByte(ctx, st, s[0]);
      var rest := Ctr(ctx, st', s[1..]);
      Done([o] + rest.bytes, rest.state)
  }

  lemma {:induction false} CtrSplit(ctx: Context, st: Counter, a: seq<bv8>, b: seq<bv8>)
    requires Valid(ctx) && st.n < 8
    ensures var x := Ctr(ctx, st, a);
            var y := Ctr(ctx, x.state, b);
            Ctr(ctx, st, a + b) == Done(x.bytes + y.bytes, y.state)
    decreases |a|
  {
    hide CtrByte, Ctr;
    CtrStep(ctx, st, a);
    if a == [] {
      assert a + b == b;
      Nothing(Ctr(ctx, st, b).bytes);
    } else {
      var (o, next) := CtrByte(ctx, st, a[0]);
      var rest := Ctr(ctx, next, a[1..]);
      CtrStep(ctx, st, a + b);
      assert (a + b)[1..] == a[1..] + b;
      CtrSplit(ctx, next, a[1..], b);
      Regroup([o], rest.bytes, Ctr(ctx, rest.state, b).bytes);
    }
  }

  lemma CtrStep(ctx: Context, st: Counter, s: seq<bv8>)
    requires Valid(ctx) && st.n < 8
    ensures s == [] ==> Ctr(ctx, st, s) == Done([], st)
    ensures s != [] ==> var (o, next) := CtrByte(ctx, st, s[0]);
                        var rest := Ctr(ctx, next, s[1..]);
                        Ctr(ctx, st, s) == Done([o] + rest.bytes, rest.state)
  {
    hide CtrByte;
  }

  lemma CtrByteBack(ctx: Context, st: Counter, c: bv8)
    requires Valid(ctx) && st.n < 8
    ensures var (o, next) := CtrByte(ctx, st, c); CtrByte(ctx, st, o) == (c, next)
  {
    hide Advance, Xor8;
    var a := Advance(ctx, st);
    AdvanceKeeps(ctx, st);
    Xor8Back(c, a.stream[a.n]);
  }

  lemma AdvanceKeeps(ctx: Context, st: Counter)
    requires Valid(ctx)
    ensures Advance(ctx, st).n == st.n
  {}

  /** The same call again gives the input back. */
  lemma {:induction false} CtrBack(ctx: Context, st: Counter, s: seq<bv8>)
    requires Valid(ctx) && st.n < 8
    ensures var e := Ctr(ctx, st, s); Ctr(ctx, st, e.bytes) == Done(s, e.state)
    decreases |s|
  {
    hide CtrByte, Ctr;
    var e := Ctr(ctx, st, s);
    CtrStep(ctx, st, s);
    CtrStep(ctx, st, e.bytes);
    if s != [] {
      var (o, next) := CtrByte(ctx, st, s[0]);
      CtrByteBack(ctx, st, s[0]);
      CtrBack(ctx, next, s[1..]);
      assert e.bytes[1..] == Ctr(ctx, next, s[1..]).bytes;
      assert [s[0]] + s[1..] == s;
    }
  }

  /** The counter block k steps on. */
  function Plus(b: Block, k: nat): Block {
    if k == 0 then b else Incremented(Plus(b, k - 1), 8)
  }

  lemma {:induction false} PlusValue(b: Block, k: nat)
    ensures Value(Plus(b, k), 8) == (Value(b, 8) + k) % Size(8)
  {
    hide Incremented, Value, Size;
    ValueBound(b, 8);
    if k == 0 {
      DivUnique(Value(b, 8), Size(8), 0, Value(b, 8));
    } else {
      PlusValue(b, k - 1);
      IncrementValue(Plus(b, k - 1), 8);
      NextMod(Value(b, 8), k, Size(8), Value(Plus(b, k - 1), 8));
    }
  }

  lemma NextMod(v: nat, k: nat, m: nat, x: nat)
    requires m > 0 && k > 0 && x == (v + (k - 1)) % m
    ensures (x + 1) % m == (v + k) % m
  {
    AddMod(v + (k - 1), 1, m);
  }

  /** The counter is a big-endian number of 64 bits. */
  lemma CounterValue(b: Block)
    ensures Value(b, 4) == ((Int8(b[0]) * 256 + Int8(b[1])) * 256 + Int8(b[2])) * 256 + Int8(b[3])
    ensures Value(b, 8) ==
            (((Value(b, 4) * 256 + Int8(b[4])) * 256 + Int8(b[5])) * 256 + Int8(b[6])) * 256 + Int8(b[7])
  {
    hide Int8, Value, Size;
    ValueStep(b, 0);
    ValueStep(b, 1);
    ValueStep(b, 2);
    ValueStep(b, 3);
    ValueStep(b, 4);
    ValueStep(b, 5);
    ValueStep(b, 6);
    ValueStep(b, 7);
    ValueStep(b, 8);
  }

  lemma CounterWidth()
    ensures Size(8) == 0x1_0000_0000_0000_0000
  {}

  /** A counter taken up at the start of a block, after k more bytes. */
  function After(ctx: Context, st: Counter, k: nat): Counter
    requires Valid(ctx)
  {
    Counter(Plus(st.counter, (k + 7) / 8),
            if k == 0 then st.stream else Ecb(ctx, false, Plus(st.counter, (k - 1) / 8)),
            k % 8)
  }

  lemma AfterByte(ctx: Context, st: Counter, k: nat, c: bv8)
    requires Valid(ctx)
    ensures CtrByte(ctx, After(ctx, st, k), c) ==
            (Xor8(c, Ecb(ctx, false, Plus(st.counter, k / 8))[k % 8]), After(ctx, st, k + 1))
  {
    hide Ecb, Xor8, Incremented;
    if k % 8 == 0 {
      assert (k + 7) / 8 == k / 8 && (k + 8) / 8 == k / 8 + 1;
    } else {
      assert (k - 1) / 8 == k / 8 && (k + 8) / 8 == (k + 7) / 8;
    }
  }

  /** Byte k is combined with the encryption of the counter plus k / 8. */
  lemma {:induction false} KeyStream(ctx: Context, st: Counter, s: seq<bv8>)
    requires Valid(ctx) && st.n == 0
    ensures Ctr(ctx, st, s).state == After(ctx, st, |s|)
    ensures forall k :: 0 <= k < |s| ==>
              Ctr(ctx, st, s).bytes[k] == Xor8(s[k], Ecb(ctx, false, Plus(st.counter, k / 8))[k % 8])
    decreases |s|
  {
    hide CtrByte, Ctr, Ecb, Plus, Xor8, After;
    if s == [] {
      CtrStep(ctx, st, s);
      StartOfBlock(ctx, st);
    } else {
      var m := |s| - 1;
      KeyStream(ctx, st, s[..m]);
      AfterByte(ctx, st, m, s[m]);
      LastByte(ctx, st, s[..m], s[m]);
      assert s[..m] + [s[m]] == s;
    }
  }

  /** The last byte is produced from the state that the others leave. */
  lemma LastByte(ctx: Context, st: Counter, a: seq<bv8>, c: bv8)
    requires Valid(ctx) && st.n < 8
    ensures var x := Ctr(ctx, st, a);
            var (o, next) := CtrByte(ctx, x.state, c);
            Ctr(ctx, st, a + [c]) == Done(x.bytes + [o], next)
  {
    hide CtrByte, Ctr;
    CtrSplit(ctx, st, a, [c]);
    OneByte(ctx, Ctr(ctx, st, a).state, c);
  }

  lemma OneByte(ctx: Context, st: Counter, c: bv8)
    requires Valid(ctx) && st.n < 8
    ensures var (o, next) := CtrByte(ctx, st, c); Ctr(ctx, st, [c]) == Done([o], next)
  {
    hide CtrByte, Ctr;
    var (o, next) := CtrByte(ctx, st, c);
    CtrStep(ctx, st, [c]);
    CtrStep(ctx, next, []);
    assert [c][1..] == [];
    Nothing([o]);
  }

  lemma StartOfBlock(ctx: Context, st: Counter)
    requires Valid(ctx) && st.n == 0
    ensures After(ctx, st, 0) == st
  {
    hide Ecb;
  }

  /** blowfish_crypt_ctr, in place or not; n is the value behind nc_off. */
  method CryptCtr(ctx: Context, length: nat, off: nat, counter: array<bv8>, stream: array<bv8>, input: array<bv8>,
                  output: array<bv8>)
    returns (n: nat)
    requires Valid(ctx) && off < 8 && counter.Length == 8 && stream.Length == 8 && counter != stream
    requires counter != input && counter != output && stream != input && stream != output && length <= input.Length
    requires length <= output.Length
    modifies counter, stream, output
    ensures Done(output[..length], Counter(counter[..], stream[..], n)) ==
            Ctr(ctx, Counter(old(counter[..]), old(stream[..]), off), old(input[..length]))
    ensures forall k :: length <= k < output.Length ==> output[k] == old(output[k])
  {
    hide CtrByte, Ctr;
    ghost var s := input[..length];
    ghost var all := Ctr(ctx, Counter(counter[..], stream[..], off), s);
    n := off;
    var i := 0;
    assert s[0..] == s;
    while i < length
      invariant 0 <= i <= length && n < 8
      invariant var rest := Ctr(ctx, Counter(counter[..], stream[..], n), s[i..]);
                all == Done(output[..i] + rest.bytes, rest.state)
      invariant forall k :: i <= k < input.Length ==> input[k] == old(input[k])
      invariant forall k :: i <= k < output.Length ==> output[k] == old(output[k])
    {
      ghost var done := output[..i];
      assert s[i..][0] == input[i] && s[i..][1..] == s[i + 1..];
      CtrStep(ctx, Counter(counter[..], stream[..], n), s[i..]);
      var c := input[i];
      output[i], n := CountByte(ctx, n, counter, stream, c);
      assert output[..i + 1] == done + [output[i]];
      Regroup(done, [output[i]], Ctr(ctx, Counter(counter[..], stream[..], n), s[i + 1..]).bytes);
      i := i + 1;
    }
    CtrStep(ctx, Counter(counter[..], stream[..], n), s[length..]);
    assert output[..length] + [] == output[..length];
  }

  /** One round of the loop. */
  method CountByte(ctx: Context, n: nat, counter: array<bv8>, stream: array<bv8>, c: bv8) returns (o: bv8, n': nat)
    requires Valid(ctx) && n < 8 && counter.Length == 8 && stream.Length == 8 && counter != stream
    modifies counter, stream
    ensures (o, Counter(counter[..], stream[..], n')) == CtrByte(ctx, Counter(old(counter[..]), old(stream[..]), n), c)
  {
    hide Ecb, Xor8, Incremented;
    if n == 0 {
      var b := CryptEcb(ctx, false, counter[..]);
      Store(stream, 0, b);
      assert stream[..] == b;
      Step(counter);
    }
    o := Xor8(c, stream[n]);
    n' := (n + 1) % 8;
  }

  /** Adds one to the counter: bytes are incremented from the right until one does not wrap. */
  method Step(counter: array<bv8>)
    requires counter.Length == 8
    modifies counter
    ensures counter[..] == Incremented(old(counter[..]), 8)
  {
    hide Succ8;
    var i := 8;
    while i > 0
      invariant 0 <= i <= 8 && Incremented(counter[..], i) == Incremented(old(counter[..]), 8)
    {
      ghost var was := counter[..];
      counter[i - 1] := Succ8(counter[i - 1]);
      assert counter[..] == was[i - 1 := Succ8(was[i - 1])];
      if counter[i - 1] != 0 { return; }
      i := i - 1;
    }
  }
}
