/** CppSQLite3Binary: one buffer that holds a blob either as raw bytes or as quote-free text. */
module BinaryHolder {
  import opened Octets
  import opened Text
  import opened QuoteFree

  class Binary {
    var buf: array?<Byte>
    var binaryLen: int
    var bufferLen: nat
    var encodedLen: nat
    var encoded: bool

    /** The holder stands for the blob b, and there is room to turn it into text. */
    ghost predicate Holds(b: seq<Byte>)
      reads this, buf
    {
      && buf != null && bufferLen == buf.Length && Fits(b, bufferLen)
      && if encoded
         then Ends(buf[..], encodedLen) && Decode(buf[1..encodedLen], buf[0]) == Decoded(b, true)
         else 0 <= binaryLen <= bufferLen && buf[..binaryLen] == b
    }

    constructor ()
      ensures buf == null && binaryLen == 0 && bufferLen == 0 && encodedLen == 0 && !encoded
    {
      buf := null;
      binaryLen, bufferLen, encodedLen, encoded := 0, 0, 0, false;
    }

    /** clear: the encoding flag stays as it is. */
    method Clear()
      modifies this
      ensures buf == null && encoded == old(encoded) && encodedLen == old(encodedLen)
      ensures if old(buf) == null then binaryLen == old(binaryLen) && bufferLen == old(bufferLen)
              else binaryLen == 0 && bufferLen == 0
    {
      if buf != null {
        binaryLen := 0;
        bufferLen := 0;
        buf := null;
      }
    }

    /** allocBuffer: whatever the caller stores in the first n bytes is the blob. */
    method AllocBuffer(n: nat) returns (r: array<Byte>)
      modifies this
      ensures fresh(r) && buf == r && r.Length == 3 + (257 * n) / 254
      ensures binaryLen == n <= r.Length && bufferLen == r.Length && !encoded
      ensures forall b :: |b| == n ==> Fits(b, bufferLen)
    {
      Clear();
      binaryLen := n;
      bufferLen := 3 + (257 * n) / 254;
      r := new Byte[bufferLen];
      buf := r;
      encoded := false;
      forall b: seq<Byte> | |b| == n ensures Fits(b, bufferLen) { DocumentedSize(b, bufferLen); }
    }

    /** setBinary */
    method SetBinary(src: array<Byte>, n: nat)
      requires n <= src.Length && src != buf
      modifies this
      ensures fresh(buf) && !encoded && Holds(src[..n])
    {
      var r := AllocBuffer(n);
      CopyBytes(src, r, n);
    }

    /** setEncoded, on the text in front of src[z]. */
    method SetEncoded(src: array<Byte>, z: nat)
      requires z < src.Length && src[z] == 0 && NulFree(src[..z]) && src != buf
      modifies this
      ensures fresh(buf) && encoded && encodedLen == z && bufferLen == buf.Length == z + 1
      ensures buf[..] == src[..z + 1]
      ensures z > 0 && Decode(src[1..z], src[0]).ok ==>
                (Holds(Decode(src[1..z], src[0]).bytes) <==> Reencodable(src[..z]))
      ensures z > 0 && Printable(src[..z]) && Decode(src[1..z], src[0]).ok ==>
                Holds(Decode(src[1..z], src[0]).bytes)
    {
      Clear();
      encodedLen := z;
      bufferLen := encodedLen + 1;
      var r := new Byte[bufferLen];
      buf := r;
      CopyBytes(src, r, bufferLen);
      encoded := true;
      hide Decode;
      if z > 0 && Decode(src[1..z], src[0]).ok {
        assert src[..z][1..] == src[1..z] == r[1..z];
        ReencodingIff(src[..z]);
        if Printable(src[..z]) { ReencodingFits(src[..z]); }
      }
    }

    /** getEncoded */
    method GetEncoded() returns (r: array<Byte>)
      requires buf != null
      requires !encoded ==> 0 <= binaryLen <= buf.Length == bufferLen && Fits(buf[..binaryLen], bufferLen)
      modifies this, buf
      ensures buf == old(buf) == r && encoded
      ensures bufferLen == old(bufferLen) && binaryLen == old(binaryLen)
      ensures if old(encoded) then encodedLen == old(encodedLen) && r[..] == old(r[..])
              else encodedLen < r.Length && r[encodedLen] == 0 && Encodes(r[..encodedLen], old(r[..binaryLen]))
      ensures forall b :: old(Holds(b)) ==> Holds(b)
    {
      if !encoded {
        ghost var b := buf[..binaryLen];
        var tmp := new Byte[binaryLen];
        CopyBytes(buf, tmp, binaryLen);
        encodedLen := Encode(tmp, binaryLen, buf);
        encoded := true;
        EncodedText(buf[..], encodedLen, b);
      }
      r := buf;
    }

    /** getBinary; ok is false where the source throws. */
    method GetBinary() returns (ok: bool, r: array<Byte>)
      requires buf != null
      requires encoded ==> Terminated(buf[..])
      modifies this, buf
      ensures buf == old(buf) == r && bufferLen == old(bufferLen) && encodedLen == old(encodedLen)
      ensures !old(encoded) ==> ok && !encoded && binaryLen == old(binaryLen) && r[..] == old(r[..])
      ensures forall z: nat :: old(encoded) && old(Ends(buf[..], z)) ==>
                var d := old(Decode(buf[1..z], buf[0]));
                && ok == d.ok && encoded == !d.ok && binaryLen == (if d.ok then |d.bytes| else -1)
                && |d.bytes| <= r.Length && r[..|d.bytes|] == d.bytes
                && forall k :: |d.bytes| <= k < r.Length ==> r[k] == old(r[k])
      ensures encoded ==> Terminated(r[..])
      ensures forall b :: old(Holds(b)) ==> ok && Holds(b) && 0 <= binaryLen <= r.Length && r[..binaryLen] == b
    {
      if encoded {
        ghost var z: nat :| Ends(buf[..], z);
        forall y: nat | Ends(buf[..], y) ensures y == z { OneEnd(buf[..], y, z); }
        DecodedLength(buf[1..z], buf[0]);
        binaryLen := DecodeInto(buf, buf, z);
        if binaryLen == -1 {
          SomeEnd(buf[..], z);
          return false, buf;
        }
        encoded := false;
      }
      return true, buf;
    }

    /** getBinaryLength */
    method GetBinaryLength() returns (ok: bool, n: int)
      requires buf != null
      requires encoded ==> Terminated(buf[..])
      modifies this, buf
      ensures buf == old(buf) && bufferLen == old(bufferLen) && encodedLen == old(encodedLen)
      ensures ok == !encoded && n == binaryLen && (encoded ==> Terminated(buf[..]))
      ensures forall b :: old(Holds(b)) ==> ok && Holds(b) && n == |b|
    {
      var r;
      ok, r := GetBinary();
      n := binaryLen;
    }
  }

  /** memcpy */
  method CopyBytes(src: array<Byte>, dst: array<Byte>, n: nat)
    requires n <= src.Length && n <= dst.Length && src != dst
    modifies dst
    ensures dst[..n] == src[..n]
    ensures forall k :: n <= k < dst.Length ==> dst[k] == old(dst[k])
  {
    forall k | 0 <= k < n { dst[k] := src[k]; }
  }

  lemma EncodedText(s: seq<Byte>, z: nat, b: seq<Byte>)
    requires z < |s| && s[z] == 0 && Encodes(s[..z], b)
    ensures Ends(s, z) && Decode(s[1..z], s[0]) == Decoded(b, true)
  {
    EncodedPrintable(s[..z], b);
    RoundTrip(s[..z], b);
    assert s[..z][1..] == s[1..z];
  }

  datatype Call = AsText | Blob | Length

  /** What a caller sees behind the pointer, or as the length, that a call returns. */
  datatype Seen = SeenText(text: seq<Byte>) | SeenBlob(blob: seq<Byte>) | SeenLength(n: int)

  /** The answer to a call on a holder of b. */
  ghost predicate Answers(c: Call, seen: Seen, b: seq<Byte>) {
    match c
    case AsText =>
      && seen.SeenText? && |seen.text| > 0 && NulFree(seen.text[1..])
      && Decode(seen.text[1..], seen.text[0]) == Decoded(b, true)
    case Blob => seen == SeenBlob(b)
    case Length => seen == SeenLength(|b|)
  }

  method Answer(h: Binary, c: Call, ghost b: seq<Byte>) returns (seen: Seen)
    requires h.Holds(b)
    modifies h, h.buf
    ensures h.Holds(b) && h.buf == old(h.buf) && Answers(c, seen, b)
  {
    hide Decode, Fits;
    match c
    case AsText =>
      var r := h.GetEncoded();
      assert r[..h.encodedLen][1..] == r[1..h.encodedLen];
      seen := SeenText(r[..h.encodedLen]);
    case Blob =>
      var _, r := h.GetBinary();
      seen := SeenBlob(r[..h.binaryLen]);
    case Length =>
      var _, n := h.GetBinaryLength();
      seen := SeenLength(n);
  }

  /** Any calls in any order keep answering for the same blob in the same buffer. */
  method Run(h: Binary, calls: seq<Call>, ghost b: seq<Byte>) returns (seen: seq<Seen>)
    requires h.Holds(b)
    modifies h, h.buf
    ensures h.Holds(b) && h.buf == old(h.buf) && |seen| == |calls|
    ensures forall k :: 0 <= k < |calls| ==> Answers(calls[k], seen[k], b)
  {
    hide Answers, Decode, Fits;
    seen := [];
    for i := 0 to |calls|
      invariant h.Holds(b) && h.buf == old(h.buf) && |seen| == i
      invariant forall k :: 0 <= k < i ==> Answers(calls[k], seen[k], b)
    {
      var one := Answer(h, calls[i], b);
      seen := seen + [one];
    }
  }

  /** From setBinary on: every later call answers for the bytes that were set. */
  method SetThenRun(h: Binary, src: array<Byte>, n: nat, calls: seq<Call>) returns (seen: seq<Seen>)
    requires n <= src.Length && src != h.buf
    modifies h
    ensures |seen| == |calls| && forall k :: 0 <= k < |calls| ==> Answers(calls[k], seen[k], src[..n])
  {
    h.SetBinary(src, n);
    seen := Run(h, calls, src[..n]);
  }

  /** From setEncoded on, for text that decodes and whose quotes some offset makes up for. */
  method SetEncodedThenRun(h: Binary, src: array<Byte>, z: nat, calls: seq<Call>) returns (seen: seq<Seen>)
    requires 0 < z < src.Length && src[z] == 0 && NulFree(src[..z]) && src != h.buf
    requires Decode(src[1..z], src[0]).ok && Reencodable(src[..z])
    modifies h
    ensures |seen| == |calls|
    ensures forall k :: 0 <= k < |calls| ==> Answers(calls[k], seen[k], Decode(src[1..z], src[0]).bytes)
  {
    hide Decode, Answers, Reencodable;
    h.SetEncoded(src, z);
    seen := Run(h, calls, Decode(src[1..z], src[0]).bytes);
  }
}
