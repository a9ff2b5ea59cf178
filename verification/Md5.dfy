// The MD5 context: messages are taken in pieces of any size, then closed into a digest.

module Md5 {
  import opened Words
  import opened Md5Steps
  import opened Md5Spec
  import Chains

  const S11: nat := 7
  const S12: nat := 12
  const S13: nat := 17
  const S14: nat := 22
  const S21: nat := 5
  const S22: nat := 9
  const S23: nat := 14
  const S24: nat := 20
  const S31: nat := 4
  const S32: nat := 11
  const S33: nat := 16
  const S34: nat := 23
  const S41: nat := 6
  const S42: nat := 10
  const S43: nat := 15
  const S44: nat := 21

  class MD5 {
    const state: array<Word>
    const count: array<Word>
    const buffer: array<Byte>
    const digest: array<Byte>
    var finalized: bool
    ghost var message: seq<Byte>

    ghost predicate Shape() {
      && state.Length == 4 && count.Length == 2 && buffer.Length == 64 && digest.Length == 16
      && state != count && buffer != digest
    }

    // Everything taken in so far is in the state, the counts and the buffer; once finalized, the
    // digest is that of the message.
    ghost predicate Valid()
      reads this, state, count, buffer, digest
    {
      && Shape()
      && if finalized then digest[..] == Digest(message) else Absorbed(message, state[..], count[..], buffer[..])
    }

    lemma DigestIs()
      requires Valid() && finalized
      ensures digest[..] == Digest(message)
    {
    }

    constructor ()
      ensures Valid() && !finalized && message == []
      ensures fresh(state) && fresh(count) && fresh(buffer) && fresh(digest)
    {
      state, count := new Word[4], new Word[2];
      buffer, digest := new Byte[64], new Byte[16];
      finalized, message := false, [];
      new;
      count[0], count[1] := 0, 0;
      state[0], state[1], state[2], state[3] := 0x67452301, 0xefcdab89, 0x98badcfe, 0x10325476;
      assert state[..] == INITIAL && count[..] == [0, 0];
      hide Digest, BitCount, Fold;
      NothingAbsorbed(buffer[..]);
    }

    // ---------- bytes and words ----------

    static method Memcpy(output: array<Byte>, at: nat, input: array<Byte>, from: nat, len: nat)
      requires output != input && at + len <= output.Length && from + len <= input.Length
      modifies output
      ensures output[..] == old(output[..at]) + input[from..from + len] + old(output[at + len..])
    {
      var i := 0;
      while i < len
        invariant i <= len
        invariant forall k :: 0 <= k < output.Length ==>
                    output[k] == if at <= k < at + i then input[from + k - at] else old(output[k])
      {
        output[at + i] := input[from + i];
        i := i + 1;
      }
    }

    static method Memset(output: array<Byte>, value: Byte, len: nat)
      requires len <= output.Length
      modifies output
      ensures output[..] == seq(len, i => value) + old(output[len..])
    {
      var i := 0;
      while i < len
        invariant i <= len
        invariant forall k :: 0 <= k < output.Length ==> output[k] == if k < i then value else old(output[k])
      {
        output[i] := value;
        i := i + 1;
      }
    }

    static method Encode(output: array<Byte>, input: array<Word>, len: nat)
      requires len % 4 == 0 && len <= output.Length && len <= 4 * input.Length
      modifies output
      ensures output[..] == BytesOf(input[..len / 4]) + old(output[len..])
    {
      hide And, Shr, ByteOf;
      var i, j := 0, 0;
      while j < len
        invariant j == 4 * i && j <= len
        invariant forall k :: 0 <= k < output.Length ==>
                    output[k] == if k < j then ByteOf(input[k / 4], k % 4) else old(output[k])
      {
        EncodedBytes(input[i]);
        output[j] := And(input[i], 0xff);
        output[j + 1] := And(Shr(input[i], 8), 0xff);
        output[j + 2] := And(Shr(input[i], 16), 0xff);
        output[j + 3] := And(Shr(input[i], 24), 0xff);
        i, j := i + 1, j + 4;
      }
    }

    // Words read from a place in an array of bytes
    static method Decode(output: array<Word>, input: array<Byte>, from: nat, len: nat)
      requires len % 4 == 0 && len == 4 * output.Length && from + len <= input.Length
      modifies output
      ensures output[..] == WordsOf(input[from..from + len])
    {
      hide Or, Shl, WordOf;
      var i, j := 0, 0;
      while j < len
        invariant j == 4 * i && j <= len
        invariant forall k :: 0 <= k < i ==> output[k] == WordOf(input[from + 4 * k..from + 4 * k + 4])
      {
        ghost var b := input[from + j..from + j + 4];
        DecodedWord(b);
        output[i] := Or(Or(Or(input[from + j], Shl(input[from + j + 1], 8)), Shl(input[from + j + 2], 16)), Shl(input[from + j + 3], 24));
        i, j := i + 1, j + 4;
      }
      WordsIn(input[..], from, len, output[..]);
      assert input[..][from..from + len] == input[from..from + len];
    }

    static lemma WordsIn(s: seq<Byte>, from: nat, len: nat, w: seq<Word>)
      requires len % 4 == 0 && from + len <= |s| && len == 4 * |w|
      requires forall k :: 0 <= k < |w| ==> w[k] == WordOf(s[from + 4 * k..from + 4 * k + 4])
      ensures w == WordsOf(s[from..from + len])
    {
      hide WordOf;
      forall k | 0 <= k < |w| ensures s[from..from + len][4 * k..4 * k + 4] == s[from + 4 * k..from + 4 * k + 4] {
        SliceOfSlice(s, from, len, 4 * k, 4 * k + 4);
      }
    }

    static lemma SliceOfSlice(s: seq<Byte>, from: nat, len: nat, i: nat, j: nat)
      requires i <= j <= len && from + len <= |s|
      ensures s[from..from + len][i..j] == s[from + i..from + j]
    {
      var u := s[from..from + len];
      assert forall k :: i <= k < j ==> u[k] == s[from + k];
    }

    // ---------- one block ----------

    static method Round1(ghost start: Registers, r: Registers, x: array<Word>) returns (a: Word, b: Word, c: Word, d: Word)
      requires x.Length == 16 && r == Steps(0, start, x[..])
      ensures Registers(a, b, c, d) == Steps(16, start, x[..])
    {
      hide Plus, RotateLeft, F, G, H, I, Steps;
      a, b, c, d := r.a, r.b, r.c, r.d;
      FourSteps(0, start, x[..]);
      a := FF(a, b, c, d, x[0], S11, 0xd76aa478);
      d := FF(d, a, b, c, x[1], S12, 0xe8c7b756);
      c := FF(c, d, a, b, x[2], S13, 0x242070db);
      b := FF(b, c, d, a, x[3], S14, 0xc1bdceee);
      FourSteps(4, start, x[..]);
      a := FF(a, b, c, d, x[4], S11, 0xf57c0faf);
      d := FF(d, a, b, c, x[5], S12, 0x4787c62a);
      c := FF(c, d, a, b, x[6], S13, 0xa8304613);
      b := FF(b, c, d, a, x[7], S14, 0xfd469501);
      FourSteps(8, start, x[..]);
      a := FF(a, b, c, d, x[8], S11, 0x698098d8);
      d := FF(d, a, b, c, x[9], S12, 0x8b44f7af);
      c := FF(c, d, a, b, x[10], S13, 0xffff5bb1);
      b := FF(b, c, d, a, x[11], S14, 0x895cd7be);
      FourSteps(12, start, x[..]);
      a := FF(a, b, c, d, x[12], S11, 0x6b901122);
      d := FF(d, a, b, c, x[13], S12, 0xfd987193);
      c := FF(c, d, a, b, x[14], S13, 0xa679438e);
      b := FF(b, c, d, a, x[15], S14, 0x49b40821);
    }

    static method Round2(ghost start: Registers, r: Registers, x: array<Word>) returns (a: Word, b: Word, c: Word, d: Word)
      requires x.Length == 16 && r == Steps(16, start, x[..])
      ensures Registers(a, b, c, d) == Steps(32, start, x[..])
    {
      hide Plus, RotateLeft, F, G, H, I, Steps;
      a, b, c, d := r.a, r.b, r.c, r.d;
      FourSteps(16, start, x[..]);
      a := GG(a, b, c, d, x[1], S21, 0xf61e2562);
      d := GG(d, a, b, c, x[6], S22, 0xc040b340);
      c := GG(c, d, a, b, x[11], S23, 0x265e5a51);
      b := GG(b, c, d, a, x[0], S24, 0xe9b6c7aa);
      FourSteps(20, start, x[..]);
      a := GG(a, b, c, d, x[5], S21, 0xd62f105d);
      d := GG(d, a, b, c, x[10], S22, 0x2441453);
      c := GG(c, d, a, b, x[15], S23, 0xd8a1e681);
      b := GG(b, c, d, a, x[4], S24, 0xe7d3fbc8);
      FourSteps(24, start, x[..]);
      a := GG(a, b, c, d, x[9], S21, 0x21e1cde6);
      d := GG(d, a, b, c, x[14], S22, 0xc33707d6);
      c := GG(c, d, a, b, x[3], S23, 0xf4d50d87);
      b := GG(b, c, d, a, x[8], S24, 0x455a14ed);
      FourSteps(28, start, x[..]);
      a := GG(a, b, c, d, x[13], S21, 0xa9e3e905);
      d := GG(d, a, b, c, x[2], S22, 0xfcefa3f8);
      c := GG(c, d, a, b, x[7], S23, 0x676f02d9);
      b := GG(b, c, d, a, x[12], S24, 0x8d2a4c8a);
    }

    static method Round3(ghost start: Registers, r: Registers, x: array<Word>) returns (a: Word, b: Word, c: Word, d: Word)
      requires x.Length == 16 && r == Steps(32, start, x[..])
      ensures Registers(a, b, c, d) == Steps(48, start, x[..])
    {
      hide Plus, RotateLeft, F, G, H, I, Steps;
      a, b, c, d := r.a, r.b, r.c, r.d;
      FourSteps(32, start, x[..]);
      a := HH(a, b, c, d, x[5], S31, 0xfffa3942);
      d := HH(d, a, b, c, x[8], S32, 0x8771f681);
      c := HH(c, d, a, b, x[11], S33, 0x6d9d6122);
      b := HH(b, c, d, a, x[14], S34, 0xfde5380c);
      FourSteps(36, start, x[..]);
      a := HH(a, b, c, d, x[1], S31, 0xa4beea44);
      d := HH(d, a, b, c, x[4], S32, 0x4bdecfa9);
      c := HH(c, d, a, b, x[7], S33, 0xf6bb4b60);
      b := HH(b, c, d, a, x[10], S34, 0xbebfbc70);
      FourSteps(40, start, x[..]);
      a := HH(a, b, c, d, x[13], S31, 0x289b7ec6);
      d := HH(d, a, b, c, x[0], S32, 0xeaa127fa);
      c := HH(c, d, a, b, x[3], S33, 0xd4ef3085);
      b := HH(b, c, d, a, x[6], S34, 0x4881d05);
      FourSteps(44, start, x[..]);
      a := HH(a, b, c, d, x[9], S31, 0xd9d4d039);
      d := HH(d, a, b, c, x[12], S32, 0xe6db99e5);
      c := HH(c, d, a, b, x[15], S33, 0x1fa27cf8);
      b := HH(b, c, d, a, x[2], S34, 0xc4ac5665);
    }

    static method Round4(ghost start: Registers, r: Registers, x: array<Word>) returns (a: Word, b: Word, c: Word, d: Word)
      requires x.Length == 16 && r == Steps(48, start, x[..])
      ensures Registers(a, b, c, d) == Steps(64, start, x[..])
    {
      hide Plus, RotateLeft, F, G, H, I, Steps;
      a, b, c, d := r.a, r.b, r.c, r.d;
      FourSteps(48, start, x[..]);
      a := II(a, b, c, d, x[0], S41, 0xf4292244);
      d := II(d, a, b, c, x[7], S42, 0x432aff97);
      c := II(c, d, a, b, x[14], S43, 0xab9423a7);
      b := II(b, c, d, a, x[5], S44, 0xfc93a039);
      FourSteps(52, start, x[..]);
      a := II(a, b, c, d, x[12], S41, 0x655b59c3);
      d := II(d, a, b, c, x[3], S42, 0x8f0ccc92);
      c := II(c, d, a, b, x[10], S43, 0xffeff47d);
      b := II(b, c, d, a, x[1], S44, 0x85845dd1);
      FourSteps(56, start, x[..]);
      a := II(a, b, c, d, x[8], S41, 0x6fa87e4f);
      d := II(d, a, b, c, x[15], S42, 0xfe2ce6e0);
      c := II(c, d, a, b, x[6], S43, 0xa3014314);
      b := II(b, c, d, a, x[13], S44, 0x4e0811a1);
      FourSteps(60, start, x[..]);
      a := II(a, b, c, d, x[4], S41, 0xf7537e82);
      d := II(d, a, b, c, x[11], S42, 0xbd3af235);
      c := II(c, d, a, b, x[2], S43, 0x2ad7d2bb);
      b := II(b, c, d, a, x[9], S44, 0xeb86d391);
    }

    method Transform(block: array<Byte>, from: nat)
      requires Shape() && !finalized && from + 64 <= block.Length
      modifies state
      ensures state[..] == Compress(old(state[..]), block[from..from + 64])
    {
      hide Compress, Steps, WordsOf, Plus;
      ghost var was := state[..];
      ghost var start := Registers(state[0], state[1], state[2], state[3]);
      var x := new Word[16];
      Decode(x, block, from, 64);
      NoSteps(start, x[..]);
      var a, b, c, d := Round1(start, Registers(state[0], state[1], state[2], state[3]), x);
      a, b, c, d := Round2(start, Registers(a, b, c, d), x);
      a, b, c, d := Round3(start, Registers(a, b, c, d), x);
      a, b, c, d := Round4(start, Registers(a, b, c, d), x);
      state[0] := Plus(state[0], a);
      state[1] := Plus(state[1], b);
      state[2] := Plus(state[2], c);
      state[3] := Plus(state[3], d);
      CompressIs(was, block[from..from + 64]);
      assert state[..] == [Plus(was[0], a), Plus(was[1], b), Plus(was[2], c), Plus(was[3], d)];
    }

    // ---------- the interface ----------

    // The number of bits, with a carry from the low word to the high one
    method AddToCount(length: Word, ghost n: nat)
      requires Shape() && count[..] == BitCount(n)
      modifies count
      ensures count[..] == BitCount(n + length)
    {
      hide Plus, Shl, Shr, BitCount;
      CountAdded(n, length);
      count[0] := Plus(count[0], Shl(length, 3));
      if count[0] < Shl(length, 3) { count[1] := Plus(count[1], 1); }
      count[1] := Plus(count[1], Shr(length, 29));
    }

    // Fills the rest of the buffer and transforms it.
    method FillAndTransform(input: array<Byte>, bufferIndex: nat, ghost m: seq<Byte>)
      requires Shape() && !finalized && input != buffer && bufferIndex == |m| % 64 && 64 - bufferIndex <= input.Length
      requires state[..] == Fold(Whole(m)) && buffer[..bufferIndex] == Remainder(m)
      modifies state, buffer
      ensures |m + input[..64 - bufferIndex]| % 64 == 0 && state[..] == Fold(m + input[..64 - bufferIndex])
    {
      hide Fold, Whole, Remainder, Compress;
      ghost var whole, rest := Whole(m), Remainder(m);
      WholeAndRemainder(m);
      Memcpy(buffer, bufferIndex, input, 0, 64 - bufferIndex);
      ghost var block := rest + input[..64 - bufferIndex];
      assert buffer[0..64] == block;
      FoldMore(whole, block);
      Transform(buffer, 0);
      assert whole + block == m + input[..64 - bufferIndex];
    }

    // Transforms each whole block of the input, past the buffer.
    method TransformBlocks(input: array<Byte>, start: nat, length: nat, ghost m: seq<Byte>) returns (inputIndex: nat)
      requires Shape() && !finalized && start <= length <= input.Length
      requires length < 0x1_0000_0000 && LastIndex(start, length) + 63 < 0x1_0000_0000
      requires |m + input[..start]| % 64 == 0 && state[..] == Fold(m + input[..start])
      modifies state
      ensures start <= inputIndex <= length < inputIndex + 64
      ensures |m + input[..inputIndex]| % 64 == 0 && state[..] == Fold(m + input[..inputIndex])
    {
      hide Fold, Compress, LastIndex, Plus;
      ghost var s := input[..];
      assert s[..start] == input[..start];
      inputIndex := start;
      StopsAt(start, length, inputIndex);
      while Plus(inputIndex, 63) < length
        invariant start <= inputIndex <= length && (inputIndex - start) % 64 == 0
        invariant inputIndex + 63 < 0x1_0000_0000 && Plus(inputIndex, 63) == inputIndex + 63
        invariant |m + s[..inputIndex]| % 64 == 0 && state[..] == Fold(m + s[..inputIndex])
        decreases length - inputIndex
      {
        FoldInput(m, s, inputIndex);
        assert s[inputIndex..inputIndex + 64] == input[inputIndex..inputIndex + 64];
        Transform(input, inputIndex);
        inputIndex := inputIndex + 64;
        StopsAt(start, length, inputIndex);
      }
      assert s[..inputIndex] == input[..inputIndex];
    }

    // Takes in a piece of the message; a finalized context is left as it is.
    method Update(input: array<Byte>, length: Word)
      requires Valid() && input != buffer && length <= input.Length && (finalized || IndexFits(|message| % 64, length))
      modifies `message, state, count, buffer
      ensures Valid()
      ensures finalized ==> message == old(message) && unchanged(state) && unchanged(count) && unchanged(buffer)
      ensures !finalized ==> message == old(message) + input[..length]
    {
      hide Fold, Whole, Remainder, BitCount, Compress, And, Shr, Shl, Plus;
      if finalized { return; }
      ghost var m := message;
      BufferIndex(|m|);
      var bufferIndex: nat := And(Shr(count[0], 3), 0x3F);
      AddToCount(length, |m|);
      var bufferSpace := 64 - bufferIndex;
      var inputIndex := 0;
      ghost var whole, rest := Whole(m), Remainder(m);
      WholeAndRemainder(m);
      if length >= bufferSpace {
        FillAndTransform(input, bufferIndex, m);
        inputIndex := TransformBlocks(input, bufferSpace, length, m);
        whole := m + input[..inputIndex];
        bufferIndex := 0;
        rest := [];
      }
      assert buffer[..bufferIndex] == rest;
      Memcpy(buffer, bufferIndex, input, inputIndex, length - inputIndex);
      message := m + input[..length];
      rest := rest + input[inputIndex..length];
      assert buffer[..|rest|] == rest;
      assert message == whole + rest;
      SplitIs(message, whole, rest);
    }

    // Pads the message, closes it with its length, and writes the digest.
    method Finalize()
      requires Valid()
      modifies `finalized, `message, state, count, buffer, digest
      ensures Valid() && finalized && message == old(message)
      ensures old(finalized) ==> unchanged(digest)
    {
      hide Fold, Whole, Remainder, BitCount, Compress, And, Shr, Pad, BytesOf;
      if finalized { return; }
      ghost var m := message;
      var bits := new Byte[8];
      Encode(bits, count, 8);
      assert bits[..] == BytesOf(BitCount(|m|)) by { assert count[..8 / 4] == count[..]; }
      BufferIndex(|m|);
      var index := And(Shr(count[0], 3), 0x3f);
      var padLen := if index < 56 then 56 - index else 120 - index;
      var padding := new Byte[64](i => if i == 0 then 0x80 else 0);
      assert padding[..padLen] == Pad(|m|) by { PadBytes(|m|); }
      Update(padding, padLen);
      Update(bits, 8);
      assert message == Padded(m) by { assert bits[..8] == bits[..]; }
      WholeIs(message);
      Encode(digest, state, 16);
      assert state[..16 / 4] == state[..];
      Memset(buffer, 0, 1);
      finalized, message := true, m;
    }
  }

  // The constructor for a file: the digest of what is read does not depend on where the pieces
  // divide it.  The pieces, of at most 1024 bytes each, are given.
  method DigestFile(pieces: seq<seq<Byte>>) returns (d: seq<Byte>)
    requires forall r :: r in pieces ==> |r| <= 1024
    ensures d == Digest(Chains.Flatten(pieces))
  {
    hide Digest, Absorbed, Chains.Flatten, IndexFits, MD5.Valid;
    var context := new MD5();
    var buffer := new Byte[1024];
    var i := 0;
    assert [] + Chains.Flatten(pieces) == Chains.Flatten(pieces) && pieces[0..] == pieces;
    while i < |pieces|
      invariant i <= |pieces| && context.Valid() && !context.finalized
      invariant fresh(context) && fresh(context.state) && fresh(context.count) && fresh(context.buffer) && fresh(context.digest)
      invariant buffer != context.buffer && buffer != context.digest
      invariant context.message + Chains.Flatten(pieces[i..]) == Chains.Flatten(pieces)
    {
      var len := |pieces[i]|;
      forall k | 0 <= k < len { buffer[k] := pieces[i][k]; }
      assert buffer[..len] == pieces[i];
      UsuallyFits(|context.message| % 64, len);
      NextPiece(context.message, pieces, i);
      context.Update(buffer, len);
      i := i + 1;
    }
    LastPiece(context.message, pieces);
    context.Finalize();
    context.DigestIs();
    d := context.digest[..];
  }

  lemma NextPiece(message: seq<Byte>, pieces: seq<seq<Byte>>, i: nat)
    requires i < |pieces|
    ensures message + Chains.Flatten(pieces[i..]) == message + pieces[i] + Chains.Flatten(pieces[i + 1..])
  {
    assert pieces[i..][0] == pieces[i] && pieces[i..][1..] == pieces[i + 1..];
  }

  lemma LastPiece(message: seq<Byte>, pieces: seq<seq<Byte>>)
    ensures message + Chains.Flatten(pieces[|pieces|..]) == message
  {
    assert pieces[|pieces|..] == [];
  }
}
