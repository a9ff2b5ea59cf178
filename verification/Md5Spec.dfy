// The MD5 digest of a message, as section 3 of RFC 1321 defines it.

module Md5Spec {
  import opened Arithmetic
  import opened Words
  import opened Md5Steps

  // ---------- words and bytes, low-order byte first ----------

  function WordOf(b: seq<Byte>): Word
    requires |b| == 4
  {
    (b[0] as int) + 0x100 * (b[1] as int) + 0x1_0000 * (b[2] as int) + 0x100_0000 * (b[3] as int)
  }

  function ByteOf(w: Word, k: nat): Byte
    requires k < 4
  {
    if k == 0 then w % 0x100 else if k == 1 then w / 0x100 % 0x100 else if k == 2 then w / 0x1_0000 % 0x100 else w / 0x100_0000
  }

  function WordsOf(b: seq<Byte>): (w: seq<Word>)
    requires |b| % 4 == 0
    ensures |w| == |b| / 4
  {
    seq(|b| / 4, i requires 0 <= i < |b| / 4 => WordOf(b[4 * i..4 * i + 4]))
  }

  function BytesOf(w: seq<Word>): (b: seq<Byte>)
    ensures |b| == 4 * |w|
  {
    seq(4 * |w|, j requires 0 <= j < 4 * |w| => ByteOf(w[j / 4], j % 4))
  }

  lemma WordRoundTrip(w: Word)
    ensures WordOf([ByteOf(w, 0), ByteOf(w, 1), ByteOf(w, 2), ByteOf(w, 3)]) == w
  {
    var a, b, c := w / 0x100, w / 0x1_0000, w / 0x100_0000;
    assert b == a / 0x100 && c == b / 0x100;
    assert w == 0x100 * a + w % 0x100 && a == 0x100 * b + a % 0x100 && b == 0x100 * c + b % 0x100;
  }

  lemma WordsOfBytes(w: seq<Word>)
    ensures WordsOf(BytesOf(w)) == w
  {
    var b := BytesOf(w);
    forall i | 0 <= i < |w| ensures WordOf(b[4 * i..4 * i + 4]) == w[i] {
      assert b[4 * i..4 * i + 4] == [ByteOf(w[i], 0), ByteOf(w[i], 1), ByteOf(w[i], 2), ByteOf(w[i], 3)];
      WordRoundTrip(w[i]);
    }
  }

  // ---------- blocks ----------

  // Section 3.4: the block stirs the registers, and what they held is added back.
  function Compress(st: seq<Word>, block: seq<Byte>): (r: seq<Word>)
    requires |st| == 4 && |block| == 64
    ensures |r| == 4
  {
    var r := Steps(64, Registers(st[0], st[1], st[2], st[3]), WordsOf(block));
    [Plus(st[0], r.a), Plus(st[1], r.b), Plus(st[2], r.c), Plus(st[3], r.d)]
  }

  lemma CompressIs(st: seq<Word>, block: seq<Byte>)
    requires |st| == 4 && |block| == 64
    ensures var r := Steps(64, Registers(st[0], st[1], st[2], st[3]), WordsOf(block));
            Compress(st, block) == [Plus(st[0], r.a), Plus(st[1], r.b), Plus(st[2], r.c), Plus(st[3], r.d)]
  {
    hide Steps, WordsOf, Plus;
  }

  // Section 3.3
  const INITIAL: seq<Word> := [0x67452301, 0xefcdab89, 0x98badcfe, 0x10325476]

  // The state after the whole blocks of m
  function Fold(m: seq<Byte>): (st: seq<Word>)
    requires |m| % 64 == 0
    ensures |st| == 4
  {
    if m == [] then INITIAL else Compress(Fold(m[..|m| - 64]), m[|m| - 64..])
  }

  lemma FoldMore(m: seq<Byte>, block: seq<Byte>)
    requires |m| % 64 == 0 && |block| == 64
    ensures Fold(m + block) == Compress(Fold(m), block)
  {
    assert (m + block)[..|m|] == m && (m + block)[|m|..] == block;
  }

  lemma FoldInput(m: seq<Byte>, input: seq<Byte>, i: nat)
    requires i + 64 <= |input| && |m + input[..i]| % 64 == 0
    ensures |m + input[..i + 64]| % 64 == 0
    ensures Fold(m + input[..i + 64]) == Compress(Fold(m + input[..i]), input[i..i + 64])
  {
    hide Fold, Compress;
    assert m + input[..i] + input[i..i + 64] == m + input[..i + 64];
    FoldMore(m + input[..i], input[i..i + 64]);
  }

  // ---------- padding ----------

  // Section 3.1: the bytes of padding for a message of n bytes
  function PadLength(n: nat): nat { if n % 64 < 56 then 56 - n % 64 else 120 - n % 64 }

  // It is the one length from 1 to 64 bytes that leaves 448 bits of the last block of 512.
  lemma PadLengthIs(n: nat, p: nat)
    ensures p == PadLength(n) <==> 1 <= p <= 64 && 8 * (n + p) % 512 == 448
  {
    var q, r := n / 64, n % 64;
    var t := r + p;
    assert n == 64 * q + r;
    BlockBits(n + p);
    if p <= 64 { assert t < 128 && (n + p) % 64 == if t < 64 then t else t - 64; }
  }

  lemma BlockBits(x: nat)
    ensures 8 * x % 512 == 8 * (x % 64)
  {
    var q, r := x / 64, x % 64;
    assert x == 64 * q + r && 8 * x == 512 * q + 8 * r;
  }

  // A one bit and zero bits
  function Pad(n: nat): (p: seq<Byte>)
    ensures |p| == PadLength(n)
  {
    seq(PadLength(n), i => if i == 0 then 0x80 else 0)
  }

  lemma PadBytes(n: nat)
    ensures forall i :: 0 <= i < PadLength(n) ==> Pad(n)[i] == if i == 0 then 0x80 else 0
  {
  }

  // Section 3.2: the bit length as two words, low-order word first; bits past 64 are dropped.
  function BitCount(n: nat): (c: seq<Word>)
    ensures |c| == 2
  {
    [8 * n % 0x1_0000_0000, 8 * n / 0x1_0000_0000 % 0x1_0000_0000]
  }

  function Padded(m: seq<Byte>): (p: seq<Byte>)
    ensures |p| % 64 == 0
  {
    PaddedLength(|m|);
    m + Pad(|m|) + BytesOf(BitCount(|m|))
  }

  lemma PaddedLength(n: nat)
    ensures (n + PadLength(n) + 8) % 64 == 0
  {
  }

  // Section 3.5
  function Digest(m: seq<Byte>): (d: seq<Byte>)
    ensures |d| == 16
  {
    BytesOf(Fold(Padded(m)))
  }

  // ---------- what the context holds ----------

  function Whole(m: seq<Byte>): (w: seq<Byte>)
    ensures |w| % 64 == 0
  {
    m[..|m| - |m| % 64]
  }

  function Remainder(m: seq<Byte>): seq<Byte> { m[|m| - |m| % 64..] }

  // The state, counts and buffer of a context that has taken m in
  ghost predicate Absorbed(m: seq<Byte>, st: seq<Word>, ct: seq<Word>, buf: seq<Byte>) {
    && |buf| == 64
    && st == Fold(Whole(m)) && ct == BitCount(|m|) && buf[..|m| % 64] == Remainder(m)
  }

  lemma NothingAbsorbed(buf: seq<Byte>)
    requires |buf| == 64
    ensures Absorbed([], INITIAL, [0, 0], buf)
  {
  }

  // The count words are 8 times the length, modulo 2^64.
  lemma BitCountIs(n: nat)
    ensures (BitCount(n)[0] as int) + 0x1_0000_0000 * (BitCount(n)[1] as int) == 8 * n % 0x1_0000_0000_0000_0000
  {
  }

  // A prefix to which everything was folded in, and a rest shorter than a block
  lemma SplitIs(m: seq<Byte>, whole: seq<Byte>, rest: seq<Byte>)
    requires m == whole + rest && |whole| % 64 == 0 && |rest| < 64
    ensures Whole(m) == whole && Remainder(m) == rest && |m| % 64 == |rest|
  {
  }

  // A message of whole blocks leaves nothing in the buffer.
  lemma WholeIs(m: seq<Byte>)
    requires |m| % 64 == 0
    ensures Whole(m) == m
  {
  }

  lemma WholeAndRemainder(m: seq<Byte>)
    ensures m == Whole(m) + Remainder(m) && |Remainder(m)| == |m| % 64
  {
  }

  // ---------- the count ----------

  // (count[0] >> 3) & 0x3F is the fill of the buffer.
  lemma BufferIndex(n: nat)
    ensures And(Shr(BitCount(n)[0], 3), 0x3F) == n % 64
  {
    hide Bitwise, Low, Shr;
    var c := BitCount(n)[0];
    Shr3(c);
    Pow2Is64();
    MaskIsLow(c / 8, 6, 32);
    Low6And8(c / 8);
    BitsToBytes(n);
  }

  lemma BitsToBytes(n: nat)
    ensures 8 * n % 0x1_0000_0000 / 8 % 64 == n % 64
  {
    var q, r := n / 0x2000_0000, n % 0x2000_0000;
    Wraps(8 * n, q, 8 * r);
    assert n == 64 * (0x80_0000 * q + r / 64) + r % 64;
  }

  lemma Wraps(x: nat, q: nat, r: nat)
    requires x == 0x1_0000_0000 * q + r && r < 0x1_0000_0000
    ensures x % 0x1_0000_0000 == r && x / 0x1_0000_0000 == q
  {
  }

  // What is wrapped around already may be wrapped around again.
  lemma WrapsAgain(x: nat, y: nat)
    ensures (x % 0x1_0000_0000 + y) % 0x1_0000_0000 == (x + y) % 0x1_0000_0000
  {
    var q, r := x / 0x1_0000_0000, x % 0x1_0000_0000;
    Wraps(x + y, q + (r + y) / 0x1_0000_0000, (r + y) % 0x1_0000_0000);
  }

  lemma Shr3(x: Word)
    ensures Shr(x, 3) == x / 8
  {
    assert Shr(x / 2, 2) == Shr(x / 2 / 2, 1);
  }

  // ---------- encoding and decoding with masks and shifts ----------

  lemma ByteMask(x: Word)
    ensures And(x, 0xff) == x % 0x100
  {
    hide Bitwise, Low;
    Pow2Is64();
    MaskIsLow(x, 8, 32);
    Low6And8(x);
  }

  lemma EncodedBytes(w: Word)
    ensures And(w, 0xff) == ByteOf(w, 0) && And(Shr(w, 8), 0xff) == ByteOf(w, 1)
    ensures And(Shr(w, 16), 0xff) == ByteOf(w, 2) && And(Shr(w, 24), 0xff) == ByteOf(w, 3)
  {
    hide And, Shr;
    ShrValues(w);
    ByteMask(w);
    ByteMask(Shr(w, 8));
    ByteMask(Shr(w, 16));
    ByteMask(Shr(w, 24));
  }

  // A byte moved up joins what lies below it.
  lemma OrByte(low: Word, b: Byte, k: nat)
    requires k <= 24 && low < Pow2(k) && b * Pow2(k) < 0x1_0000_0000
    ensures Or(low, Shl(b, k)) == low + b * Pow2(k)
  {
    hide Bitwise, Shl, ShiftLeft;
    LeftScaled(b, k);
    ShlIs(b, k);
    Pow2Values();
    OrIsPlus(b, k, low, 32);
  }

  lemma DecodedWord(b: seq<Byte>)
    requires |b| == 4
    ensures Or(Or(Or(b[0], Shl(b[1], 8)), Shl(b[2], 16)), Shl(b[3], 24)) == WordOf(b)
  {
    hide Or, Shl;
    Pow2Is64();
    Pow2Sum(8, 8);
    Pow2Sum(8, 16);
    OrByte(b[0], b[1], 8);
    OrByte(Or(b[0], Shl(b[1], 8)), b[2], 16);
    OrByte(Or(Or(b[0], Shl(b[1], 8)), Shl(b[2], 16)), b[3], 24);
  }

  lemma Pow2Is64()
    ensures Pow2(5) == 32 && Pow2(6) == 64 && Pow2(8) == 256
  {
    assert Pow2(4) == 16;
  }

  lemma {:induction false} ShrIs(x: Word, n: nat)
    ensures Shr(x, n) == x / Pow2(n)
    decreases n
  {
    if n > 0 {
      ShrIs(x / 2, n - 1);
      HalfFirst(x, Pow2(n - 1));
    }
  }

  lemma ShrValues(x: Word)
    ensures Shr(x, 8) == x / 0x100 && Shr(x, 16) == x / 0x1_0000 && Shr(x, 24) == x / 0x100_0000 && Shr(x, 29) == x / 0x2000_0000
  {
    hide Shr;
    Pow2Is64();
    Pow2Sum(8, 8);
    Pow2Sum(16, 8);
    Pow2Sum(24, 5);
    ShrIs(x, 8);
    ShrIs(x, 16);
    ShrIs(x, 24);
    ShrIs(x, 29);
  }

  lemma Shl3(x: Word)
    ensures Shl(x, 3) == 8 * x % 0x1_0000_0000
  {
    hide Shl;
    ShlOnce(x, 2);
    ShlOnce(2 * x % 0x1_0000_0000, 1);
    ShlOnce(4 * x % 0x1_0000_0000, 0);
    Doubled(x);
    assert Shl(8 * x % 0x1_0000_0000, 0) == 8 * x % 0x1_0000_0000 by { ShlNone(8 * x % 0x1_0000_0000); }
  }

  lemma ShlNone(x: Word)
    ensures Shl(x, 0) == x
  {
  }

  lemma ShlOnce(x: Word, n: nat)
    ensures Shl(x, n + 1) == Shl(2 * x % 0x1_0000_0000, n)
  {
  }

  lemma Doubled(x: nat)
    ensures 2 * (2 * x % 0x1_0000_0000) % 0x1_0000_0000 == 4 * x % 0x1_0000_0000
    ensures 2 * (4 * x % 0x1_0000_0000) % 0x1_0000_0000 == 8 * x % 0x1_0000_0000
  {
    WrapsAgain(2 * x, 2 * x % 0x1_0000_0000);
    WrapsAgain(2 * x, 2 * x);
    WrapsAgain(4 * x, 4 * x % 0x1_0000_0000);
    WrapsAgain(4 * x, 4 * x);
  }

  // The two words after adding a length: a carry when the low word wraps around, and the bits
  // that the shift pushed out of it
  lemma CountAdded(n: nat, len: Word)
    ensures var c := BitCount(n);
            var low := Plus(c[0], Shl(len, 3));
            var carried := if low < Shl(len, 3) then Plus(c[1], 1) else c[1];
            [low, Plus(carried, Shr(len, 29))] == BitCount(n + len)
  {
    hide Shl, Shr, BitCount, Plus;
    Shl3(len);
    ShrValues(len);
    BitCounts(n);
    BitCounts(n + len);
    EightTimes(n, len);
    AddWords(8 * n, 8 * len);
  }

  lemma EightTimes(n: nat, len: Word)
    ensures 8 * (n + len) == 8 * n + 8 * len && len / 0x2000_0000 == 8 * len / 0x1_0000_0000
  {
  }

  lemma BitCounts(n: nat)
    ensures BitCount(n) == [8 * n % 0x1_0000_0000, 8 * n / 0x1_0000_0000 % 0x1_0000_0000]
  {
  }

  // Addition of numbers of two words each, the high word of the second one being less than full
  lemma AddWords(x: nat, y: nat)
    requires y / 0x1_0000_0000 < 0x1_0000_0000
    ensures var w := 0x1_0000_0000;
            var low, high := Plus(x % w, y % w), x / w % w;
            && low == (x + y) % w
            && Plus(if low < y % w then Plus(high, 1) else high, y / w) == (x + y) / w % w
  {
    CarryIs(x, y);
    HighWord(x / 0x1_0000_0000, y / 0x1_0000_0000);
  }

  lemma HighWord(x: nat, y: nat)
    requires y < 0x1_0000_0000
    ensures Plus(x % 0x1_0000_0000, y) == (x + y) % 0x1_0000_0000
    ensures Plus(Plus(x % 0x1_0000_0000, 1), y) == (x + y + 1) % 0x1_0000_0000
  {
    WrapsAgain(x, y);
    WrapsAgain(x, 1);
    WrapsAgain(x + 1, y);
  }

  lemma CarryIs(x: nat, y: nat)
    ensures var w := 0x1_0000_0000;
            var low := (x % w + y % w) % w;
            && low == (x + y) % w
            && (low < y % w <==> x % w + y % w >= w)
            && (x + y) / w == x / w + y / w + if low < y % w then 1 else 0
  {
  }

  // ---------- the index of update ----------

  // Where the transformation of whole blocks ends that begins at start
  function LastIndex(start: nat, length: nat): (n: nat)
    requires start <= length
    ensures start <= n <= length < n + 64 && (n - start) % 64 == 0
  {
    length - (length - start) % 64
  }

  lemma StopsAt(start: nat, length: Word, index: nat)
    requires start <= index <= length && (index - start) % 64 == 0 && LastIndex(start, length) + 63 < 0x1_0000_0000
    ensures index + 63 < 0x1_0000_0000 && Plus(index, 63) == index + 63
  {
    assert index <= LastIndex(start, length);
  }

  // The 32-bit loop test does not wrap around, if the buffer holds the given number of bytes.
  predicate IndexFits(used: nat, length: Word)
    requires used < 64
  {
    length >= 64 - used ==> LastIndex(64 - used, length) + 63 < 0x1_0000_0000
  }

  // Up to the last index the test is right; there it stops the loop exactly if it does not wrap
  // around, and otherwise the loop goes on past the end of the input.
  lemma LoopTest(used: nat, length: Word, index: nat)
    requires used < 64 && 64 - used <= index <= length && (index - (64 - used)) % 64 == 0
    ensures var last := LastIndex(64 - used, length);
            && index <= last && (index < last ==> Plus(index, 63) < length)
            && (index == last ==> (Plus(index, 63) < length <==> !IndexFits(used, length)))
  {
  }

  // With one byte in the buffer, the greatest length does not fit.
  lemma DoesNotFit()
    ensures !IndexFits(1, 0xFFFF_FFFF) && LastIndex(63, 0xFFFF_FFFF) == 0xFFFF_FFFF && Plus(0xFFFF_FFFF, 63) == 62
  {
  }

  // It always fits below 2^32 - 63 bytes, and for any length if the buffer is empty.
  lemma UsuallyFits(used: nat, length: Word)
    requires used < 64 && (used == 0 || length + 63 < 0x1_0000_0000)
    ensures IndexFits(used, length)
  {
  }
}
