// The 64 steps of the MD5 block transformation.

module Md5Steps {
  import opened Arithmetic
  import opened Words

  function F(x: Word, y: Word, z: Word): Word { Or(And(x, y), And(Not(x), z)) }

  function G(x: Word, y: Word, z: Word): Word { Or(And(x, z), And(y, Not(z))) }

  function H(x: Word, y: Word, z: Word): Word { Xor(Xor(x, y), z) }

  function I(x: Word, y: Word, z: Word): Word { Xor(y, Or(x, Not(z))) }

  // Section 3.4 of RFC 1321, bit by bit: F is "if x then y else z", G is "if z then x else y",
  // H is the parity, and I is y inverted where x holds or z does not.
  lemma RoundFunctionBits(x: Word, y: Word, z: Word, i: nat)
    requires i < 32
    ensures Bit(F(x, y, z), i) == (if Bit(x, i) then Bit(y, i) else Bit(z, i))
    ensures Bit(G(x, y, z), i) == (if Bit(z, i) then Bit(x, i) else Bit(y, i))
    ensures Bit(H(x, y, z), i) == ((Bit(x, i) != Bit(y, i)) != Bit(z, i))
    ensures Bit(I(x, y, z), i) == (Bit(y, i) != (Bit(x, i) || !Bit(z, i)))
  {
    hide Bit, Bitwise;
    BitwiseBit(Both, x, y, 32, i);
    BitwiseBit(NotFirst, x, 0, 32, i);
    BitwiseBit(Both, Not(x), z, 32, i);
    BitwiseBit(Either, And(x, y), And(Not(x), z), 32, i);
    BitwiseBit(Both, x, z, 32, i);
    BitwiseBit(NotFirst, z, 0, 32, i);
    BitwiseBit(Both, y, Not(z), 32, i);
    BitwiseBit(Either, And(x, z), And(y, Not(z)), 32, i);
    BitwiseBit(Differ, x, y, 32, i);
    BitwiseBit(Differ, Xor(x, y), z, 32, i);
    BitwiseBit(Either, x, Not(z), 32, i);
    BitwiseBit(Differ, y, Or(x, Not(z)), 32, i);
  }

  // ---------- rotation ----------

  function RotateLeft(x: Word, n: nat): Word
    requires 0 < n < 32
  {
    Or(Shl(x, n), Shr(x, 32 - n))
  }

  // Bit i comes from the place n below, around the end of the word.
  lemma RotateBit(x: Word, n: nat, i: nat)
    requires 0 < n < 32 && i < 32
    ensures Bit(RotateLeft(x, n), i) == Bit(x, if i >= n then i - n else i + 32 - n)
  {
    BitwiseBit(Either, Shl(x, n), Shr(x, 32 - n), 32, i);
    ShlBit(x, n, i);
    ShrBit(x, 32 - n, i);
    if i >= n { HighBits(x, i + 32 - n); }
  }

  lemma HighBits(x: Word, i: nat)
    requires i >= 32
    ensures !Bit(x, i)
  {
    Pow2Values();
    NoHighBits(x, 32, i);
  }

  lemma {:induction false} NoHighBits(x: nat, n: nat, i: nat)
    requires x < Pow2(n) && n <= i
    ensures !Bit(x, i)
  {
    if i > 0 { NoHighBits(x / 2, if n > 0 then n - 1 else 0, i - 1); }
  }

  // A rotation is undone by rotating on to the full width.
  lemma RotateBack(x: Word, n: nat)
    requires 0 < n < 32
    ensures RotateLeft(RotateLeft(x, n), 32 - n) == x
  {
    forall i: nat | i < 32 ensures Bit(RotateLeft(RotateLeft(x, n), 32 - n), i) == Bit(x, i) {
      RotateBit(RotateLeft(x, n), 32 - n, i);
      RotateBit(x, n, if i >= 32 - n then i - (32 - n) else i + n);
    }
    Pow2Values();
    SameBits(RotateLeft(RotateLeft(x, n), 32 - n), x, 32);
  }

  // ---------- one step ----------

  function FF(a: Word, b: Word, c: Word, d: Word, x: Word, s: nat, ac: Word): Word
    requires 0 < s < 32
  {
    Plus(RotateLeft(Plus(a, Plus(Plus(F(b, c, d), x), ac)), s), b)
  }

  function GG(a: Word, b: Word, c: Word, d: Word, x: Word, s: nat, ac: Word): Word
    requires 0 < s < 32
  {
    Plus(RotateLeft(Plus(a, Plus(Plus(G(b, c, d), x), ac)), s), b)
  }

  function HH(a: Word, b: Word, c: Word, d: Word, x: Word, s: nat, ac: Word): Word
    requires 0 < s < 32
  {
    Plus(RotateLeft(Plus(a, Plus(Plus(H(b, c, d), x), ac)), s), b)
  }

  function II(a: Word, b: Word, c: Word, d: Word, x: Word, s: nat, ac: Word): Word
    requires 0 < s < 32
  {
    Plus(RotateLeft(Plus(a, Plus(Plus(I(b, c, d), x), ac)), s), b)
  }

  // ---------- the table form of section 3.4 of RFC 1321 ----------

  // The table T, counted from 0.  That its entries come from a sine function is not part of the model.
  function Sine(i: nat): Word
    requires i < 64
  {
    match i
    case 0 => 0xd76aa478 case 1 => 0xe8c7b756 case 2 => 0x242070db case 3 => 0xc1bdceee
    case 4 => 0xf57c0faf case 5 => 0x4787c62a case 6 => 0xa8304613 case 7 => 0xfd469501
    case 8 => 0x698098d8 case 9 => 0x8b44f7af case 10 => 0xffff5bb1 case 11 => 0x895cd7be
    case 12 => 0x6b901122 case 13 => 0xfd987193 case 14 => 0xa679438e case 15 => 0x49b40821
    case 16 => 0xf61e2562 case 17 => 0xc040b340 case 18 => 0x265e5a51 case 19 => 0xe9b6c7aa
    case 20 => 0xd62f105d case 21 => 0x02441453 case 22 => 0xd8a1e681 case 23 => 0xe7d3fbc8
    case 24 => 0x21e1cde6 case 25 => 0xc33707d6 case 26 => 0xf4d50d87 case 27 => 0x455a14ed
    case 28 => 0xa9e3e905 case 29 => 0xfcefa3f8 case 30 => 0x676f02d9 case 31 => 0x8d2a4c8a
    case 32 => 0xfffa3942 case 33 => 0x8771f681 case 34 => 0x6d9d6122 case 35 => 0xfde5380c
    case 36 => 0xa4beea44 case 37 => 0x4bdecfa9 case 38 => 0xf6bb4b60 case 39 => 0xbebfbc70
    case 40 => 0x289b7ec6 case 41 => 0xeaa127fa case 42 => 0xd4ef3085 case 43 => 0x04881d05
    case 44 => 0xd9d4d039 case 45 => 0xe6db99e5 case 46 => 0x1fa27cf8 case 47 => 0xc4ac5665
    case 48 => 0xf4292244 case 49 => 0x432aff97 case 50 => 0xab9423a7 case 51 => 0xfc93a039
    case 52 => 0x655b59c3 case 53 => 0x8f0ccc92 case 54 => 0xffeff47d case 55 => 0x85845dd1
    case 56 => 0x6fa87e4f case 57 => 0xfe2ce6e0 case 58 => 0xa3014314 case 59 => 0x4e0811a1
    case 60 => 0xf7537e82 case 61 => 0xbd3af235 case 62 => 0x2ad7d2bb case _ => 0xeb86d391
  }

  // The function of step i: one for each round of 16
  function RoundFunction(i: nat, x: Word, y: Word, z: Word): Word
    requires i < 64
  {
    if i < 16 then F(x, y, z) else if i < 32 then G(x, y, z) else if i < 48 then H(x, y, z) else I(x, y, z)
  }

  // Which word of the block step i reads
  function WordIndex(i: nat): (k: nat)
    requires i < 64
    ensures k < 16
  {
    if i < 16 then i else if i < 32 then (1 + 5 * i) % 16 else if i < 48 then (5 + 3 * i) % 16 else 7 * i % 16
  }

  function Shift(i: nat): (s: nat)
    requires i < 64
    ensures 0 < s < 32
  {
    var round := if i < 16 then [7, 12, 17, 22] else if i < 32 then [5, 9, 14, 20] else if i < 48 then [4, 11, 16, 23] else [6, 10, 15, 21];
    round[i % 4]
  }

  datatype Registers = Registers(a: Word, b: Word, c: Word, d: Word)

  // [abcd k s i]: a = b + ((a + f(b,c,d) + X[k] + T[i]) <<< s)
  function Stir(i: nat, a: Word, b: Word, c: Word, d: Word, x: seq<Word>): Word
    requires i < 64 && |x| == 16
  {
    Plus(RotateLeft(Plus(a, Plus(Plus(RoundFunction(i, b, c, d), x[WordIndex(i)]), Sine(i))), Shift(i)), b)
  }

  // One step, with the registers moved on by one
  function Step(i: nat, r: Registers, x: seq<Word>): Registers
    requires i < 64 && |x| == 16
  {
    Registers(r.d, Stir(i, r.a, r.b, r.c, r.d, x), r.b, r.c)
  }

  // The registers after the first n steps
  function Steps(n: nat, r: Registers, x: seq<Word>): Registers
    requires n <= 64 && |x| == 16
  {
    if n == 0 then r else Step(n - 1, Steps(n - 1, r, x), x)
  }

  // ---------- the steps can be undone ----------

  function StepBack(i: nat, r: Registers, x: seq<Word>): Registers
    requires i < 64 && |x| == 16
  {
    var sum := RotateLeft(Minus(r.b, r.c), 32 - Shift(i));
    Registers(Minus(sum, Plus(Plus(RoundFunction(i, r.c, r.d, r.a), x[WordIndex(i)]), Sine(i))), r.c, r.d, r.a)
  }

  function StepsBack(n: nat, r: Registers, x: seq<Word>): Registers
    requires n <= 64 && |x| == 16
  {
    if n == 0 then r else StepsBack(n - 1, StepBack(n - 1, r, x), x)
  }

  lemma StepInverse(i: nat, r: Registers, x: seq<Word>)
    requires i < 64 && |x| == 16
    ensures StepBack(i, Step(i, r, x), x) == r && Step(i, StepBack(i, r, x), x) == r
  {
    hide RotateLeft, RoundFunction, Sine, Shift, WordIndex, Plus, Minus;
    var f := Plus(Plus(RoundFunction(i, r.b, r.c, r.d), x[WordIndex(i)]), Sine(i));
    var g := Plus(Plus(RoundFunction(i, r.c, r.d, r.a), x[WordIndex(i)]), Sine(i));
    RotateBack(Plus(r.a, f), Shift(i));
    PlusMinus(RotateLeft(Plus(r.a, f), Shift(i)), r.b);
    PlusMinus(r.a, f);
    var sum := RotateLeft(Minus(r.b, r.c), 32 - Shift(i));
    PlusMinus(sum, g);
    RotateBack(Minus(r.b, r.c), 32 - Shift(i));
    PlusMinus(r.b, r.c);
  }

  lemma PlusMinus(x: Word, y: Word)
    ensures Minus(Plus(x, y), y) == x && Plus(Minus(x, y), y) == x
  {
  }

  // For a fixed block the steps are a bijection on the registers.
  lemma {:induction false} StepsBijective(n: nat, r: Registers, x: seq<Word>)
    requires n <= 64 && |x| == 16
    ensures StepsBack(n, Steps(n, r, x), x) == r && Steps(n, StepsBack(n, r, x), x) == r
  {
    hide Step, StepBack;
    if n > 0 {
      StepInverse(n - 1, Steps(n - 1, r, x), x);
      StepInverse(n - 1, r, x);
      StepsBijective(n - 1, r, x);
      StepsBijective(n - 1, StepBack(n - 1, r, x), x);
    }
  }

  lemma NoSteps(r: Registers, x: seq<Word>)
    requires |x| == 16
    ensures Steps(0, r, x) == r
  {
  }

  // After four steps the registers are in their places again.
  lemma FourSteps(i: nat, start: Registers, x: seq<Word>)
    requires i + 4 <= 64 && |x| == 16
    ensures var r := Steps(i, start, x);
            var a := Stir(i, r.a, r.b, r.c, r.d, x);
            var d := Stir(i + 1, r.d, a, r.b, r.c, x);
            var c := Stir(i + 2, r.c, d, a, r.b, x);
            Steps(i + 4, start, x) == Registers(a, Stir(i + 3, r.b, c, d, a, x), c, d)
  {
    hide Stir;
    assert Steps(i + 2, start, x) == Step(i + 1, Steps(i + 1, start, x), x);
  }
}
