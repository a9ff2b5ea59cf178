// The steps of MD5 on given numbers, with words as bit-vectors.

module Md5Bits {
  import opened Arithmetic
  import opened Words
  import opened Md5Steps
  import opened Md5Spec

  // ---------- words as bit-vectors ----------

  function First(b: bv32): (n: nat)
    ensures n < 2
  {
    if b & 1 == 1 then 1 else 0
  }

  function Half(b: bv32): bv32 { b >> 1 }

  // The number that the low n bits stand for
  function Low(b: bv32, n: nat): nat { if n == 0 then 0 else First(b) + 2 * Low(Half(b), n - 1) }

  lemma LowIs(b: bv32, n: nat)
    ensures Low(b, 0) == 0 && Low(b, n + 1) == First(b) + 2 * Low(Half(b), n)
  {
  }

  function BitOf(op: (bool, bool) -> bool, p: nat, q: nat): nat { if op(p == 1, q == 1) then 1 else 0 }

  lemma BitwiseIs(op: (bool, bool) -> bool, x: nat, y: nat, p: nat, q: nat, n: nat)
    requires p < 2 && q < 2
    ensures Bitwise(op, 0, 0, 0) == 0
    ensures Bitwise(op, p + 2 * x, q + 2 * y, n + 1) == BitOf(op, p, q) + 2 * Bitwise(op, x, y, n)
  {
  }

  function AndOf(a: bv32, b: bv32): bv32 { a & b }

  function OrOf(a: bv32, b: bv32): bv32 { a | b }

  function XorOf(a: bv32, b: bv32): bv32 { a ^ b }

  lemma AndFirst(a: bv32, b: bv32)
    ensures First(AndOf(a, b)) == BitOf(Both, First(a), First(b)) && Half(AndOf(a, b)) == AndOf(Half(a), Half(b))
  {
  }

  lemma OrFirst(a: bv32, b: bv32)
    ensures First(OrOf(a, b)) == BitOf(Either, First(a), First(b)) && Half(OrOf(a, b)) == OrOf(Half(a), Half(b))
  {
  }

  lemma XorFirst(a: bv32, b: bv32)
    ensures First(XorOf(a, b)) == BitOf(Differ, First(a), First(b)) && Half(XorOf(a, b)) == XorOf(Half(a), Half(b))
  {
  }

  lemma {:induction false} AndBits(a: bv32, b: bv32, n: nat)
    ensures Bitwise(Both, Low(a, n), Low(b, n), n) == Low(AndOf(a, b), n)
    decreases n
  {
    hide First, Half, Low, BitOf, Bitwise, AndOf;
    var c, d, m := Half(a), Half(b), if n == 0 then 0 else n - 1;
    LowIs(a, m);
    LowIs(b, m);
    LowIs(AndOf(a, b), m);
    BitwiseIs(Both, Low(c, m), Low(d, m), First(a), First(b), m);
    if n > 0 {
      AndFirst(a, b);
      AndBits(c, d, m);
    }
  }

  lemma {:induction false} OrBits(a: bv32, b: bv32, n: nat)
    ensures Bitwise(Either, Low(a, n), Low(b, n), n) == Low(OrOf(a, b), n)
    decreases n
  {
    hide First, Half, Low, BitOf, Bitwise, OrOf;
    var c, d, m := Half(a), Half(b), if n == 0 then 0 else n - 1;
    LowIs(a, m);
    LowIs(b, m);
    LowIs(OrOf(a, b), m);
    BitwiseIs(Either, Low(c, m), Low(d, m), First(a), First(b), m);
    if n > 0 {
      OrFirst(a, b);
      OrBits(c, d, m);
    }
  }

  lemma {:induction false} XorBits(a: bv32, b: bv32, n: nat)
    ensures Bitwise(Differ, Low(a, n), Low(b, n), n) == Low(XorOf(a, b), n)
    decreases n
  {
    hide First, Half, Low, BitOf, Bitwise, XorOf;
    var c, d, m := Half(a), Half(b), if n == 0 then 0 else n - 1;
    LowIs(a, m);
    LowIs(b, m);
    LowIs(XorOf(a, b), m);
    BitwiseIs(Differ, Low(c, m), Low(d, m), First(a), First(b), m);
    if n > 0 {
      XorFirst(a, b);
      XorBits(c, d, m);
    }
  }

  lemma {:induction false} NotIs(x: nat, n: nat)
    ensures Bitwise(NotFirst, x, 0, n) == Bitwise(Differ, x, Pow2(n) - 1, n)
  {
    if n > 0 {
      assert (Pow2(n) - 1) / 2 == Pow2(n - 1) - 1;
      NotIs(x / 2, n - 1);
    }
  }

  // ---------- the number of a bit-vector ----------

  function Nibble(b: bv32): (n: nat)
    ensures n < 16
  {
    First(b) + (if b & 2 == 2 then 2 else 0) + (if b & 4 == 4 then 4 else 0) + if b & 8 == 8 then 8 else 0
  }

  function Sixteenth(b: bv32): bv32 { b >> 4 }

  function Half16(b: bv32): (n: nat)
    ensures n < 0x1_0000
  {
    var c, d, e := Sixteenth(b), Sixteenth(Sixteenth(b)), Sixteenth(Sixteenth(Sixteenth(b)));
    Nibble(b) + 0x10 * Nibble(c) + 0x100 * Nibble(d) + 0x1000 * Nibble(e)
  }

  function Number(b: bv32): Word {
    Half16(b) + 0x1_0000 * Half16(Sixteenth(Sixteenth(Sixteenth(Sixteenth(b)))))
  }

  lemma NibbleIs(b: bv32)
    ensures Nibble(b) == First(b) + 2 * First(Half(b)) + 4 * First(Half(Half(b))) + 8 * First(Half(Half(Half(b))))
    ensures Half(Half(Half(Half(b)))) == Sixteenth(b)
  {
  }

  lemma LowFour(b: bv32, n: nat)
    ensures Low(b, n + 4) == Nibble(b) + 16 * Low(Sixteenth(b), n)
  {
    hide First, Half, Low, Nibble, Sixteenth;
    NibbleIs(b);
    LowIs(b, n + 3);
    LowIs(Half(b), n + 2);
    LowIs(Half(Half(b)), n + 1);
    LowIs(Half(Half(Half(b))), n);
  }

  lemma LowSixteen(b: bv32, n: nat)
    ensures Low(b, n + 16) == Half16(b) + 0x1_0000 * Low(Sixteenth(Sixteenth(Sixteenth(Sixteenth(b)))), n)
  {
    hide First, Half, Low, Nibble, Sixteenth;
    LowFour(b, n + 12);
    LowFour(Sixteenth(b), n + 8);
    LowFour(Sixteenth(Sixteenth(b)), n + 4);
    LowFour(Sixteenth(Sixteenth(Sixteenth(b))), n);
  }

  lemma NumberIs(b: bv32)
    ensures Low(b, 32) == Number(b)
  {
    hide First, Half, Low, Half16, Sixteenth;
    var c := Sixteenth(Sixteenth(Sixteenth(Sixteenth(b))));
    LowSixteen(b, 16);
    LowSixteen(c, 0);
    LowIs(Sixteenth(Sixteenth(Sixteenth(Sixteenth(c)))), 0);
  }

  // ---------- the functions of the rounds ----------

  const ONES: bv32 := 0xFFFF_FFFF

  function RoundBits(i: nat, x: bv32, y: bv32, z: bv32): bv32 {
    if i < 16 then OrOf(AndOf(x, y), AndOf(XorOf(x, ONES), z))
    else if i < 32 then OrOf(AndOf(x, z), AndOf(y, XorOf(z, ONES)))
    else if i < 48 then XorOf(XorOf(x, y), z)
    else XorOf(y, OrOf(x, XorOf(z, ONES)))
  }

  lemma OpNumbers(a: bv32, b: bv32)
    ensures And(Number(a), Number(b)) == Number(AndOf(a, b))
    ensures Or(Number(a), Number(b)) == Number(OrOf(a, b))
    ensures Xor(Number(a), Number(b)) == Number(XorOf(a, b))
  {
    hide First, Half, Low, Number, AndOf, OrOf, XorOf, Bitwise;
    NumberIs(a);
    NumberIs(b);
    NumberIs(AndOf(a, b));
    NumberIs(OrOf(a, b));
    NumberIs(XorOf(a, b));
    AndBits(a, b, 32);
    OrBits(a, b, 32);
    XorBits(a, b, 32);
  }

  lemma OnesNumber()
    ensures Number(ONES) == 0xFFFF_FFFF
  {
  }

  lemma NotNumber(a: bv32)
    ensures Not(Number(a)) == Number(XorOf(a, ONES))
  {
    hide First, Half, Low, XorOf, Bitwise, Number;
    OnesNumber();
    OpNumbers(a, ONES);
    NotIs(Number(a), 32);
    Pow2Values();
  }

  lemma RoundNumber(i: nat, x: bv32, y: bv32, z: bv32)
    requires i < 64
    ensures RoundFunction(i, Number(x), Number(y), Number(z)) == Number(RoundBits(i, x, y, z))
  {
    hide Number, AndOf, OrOf, XorOf, And, Or, Xor, Not;
    NotNumber(x);
    NotNumber(z);
    if i < 16 {
      OpNumbers(x, y);
      OpNumbers(XorOf(x, ONES), z);
      OpNumbers(AndOf(x, y), AndOf(XorOf(x, ONES), z));
    } else if i < 32 {
      OpNumbers(x, z);
      OpNumbers(y, XorOf(z, ONES));
      OpNumbers(AndOf(x, z), AndOf(y, XorOf(z, ONES)));
    } else if i < 48 {
      OpNumbers(x, y);
      OpNumbers(XorOf(x, y), z);
    } else {
      OpNumbers(x, XorOf(z, ONES));
      OpNumbers(y, OrOf(x, XorOf(z, ONES)));
    }
  }

  // ---------- rotation as arithmetic ----------

  lemma {:induction false} ShlMod(x: Word, n: nat)
    ensures Shl(x, n) == x * Pow2(n) % 0x1_0000_0000
    decreases n
  {
    if n > 0 {
      var y := 2 * x % 0x1_0000_0000;
      ShlMod(y, n - 1);
      ModTimes(2 * x, Pow2(n - 1));
      assert 2 * x * Pow2(n - 1) == x * Pow2(n);
    }
  }

  lemma ModTimes(x: nat, p: nat)
    ensures x % 0x1_0000_0000 * p % 0x1_0000_0000 == x * p % 0x1_0000_0000
  {
    var m, q := 0x1_0000_0000, x / 0x1_0000_0000;
    assert x * p == x % m * p + m * (q * p);
    ModPlus(x % m * p, q * p);
  }

  lemma ModPlus(x: nat, q: nat)
    ensures (x + 0x1_0000_0000 * q) % 0x1_0000_0000 == x % 0x1_0000_0000
  {
  }

  lemma {:induction false} OrCommutes(x: nat, y: nat, n: nat)
    ensures Bitwise(Either, x, y, n) == Bitwise(Either, y, x, n)
  {
    if n > 0 { OrCommutes(x / 2, y / 2, n - 1); }
  }

  // The high n bits and the low ones change places.
  lemma RotateIs(h: nat, l: nat, n: nat)
    requires 0 < n < 32 && l < Pow2(32 - n) && h < Pow2(n)
    ensures h * Pow2(32 - n) + l < 0x1_0000_0000
    ensures RotateLeft(h * Pow2(32 - n) + l, n) == l * Pow2(n) + h
  {
    hide Shl, Shr, Or, Pow2;
    PowersMeet(n);
    Below(h, l, Pow2(n), Pow2(32 - n));
    Below(l, h, Pow2(32 - n), Pow2(n));
    ShrIs(h * Pow2(32 - n) + l, 32 - n);
    Quotient(h * Pow2(32 - n) + l, Pow2(32 - n), h, l);
    HighLeaves(h, l, n);
    OrAdds(h, l, n);
  }

  lemma PowersMeet(n: nat)
    requires n <= 32
    ensures Pow2(n) * Pow2(32 - n) == 0x1_0000_0000
  {
    Pow2Sum(n, 32 - n);
    Pow2Values();
  }

  lemma HighLeaves(h: nat, l: nat, n: nat)
    requires n <= 32 && h * Pow2(32 - n) + l < 0x1_0000_0000 && l * Pow2(n) < 0x1_0000_0000
    ensures Shl(h * Pow2(32 - n) + l, n) == l * Pow2(n)
  {
    hide Shl, Pow2;
    var p, q := Pow2(n), Pow2(32 - n);
    PowersMeet(n);
    ShlMod(h * q + l, n);
    Distribute(h, l, p, q);
    ModPlus(l * p, h);
  }

  lemma Distribute(h: nat, l: nat, p: nat, q: nat)
    requires p * q == 0x1_0000_0000
    ensures (h * q + l) * p == l * p + 0x1_0000_0000 * h
  {
    assert h * q * p == h * (p * q);
  }

  lemma OrAdds(h: nat, l: nat, n: nat)
    requires n <= 32 && h < Pow2(n) && l * Pow2(n) + h < 0x1_0000_0000
    ensures l * Pow2(n) < 0x1_0000_0000 && h < 0x1_0000_0000 && Or(l * Pow2(n), h) == l * Pow2(n) + h
  {
    hide Bitwise, Pow2;
    Nonnegative(l, Pow2(n));
    Pow2Values();
    LeftScaled(l, n);
    OrCommutes(l * Pow2(n), h, 32);
    OrIsPlus(l, n, h, 32);
  }

  lemma Nonnegative(l: nat, p: nat)
    ensures l * p >= 0
  {
  }

  lemma Below(h: nat, l: nat, p: nat, q: nat)
    requires h < p && l < q && p * q == 0x1_0000_0000
    ensures h * q + l < 0x1_0000_0000
  {
    assert h * q <= (p - 1) * q;
  }

  // ---------- one step on literals ----------

  lemma Powers()
    ensures Pow2(4) == 0x10 && Pow2(5) == 0x20 && Pow2(6) == 0x40 && Pow2(7) == 0x80 && Pow2(9) == 0x200 && Pow2(10) == 0x400
    ensures Pow2(11) == 0x800 && Pow2(12) == 0x1000 && Pow2(14) == 0x4000 && Pow2(15) == 0x8000 && Pow2(16) == 0x1_0000
    ensures Pow2(17) == 0x2_0000 && Pow2(18) == 0x4_0000 && Pow2(20) == 0x10_0000 && Pow2(21) == 0x20_0000
    ensures Pow2(22) == 0x40_0000 && Pow2(23) == 0x80_0000 && Pow2(25) == 0x200_0000 && Pow2(26) == 0x400_0000
    ensures Pow2(27) == 0x800_0000 && Pow2(28) == 0x1000_0000
  {
    assert Pow2(4) == 16 && Pow2(7) == 8 * Pow2(4) && Pow2(11) == 16 * Pow2(7) && Pow2(14) == 8 * Pow2(11);
    assert Pow2(18) == 16 * Pow2(14) && Pow2(22) == 16 * Pow2(18) && Pow2(26) == 16 * Pow2(22) && Pow2(28) == 4 * Pow2(26);
  }

  const START: Registers := Registers(0x67452301, 0xefcdab89, 0x98badcfe, 0x10325476)

  // The number, with all digits at once
  function Flat(b: bv32): Word {
    Nibble(b) + 0x10 * Nibble(b >> 4) + 0x100 * Nibble(b >> 8) + 0x1000 * Nibble(b >> 12)
    + 0x1_0000 * Nibble(b >> 16) + 0x10_0000 * Nibble(b >> 20) + 0x100_0000 * Nibble(b >> 24) + 0x1000_0000 * Nibble(b >> 28)
  }

  lemma Shifts(b: bv32)
    ensures Sixteenth(b) == b >> 4 && Sixteenth(b >> 4) == b >> 8 && Sixteenth(b >> 8) == b >> 12
    ensures Sixteenth(b >> 12) == b >> 16 && Sixteenth(b >> 16) == b >> 20 && Sixteenth(b >> 20) == b >> 24
    ensures Sixteenth(b >> 24) == b >> 28
  {
  }

  lemma FlatIs(b: bv32)
    ensures Flat(b) == Number(b)
  {
    hide Nibble, Sixteenth;
    Shifts(b);
  }

  // Step i: the high bits h and the low bits l of a sum change places.
  lemma Advance(i: nat, x: seq<Word>, a: Word, b: bv32, c: bv32, d: bv32, f: bv32, w: Word, t: Word, p: nat, q: nat, h: nat, l: nat)
    requires i < 64 && |x| == 16 && Steps(i, START, x) == Registers(a, Flat(b), Flat(c), Flat(d))
    requires RoundBits(i, b, c, d) == f && x[WordIndex(i)] == w && Sine(i) == t && Pow2(Shift(i)) == p && Pow2(32 - Shift(i)) == q
    requires h < p && l < q && (a + Flat(f) + w + t) % 0x1_0000_0000 == h * q + l
    ensures Steps(i + 1, START, x) == Registers(Flat(d), (l * p + h + Flat(b)) % 0x1_0000_0000, Flat(b), Flat(c))
  {
    hide Number, Flat, RoundBits, RoundFunction, Stir, Shift, Sine, WordIndex, Pow2;
    FlatIs(b);
    FlatIs(c);
    FlatIs(d);
    FlatIs(f);
    RoundNumber(i, b, c, d);
    StirIs(i, a, Number(b), Number(c), Number(d), x, h, l);
  }

  lemma StirIs(i: nat, a: Word, b: Word, c: Word, d: Word, x: seq<Word>, h: nat, l: nat)
    requires i < 64 && |x| == 16 && h < Pow2(Shift(i)) && l < Pow2(32 - Shift(i))
    requires (a + RoundFunction(i, b, c, d) + x[WordIndex(i)] + Sine(i)) % 0x1_0000_0000 == h * Pow2(32 - Shift(i)) + l
    ensures Stir(i, a, b, c, d, x) == (l * Pow2(Shift(i)) + h + b) % 0x1_0000_0000
  {
    hide RoundFunction, RotateLeft, Shift, Sine, WordIndex, Pow2, Plus;
    RotateIs(h, l, Shift(i));
    SumIs(a, RoundFunction(i, b, c, d), x[WordIndex(i)], Sine(i));
    PlusIs(l * Pow2(Shift(i)) + h, b);
  }

  lemma SumIs(a: Word, f: Word, w: Word, t: Word)
    ensures Plus(a, Plus(Plus(f, w), t)) == (a + f + w + t) % 0x1_0000_0000
  {
    ModTwice(f + w, t, a);
  }

  lemma PlusIs(x: Word, y: Word)
    ensures Plus(x, y) == (x + y) % 0x1_0000_0000
  {
  }

  lemma ModTwice(x: nat, y: nat, z: nat)
    ensures (z + (x % 0x1_0000_0000 + y) % 0x1_0000_0000) % 0x1_0000_0000 == (z + x + y) % 0x1_0000_0000
  {
  }
}
