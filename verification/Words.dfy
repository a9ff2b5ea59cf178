// 32-bit words and their operators, bit by bit, over the naturals.

module Words {
  import opened Arithmetic

  type Word = x: int | 0 <= x < 0x1_0000_0000

  type Byte = x: int | 0 <= x < 0x100

  // Bit i of x
  predicate Bit(x: nat, i: nat) { if i == 0 then x % 2 == 1 else Bit(x / 2, i - 1) }

  lemma {:induction false} SameBits(x: nat, y: nat, n: nat)
    requires x < Pow2(n) && y < Pow2(n) && forall i: nat :: i < n ==> Bit(x, i) == Bit(y, i)
    ensures x == y
  {
    if n > 0 {
      assert Bit(x, 0) == Bit(y, 0);
      forall i: nat | i < n - 1 ensures Bit(x / 2, i) == Bit(y / 2, i) { assert Bit(x, i + 1) == Bit(y, i + 1); }
      SameBits(x / 2, y / 2, n - 1);
    }
  }

  // The low n bits of x and y combined by op
  function Bitwise(op: (bool, bool) -> bool, x: nat, y: nat, n: nat): (r: nat)
    ensures r < Pow2(n)
  {
    if n == 0 then 0 else (if op(x % 2 == 1, y % 2 == 1) then 1 else 0) + 2 * Bitwise(op, x / 2, y / 2, n - 1)
  }

  lemma {:induction false} BitwiseBit(op: (bool, bool) -> bool, x: nat, y: nat, n: nat, i: nat)
    requires i < n
    ensures Bit(Bitwise(op, x, y, n), i) == op(Bit(x, i), Bit(y, i))
  {
    var r := Bitwise(op, x / 2, y / 2, n - 1);
    assert Bitwise(op, x, y, n) / 2 == r;
    if i > 0 { BitwiseBit(op, x / 2, y / 2, n - 1, i - 1); }
  }

  lemma Pow2Values()
    ensures Pow2(31) == 0x8000_0000 && Pow2(32) == 0x1_0000_0000
  {
    assert Pow2(4) == 16;
    Pow2Sum(4, 4);
    Pow2Sum(8, 8);
    Pow2Sum(16, 16);
  }

  lemma {:induction false} Pow2Sum(a: nat, b: nat)
    ensures Pow2(a + b) == Pow2(a) * Pow2(b)
  {
    if a > 0 { Pow2Sum(a - 1, b); }
  }

  // ---------- the operators ----------

  predicate Both(a: bool, b: bool) { a && b }

  predicate Either(a: bool, b: bool) { a || b }

  predicate Differ(a: bool, b: bool) { a != b }

  predicate NotFirst(a: bool, b: bool) { !a }

  function And(x: Word, y: Word): Word { Pow2Values(); Bitwise(Both, x, y, 32) }

  function Or(x: Word, y: Word): Word { Pow2Values(); Bitwise(Either, x, y, 32) }

  function Xor(x: Word, y: Word): Word { Pow2Values(); Bitwise(Differ, x, y, 32) }

  function Not(x: Word): Word { Pow2Values(); Bitwise(NotFirst, x, 0, 32) }

  function Plus(x: Word, y: Word): Word { (x + y) % 0x1_0000_0000 }

  function Minus(x: Word, y: Word): Word { (x - y) % 0x1_0000_0000 }

  // x << n: the bits that leave the word are lost.
  function Shl(x: Word, n: nat): Word
    decreases n
  {
    if n == 0 then x else Shl(2 * x % 0x1_0000_0000, n - 1)
  }

  // x >> n
  function Shr(x: Word, n: nat): Word { if n == 0 then x else Shr(x / 2, n - 1) }

  // ---------- bits of the operators ----------

  lemma {:induction false} ShrBit(x: Word, n: nat, i: nat)
    ensures Bit(Shr(x, n), i) == Bit(x, i + n)
  {
    if n > 0 { ShrBit(x / 2, n - 1, i); }
  }

  lemma {:induction false} HighBitOff(x: nat, k: nat, i: nat)
    requires i < k
    ensures Bit(x + Pow2(k), i) == Bit(x, i)
  {
    if i > 0 { HighBitOff(x / 2, k - 1, i - 1); }
  }

  lemma DoubleBit(x: Word, i: nat)
    requires i < 32
    ensures Bit(2 * x % 0x1_0000_0000, i) == (i > 0 && Bit(x, i - 1))
  {
    Pow2Values();
    var y := x % 0x8000_0000;
    assert 2 * x % 0x1_0000_0000 == 2 * y;
    if i > 0 && x >= 0x8000_0000 { HighBitOff(y, 31, i - 1); }
  }

  lemma {:induction false} ShlBit(x: Word, n: nat, i: nat)
    requires i < 32
    ensures Bit(Shl(x, n), i) == (i >= n && Bit(x, i - n))
    decreases n
  {
    if n > 0 {
      ShlBit(2 * x % 0x1_0000_0000, n - 1, i);
      if i >= n - 1 { DoubleBit(x, i - (n - 1)); }
    }
  }

  // ---------- arithmetic of the operators ----------

  lemma {:induction false} ShlIs(x: Word, n: nat)
    requires ShiftLeft(x, n) < 0x1_0000_0000
    ensures Shl(x, n) == ShiftLeft(x, n)
    decreases n
  {
    if n > 0 {
      ShiftLeftGrows(x, n - 1);
      ShiftLeftOrder(x, x, n - 1);
      ShlIs(2 * x, n - 1);
    }
  }

  lemma {:induction false} ShiftLeftGrows(x: nat, n: nat)
    ensures x <= ShiftLeft(x, n)
  {
    if n > 0 { ShiftLeftGrows(x, n - 1); }
  }

  // When the bits of a lie above those of y, "or" adds the two.
  lemma {:induction false} OrIsPlus(a: nat, k: nat, y: nat, n: nat)
    requires y < Pow2(k) && k <= n && ShiftLeft(a, k) < Pow2(n)
    ensures Bitwise(Either, y, ShiftLeft(a, k), n) == y + ShiftLeft(a, k)
    decreases n
  {
    if n > 0 {
      if k > 0 { OrIsPlus(a, k - 1, y / 2, n - 1); } else { OrIsPlus(a / 2, 0, 0, n - 1); }
    }
  }

  // The low k bits of x
  function Low(x: nat, k: nat): nat { if k == 0 then 0 else x % 2 + 2 * Low(x / 2, k - 1) }

  lemma {:induction false} MaskIsLow(x: nat, k: nat, n: nat)
    requires k <= n
    ensures Bitwise(Both, x, Pow2(k) - 1, n) == Low(x, k)
  {
    if k > 0 {
      assert (Pow2(k) - 1) / 2 == Pow2(k - 1) - 1;
      MaskIsLow(x / 2, k - 1, n - 1);
    } else if n > 0 {
      MaskIsLow(x / 2, 0, n - 1);
    }
  }

  lemma LowPast2(x: nat, k: nat)
    ensures Low(x, k + 2) == x % 4 + 4 * Low(x / 4, k)
  {
    assert Low(x / 2, k + 1) == x / 2 % 2 + 2 * Low(x / 2 / 2, k);
  }

  lemma LowPast4(x: nat, k: nat)
    ensures Low(x, k + 4) == x % 16 + 16 * Low(x / 16, k)
  {
    hide Low;
    LowPast2(x, k + 2);
    LowPast2(x / 4, k);
  }

  lemma Low2And4(x: nat)
    ensures Low(x, 2) == x % 4 && Low(x, 4) == x % 16
  {
    LowPast2(x, 0);
    LowPast4(x, 0);
  }

  lemma Low6And8(x: nat)
    ensures Low(x, 6) == x % 64 && Low(x, 8) == x % 256
  {
    hide Low;
    LowPast4(x, 2);
    LowPast4(x, 4);
    Low2And4(x / 16);
    SixBits(x);
    EightBits(x);
  }

  lemma SixBits(x: nat)
    ensures x % 64 == x % 16 + 16 * (x / 16 % 4)
  {
    var q, r := x / 16, x % 16;
    var h, k := q / 4, q % 4;
    assert x == 64 * h + (16 * k + r);
  }

  lemma EightBits(x: nat)
    ensures x % 256 == x % 16 + 16 * (x / 16 % 16)
  {
    var q, r := x / 16, x % 16;
    var h, k := q / 16, q % 16;
    assert x == 256 * h + (16 * k + r);
  }
}
