// Powers of two and the load arithmetic of the hash table.

module Arithmetic {

  function Min(a: nat, b: nat): nat { if a <= b then a else b }

  function Max(a: nat, b: nat): nat { if a <= b then b else a }

  function Pow2(e: nat): (p: nat)
    ensures 0 < p
  {
    if e == 0 then 1 else 2 * Pow2(e - 1)
  }

  ghost predicate IsPow2(n: nat) { exists e: nat :: n == Pow2(e) }

  // x & (n - 1), bit by bit, for n a power of two
  function Mask(x: nat, n: nat): (r: nat)
    requires 0 < n
    ensures r < n
  {
    if n == 1 then 0 else x % 2 + 2 * Mask(x / 2, n / 2)
  }

  // x >> e
  function ShiftRight(x: nat, e: nat): nat { if e == 0 then x else ShiftRight(x / 2, e - 1) }

  // x << e
  function ShiftLeft(x: nat, e: nat): nat { if e == 0 then x else 2 * ShiftLeft(x, e - 1) }

  lemma {:induction false} Pow2Grows(a: nat, b: nat)
    requires a <= b
    ensures Pow2(a) <= Pow2(b)
    ensures a < b ==> 2 * Pow2(a) <= Pow2(b)
    decreases b
  {
    if a < b { Pow2Grows(a, b - 1); }
  }

  lemma {:induction false} ShiftPow2(e: nat, l: nat)
    requires l <= e
    ensures ShiftRight(Pow2(e), l) == Pow2(e - l) && Pow2(e) == ShiftLeft(Pow2(e - l), l)
  {
    if l > 0 {
      ShiftPow2(e - 1, l - 1);
    }
  }

  lemma {:induction false} ShiftLeftOrder(x: nat, y: nat, e: nat)
    ensures x < y ==> ShiftLeft(x, e) < ShiftLeft(y, e)
    ensures ShiftLeft(2 * x, e) == 2 * ShiftLeft(x, e) && ShiftLeft(3 * y, e) == 3 * ShiftLeft(y, e)
    ensures ShiftLeft(1, e) == Pow2(e)
  {
    if e > 0 { ShiftLeftOrder(x, y, e - 1); }
  }

  // ---------- what masks and shifts are ----------

  lemma {:induction false} LeftScaled(x: nat, e: nat)
    ensures ShiftLeft(x, e) == x * Pow2(e)
  {
    if e > 0 {
      LeftScaled(x, e - 1);
    }
  }

  lemma {:induction false} RightScaled(x: nat, e: nat)
    ensures ShiftRight(x, e) == x / Pow2(e)
  {
    if e > 0 {
      RightScaled(x / 2, e - 1);
      HalfFirst(x, Pow2(e - 1));
    }
  }

  lemma HalfFirst(x: nat, p: nat)
    requires 0 < p
    ensures x / 2 / p == x / (2 * p) && x % (2 * p) == x % 2 + 2 * (x / 2 % p)
  {
    var h := x / 2;
    var q, r := h / p, h % p;
    assert h == q * p + r;
    var r2 := 2 * r + x % 2;
    assert x == q * (2 * p) + r2 && r2 < 2 * p;
    Quotient(x, 2 * p, q, r2);
  }

  lemma Quotient(x: nat, d: nat, q: nat, r: nat)
    requires r < d && x == q * d + r
    ensures x / d == q && x % d == r
  {
    assert (x / d - q) * d == r - x % d;
    SmallMultiple(x / d - q, d);
  }

  lemma SmallMultiple(a: int, d: nat)
    ensures 0 < a * d + d && a * d < d ==> a == 0
  {
    if a > 0 { assert (a - 1) * d >= 0; }
    if a < 0 { assert (-a - 1) * d >= 0; }
  }

  // Masking with n - 1 is the remainder modulo n.
  lemma {:induction false} MaskIs(x: nat, e: nat)
    ensures Mask(x, Pow2(e)) == x % Pow2(e)
  {
    if e > 0 {
      MaskIs(x / 2, e - 1);
      HalfFirst(x, Pow2(e - 1));
    }
  }

  // ---------- sizes ----------

  // A table size is a power of two from 8 up, hence even.
  lemma Pow2Even(n: nat)
    requires IsPow2(n) && 1 < n
    ensures n % 2 == 0 && IsPow2(2 * n) && (8 < n ==> 16 <= n)
  {
    var e: nat :| n == Pow2(e);
    assert Pow2(e + 1) == 2 * n;
    assert Pow2(3) == 8 && Pow2(4) == 16;
    if e <= 3 { Pow2Grows(e, 3); } else { Pow2Grows(4, e); }
  }

  // The reduction factor stays below the table size.
  lemma FactorFits(e: nat, lg: nat, hyp: nat, hi: nat)
    requires 1 <= hyp && hi < Pow2(e) && 1 <= e && 1 <= lg && (lg > 1 ==> ShiftLeft(hyp, lg - 1) < hi)
    ensures lg <= e
  {
    if e < lg {
      ShiftLeftOrder(1, hyp, lg - 1);
      Pow2Grows(e, lg - 1);
      assert false;
    }
  }

  // The size chosen when shrinking keeps the load under 6/5: lg is the least factor, past the
  // first, at which the padded size no longer fits under the high-water mark hi.
  lemma ShrunkSize(n: nat, lg: nat, newSize: nat, hi: nat)
    requires IsPow2(n) && 8 < n && hi == n * 12 / 16 && 1 <= lg && newSize <= hi / 4
    requires lg > 1 ==> ShiftLeft(newSize * 5 / 4 + 1, lg - 1) < hi
    ensures var m := Max(8, ShiftRight(n, lg)); IsPow2(m) && m < n && m % 2 == 0 && 5 * newSize < 6 * m
  {
    var e: nat :| n == Pow2(e);
    var hyp := newSize * 5 / 4 + 1;
    Pow2Even(n);
    FactorFits(e, lg, hyp, hi);
    ShiftPow2(e, lg);
    var q := Pow2(e - lg);
    assert n == 2 * ShiftLeft(q, lg - 1);
    assert 5 * newSize < 6 * q by {
      if lg > 1 {
        ShiftLeftOrder(hyp, q, lg - 1);
        ShiftLeftOrder(3 * q, 2 * hyp, lg - 1);
        assert 2 * hyp <= 3 * q;
      }
    }
    assert q < n by { Pow2Grows(e - lg, e); }
    assert IsPow2(q) && IsPow2(8) by { assert Pow2(3) == 8; }
    if 8 < q { Pow2Even(q); }
  }

  // The least shift from lg on at which x reaches hi
  function LeastShift(x: nat, hi: nat, lg: nat): (e: nat)
    requires 0 < x
    ensures lg <= e && ShiftLeft(x, e) >= hi && (lg < e ==> ShiftLeft(x, e - 1) < hi)
    decreases hi - ShiftLeft(x, lg)
  {
    ShiftLeftOrder(0, x, lg);
    if ShiftLeft(x, lg) < hi then LeastShift(x, hi, lg + 1) else lg
  }

  // The size to shrink to from n buckets for the given number of elements
  function ShrunkTo(n: nat, newSize: nat): nat {
    Max(8, ShiftRight(n, LeastShift(newSize * 5 / 4 + 1, n * 12 / 16, 1)))
  }

  // The size chosen does not always avoid growing again at once: with 12 elements, 64 buckets shrink to
  // 16, which are as full as they may be.
  lemma GrowsAgain()
    ensures 12 <= 64 * 12 / 16 / 4 && ShrunkTo(64, 12) == 16 && 12 >= 16 * 12 / 16
  {
    assert ShiftLeft(16, 1) == 32 && ShiftLeft(16, 2) == 64;
    assert LeastShift(16, 48, 2) == 2 && LeastShift(16, 48, 1) == 2;
    assert ShiftRight(64, 2) == 16;
  }

  // Of n / 2, n / 4, and so on, the size to shrink to is the greatest of which three quarters are no
  // more than the elements, a quarter more and one; and never less than 8.
  lemma ShrunkExactly(n: nat, newSize: nat)
    requires IsPow2(n) && 8 < n && 16 * newSize <= 3 * n
    ensures var m, padded := ShrunkTo(n, newSize), newSize * 5 / 4 + 1;
            && IsPow2(m) && 8 <= m <= n / 2
            && (8 < m ==> 3 * m <= 4 * padded) && (m < n / 2 ==> 6 * m > 4 * padded)
  {
    var e: nat :| n == Pow2(e);
    var hyp, hi := newSize * 5 / 4 + 1, n * 12 / 16;
    var lg := LeastShift(hyp, hi, 1);
    Quarters(n);
    Pow2Even(n);
    FactorFits(e, lg, hyp, hi);
    ShiftPow2(e, lg);
    ShrunkSize(n, lg, newSize, hi);
    var q := Pow2(e - lg);
    Scaled(hyp, q, lg);
    Scaled(hyp, 2 * q, lg - 1);
    ShiftLeftOrder(q, q, lg - 1);
    Pow2Grows(e - lg, e - 1);
  }

  lemma Scaled(x: nat, y: nat, e: nat)
    ensures 4 * ShiftLeft(x, e) >= 3 * ShiftLeft(y, e) <==> 4 * x >= 3 * y
  {
    ShiftLeftOrder(x, y, e);
    ShiftLeftOrder(2 * x, y, e);
    ShiftLeftOrder(4 * x, 3 * y, e);
    ShiftLeftOrder(3 * y, 4 * x, e);
  }

  // The number of buckets for one more element
  function NextSize(n: nat, newSize: nat): nat {
    var hi := n * 12 / 16;
    if newSize >= hi then if n <= 0x800_0000_0000_0000 then n * 2 else n
    else if newSize <= hi / 4 && 8 < n then ShrunkTo(n, newSize)
    else n
  }

  // It doubles when three quarters are reached, and shrinks when no more than a quarter of that is used.
  lemma NextSizeIs(n: nat, newSize: nat)
    requires IsPow2(n) && 8 <= n
    ensures NextSize(n, newSize) > n <==> 4 * newSize >= 3 * n && n <= 0x800_0000_0000_0000
    ensures NextSize(n, newSize) > n ==> NextSize(n, newSize) == 2 * n
    ensures NextSize(n, newSize) < n <==> 16 * newSize <= 3 * n && 8 < n
    ensures NextSize(n, newSize) < n ==> NextSize(n, newSize) == ShrunkTo(n, newSize)
  {
    hide ShrunkTo;
    if 16 * newSize <= 3 * n && 8 < n { ShrunkExactly(n, newSize); }
    Pow2Even(n);
    Quarters(n);
  }

  lemma Quarters(n: nat)
    requires IsPow2(n) && 8 <= n
    ensures 4 * (n * 12 / 16) == 3 * n && (8 < n ==> 16 * (n * 12 / 16 / 4) == 3 * n)
  {
    var e: nat :| n == Pow2(e);
    assert Pow2(2) == 4;
    if e < 3 {
      Pow2Grows(e, 2);
      assert false;
    }
    assert n == 8 * Pow2(e - 3) by { assert n == 2 * Pow2(e - 1) && Pow2(e - 1) == 2 * Pow2(e - 2); }
    if e == 3 { assert Pow2(0) == 1; } else { assert Pow2(e - 3) == 2 * Pow2(e - 4); }
  }
}
