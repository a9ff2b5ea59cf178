// Well-formed UTF-8 (section 4 of RFC 3629).

module Utf8 {
  import opened Words

  predicate IsTail(b: Byte) { 0x80 <= b <= 0xBF }

  // Length of the character at the start of s; 0 if it is ill-formed
  function CharLength(s: seq<Byte>): (n: nat)
    ensures n <= |s|
  {
    if s == [] then 0
    else if s[0] <= 0x7F then 1
    else if |s| < 2 then 0
    else if 0xC2 <= s[0] <= 0xDF then if IsTail(s[1]) then 2 else 0
    else if |s| < 3 then 0
    else if 0xE0 <= s[0] <= 0xEF then
      if IsTail(s[1]) && IsTail(s[2]) && (s[0] == 0xE0 ==> 0xA0 <= s[1]) && (s[0] == 0xED ==> s[1] <= 0x9F) then 3 else 0
    else if |s| < 4 then 0
    else if 0xF0 <= s[0] <= 0xF4 then
      if IsTail(s[1]) && IsTail(s[2]) && IsTail(s[3]) && (s[0] == 0xF0 ==> 0x90 <= s[1]) && (s[0] == 0xF4 ==> s[1] <= 0x8F) then 4 else 0
    else 0
  }

  predicate IsUtf8(s: seq<Byte>)
    decreases |s|
  {
    s == [] || (CharLength(s) > 0 && IsUtf8(s[CharLength(s)..]))
  }

  // ---------- the encoded scalar values ----------

  // A code point that is not a surrogate
  predicate IsScalar(c: nat) { c <= 0xD7FF || 0xE000 <= c <= 0x10FFFF }

  // Section 3 of RFC 3629
  function EncodeChar(c: nat): (s: seq<Byte>)
    requires IsScalar(c)
    ensures s != []
  {
    if c < 0x80 then [c]
    else if c < 0x800 then [0xC0 + c / 0x40, 0x80 + c % 0x40]
    else if c < 0x1_0000 then [0xE0 + c / 0x1000, 0x80 + c / 0x40 % 0x40, 0x80 + c % 0x40]
    else [0xF0 + c / 0x4_0000, 0x80 + c / 0x1000 % 0x40, 0x80 + c / 0x40 % 0x40, 0x80 + c % 0x40]
  }

  function EncodeAll(cs: seq<nat>): seq<Byte>
    requires forall c :: c in cs ==> IsScalar(c)
  {
    if cs == [] then [] else assert cs[0] in cs; EncodeChar(cs[0]) + EncodeAll(cs[1..])
  }

  lemma CharRead(c: nat, t: seq<Byte>)
    requires IsScalar(c)
    ensures CharLength(EncodeChar(c) + t) == |EncodeChar(c)|
  {
    var s, e := EncodeChar(c) + t, EncodeChar(c);
    assert forall i :: 0 <= i < |e| ==> s[i] == e[i];
  }

  // The six-bit groups of a number
  lemma Groups(w: nat, x: nat, y: nat, z: nat)
    requires x < 0x40 && y < 0x40 && z < 0x40
    ensures var c := 0x4_0000 * w + 0x1000 * x + 0x40 * y + z;
            c / 0x4_0000 == w && c / 0x1000 % 0x40 == x && c / 0x40 % 0x40 == y && c % 0x40 == z
  {
    var c := 0x4_0000 * w + 0x1000 * x + 0x40 * y + z;
    assert c / 0x40 == 0x1000 * w + 0x40 * x + y;
    assert c / 0x1000 == 0x40 * w + x;
  }

  lemma Groups3(x: nat, y: nat, z: nat)
    requires x < 0x40 && y < 0x40 && z < 0x40
    ensures var c := 0x1000 * x + 0x40 * y + z; c / 0x1000 == x && c / 0x40 % 0x40 == y && c % 0x40 == z
  {
    Groups(0, x, y, z);
  }

  lemma Char2(p: Byte, q: Byte) returns (c: nat)
    requires 0xC2 <= p <= 0xDF && IsTail(q)
    ensures IsScalar(c) && EncodeChar(c) == [p, q]
  {
    c := 0x40 * (p as int - 0xC0) + (q as int - 0x80);
  }

  lemma Char3(p: Byte, q: Byte, r: Byte) returns (c: nat)
    requires 0xE0 <= p <= 0xEF && IsTail(q) && IsTail(r) && (p == 0xE0 ==> 0xA0 <= q) && (p == 0xED ==> q <= 0x9F)
    ensures IsScalar(c) && EncodeChar(c) == [p, q, r]
  {
    var x: nat, y: nat, z: nat := p as int - 0xE0, q as int - 0x80, r as int - 0x80;
    c := 0x1000 * x + 0x40 * y + z;
    Groups3(x, y, z);
  }

  lemma Char4(p: Byte, q: Byte, r: Byte, u: Byte) returns (c: nat)
    requires 0xF0 <= p <= 0xF4 && IsTail(q) && IsTail(r) && IsTail(u) && (p == 0xF0 ==> 0x90 <= q) && (p == 0xF4 ==> q <= 0x8F)
    ensures IsScalar(c) && EncodeChar(c) == [p, q, r, u]
  {
    var w: nat, x: nat, y: nat, z: nat := p as int - 0xF0, q as int - 0x80, r as int - 0x80, u as int - 0x80;
    c := 0x4_0000 * w + 0x1000 * x + 0x40 * y + z;
    Groups(w, x, y, z);
  }

  lemma CharFound(s: seq<Byte>) returns (c: nat)
    requires CharLength(s) > 0
    ensures IsScalar(c) && s[..CharLength(s)] == EncodeChar(c)
  {
    var n := CharLength(s);
    if n == 1 {
      c := s[0];
      assert s[..1] == [s[0]];
    } else if n == 2 {
      c := Char2(s[0], s[1]);
      assert s[..2] == [s[0], s[1]];
    } else if n == 3 {
      c := Char3(s[0], s[1], s[2]);
      assert s[..3] == [s[0], s[1], s[2]];
    } else {
      c := Char4(s[0], s[1], s[2], s[3]);
      assert s[..4] == [s[0], s[1], s[2], s[3]];
    }
  }

  lemma {:induction false} AllRead(cs: seq<nat>)
    requires forall c :: c in cs ==> IsScalar(c)
    ensures IsUtf8(EncodeAll(cs))
  {
    hide CharLength, EncodeChar, IsScalar;
    if cs != [] {
      assert cs[0] in cs;
      CharRead(cs[0], EncodeAll(cs[1..]));
      assert EncodeAll(cs)[|EncodeChar(cs[0])|..] == EncodeAll(cs[1..]);
      AllRead(cs[1..]);
    }
  }

  lemma {:induction false} AllFound(s: seq<Byte>) returns (cs: seq<nat>)
    requires IsUtf8(s)
    ensures (forall c :: c in cs ==> IsScalar(c)) && s == EncodeAll(cs)
    decreases |s|
  {
    hide CharLength, EncodeChar, IsScalar;
    if s == [] {
      cs := [];
    } else {
      var n := CharLength(s);
      var c := CharFound(s);
      var rest := AllFound(s[n..]);
      cs := [c] + rest;
      assert cs[1..] == rest && s == s[..n] + s[n..];
    }
  }

  // The check holds of the encodings of sequences of scalar values, and of nothing else.
  lemma Utf8Exactly(s: seq<Byte>)
    ensures IsUtf8(s) <==> exists cs: seq<nat> :: (forall c :: c in cs ==> IsScalar(c)) && s == EncodeAll(cs)
  {
    if IsUtf8(s) { var cs := AllFound(s); }
    if cs: seq<nat> :| (forall c :: c in cs ==> IsScalar(c)) && s == EncodeAll(cs) { AllRead(cs); }
  }

  function LowBits(b: Byte, m: nat): nat
    requires m > 0
  {
    b % m
  }

  // The bits of a character: the high ones of the first byte tell how many bytes there are.
  lemma CharBits(c: nat)
    requires IsScalar(c)
    ensures c <= 0x7F ==> EncodeChar(c) == [c]
    ensures 0x7F < c <= 0x7FF ==>
              var s := EncodeChar(c); |s| == 2 && s[0] / 0x20 == 6 && c == 0x40 * LowBits(s[0], 0x20) + LowBits(s[1], 0x40)
    ensures 0x7FF < c <= 0xFFFF ==>
              var s := EncodeChar(c);
              && |s| == 3 && s[0] / 0x10 == 14
              && c == 0x1000 * LowBits(s[0], 0x10) + 0x40 * LowBits(s[1], 0x40) + LowBits(s[2], 0x40)
    ensures 0xFFFF < c ==>
              var s := EncodeChar(c);
              && |s| == 4 && s[0] / 8 == 30
              && c == 0x4_0000 * LowBits(s[0], 8) + 0x1000 * LowBits(s[1], 0x40) + 0x40 * LowBits(s[2], 0x40) + LowBits(s[3], 0x40)
    ensures forall i :: 0 < i < |EncodeChar(c)| ==> EncodeChar(c)[i] / 0x40 == 2
  {
    var x, y, z := c / 0x1000 % 0x40, c / 0x40 % 0x40, c % 0x40;
    SixBits(c);
    Marked(x);
    Marked(y);
    Marked(z);
    if c > 0xFFFF {
      First(c / 0x4_0000, 8, 30);
    } else if c > 0x7FF {
      First(c / 0x1000, 0x10, 14);
    } else if c > 0x7F {
      First(c / 0x40, 0x20, 6);
    }
  }

  lemma Marked(x: nat)
    requires x < 0x40
    ensures (0x80 + x) / 0x40 == 2 && LowBits(0x80 + x, 0x40) == x
  {
  }

  lemma First(x: nat, m: nat, k: nat)
    requires (m == 8 && k == 30) || (m == 0x10 && k == 14) || (m == 0x20 && k == 6)
    requires x < m
    ensures (m * k + x) / m == k && LowBits(m * k + x, m) == x
  {
    if m == 8 { assert (240 + x) / 8 == 30; } else if m == 0x10 { assert (224 + x) / 16 == 14; } else { assert (192 + x) / 32 == 6; }
  }

  lemma SixBits(c: nat)
    ensures c == 0x4_0000 * (c / 0x4_0000) + 0x1000 * (c / 0x1000 % 0x40) + 0x40 * (c / 0x40 % 0x40) + c % 0x40
    ensures c == 0x1000 * (c / 0x1000) + 0x40 * (c / 0x40 % 0x40) + c % 0x40
  {
    assert c / 0x40 / 0x40 == c / 0x1000 && c / 0x1000 / 0x40 == c / 0x4_0000;
    assert c / 0x40 == 0x40 * (c / 0x1000) + c / 0x40 % 0x40 && c / 0x1000 == 0x40 * (c / 0x4_0000) + c / 0x1000 % 0x40;
  }

  // The first and last characters of each length, and their neighbours that are not allowed
  lemma Limits()
    ensures IsUtf8([0x00]) && IsUtf8([0x7F]) && !IsUtf8([0x80]) && !IsUtf8([0xBF])
    ensures IsUtf8([0xC2, 0x80]) && IsUtf8([0xDF, 0xBF]) && !IsUtf8([0xC1, 0xBF]) && !IsUtf8([0xC2])
    ensures IsUtf8([0xE0, 0xA0, 0x80]) && IsUtf8([0xEF, 0xBF, 0xBF]) && !IsUtf8([0xE0, 0x9F, 0xBF])
    ensures IsUtf8([0xED, 0x9F, 0xBF]) && IsUtf8([0xEE, 0x80, 0x80]) && !IsUtf8([0xED, 0xA0, 0x80]) && !IsUtf8([0xED, 0xBF, 0xBF])
    ensures IsUtf8([0xF0, 0x90, 0x80, 0x80]) && IsUtf8([0xF4, 0x8F, 0xBF, 0xBF])
    ensures !IsUtf8([0xF0, 0x8F, 0xBF, 0xBF]) && !IsUtf8([0xF4, 0x90, 0x80, 0x80]) && !IsUtf8([0xF5, 0x80, 0x80, 0x80])
  {
    forall s: seq<Byte> | CharLength(s) == |s| > 0 ensures IsUtf8(s) { assert s[|s|..] == []; }
  }
}
