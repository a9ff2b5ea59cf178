// Percent-encoding (section 2.1 of RFC 3986) over signed 8-bit characters.

module UriEncoding {
  import opened Results
  import opened Characters

  type Char = x: int | -0x80 <= x < 0x80

  // The characters that encode_char passes on
  predicate IsPlain(c: Char) {
    'a' as int <= c <= 'z' as int || 'A' as int <= c <= 'Z' as int || '0' as int <= c <= '9' as int
    || c == '-' as int || c == '.' as int || c == '_' as int || c == '~' as int || c == '/' as int
  }

  const PERCENT: Char := '%' as int

  // ---------- encoding ----------

  // Anything that is not a decimal digit counts from 'A', a negative number too.
  function HexToLetter(v: int): (c: Char)
    requires -8 <= v < 16
  {
    if 0 <= v <= 9 then v + '0' as int else v - 10 + 'A' as int
  }

  // in >> 4 and in & 0x0f of a signed character
  function High(c: Char): (v: int)
    ensures -8 <= v < 8
  {
    c / 16
  }

  function Low(c: Char): (v: int)
    ensures 0 <= v < 16
  {
    c % 16
  }

  function EncodedChar(c: Char): seq<Char> {
    if IsPlain(c) then [c] else [PERCENT, HexToLetter(High(c)), HexToLetter(Low(c))]
  }

  function Encoded(s: seq<Char>): seq<Char> { if s == [] then [] else EncodedChar(s[0]) + Encoded(s[1..]) }

  method EncodeChar(c: Char, out: seq<Char>) returns (r: seq<Char>)
    ensures r == out + EncodedChar(c)
  {
    if IsPlain(c) {
      r := out + [c];
    } else {
      r := out + [PERCENT];
      r := r + [HexToLetter(High(c))];
      r := r + [HexToLetter(Low(c))];
    }
  }

  method Encode(input: seq<Char>) returns (out: seq<Char>)
    ensures out == Encoded(input)
  {
    hide EncodedChar;
    out := [];
    var i := 0;
    assert input[0..] == input;
    while i < |input|
      invariant i <= |input| && out + Encoded(input[i..]) == Encoded(input)
    {
      assert input[i..][0] == input[i] && input[i..][1..] == input[i + 1..];
      out := EncodeChar(input[i], out);
      i := i + 1;
    }
  }

  // ---------- decoding ----------

  // Zero for anything that is not a digit
  function LetterToHex(c: Char): (v: nat)
    ensures v < 16
  {
    if '0' as int <= c <= '9' as int then c - '0' as int
    else if 'a' as int <= c <= 'f' as int then c + 10 - 'a' as int
    else if 'A' as int <= c <= 'F' as int then c + 10 - 'A' as int
    else 0
  }

  // What is assigned to a character keeps its low eight bits.
  function ToChar(n: nat): Char
    requires n < 0x100
  {
    if n < 0x80 then n else n - 0x100
  }

  // Two characters follow every percent sign: the decoder reads them without a look at the end.
  predicate IsComplete(s: seq<Char>)
    decreases |s|
  {
    s == [] || if s[0] == PERCENT then |s| >= 3 && IsComplete(s[3..]) else IsComplete(s[1..])
  }

  function Decoded(s: seq<Char>): seq<Char>
    requires IsComplete(s)
    decreases |s|
  {
    if s == [] then []
    else if s[0] == PERCENT then [ToChar(0x10 * LetterToHex(s[1]) + LetterToHex(s[2]))] + Decoded(s[3..])
    else [s[0]] + Decoded(s[1..])
  }

  lemma NothingLeft()
    ensures IsComplete([]) && Decoded([]) == []
  {
  }

  // What the decoder finds at place i
  lemma Unfolded(s: seq<Char>, i: nat)
    requires i < |s|
    ensures s[i] != PERCENT ==> (IsComplete(s[i..]) <==> IsComplete(s[i + 1..]))
    ensures s[i] != PERCENT && IsComplete(s[i..]) ==> Decoded(s[i..]) == [s[i]] + Decoded(s[i + 1..])
    ensures s[i] == PERCENT && |s| < i + 3 ==> !IsComplete(s[i..])
    ensures s[i] == PERCENT && |s| >= i + 3 ==> (IsComplete(s[i..]) <==> IsComplete(s[i + 3..]))
    ensures s[i] == PERCENT && IsComplete(s[i..]) ==>
              Decoded(s[i..]) == [ToChar(0x10 * LetterToHex(s[i + 1]) + LetterToHex(s[i + 2]))] + Decoded(s[i + 3..])
  {
    hide LetterToHex, ToChar;
    assert s[i..][1..] == s[i + 1..];
    if |s| >= i + 3 { assert s[i..][3..] == s[i + 3..]; }
  }

  // None stands for a read past the end of the input.
  method Decode(input: seq<Char>) returns (r: Option<seq<Char>>)
    ensures r.Some? <==> IsComplete(input)
    ensures r.Some? ==> r.value == Decoded(input)
  {
    hide IsComplete, Decoded, LetterToHex, ToChar;
    var out := [];
    var i := 0;
    assert input[0..] == input;
    while i < |input|
      invariant i <= |input| && (IsComplete(input[i..]) <==> IsComplete(input))
      invariant IsComplete(input) ==> out + Decoded(input[i..]) == Decoded(input)
    {
      Unfolded(input, i);
      if input[i] == PERCENT {
        i := i + 1;
        if i == |input| { return None; }
        var v0 := LetterToHex(input[i]);
        i := i + 1;
        if i == |input| { return None; }
        var v1 := LetterToHex(input[i]);
        i := i + 1;
        out := out + [ToChar(0x10 * v0 + v1)];
      } else {
        out := out + [input[i]];
        i := i + 1;
      }
    }
    NothingLeft();
    assert input[i..] == [];
    r := Some(out);
  }

  // ---------- round trips ----------

  lemma FirstTriple(s: seq<Char>)
    requires IsComplete(s) && s != [] && s[0] == PERCENT
    ensures Decoded(s) == [ToChar(0x10 * LetterToHex(s[1]) + LetterToHex(s[2]))] + Decoded(s[3..])
  {
  }

  const LOWER: string := "0123456789abcdef"
  const UPPER: string := "0123456789ABCDEF"

  // The digits are worth their places, in either case; anything else is worth nothing.
  lemma DigitValues(c: Char)
    ensures forall k :: 0 <= k < 16 ==> LetterToHex(LOWER[k] as int) == k && LetterToHex(UPPER[k] as int) == k
    ensures (forall k :: 0 <= k < 16 ==> LOWER[k] as int != c && UPPER[k] as int != c) ==> LetterToHex(c) == 0
  {
    if LetterToHex(c) > 0 {
      var k := LetterToHex(c);
      assert LOWER[k] as int == c || UPPER[k] as int == c;
    }
  }

  // A character, or a percent sign with two digits for it
  predicate Spells(t: seq<Char>, c: Char) {
    || (t == [c] && c != PERCENT)
    || (|t| == 3 && t[0] == PERCENT
        && var n := if c < 0 then c + 0x100 else c;
           && (t[1] == LOWER[n / 16] as int || t[1] == UPPER[n / 16] as int)
           && (t[2] == LOWER[n % 16] as int || t[2] == UPPER[n % 16] as int))
  }

  lemma SpelledChar(t: seq<Char>, c: Char)
    requires Spells(t, c)
    ensures IsComplete(t) && Decoded(t) == [c]
  {
    if |t| == 3 && t[0] == PERCENT {
      hide LetterToHex;
      DigitValues(0);
      assert t[3..] == [];
      FirstTriple(t);
    } else {
      assert t[1..] == [];
    }
  }

  function Join(ts: seq<seq<Char>>): seq<Char> { if ts == [] then [] else ts[0] + Join(ts[1..]) }

  // Whatever way its characters are spelled, the string comes out.
  lemma {:induction false} SpelledDecoded(ts: seq<seq<Char>>, s: seq<Char>)
    requires |ts| == |s| && forall i :: 0 <= i < |s| ==> Spells(ts[i], s[i])
    ensures IsComplete(Join(ts)) && Decoded(Join(ts)) == s
  {
    hide Spells;
    if s != [] {
      SpelledChar(ts[0], s[0]);
      SpelledDecoded(ts[1..], s[1..]);
      DecodedAppend(ts[0], Join(ts[1..]));
      assert s == [s[0]] + s[1..];
    }
  }

  // Letters, digits and a few signs
  predicate Unreserved(c: Char) {
    c >= 0 && (Letter(c as char) || OneOf(c as char, DIGITS) || OneOf(c as char, "-._~/"))
  }

  // Unreserved characters and slashes are passed on; others become triples with upper-case digits.
  lemma EncodedChars(c: Char)
    ensures EncodedChar(c) == [c] <==> Unreserved(c)
    ensures c >= 0 && !Unreserved(c) ==> EncodedChar(c) == ['%' as int, UPPER[c / 16] as int, UPPER[c % 16] as int]
  {
    hide HexToLetter, Letter;
    if c >= 0 {
      hide OneOf;
      Printables(c as char);
      DigitChars(c as char);
      FewSigns(c as char);
      UpperLetters(c / 16, c % 16);
    }
  }

  lemma FewSigns(c: char)
    ensures OneOf(c, "-._~/") <==> c == '-' || c == '.' || c == '_' || c == '~' || c == '/'
  {
    var s := "-._~/";
    assert s[0] == '-' && s[1] == '.' && s[2] == '_' && s[3] == '~' && s[4] == '/';
  }

  lemma UpperLetters(h: nat, l: nat)
    requires h < 16 && l < 16
    ensures HexToLetter(h) == UPPER[h] as int && HexToLetter(l) == UPPER[l] as int
  {
  }

  // Decoding goes through pieces one after the other.
  lemma {:induction false} DecodedAppend(a: seq<Char>, b: seq<Char>)
    requires IsComplete(a) && IsComplete(b)
    ensures IsComplete(a + b) && Decoded(a + b) == Decoded(a) + Decoded(b)
    decreases |a|
  {
    hide LetterToHex, ToChar;
    if a == [] {
      assert a + b == b;
    } else if a[0] == PERCENT {
      var ab := a + b;
      assert ab[3..] == a[3..] + b && ab[0] == a[0] && ab[1] == a[1] && ab[2] == a[2];
      DecodedAppend(a[3..], b);
      FirstTriple(a);
      FirstTriple(ab);
    } else {
      assert (a + b)[1..] == a[1..] + b;
      DecodedAppend(a[1..], b);
    }
  }

  // The decoder makes one character of an encoded one, the same one if it is not negative.
  lemma CharBack(c: Char)
    ensures IsComplete(EncodedChar(c))
    ensures exists d :: Decoded(EncodedChar(c)) == [d] && (d == c <==> c >= 0)
  {
    if IsPlain(c) {
      assert Decoded(EncodedChar(c)) == [c];
    } else {
      var e := EncodedChar(c);
      assert e[3..] == [];
      assert Decoded(e) == [ToChar(0x10 * LetterToHex(e[1]) + LetterToHex(e[2]))];
    }
  }

  lemma {:induction false} EncodedComplete(s: seq<Char>)
    ensures IsComplete(Encoded(s)) && |Decoded(Encoded(s))| == |s|
    ensures forall i :: 0 <= i < |s| ==> (Decoded(Encoded(s))[i] == s[i] <==> s[i] >= 0)
  {
    if s != [] {
      CharBack(s[0]);
      EncodedComplete(s[1..]);
      DecodedAppend(EncodedChar(s[0]), Encoded(s[1..]));
      forall i | 0 < i < |s| ensures Decoded(Encoded(s))[i] == s[i] <==> s[i] >= 0 { assert s[i] == s[1..][i - 1]; }
    }
  }

  // Encoding and decoding again gives the string back exactly if it has no negative character.
  lemma RoundTripExactly(s: seq<Char>)
    ensures IsComplete(Encoded(s))
    ensures Decoded(Encoded(s)) == s <==> forall i :: 0 <= i < |s| ==> s[i] >= 0
  {
    EncodedComplete(s);
  }

  // The character -1 is encoded as %6F, which is an o.
  lemma NegativeLost()
    ensures Encoded([-1]) == [PERCENT, '6' as int, 'F' as int]
    ensures IsComplete(Encoded([-1])) && Decoded(Encoded([-1])) == ['o' as int]
  {
    var t := EncodedChar(-1);
    assert [-1][1..] == [] && Encoded([-1]) == t + [] == t;
    assert t[3..] == [];
    FirstTriple(t);
  }

  lemma ConcatenationRoundTrip(a: seq<Char>, b: seq<Char>)
    requires forall i :: 0 <= i < |a| ==> a[i] >= 0
    requires forall i :: 0 <= i < |b| ==> b[i] >= 0
    ensures IsComplete(Encoded(a) + Encoded(b)) && Decoded(Encoded(a) + Encoded(b)) == a + b
  {
    RoundTripExactly(a);
    RoundTripExactly(b);
    DecodedAppend(Encoded(a), Encoded(b));
  }

  // ---------- the encoded language ----------

  predicate IsUpperHex(c: Char) { '0' as int <= c <= '9' as int || 'A' as int <= c <= 'F' as int }

  // Plain characters, and percent signs with the two upper-case digits of another character
  ghost predicate IsCanonical(t: seq<Char>)
    decreases |t|
  {
    t == [] ||
    if t[0] == PERCENT then
      && |t| >= 3 && IsUpperHex(t[1]) && IsUpperHex(t[2]) && t[1] < '8' as int
      && !IsPlain(0x10 * LetterToHex(t[1]) + LetterToHex(t[2])) && IsCanonical(t[3..])
    else IsPlain(t[0]) && IsCanonical(t[1..])
  }

  lemma CanonicalTriple(x: Char, y: Char)
    requires IsUpperHex(x) && IsUpperHex(y) && x < '8' as int && !IsPlain(0x10 * LetterToHex(x) + LetterToHex(y))
    ensures var c := 0x10 * LetterToHex(x) + LetterToHex(y); ToChar(c) == c && EncodedChar(c) == [PERCENT, x, y]
  {
  }

  lemma {:induction false} CanonicalComplete(t: seq<Char>)
    requires IsCanonical(t)
    ensures IsComplete(t) && Encoded(Decoded(t)) == t && forall i :: 0 <= i < |Decoded(t)| ==> Decoded(t)[i] >= 0
    decreases |t|
  {
    if t != [] {
      if t[0] == PERCENT {
        CanonicalComplete(t[3..]);
        CanonicalTriple(t[1], t[2]);
        hide EncodedChar, LetterToHex, IsUpperHex, IsPlain;
        assert t == [t[0], t[1], t[2]] + t[3..];
        assert Decoded(t)[1..] == Decoded(t[3..]);
      } else {
        CanonicalComplete(t[1..]);
        assert t == [t[0]] + t[1..];
        assert Decoded(t)[1..] == Decoded(t[1..]);
      }
    }
  }

  lemma {:induction false} EncodedCanonical(s: seq<Char>)
    requires forall i :: 0 <= i < |s| ==> s[i] >= 0
    ensures IsCanonical(Encoded(s))
  {
    if s != [] {
      EncodedCanonical(s[1..]);
      var t := Encoded(s);
      if IsPlain(s[0]) {
        assert t[1..] == Encoded(s[1..]);
      } else {
        assert t[3..] == Encoded(s[1..]);
      }
    }
  }

  // Decoding and encoding again gives a text back exactly if it is canonical: the encoder's output
  // is plain characters and complete triples, and every such text is its output.
  lemma CanonicalExactly(t: seq<Char>)
    requires IsComplete(t)
    ensures Encoded(Decoded(t)) == t <==> IsCanonical(t)
  {
    if IsCanonical(t) { CanonicalComplete(t); }
    if Encoded(Decoded(t)) == t {
      RoundTripExactly(Decoded(t));
      EncodedCanonical(Decoded(t));
    }
  }
}
