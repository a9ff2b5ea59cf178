// The wire format: varints, tags, length-delimited records, and skipping.  The library's own
// readers and writers are compiled elsewhere; these follow the Protocol Buffers Encoding
// specification (Base 128 Varints, Message Structure, Length-Delimited Records, Groups).

module Wire {
  import opened Results
  import opened Words

  const WORD64: nat := 0x1_0000_0000_0000_0000

  const INT_MAX: nat := 0x7fff_ffff

  predicate IsInt32(n: int) { -0x8000_0000 <= n < 0x8000_0000 }

  predicate IsInt64(n: int) { -0x8000_0000_0000_0000 <= n < 0x8000_0000_0000_0000 }

  // ---------- varints ----------

  function Varint(n: nat): (s: seq<Byte>)
    ensures s != []
  {
    if n < 0x80 then [n] else [n % 0x80 + 0x80] + Varint(n / 0x80)
  }

  function VarintSize(n: nat): nat { if n < 0x80 then 1 else 1 + VarintSize(n / 0x80) }

  // A varint of at most k bytes and what follows it
  function ReadGroups(s: seq<Byte>, k: nat): (r: Option<(nat, seq<Byte>)>)
    ensures r.Some? ==> |r.value.1| < |s|
  {
    if k == 0 || s == [] then None
    else if s[0] < 0x80 then Some((s[0], s[1..]))
    else
      match ReadGroups(s[1..], k - 1)
      case Some((n, rest)) => Some((s[0] - 0x80 + 0x80 * n, rest))
      case None => None
  }

  // At most ten bytes, of which 64 bits count
  function ReadVarint(s: seq<Byte>): (r: Option<(nat, seq<Byte>)>)
    ensures r.Some? ==> |r.value.1| < |s| && r.value.0 < WORD64
  {
    match ReadGroups(s, 10)
    case Some((n, rest)) => Some((n % WORD64, rest))
    case None => None
  }

  function Pow128(k: nat): nat { if k == 0 then 1 else 0x80 * Pow128(k - 1) }

  lemma {:induction false} GroupsRead(n: nat, k: nat, t: seq<Byte>)
    requires 0 < k && n < Pow128(k)
    ensures ReadGroups(Varint(n) + t, k) == Some((n, t))
  {
    var s := Varint(n) + t;
    if n < 0x80 {
      assert s[0] == n && s[1..] == t;
    } else {
      var low, high := n % 0x80, n / 0x80;
      assert s[0] == low + 0x80 && s[1..] == Varint(high) + t;
      GroupsRead(high, k - 1, t);
      assert n == low + 0x80 * high;
    }
  }

  lemma TenGroups()
    ensures 0x1_0000_0000_0000_0000 <= Pow128(10)
  {
    assert Pow128(4) == 0x1000_0000;
    assert Pow128(7) == 0x80 * 0x80 * 0x80 * 0x1000_0000;
    assert Pow128(10) == 0x80 * 0x80 * 0x80 * Pow128(7);
  }

  // A varint reads back, whatever follows it.
  lemma VarintRead(n: nat, t: seq<Byte>)
    requires n < WORD64
    ensures ReadVarint(Varint(n) + t) == Some((n, t))
  {
    hide Varint, ReadGroups, Pow128;
    TenGroups();
    GroupsRead(n, 10, t);
  }

  lemma {:induction false} VarintSizeIs(n: nat)
    ensures |Varint(n)| == VarintSize(n)
  {
    if n >= 0x80 { VarintSizeIs(n / 0x80); }
  }

  // What is read does not depend on what comes after it.
  lemma {:induction false} GroupsLocal(s: seq<Byte>, k: nat, t: seq<Byte>)
    requires ReadGroups(s, k).Some?
    ensures ReadGroups(s + t, k) == Some((ReadGroups(s, k).value.0, ReadGroups(s, k).value.1 + t))
  {
    assert (s + t)[1..] == s[1..] + t;
    if s[0] >= 0x80 { GroupsLocal(s[1..], k - 1, t); }
  }

  lemma VarintLocal(s: seq<Byte>, t: seq<Byte>)
    requires ReadVarint(s).Some?
    ensures ReadVarint(s + t) == Some((ReadVarint(s).value.0, ReadVarint(s).value.1 + t))
  {
    GroupsLocal(s, 10, t);
  }

  // ---------- integers ----------

  // The 64-bit two's complement of a signed integer
  function Unsigned(n: int): (u: nat)
    requires IsInt64(n)
    ensures u < WORD64
  {
    if n < 0 then n + WORD64 else n
  }

  function ToInt32(u: nat): (n: int)
    ensures IsInt32(n)
  {
    var low := u % 0x1_0000_0000;
    if low < 0x8000_0000 then low else low - 0x1_0000_0000
  }

  function ToInt64(u: nat): (n: int)
    requires u < WORD64
    ensures IsInt64(n)
  {
    if u < 0x8000_0000_0000_0000 then u else u - WORD64
  }

  lemma IntsBack(n: int)
    requires IsInt64(n)
    ensures ToInt64(Unsigned(n)) == n && (IsInt32(n) ==> ToInt32(Unsigned(n)) == n)
  {
  }

  // A negative number takes ten bytes.
  function Int32Size(n: int): nat { if n < 0 then 10 else VarintSize(n) }

  lemma Int32SizeIs(n: int)
    requires IsInt32(n)
    ensures |Varint(Unsigned(n))| == Int32Size(n)
  {
    VarintSizeIs(Unsigned(n));
    if n < 0 { TenBytes(Unsigned(n)); }
  }

  lemma TenBytes(u: nat)
    requires 0x8000_0000_0000_0000 <= u < WORD64
    ensures VarintSize(u) == 10
  {
    ThreeBytes(u);
    ThreeBytes(u / 0x20_0000);
    ThreeBytes(u / 0x20_0000 / 0x20_0000);
  }

  lemma ThreeBytes(u: nat)
    requires 0x20_0000 <= u
    ensures VarintSize(u) == 3 + VarintSize(u / 0x20_0000)
  {
    assert VarintSize(u / 0x80) == 2 + VarintSize(u / 0x80 / 0x80 / 0x80);
  }

  // ---------- tags ----------

  const VARINT: nat := 0
  const FIXED64: nat := 1
  const LENGTH_DELIMITED: nat := 2
  const START_GROUP: nat := 3
  const END_GROUP: nat := 4
  const FIXED32: nat := 5

  function MakeTag(number: nat, wireType: nat): nat { 8 * number + wireType }

  // Only 32 bits of a tag count.
  function ReadTag(s: seq<Byte>): (r: Option<(nat, seq<Byte>)>)
    ensures r.Some? ==> |r.value.1| < |s|
  {
    match ReadVarint(s)
    case Some((n, rest)) => Some((n % 0x1_0000_0000, rest))
    case None => None
  }

  // Whether the next bytes are this very tag; long tags are never expected.
  predicate ExpectTag(tag: nat, s: seq<Byte>) { tag < 0x4000 && Varint(tag) <= s }

  // ---------- length-delimited records ----------

  function Delimited(payload: seq<Byte>): seq<Byte> { Varint(|payload|) + payload }

  // A length of at most 2^31 - 1, then that many bytes
  function ReadDelimited(s: seq<Byte>): (r: Option<(seq<Byte>, seq<Byte>)>)
    ensures r.Some? ==> |r.value.0| + |r.value.1| < |s|
  {
    match ReadVarint(s)
    case Some((n, rest)) => if n <= INT_MAX && n <= |rest| then Some((rest[..n], rest[n..])) else None
    case None => None
  }

  lemma DelimitedRead(payload: seq<Byte>, t: seq<Byte>)
    requires |payload| <= INT_MAX
    ensures ReadDelimited(Delimited(payload) + t) == Some((payload, t))
  {
    VarintRead(|payload|, payload + t);
    assert Delimited(payload) + t == Varint(|payload|) + (payload + t);
  }

  lemma DelimitedLocal(s: seq<Byte>, t: seq<Byte>)
    requires ReadDelimited(s).Some?
    ensures ReadDelimited(s + t) == Some((ReadDelimited(s).value.0, ReadDelimited(s).value.1 + t))
  {
    VarintLocal(s, t);
    var (n, rest) := ReadVarint(s).value;
    assert (rest + t)[..n] == rest[..n] && (rest + t)[n..] == rest[n..] + t;
  }

  // ---------- lengths that place a limit ----------

  // That many bytes, or as many as there are: the shortest limit is always in force.
  function Cut(s: seq<Byte>, n: nat): (r: (seq<Byte>, seq<Byte>))
    ensures r.0 + r.1 == s
  {
    if n <= |s| then (s[..n], s[n..]) else (s, [])
  }

  // The content of a packed record
  function ReadPackedContent(s: seq<Byte>): (r: Option<(seq<Byte>, seq<Byte>)>)
    ensures r.Some? ==> |r.value.0| + |r.value.1| < |s|
  {
    match ReadVarint(s)
    case Some((n, rest)) => if n <= INT_MAX then Some(Cut(rest, n)) else None
    case None => None
  }

  // The content of a sub-message.  Only 32 bits of its length count, and a length that cannot be read
  // is taken for zero; a negative one places no limit.
  function ReadMessageContent(s: seq<Byte>): (r: (seq<Byte>, seq<Byte>))
    ensures |r.0| + |r.1| <= |s|
  {
    match ReadVarint(s)
    case Some((n, rest)) => if n % 0x1_0000_0000 <= INT_MAX then Cut(rest, n % 0x1_0000_0000) else (rest, [])
    case None => ([], Unread(s))
  }

  // What is left after a varint that cannot be read: nothing if the input ends in it
  function Unread(s: seq<Byte>): (r: seq<Byte>)
    ensures |r| <= |s|
  {
    if |s| < 10 then [] else s
  }

  // Where a record is complete, they read what it says.
  lemma CompleteContent(s: seq<Byte>)
    requires ReadDelimited(s).Some?
    ensures ReadPackedContent(s) == ReadDelimited(s) && ReadMessageContent(s) == ReadDelimited(s).value
  {
    hide ReadVarint;
  }

  // ---------- fields that are not known ----------

  // What follows the content of a field with the given tag
  function SkipField(tag: nat, s: seq<Byte>): (r: Option<seq<Byte>>)
    ensures r.Some? ==> |r.value| <= |s|
    decreases |s|, 1
  {
    var wireType := tag % 8;
    if wireType == VARINT then
      match ReadVarint(s) { case Some((_, rest)) => Some(rest) case None => None }
    else if wireType == FIXED64 then if |s| < 8 then None else Some(s[8..])
    else if wireType == LENGTH_DELIMITED then
      match ReadDelimited(s) { case Some((_, rest)) => Some(rest) case None => None }
    else if wireType == START_GROUP then SkipGroup(tag / 8, s)
    else if wireType == FIXED32 then if |s| < 4 then None else Some(s[4..])
    else None
  }

  // Fields up to the end of the group with the given number
  function SkipGroup(number: nat, s: seq<Byte>): (r: Option<seq<Byte>>)
    ensures r.Some? ==> |r.value| < |s|
    decreases |s|, 0
  {
    match ReadTag(s)
    case None => None
    case Some((tag, rest)) =>
      if tag % 8 == END_GROUP then if tag / 8 == number then Some(rest) else None
      else if tag == 0 then None
      else
        match SkipField(tag, rest)
        case None => None
        case Some(more) => SkipGroup(number, more)
  }

  lemma {:induction false} SkipLocal(tag: nat, s: seq<Byte>, t: seq<Byte>)
    requires SkipField(tag, s).Some?
    ensures SkipField(tag, s + t) == Some(SkipField(tag, s).value + t)
    decreases |s|, 1
  {
    var wireType := tag % 8;
    if wireType == VARINT {
      VarintLocal(s, t);
    } else if wireType == FIXED64 {
      assert (s + t)[8..] == s[8..] + t;
    } else if wireType == LENGTH_DELIMITED {
      DelimitedLocal(s, t);
    } else if wireType == START_GROUP {
      SkipGroupLocal(tag / 8, s, t);
    } else {
      assert (s + t)[4..] == s[4..] + t;
    }
  }

  lemma {:induction false} SkipGroupLocal(number: nat, s: seq<Byte>, t: seq<Byte>)
    requires SkipGroup(number, s).Some?
    ensures SkipGroup(number, s + t) == Some(SkipGroup(number, s).value + t)
    decreases |s|, 0
  {
    TagLocal(s, t);
    var (tag, rest) := ReadTag(s).value;
    if tag % 8 != END_GROUP {
      SkipLocal(tag, rest, t);
      SkipGroupLocal(number, SkipField(tag, rest).value, t);
    }
  }

  lemma TagLocal(s: seq<Byte>, t: seq<Byte>)
    requires ReadTag(s).Some?
    ensures ReadTag(s + t) == Some((ReadTag(s).value.0, ReadTag(s).value.1 + t))
  {
    VarintLocal(s, t);
  }

  lemma TagRead(tag: nat, t: seq<Byte>)
    requires tag < 0x1_0000_0000
    ensures ReadTag(Varint(tag) + t) == Some((tag, t))
  {
    hide ReadVarint, Varint;
    VarintRead(tag, t);
  }

  // ---------- what is left is the end of the input ----------

  // t is what follows the first bytes of s.
  predicate EndOf(t: seq<Byte>, s: seq<Byte>) { |t| <= |s| && t == s[|s| - |t|..] }

  lemma EndOfEnd(u: seq<Byte>, t: seq<Byte>, s: seq<Byte>)
    requires EndOf(u, t) && EndOf(t, s)
    ensures EndOf(u, s)
  {
  }

  lemma {:induction false} GroupsEnd(s: seq<Byte>, k: nat)
    requires ReadGroups(s, k).Some?
    ensures EndOf(ReadGroups(s, k).value.1, s)
  {
    if s[0] >= 0x80 {
      GroupsEnd(s[1..], k - 1);
      EndOfEnd(ReadGroups(s, k).value.1, s[1..], s);
    }
  }

  lemma VarintEnd(s: seq<Byte>)
    requires ReadVarint(s).Some?
    ensures EndOf(ReadVarint(s).value.1, s)
  {
    GroupsEnd(s, 10);
  }

  lemma DelimitedEnd(s: seq<Byte>)
    requires ReadDelimited(s).Some?
    ensures EndOf(ReadDelimited(s).value.0 + ReadDelimited(s).value.1, s)
  {
    hide ReadVarint;
    VarintEnd(s);
    var (n, rest) := ReadVarint(s).value;
    assert rest[..n] + rest[n..] == rest;
  }

  lemma CutEnd(s: seq<Byte>, n: nat)
    ensures EndOf(Cut(s, n).1, s)
  {
  }

  lemma {:induction false} SkipEnd(tag: nat, s: seq<Byte>)
    requires SkipField(tag, s).Some?
    ensures EndOf(SkipField(tag, s).value, s)
    decreases |s|, 1
  {
    var wireType := tag % 8;
    if wireType == VARINT {
      VarintEnd(s);
    } else if wireType == LENGTH_DELIMITED {
      DelimitedEnd(s);
      EndOfEnd(ReadDelimited(s).value.1, ReadDelimited(s).value.0 + ReadDelimited(s).value.1, s);
    } else if wireType == START_GROUP {
      SkipGroupEnd(tag / 8, s);
    }
  }

  lemma {:induction false} SkipGroupEnd(number: nat, s: seq<Byte>)
    requires SkipGroup(number, s).Some?
    ensures EndOf(SkipGroup(number, s).value, s)
    decreases |s|, 0
  {
    hide EndOf;
    VarintEnd(s);
    var (tag, rest) := ReadTag(s).value;
    if tag % 8 != END_GROUP {
      SkipEnd(tag, rest);
      var more := SkipField(tag, rest).value;
      SkipGroupEnd(number, more);
      EndOfEnd(SkipGroup(number, s).value, more, rest);
      EndOfEnd(SkipGroup(number, s).value, rest, s);
    }
  }

  // ---------- the bytes ----------

  // The number in base 128, the lowest digit first
  function Base128(s: seq<Byte>): nat { if s == [] then 0 else s[0] % 0x80 + 0x80 * Base128(s[1..]) }

  // Seven bits to a byte, the lowest first, with the top bit on all bytes but the last, and no byte
  // more than needed
  lemma {:induction false} VarintBytes(n: nat)
    ensures var s := Varint(n);
            && Base128(s) == n && (|s| > 1 ==> s[|s| - 1] != 0)
            && forall i :: 0 <= i < |s| ==> (s[i] >= 0x80 <==> i + 1 < |s|)
  {
    var s := Varint(n);
    if n >= 0x80 {
      var t := Varint(n / 0x80);
      VarintBytes(n / 0x80);
      assert s[1..] == t;
      assert forall i :: 0 < i < |s| ==> s[i] == t[i - 1];
    }
  }

  // Integers read are those congruent to what is on the wire, within range.
  lemma Congruent(u: nat)
    ensures -0x8000_0000 <= ToInt32(u) < 0x8000_0000 && (ToInt32(u) - u) % 0x1_0000_0000 == 0
    ensures u < WORD64 ==> -0x8000_0000_0000_0000 <= ToInt64(u) < 0x8000_0000_0000_0000
                           && (ToInt64(u) - u) % 0x1_0000_0000_0000_0000 == 0
  {
  }

  // What is skipped for each of the wire types
  lemma Skipped(number: nat, s: seq<Byte>, t: seq<Byte>)
    ensures forall n: nat :: n < WORD64 && s == Varint(n) ==> SkipField(8 * number, s + t) == Some(t)
    ensures |s| == 8 ==> SkipField(8 * number + 1, s + t) == Some(t)
    ensures |s| <= INT_MAX ==> SkipField(8 * number + 2, Varint(|s|) + s + t) == Some(t)
    ensures |s| == 4 ==> SkipField(8 * number + 5, s + t) == Some(t)
    ensures |t| < 8 ==> SkipField(8 * number + 1, t) == None
    ensures |t| < 4 ==> SkipField(8 * number + 5, t) == None
    ensures SkipField(8 * number + 4, t) == None && SkipField(8 * number + 6, t) == None && SkipField(8 * number + 7, t) == None
  {
    hide ReadVarint, Varint;
    forall n: nat | n < WORD64 && s == Varint(n) ensures ReadVarint(s + t) == Some((n, t)) { VarintRead(n, t); }
    if |s| <= INT_MAX {
      DelimitedRead(s, t);
      assert Delimited(s) + t == Varint(|s|) + s + t;
    }
    if |s| == 8 || |s| == 4 { assert (s + t)[|s|..] == t; }
  }

  // A group is skipped up to the end tag with its number.
  lemma GroupSkipped(number: nat, tag: nat, s: seq<Byte>, t: seq<Byte>)
    requires 0 < number < 0x2000_0000 && 0 < tag < 0x1_0000_0000 && tag % 8 != END_GROUP && SkipField(tag, s) == Some([])
    ensures SkipField(8 * number + 3, Varint(8 * number + 4) + t) == Some(t)
    ensures SkipField(8 * number + 3, Varint(tag) + s + t) == SkipField(8 * number + 3, t)
  {
    hide Varint, ReadVarint, ReadTag;
    TagRead(8 * number + 4, t);
    TagRead(tag, s + t);
    SkipLocal(tag, s, t);
    assert [] + t == t && Varint(tag) + s + t == Varint(tag) + (s + t);
  }

  // Another end tag, or a zero tag, is a failure.
  lemma GroupRefused(number: nat, other: nat, t: seq<Byte>)
    requires 0 < number < 0x2000_0000 && other < 0x2000_0000 && other != number
    ensures SkipField(8 * number + 3, Varint(8 * other + 4) + t) == None && SkipField(8 * number + 3, Varint(0) + t) == None
  {
    hide Varint, ReadVarint, ReadTag;
    TagRead(8 * other + 4, t);
    TagRead(0, t);
  }

  // ---------- what is read of any bytes ----------

  // A varint: the top bit is set on all bytes but the last.
  predicate IsVarint(s: seq<Byte>) { s != [] && forall i :: 0 <= i < |s| ==> (s[i] >= 0x80 <==> i + 1 < |s|) }

  lemma {:induction false} AnyGroups(s: seq<Byte>, k: nat, t: seq<Byte>)
    ensures IsVarint(s) ==> ReadGroups(s + t, k) == if |s| <= k then Some((Base128(s), t)) else None
    ensures (forall i :: 0 <= i < |s| ==> s[i] >= 0x80) && (|s| >= k || t == []) ==> ReadGroups(s + t, k) == None
  {
    if k == 0 || s == [] {
      assert s + [] == s;
    } else {
      assert (s + t)[1..] == s[1..] + t && (s + t)[0] == s[0];
      AnyGroups(s[1..], k - 1, t);
      if IsVarint(s) && |s| > 1 { assert IsVarint(s[1..]); }
      if s[0] < 0x80 && IsVarint(s) { assert |s| == 1 && s[1..] == [] && [] + t == t && Base128(s) == s[0]; }
    }
  }

  // Up to ten bytes are read, even if fewer would do, and 64 bits of the number count.
  lemma AnyVarint(s: seq<Byte>, t: seq<Byte>)
    ensures IsVarint(s) ==> ReadVarint(s + t) == if |s| <= 10 then Some((Base128(s) % 0x1_0000_0000_0000_0000, t)) else None
    ensures (forall i :: 0 <= i < |s| ==> s[i] >= 0x80) && (|s| >= 10 || t == []) ==> ReadVarint(s + t) == None
  {
    AnyGroups(s, 10, t);
  }

  // Lengths from 2^31 up are refused, but for a sub-message, where only 32 bits count and a negative
  // length places no limit.
  lemma LongLength(n: nat, t: seq<Byte>)
    requires 0x8000_0000 <= n < 0x1_0000_0000_0000_0000
    ensures ReadDelimited(Varint(n) + t) == None && ReadPackedContent(Varint(n) + t) == None
    ensures ReadMessageContent(Varint(n) + t) ==
            if ToInt32(n) < 0 || ToInt32(n) >= |t| then (t, []) else (t[..ToInt32(n)], t[ToInt32(n)..])
  {
    hide Varint, ReadVarint;
    VarintRead(n, t);
    assert ToInt32(n) == |t| ==> t[..ToInt32(n)] == t && t[ToInt32(n)..] == [];
  }

  // Tags are modulo 2^32, and only those of one or two bytes are ever expected.
  lemma AnyTag(tag: nat, s: seq<Byte>)
    ensures tag < 0x1_0000_0000_0000_0000 ==> ReadTag(Varint(tag) + s) == Some((tag % 0x1_0000_0000, s))
    ensures ExpectTag(tag, s) <==>
            || (tag < 0x80 && |s| >= 1 && s[0] == tag)
            || (0x80 <= tag < 0x4000 && |s| >= 2 && s[0] == tag % 0x80 + 0x80 && s[1] == tag / 0x80)
  {
    if tag < 0x1_0000_0000_0000_0000 { VarintRead(tag, s); }
    if tag < 0x80 {
      assert Varint(tag) == [tag];
    } else if tag < 0x4000 {
      assert Varint(tag) == [tag % 0x80 + 0x80, tag / 0x80];
      if |s| >= 2 { assert s[..2] == [s[0], s[1]]; }
    }
  }

  // Where a length cannot be read, a sub-message is empty; the input is used up if it ends in the length.
  lemma NoLength(s: seq<Byte>, t: seq<Byte>)
    requires forall i :: 0 <= i < |s| ==> s[i] >= 0x80
    ensures |s| < 10 ==> ReadMessageContent(s) == ([], [])
    ensures |s| >= 10 ==> ReadMessageContent(s + t) == ([], s + t)
  {
    AnyVarint(s, []);
    AnyVarint(s, t);
    assert s + [] == s;
  }
}
