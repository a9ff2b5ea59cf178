// A packed record that is misread at the end of the input never gives the right list.

module ProtoMisread {
  import opened Words
  import opened Results
  import opened Wire
  import opened ProtoValues
  import opened ProtoParse
  import opened ProtoRecords
  import opened ProtoRoundTrip
  import opened ProtoMixed
  import opened Chains

  // ---------- bytes that end a varint ----------

  // How many bytes have no continuation bit: every varint has exactly one.
  function Ends(s: seq<Byte>): nat {
    if s == [] then 0 else (if s[0] < 0x80 then 1 else 0) + Ends(s[1..])
  }

  lemma {:induction false} EndsAppend(s: seq<Byte>, t: seq<Byte>)
    ensures Ends(s + t) == Ends(s) + Ends(t)
  {
    if s == [] {
      assert s + t == t;
    } else {
      assert (s + t)[1..] == s[1..] + t;
      EndsAppend(s[1..], t);
    }
  }

  lemma EndsOfRest(t: seq<Byte>, s: seq<Byte>)
    requires EndOf(t, s)
    ensures Ends(t) <= Ends(s)
  {
    var first := s[..|s| - |t|];
    assert s == first + t;
    EndsAppend(first, t);
  }

  lemma {:induction false} GroupsEnds(s: seq<Byte>, k: nat)
    requires ReadGroups(s, k).Some?
    ensures Ends(s) == 1 + Ends(ReadGroups(s, k).value.1)
  {
    if s[0] >= 0x80 { GroupsEnds(s[1..], k - 1); }
  }

  lemma VarintEnds(s: seq<Byte>)
    requires ReadVarint(s).Some?
    ensures Ends(s) == 1 + Ends(ReadVarint(s).value.1)
  {
    GroupsEnds(s, 10);
  }

  lemma {:induction false} OneEnd(n: nat)
    ensures Ends(Varint(n)) == 1
  {
    if n >= 0x80 { OneEnd(n / 0x80); }
  }

  lemma DelimitedEnds(s: seq<Byte>)
    requires ReadDelimited(s).Some?
    ensures Ends(s) == 1 + Ends(ReadDelimited(s).value.0) + Ends(ReadDelimited(s).value.1)
  {
    hide ReadVarint;
    VarintEnds(s);
    var (n, rest) := ReadVarint(s).value;
    assert rest == rest[..n] + rest[n..];
    EndsAppend(rest[..n], rest[n..]);
  }

  lemma ContentEnds(kind: Kind, s: seq<Byte>)
    requires ReadContent(kind, s).Some?
    ensures Ends(ReadContent(kind, s).value.1) <= Ends(s)
    ensures kind.Int32sKind? ==> Ends(s) == 1 + Ends(ReadContent(kind, s).value.0) + Ends(ReadContent(kind, s).value.1)
  {
    hide ReadVarint, ReadDelimited;
    if kind.Int32sKind? || kind.MessagesKind? {
      if ReadVarint(s).Some? {
        VarintEnds(s);
        var (payload, rest) := ReadContent(kind, s).value;
        EndsAppend(payload, rest);
        assert payload + rest == ReadVarint(s).value.1;
      }
    } else {
      DelimitedEnds(s);
    }
  }

  lemma {:induction false} PackedEnds(list: seq<int>)
    requires forall n :: n in list ==> IsInt32(n)
    ensures Ends(Packed(list)) == |list|
  {
    hide Varint;
    if list != [] {
      assert list[0] in list;
      OneEnd(Unsigned(list[0]));
      EndsAppend(Varint(Unsigned(list[0])), Packed(list[1..]));
      PackedEnds(list[1..]);
    }
  }

  // ---------- how much a list can grow ----------

  lemma AddIntKind(v: Value, n: int)
    requires HasKind(v, Int32sKind) && IsInt32(n)
    ensures v.Ints? && HasKind(AddInt(v, n), Int32sKind) && AddInt(v, n).elements == v.elements + [n]
  {
  }

  // Elements are only added, a number of them.
  ghost predicate Grows(v: Value, w: Value, n: nat) {
    v.Ints? && w.Ints? && |w.elements| == |v.elements| + n && v.elements <= w.elements
  }

  lemma {:induction false} PackedGrowth(v: Value, payload: seq<Byte>)
    requires HasKind(v, Int32sKind) && ReadPacked(v, payload).Some?
    ensures Grows(v, ReadPacked(v, payload).value, Ends(payload))
    decreases |payload|
  {
    hide ReadVarint, HasKind;
    if payload != [] {
      VarintEnds(payload);
      var (n, rest) := ReadVarint(payload).value;
      AddIntKind(v, ToInt32(n));
      PackedGrowth(AddInt(v, ToInt32(n)), rest);
    } else {
      IntsKind(v);
    }
  }

  // Every integer but the first one costs a tag.
  lemma {:induction false} RepeatedGrowth(tag: nat, v: Value, s: seq<Byte>) returns (j: nat)
    requires HasKind(v, Int32sKind) && ReadRepeated(tag, v, s).Some?
    ensures var (w, rest) := ReadRepeated(tag, v, s).value; Grows(v, w, j + 1) && Ends(s) == Ends(rest) + 2 * j + 1
    decreases |s|
  {
    hide ReadVarint, HasKind, Varint;
    VarintEnds(s);
    var (n, rest) := ReadVarint(s).value;
    AddIntKind(v, ToInt32(n));
    var w := AddInt(v, ToInt32(n));
    if |w.elements| < w.capacity && ExpectTag(tag, rest) {
      var after := rest[|Varint(tag)|..];
      assert rest == Varint(tag) + after;
      OneEnd(tag);
      EndsAppend(Varint(tag), after);
      j := RepeatedGrowth(tag, w, after);
      j := j + 1;
    } else {
      j := 0;
    }
  }

  // One field of the input, of which the list gets g elements: the tag at least is spent on none.
  ghost predicate Paid(f: Field, s: seq<Byte>, rest: seq<Byte>, g: nat) {
    && ReadTag(s).Some? && Ends(rest) + g + 1 <= Ends(s)
    && (g > 0 && Ends(rest) + g + 1 == Ends(s) ==> g == 1 && ReadTag(s).value.0 == UnpackedTag(f))
  }

  lemma ValueGrowth(f: Field, tag: nat, v: Value, s: seq<Byte>) returns (g: nat)
    requires HasKind(v, f.kind) && f.kind.Int32sKind? && Accepts(f, tag) && ReadValue(f, tag, v, s).Some?
    ensures var (w, rest) := ReadValue(f, tag, v, s).value;
            Grows(v, w, g) && Ends(rest) + g <= Ends(s) && (g > 0 && Ends(rest) + g == Ends(s) ==> g == 1 && tag == UnpackedTag(f))
  {
    hide ReadContent, ReadRepeated, ReadPacked, HasKind, Grows;
    if tag == UnpackedTag(f) {
      var j := RepeatedGrowth(TagOf(f), v, s);
      g := j + 1;
    } else {
      ContentEnds(f.kind, s);
      var payload := ReadContent(f.kind, s).value.0;
      PackedGrowth(v, payload);
      g := Ends(payload);
    }
  }

  lemma ValueEnds(f: Field, tag: nat, v: Value, s: seq<Byte>)
    requires HasKind(v, f.kind) && Accepts(f, tag) && ReadValue(f, tag, v, s).Some?
    ensures Ends(ReadValue(f, tag, v, s).value.1) <= Ends(s)
  {
    hide ReadVarint, ReadContent, ReadRepeated, ReadBytes, HasKind;
    if f.kind.Int32sKind? && tag == UnpackedTag(f) {
      var _ := RepeatedGrowth(TagOf(f), v, s);
    } else if WireTypeOf(f.kind) == VARINT {
      VarintEnds(s);
    } else {
      ContentEnds(f.kind, s);
    }
  }

  lemma StepGrowth(fields: seq<Field>, m: Message, i: nat, s: seq<Byte>) returns (g: nat)
    requires HasFields(m, fields) && i < |fields| && fields[i].kind.Int32sKind? && Step(fields, m, s).Some?
    ensures var (n, rest) := Step(fields, m, s).value;
            |n.values| == |m.values| == |fields| && Grows(m.values[i], n.values[i], g) && Paid(fields[i], s, rest, g)
  {
    hide HasFields, ReadVarint, SkipField, ReadValue;
    VarintEnds(s);
    var (tag, content) := ReadTag(s).value;
    IntsField(fields, m, i);
    var x := FindField(fields, tag / 8);
    if x < |fields| && Accepts(fields[x], tag) {
      FieldsHave(fields, m, x);
      ValueEnds(fields[x], tag, m.values[x], content);
      if x == i {
        g := ValueGrowth(fields[i], tag, m.values[i], content);
      } else {
        g := 0;
      }
    } else {
      SkipEnd(tag, content);
      EndsOfRest(SkipField(tag, content).value, content);
      g := 0;
    }
  }

  // No input makes a list grow by as many elements as it has varints.
  lemma {:induction false} ParseGrowth(fields: seq<Field>, m: Message, i: nat, s: seq<Byte>) returns (g: nat)
    requires HasFields(m, fields) && i < |fields| && fields[i].kind.Int32sKind? && Parse(fields, m, s).Some?
    ensures var n := Parse(fields, m, s).value;
            |n.values| == |m.values| == |fields| && Grows(m.values[i], n.values[i], g)
    ensures if s == [] then g == 0 else Paid(fields[i], s, [], g)
    decreases |s|
  {
    hide HasFields, Step, ReadTag;
    IntsField(fields, m, i);
    if s == [] {
      g := 0;
    } else {
      var (n, rest) := Step(fields, m, s).value;
      var a := StepGrowth(fields, m, i, s);
      var b := ParseGrowth(fields, n, i, rest);
      g := a + b;
    }
  }

  // ---------- lengths taken for integers ----------

  lemma {:induction false} SizeBound(n: nat, k: nat)
    requires 0 < k && n < Pow128(k)
    ensures 1 <= VarintSize(n) <= k
  {
    if n >= 0x80 { SizeBound(n / 0x80, k - 1); }
  }

  lemma IntBytes(n: int)
    requires IsInt32(n)
    ensures var size := |Varint(Unsigned(n))|; if n < 0 then size == 10 else 1 <= size <= 5 && (size == 1 <==> n < 0x80)
  {
    Int32SizeIs(n);
    if 0 <= n { assert Pow128(4) == 0x1000_0000; SizeBound(n, 5); }
    if n >= 0x80 { assert VarintSize(n) == 1 + VarintSize(n / 0x80); }
  }

  // The length of two integers in a packed record is not a tag of the field.
  lemma NotATag(f: Field, a: int, b: int)
    requires IsField(f) && f.kind.Int32sKind? && IsInt32(a) && IsInt32(b)
    requires a == UnpackedTag(f) || a == TagOf(f)
    ensures a != |Varint(Unsigned(a))| + |Varint(Unsigned(b))|
  {
    hide Varint;
    IntBytes(a);
    IntBytes(b);
    assert a >= 8;
  }

  lemma PackedOne(a: int)
    requires IsInt32(a)
    ensures Packed([a]) == Varint(Unsigned(a))
  {
    assert [a][1..] == [] && Packed([]) == [];
  }

  lemma PackedTwo(a: int, b: int)
    requires IsInt32(a) && IsInt32(b)
    ensures Packed([a, b]) == Varint(Unsigned(a)) + Varint(Unsigned(b))
  {
    PackedOne(b);
    assert [a, b][1..] == [b];
  }

  // The length comes out as the first integer, so that integer would have to be the length.
  ghost predicate IsLength(list: seq<int>)
    requires forall n :: n in list ==> IsInt32(n)
  {
    list != [] && list[0] == |Packed(list)|
  }

  // With one integer in it, the record would be read as a fixed64 field that is cut off.
  lemma OneNotRead(fields: seq<Field>, m: Message, list: seq<int>)
    requires IsSchema(fields) && HasFields(m, fields) && |list| == 1 && (forall n :: n in list ==> IsInt32(n)) && IsLength(list)
    ensures Parse(fields, m, Packed(list)).None?
  {
    hide HasFields, Varint, ReadVarint;
    var a := list[0];
    assert a in list && list == [a];
    PackedOne(a);
    IntBytes(a);
    assert a == 1;
    TagRead(1, []);
    assert Varint(1) + [] == Packed(list);
    NoFieldZero(fields);
  }

  lemma NoFieldZero(fields: seq<Field>)
    requires IsSchema(fields)
    ensures FindField(fields, 0) == |fields|
  {
  }

  // With two, it would have to begin with a tag of the field.
  lemma TwoNotRead(f: Field, list: seq<int>)
    requires IsField(f) && f.kind.Int32sKind? && |list| == 2 && (forall n :: n in list ==> IsInt32(n)) && IsLength(list)
    ensures ReadTag(Packed(list)).Some? && ReadTag(Packed(list)).value.0 != UnpackedTag(f) && !ExpectTag(TagOf(f), Packed(list))
  {
    hide Varint, ReadVarint, IsField, IsLength, TagOf, UnpackedTag, Packed;
    var a, b := list[0], list[1];
    assert a in list && b in list && list == [a, b];
    TwoAre(a, b);
    VarintRead(Unsigned(a), Varint(Unsigned(b)));
    if a == UnpackedTag(f) || a == TagOf(f) { NotATag(f, a, b); }
    if ExpectTag(TagOf(f), Packed(list)) { OneVarint(Unsigned(a), TagOf(f), Packed(list)); }
  }

  lemma TwoAre(a: int, b: int)
    requires IsInt32(a) && IsInt32(b) && IsLength([a, b])
    ensures a == |Varint(Unsigned(a))| + |Varint(Unsigned(b))| && a == Unsigned(a)
    ensures Packed([a, b]) == Varint(Unsigned(a)) + Varint(Unsigned(b))
  {
    hide Varint;
    PackedTwo(a, b);
  }

  // The parser goes on behind the length of the packed record, which is in the list now.
  lemma PayloadMisread(fields: seq<Field>, m: Message, i: nat, v: Value, list: seq<int>)
    requires IsSchema(fields) && HasFields(m, fields) && i < |fields| && fields[i].kind.Int32sKind?
    requires (forall n :: n in list ==> IsInt32(n)) && |Packed(list)| <= INT_MAX && v.Ints?
    requires m.values[i] == AddInt(v, |Packed(list)|)
    ensures NotRead(fields, m, i, Packed(list), v.elements + list)
  {
    hide HasFields, Parse, IsSchema, Packed, ReadTag;
    var r := Parse(fields, m, Packed(list));
    if r.Some? {
      var g := ParseGrowth(fields, m, i, Packed(list));
      PackedEnds(list);
      var w, x := r.value.values[i], m.values[i];
      if w.elements == v.elements + list {
        assert list[0] == w.elements[|v.elements|] == x.elements[|v.elements|];
        if |list| == 1 {
          OneNotRead(fields, m, list);
        } else {
          FieldFound(fields, i);
          TwoNotRead(fields[i], list);
        }
        assert false;
      }
    }
  }

  // ---------- the last record ----------

  lemma SetFields(fields: seq<Field>, m: Message, i: nat, v: Value)
    requires HasFields(m, fields) && i < |fields| && HasKind(v, fields[i].kind)
    ensures i < |m.values| && HasFields(SetValue(m, i, v), fields) && SetValue(m, i, v).values[i] == v
  {
  }

  // More integers after the length
  lemma MoreMisread(fields: seq<Field>, m: Message, i: nat, w: Value, list: seq<int>)
    requires IsSchema(fields) && HasFields(m, fields) && i < |fields| && fields[i].kind.Int32sKind?
    requires HasKind(w, Int32sKind) && w.Ints? && IsPiece(Chunk(list)) && ExpectTag(TagOf(fields[i]), Packed(list))
    ensures var tag := TagOf(fields[i]);
            var x := AddInt(w, |Packed(list)|);
            && HasKind(x, Int32sKind)
            && var r := ReadRepeated(tag, x, Packed(list)[|Varint(tag)|..]);
               r.Some? ==> |m.values| == |fields| && HasFields(SetValue(m, i, r.value.0), fields)
                           && NotRead(fields, SetValue(m, i, r.value.0), i, r.value.1, w.elements + list)
  {
    hide HasFields, HasKind, Parse, IsSchema, Packed, Varint, ReadTag, ReadRepeated;
    var tag, payload := TagOf(fields[i]), Packed(list);
    AddIntKind(w, |payload|);
    var x, after := AddInt(w, |payload|), payload[|Varint(tag)|..];
    var r := ReadRepeated(tag, x, after);
    if r.Some? {
      var (y, rest) := r.value;
      SetFields(fields, m, i, y);
      var n := SetValue(m, i, y);
      IntsField(fields, m, i);
      if Parse(fields, n, rest).Some? {
        var j := RepeatedGrowth(tag, x, after);
        var g := ParseGrowth(fields, n, i, rest);
        assert payload == Varint(tag) + after;
        OneEnd(tag);
        EndsAppend(Varint(tag), after);
        PackedEnds(list);
        var o := Parse(fields, n, rest).value.values[i];
        if o.elements == w.elements + list {
          assert |list| == 2 && list[0] == o.elements[|w.elements|] == x.elements[|w.elements|];
          FieldFound(fields, i);
          TwoNotRead(fields[i], list);
          assert false;
        }
      }
    }
  }

  // Whatever the input is parsed as, the list is another one.
  ghost predicate NotRead(fields: seq<Field>, m: Message, i: nat, s: seq<Byte>, elements: seq<int>)
    requires HasFields(m, fields)
  {
    var r := Parse(fields, m, s);
    r.Some? ==> i < |r.value.values| && r.value.values[i].Ints? && r.value.values[i].elements != elements
  }

  lemma RecordMisread(fields: seq<Field>, m: Message, i: nat, w: Value, list: seq<int>)
    requires IsSchema(fields) && HasFields(m, fields) && i < |fields| && fields[i].kind.Int32sKind?
    requires HasKind(w, Int32sKind) && w.Ints? && IsPiece(Chunk(list))
    ensures var r := ReadRepeated(TagOf(fields[i]), w, Delimited(Packed(list)));
            r.Some? ==> |m.values| == |fields| && HasFields(SetValue(m, i, r.value.0), fields)
                        && NotRead(fields, SetValue(m, i, r.value.0), i, r.value.1, w.elements + list)
  {
    hide HasFields, HasKind, IsSchema, Packed, Varint, ReadRepeated, ExpectTag, NotRead;
    var payload := Packed(list);
    RepeatedFirst(TagOf(fields[i]), w, |payload|, payload);
    AddIntKind(w, |payload|);
    var x := AddInt(w, |payload|);
    SetFields(fields, m, i, x);
    if |x.elements| < x.capacity && ExpectTag(TagOf(fields[i]), payload) {
      MoreMisread(fields, m, i, w, list);
    } else {
      PayloadMisread(fields, SetValue(m, i, x), i, w, list);
    }
  }

  lemma RepeatedFirst(tag: nat, v: Value, n: int, t: seq<Byte>)
    requires HasKind(v, Int32sKind) && IsInt32(n)
    ensures v.Ints? && HasKind(AddInt(v, n), Int32sKind)
    ensures ReadRepeated(tag, v, Varint(Unsigned(n)) + t) ==
            var w := AddInt(v, n);
            if |w.elements| < w.capacity && ExpectTag(tag, t) then ReadRepeated(tag, w, t[|Varint(tag)|..]) else Some((w, t))
  {
    hide Varint, ReadVarint, HasKind;
    VarintRead(Unsigned(n), t);
    IntsBack(n);
    AddIntKind(v, n);
  }

  lemma StepSingle(fields: seq<Field>, m: Message, i: nat, content: seq<Byte>)
    requires IsSchema(fields) && HasFields(m, fields) && i < |fields| && fields[i].kind.Int32sKind?
    ensures i < |m.values| && HasKind(m.values[i], Int32sKind)
    ensures var r := ReadRepeated(TagOf(fields[i]), m.values[i], content);
            Step(fields, m, Varint(UnpackedTag(fields[i])) + content) ==
            if r.Some? then Some((SetValue(m, i, r.value.0), r.value.1)) else None
  {
    hide HasFields, IsSchema, Varint, ReadVarint, ReadRepeated, FindField, HasKind;
    FieldFound(fields, i);
    FieldsHave(fields, m, i);
    TagRead(UnpackedTag(fields[i]), content);
  }

  // A single integer, and a packed record right after it, while the array has room
  lemma LastMisread(fields: seq<Field>, m: Message, i: nat, n: int, list: seq<int>)
    requires IsSchema(fields) && HasFields(m, fields) && i < |fields| && fields[i].kind.Int32sKind? && TagOf(fields[i]) < 0x4000
    requires i < |m.values| && m.values[i].Ints? && IsPiece(Single(n)) && IsPiece(Chunk(list))
    requires |AddInt(m.values[i], n).elements| < AddInt(m.values[i], n).capacity
    ensures NotRead(fields, m, i, PieceRecord(fields[i], Single(n)) + PieceRecord(fields[i], Chunk(list)),
                    m.values[i].elements + [n] + list)
  {
    hide HasFields, IsSchema, Packed, Varint, ReadRepeated, Step, HasKind;
    var f, v, payload := fields[i], m.values[i], Packed(list);
    var w := AddInt(v, n);
    var s := PieceRecord(f, Single(n)) + PieceRecord(f, Chunk(list));
    FieldFound(fields, i);
    var content := Varint(Unsigned(n)) + (BytesRecord(f, payload) + []);
    assert s == Varint(UnpackedTag(f)) + content;
    StepSingle(fields, m, i, content);
    AddIntKind(v, n);
    LengthMisread(f, v, n, payload, []);
    assert Delimited(payload) + [] == Delimited(payload);
    RecordMisread(fields, m, i, w, list);
  }

  // The first piece, if it is read as what it is
  lemma FirstPieceRead(fields: seq<Field>, m: Message, i: nat, pieces: seq<Piece>)
    requires IsSchema(fields) && HasFields(m, fields) && i < |fields| && fields[i].kind.Int32sKind? && TagOf(fields[i]) < 0x4000
    requires pieces != [] && forall p :: p in pieces ==> IsPiece(p)
    ensures i < |m.values| && m.values[i].Ints?
    ensures var w := AddInts(m.values[i], PieceElements(pieces[0]));
            && HasFields(SetValue(m, i, w), fields)
            && ((pieces[0].Single? && |pieces| > 1 && pieces[1].Chunk? ==> |w.elements| == w.capacity) ==>
                  Step(fields, m, Flatten(PieceRecords(fields[i], pieces))) ==
                  Some((SetValue(m, i, w), Flatten(PieceRecords(fields[i], pieces[1..])))))
  {
    hide IsSchema, Step, IsPiece, PieceRecord, AddInts, HasKind, Straddles;
    var f := fields[i];
    assert pieces[0] in pieces;
    IntsField(fields, m, i);
    StepPiece(fields, m, i, pieces[0]);
    var n := SetValue(m, i, AddInts(m.values[i], PieceElements(pieces[0])));
    var rest := PieceRecords(f, pieces[1..]);
    FieldFound(fields, i);
    PieceShape(f, pieces[0]);
    StepRecord(fields, m, PieceRecord(f, pieces[0]), Flatten(rest));
    PieceStraddles(fields, n, i, pieces);
    assert Flatten([PieceRecord(f, pieces[0])] + rest) == PieceRecord(f, pieces[0]) + Flatten(rest);
  }

  lemma FlattenTwo<T>(a: seq<T>, b: seq<T>)
    ensures Flatten([a, b]) == a + b
  {
    assert [a, b][1..] == [b] && Flatten([b]) == b + Flatten([]);
  }

  lemma TwoPieces(f: Field, p: Piece, q: Piece)
    requires IsPiece(p) && IsPiece(q)
    ensures Flatten(PieceRecords(f, [p, q])) == PieceRecord(f, p) + PieceRecord(f, q)
    ensures Elements([p, q]) == PieceElements(p) + PieceElements(q)
  {
    hide IsPiece, PieceRecord, Flatten, PieceElements;
    assert [p, q][1..] == [q] && [q][1..] == [];
    assert Elements([q]) == PieceElements(q) + [];
    var r, s := PieceRecord(f, p), PieceRecord(f, q);
    assert PieceRecords(f, [q]) == [s] + PieceRecords(f, [q][1..]) == [s];
    assert PieceRecords(f, [p, q]) == [r] + [s] == [r, s];
    FlattenTwo(r, s);
  }

  // Where the pieces are not separated, if it is at the last one
  lemma LastNotSeparated(v: Value, pieces: seq<Piece>)
    requires v.Ints? && pieces != []
    requires Separated(v, pieces[..|pieces| - 1]) && !Separated(v, pieces)
    ensures |pieces| >= 2
    ensures var last := |pieces| - 1;
            var w := AddInts(v, PieceElements(pieces[0]));
            if last == 1 then pieces[0].Single? && pieces[1].Chunk? && |w.elements| != w.capacity
            else && (pieces[0].Single? && pieces[1].Chunk? ==> |w.elements| == w.capacity)
                 && Separated(w, pieces[1..][..last - 1]) && !Separated(w, pieces[1..])
  {
    hide AddInts, Separated;
    var last := |pieces| - 1;
    var front := pieces[..last];
    SeparatedFirst(v, pieces);
    if last > 0 {
      SeparatedFirst(v, front);
      assert front[0] == pieces[0] && front[1..] == pieces[1..][..last - 1];
      if last > 1 { assert front[1] == pieces[1]; }
    }
    if last <= 1 { SeparatedOne(AddInts(v, PieceElements(pieces[0])), pieces[1..]); }
  }

  lemma SeparatedFirst(v: Value, pieces: seq<Piece>)
    requires v.Ints? && pieces != []
    ensures var w := AddInts(v, PieceElements(pieces[0]));
            Separated(v, pieces) <==>
            && (pieces[0].Single? && |pieces| > 1 && pieces[1].Chunk? ==> |w.elements| == w.capacity)
            && Separated(w, pieces[1..])
  {
    hide AddInts;
  }

  lemma SeparatedOne(v: Value, pieces: seq<Piece>)
    requires v.Ints? && |pieces| <= 1
    ensures Separated(v, pieces)
  {
    hide AddInts;
    if pieces != [] { assert pieces[1..] == []; }
  }

  lemma {:induction false} LastPieceMisread(fields: seq<Field>, m: Message, i: nat, pieces: seq<Piece>)
    requires IsSchema(fields) && HasFields(m, fields) && i < |fields| && fields[i].kind.Int32sKind? && TagOf(fields[i]) < 0x4000
    requires pieces != [] && forall p :: p in pieces ==> IsPiece(p)
    requires i < |m.values| && m.values[i].Ints?
    requires Separated(m.values[i], pieces[..|pieces| - 1]) && !Separated(m.values[i], pieces)
    ensures NotRead(fields, m, i, Flatten(PieceRecords(fields[i], pieces)), m.values[i].elements + Elements(pieces))
    decreases |pieces|
  {
    hide HasFields, IsSchema, Step, IsPiece, PieceRecord, PieceRecords, AddInts, Parse, Separated;
    var f, v := fields[i], m.values[i];
    var w := AddInts(v, PieceElements(pieces[0]));
    LastNotSeparated(v, pieces);
    assert pieces[0] in pieces && pieces[1] in pieces;
    if |pieces| == 2 {
      var n, list := pieces[0].n, pieces[1].list;
      assert pieces == [Single(n), Chunk(list)];
      TwoPieces(f, Single(n), Chunk(list));
      AddedOne(v, n);
      HasRoom(fields, m, i, n);
      LastMisread(fields, m, i, n, list);
      assert v.elements + [n] + list == v.elements + Elements(pieces);
    } else {
      FirstPieceRead(fields, m, i, pieces);
      var n := SetValue(m, i, w);
      assert n.values[i] == w;
      LastPieceMisread(fields, n, i, pieces[1..]);
      NoPieceEmpty(f, pieces);
      ParseOne(fields, m, Flatten(PieceRecords(f, pieces)));
      assert w.elements + Elements(pieces[1..]) == v.elements + Elements(pieces);
    }
  }

  lemma HasRoom(fields: seq<Field>, m: Message, i: nat, n: int)
    requires HasFields(m, fields) && i < |fields| && fields[i].kind.Int32sKind?
    ensures i < |m.values| && m.values[i].Ints? && |AddInt(m.values[i], n).elements| <= AddInt(m.values[i], n).capacity
  {
    IntsField(fields, m, i);
  }

  lemma NoPieceEmpty(f: Field, pieces: seq<Piece>)
    requires pieces != [] && forall p :: p in pieces ==> IsPiece(p)
    ensures Flatten(PieceRecords(f, pieces)) != []
  {
    assert pieces[0] in pieces;
  }

  // If only the last piece can be misread, the list comes out right exactly if it is not.
  lemma MixedExactly(fields: seq<Field>, m: Message, i: nat, pieces: seq<Piece>)
    requires IsSchema(fields) && HasFields(m, fields) && i < |fields| && fields[i].kind.Int32sKind? && TagOf(fields[i]) < 0x4000
    requires pieces != [] && forall p :: p in pieces ==> IsPiece(p)
    ensures i < |m.values| && m.values[i].Ints?
    ensures Separated(m.values[i], pieces[..|pieces| - 1]) ==>
              (Parse(fields, m, Flatten(PieceRecords(fields[i], pieces))) == Some(SetValue(m, i, AddInts(m.values[i], Elements(pieces))))
               <==> Separated(m.values[i], pieces))
    ensures Separated(m.values[i], pieces[..|pieces| - 1]) && !Separated(m.values[i], pieces) ==>
              NotRead(fields, m, i, Flatten(PieceRecords(fields[i], pieces)), m.values[i].elements + Elements(pieces))
  {
    hide HasFields, IsSchema, IsPiece, PieceRecords, Parse, Separated, AddInts;
    IntsField(fields, m, i);
    MixedEncodings(fields, m, i, pieces);
    if Separated(m.values[i], pieces[..|pieces| - 1]) && !Separated(m.values[i], pieces) {
      LastPieceMisread(fields, m, i, pieces);
    }
  }
}
