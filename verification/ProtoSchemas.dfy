// The message classes of the program.

module ProtoSchemas {
  import opened Words
  import opened Results
  import opened Wire
  import opened ProtoValues
  import opened ProtoParse
  import opened ProtoRecords
  import opened ProtoRoundTrip
  import opened ProtoMixed
  import opened ProtoObjects
  import opened Chains

  const MESSAGE: seq<Field> :=
    [Field(1, Int64Kind), Field(2, StringKind), Field(3, BytesKind), Field(4, Int32Kind), Field(5, StringKind)]

  const AD: seq<Field> :=
    [ Field(1, Int32Kind), Field(2, StringKind), Field(3, StringKind), Field(4, StringKind), Field(5, Int32Kind)
    , Field(6, StringKind), Field(7, BytesKind), Field(8, Int32Kind), Field(9, Int32Kind), Field(10, StringKind)
    , Field(11, Int32Kind), Field(12, StringKind), Field(13, Int32Kind), Field(14, StringsKind), Field(15, Int32Kind)
    , Field(16, Int32Kind), Field(17, Int32Kind), Field(18, StringsKind), Field(19, Int32sKind), Field(20, Int32sKind) ]

  const RESULT: seq<Field> := [Field(1, MessagesKind(AD))]

  const PLAY_TIME: seq<Field> := [Field(1, StringKind), Field(2, StringKind)]

  const AD_PLAY: seq<Field> :=
    [Field(1, Int32Kind), Field(2, Int32Kind), Field(3, BoolKind), Field(4, MessagesKind(PLAY_TIME)), Field(5, Int32sKind)]

  const AD_PLAY_POLICY: seq<Field> :=
    [Field(1, Int32Kind), Field(2, StringKind), Field(3, StringKind), Field(4, MessagesKind(AD_PLAY))]

  // The numbers of a class go up by one from 1.
  ghost predicate Numbered(fields: seq<Field>) {
    forall i :: 0 <= i < |fields| ==> fields[i].number == i + 1
  }

  lemma NumberedSchema(fields: seq<Field>)
    requires Numbered(fields) && |fields| < 100
    requires forall i :: 0 <= i < |fields| && fields[i].kind.MessagesKind? ==> IsSchema(fields[i].kind.fields)
    ensures IsSchema(fields)
  {
  }

  lemma AllClasses()
    ensures IsClass(MESSAGE) && IsClass(AD) && IsClass(RESULT)
    ensures IsClass(PLAY_TIME) && IsClass(AD_PLAY) && IsClass(AD_PLAY_POLICY)
  {
    hide IsSchema;
    AllSchemas();
    assert IsClass(AD) && IsSubClass(RESULT[0]);
    assert IsClass(PLAY_TIME) && IsSubClass(AD_PLAY[3]);
    assert IsClass(AD_PLAY) && IsSubClass(AD_PLAY_POLICY[3]);
  }

  lemma AllSchemas()
    ensures IsSchema(MESSAGE) && IsSchema(AD) && IsSchema(RESULT)
    ensures IsSchema(PLAY_TIME) && IsSchema(AD_PLAY) && IsSchema(AD_PLAY_POLICY)
  {
    hide IsSchema;
    NumberedSchema(MESSAGE);
    NumberedSchema(AD);
    NumberedSchema(RESULT);
    NumberedSchema(PLAY_TIME);
    NumberedSchema(AD_PLAY);
    NumberedSchema(AD_PLAY_POLICY);
  }

  function TagsOf(fields: seq<Field>): seq<nat> { seq(|fields|, i requires 0 <= i < |fields| => TagOf(fields[i])) }

  // The tags are the constants of the generated code.
  lemma Tags()
    ensures TagsOf(MESSAGE) == [8, 18, 26, 32, 42]
    ensures TagsOf(AD) == [8, 18, 26, 34, 40, 50, 58, 64, 72, 82, 88, 98, 104, 114, 120, 128, 136, 146, 154, 162]
    ensures TagsOf(RESULT) == [10] && TagsOf(PLAY_TIME) == [10, 18]
    ensures TagsOf(AD_PLAY) == [8, 16, 24, 34, 42] && TagsOf(AD_PLAY_POLICY) == [8, 18, 26, 34]
    ensures UnpackedTag(AD_PLAY[4]) == 40 && UnpackedTag(AD[18]) == 152 && UnpackedTag(AD[19]) == 160
  {
  }

  // A string that is not UTF-8 is written, and not read back.
  lemma NotTextRefused()
    ensures var m := Message([Text([0xFF]), Text([])]);
            && HasFields(m, PLAY_TIME) && Serialize(PLAY_TIME, m) == [10, 1, 0xFF]
            && Parse(PLAY_TIME, Empty(PLAY_TIME), Serialize(PLAY_TIME, m)) == None
  {
    hide Parse, Serialize, IsSchema;
    var m := Message([Text([0xFF]), Text([])]);
    AllSchemas();
    NotTextBytes(m);
    assert !AllText(PLAY_TIME, m) by { assert !IsText(PLAY_TIME[0].kind, m.values[0]); }
    MessageBack(PLAY_TIME, m);
  }

  lemma NotTextBytes(m: Message)
    requires m == Message([Text([0xFF]), Text([])])
    ensures HasFields(m, PLAY_TIME) && Serialize(PLAY_TIME, m) == [10, 1, 0xFF]
  {
    var payload: seq<Byte> := [0xFF];
    var r := BytesRecord(PLAY_TIME[0], payload);
    OneByte(10, []);
    OneByte(1, []);
    assert r == [10, 1, 0xFF];
    var none: seq<seq<Byte>> := [];
    assert BytesRecords(PLAY_TIME[0], [payload]) == [r] + none;
    assert Records(PLAY_TIME[1], m.values[1]) == none;
    assert PLAY_TIME[1..] == [PLAY_TIME[1]] && m.values[1..] == [m.values[1]];
    assert AllRecords(PLAY_TIME[1..], m.values[1..]) == none;
    assert AllRecords(PLAY_TIME, m.values) == [r];
    assert Flatten([r]) == r + Flatten([r][1..]);
  }

  // A single integer, then a packed record: as the array has room, the length of the record is
  // taken for an integer of the list, and what is in the record for other fields.  Read piece by
  // piece, the list would be 1, 8, 5, and the location unset.
  lemma MixedMisread()
    ensures var s := Flatten(PieceRecords(AD_PLAY[4], [Single(1), Chunk([8, 5])]));
            Parse(AD_PLAY, Empty(AD_PLAY), s) == Some(Message([Int(5), Int(0), Bool(false), Messages([]), Ints([1, 2], 4)]))
  {
    hide Step, HasFields, HasKind;
    MixedBytes();
    var m := Empty(AD_PLAY);
    MisreadFirst(m);
    var n := SetValue(m, 4, Ints([1, 2], 4));
    MisreadSecond(n);
    var o := SetValue(n, 0, Int(5));
    assert Parse(AD_PLAY, o, []) == Some(o);
    assert Parse(AD_PLAY, n, [8, 5]) == Some(o);
    assert o.values == [Int(5), Int(0), Bool(false), Messages([]), Ints([1, 2], 4)];
  }

  lemma OneByte(b: Byte, t: seq<Byte>)
    requires b < 0x80
    ensures ReadVarint([b] + t) == Some((b, t)) && Varint(b) == [b]
  {
    VarintRead(b, t);
  }

  lemma MixedBytes()
    ensures Flatten(PieceRecords(AD_PLAY[4], [Single(1), Chunk([8, 5])])) == [40, 1, 42, 2, 8, 5]
  {
    assert Packed([5]) == [5] && Packed([8, 5]) == [8] + Packed([5]);
    var r, q := PieceRecord(AD_PLAY[4], Single(1)), PieceRecord(AD_PLAY[4], Chunk([8, 5]));
    assert r == [40, 1] && q == [42, 2, 8, 5];
    assert PieceRecords(AD_PLAY[4], [Chunk([8, 5])]) == [q] && [Single(1), Chunk([8, 5])][1..] == [Chunk([8, 5])];
    assert Flatten([q]) == q + Flatten([]) && [r, q][1..] == [q];
    assert Flatten([r, q]) == r + Flatten([q]);
  }

  lemma MisreadFirst(m: Message)
    requires HasFields(m, AD_PLAY) && m.values[4] == Ints([], 0)
    ensures Step(AD_PLAY, m, [40, 1, 42, 2, 8, 5]) == Some((SetValue(m, 4, Ints([1, 2], 4)), [8, 5]))
  {
    hide ReadVarint, HasFields, ReadRepeated, ReadDelimited, SkipField;
    OneByte(40, [1, 42, 2, 8, 5]);
    assert [40] + [1, 42, 2, 8, 5] == [40, 1, 42, 2, 8, 5];
    FieldNumbers();
    MisreadInts();
  }

  lemma FieldNumbers()
    ensures FindField(AD_PLAY, 5) == 4 && FindField(AD_PLAY, 1) == 0
  {
    AllSchemas();
    FieldFound(AD_PLAY, 4);
    FieldFound(AD_PLAY, 0);
  }

  lemma MisreadInts()
    ensures ReadRepeated(42, Ints([], 0), [1, 42, 2, 8, 5]) == Some((Ints([1, 2], 4), [8, 5]))
  {
    hide Varint, ReadVarint, ReadRepeated;
    OneByte(1, []);
    OneByte(2, [8, 5]);
    OneByte(42, []);
    var payload: seq<Byte> := [8, 5];
    assert Delimited(payload) + [] == [2, 8, 5] && BytesRecord(AD_PLAY[4], payload) + [] == [42, 2, 8, 5];
    LengthMisread(AD_PLAY[4], Ints([], 0), 1, payload, []);
    assert [1] + [42, 2, 8, 5] == [1, 42, 2, 8, 5];
    assert AddInt(Ints([], 0), 1) == Ints([1], 4);
    LastInt();
  }

  lemma LastInt()
    ensures ReadRepeated(42, Ints([1], 4), [2, 8, 5]) == Some((Ints([1, 2], 4), [8, 5]))
  {
    hide Varint, ReadRepeated;
    OneByte(42, []);
    var rest: seq<Byte> := [8, 5];
    assert [2] + rest == [2, 8, 5] && AddInt(Ints([1], 4), 2) == Ints([1, 2], 4);
    RepeatedOnce(42, Ints([1], 4), 2, rest);
  }

  lemma MisreadSecond(n: Message)
    requires HasFields(n, AD_PLAY)
    ensures Step(AD_PLAY, n, [8, 5]) == Some((SetValue(n, 0, Int(5)), []))
  {
    hide ReadVarint, HasFields, FindField, SkipField;
    OneByte(8, [5]);
    OneByte(5, []);
    assert [8] + [5] == [8, 5] && [5] + [] == [5];
    FieldNumbers();
    assert ReadInt(Int32Kind, 5) == Int(5);
  }

  // A list can also come out right although it is misread: a length is taken for an integer that
  // is equal to the one that follows it, and that one, with empty records after it, for an unknown
  // field.
  lemma MisreadUnnoticed()
    ensures var pieces := [Single(7), Chunk([1]), Chunk([]), Chunk([]), Chunk([]), Chunk([])];
            && !Separated(Ints([], 0), pieces) && Elements(pieces) == [7, 1]
            && Parse(AD_PLAY, Empty(AD_PLAY), Flatten(PieceRecords(AD_PLAY[4], pieces)))
               == Some(SetValue(Empty(AD_PLAY), 4, Ints([7, 1], 4)))
  {
    hide Step, HasFields, HasKind;
    var pieces := [Single(7), Chunk([1]), Chunk([]), Chunk([]), Chunk([]), Chunk([])];
    NotSeparated(pieces);
    UnnoticedBytes();
    var m := Empty(AD_PLAY);
    var n := SetValue(m, 4, Ints([7, 1], 4));
    UnnoticedFirst(m);
    UnnoticedSecond(n);
    assert Parse(AD_PLAY, n, []) == Some(n);
    assert Parse(AD_PLAY, n, [1, 42, 0, 42, 0, 42, 0, 42, 0]) == Some(n);
  }

  lemma NotSeparated(pieces: seq<Piece>)
    requires pieces == [Single(7), Chunk([1]), Chunk([]), Chunk([]), Chunk([]), Chunk([])]
    ensures !Separated(Ints([], 0), pieces) && Elements(pieces) == [7, 1]
  {
    assert AddInts(Ints([], 0), [7]) == Ints([7], 4);
    var rest := pieces[2..];
    NoElements(rest);
    assert pieces[1..][1..] == rest && Elements(pieces[1..]) == [1] + Elements(rest);
  }

  lemma {:induction false} NoElements(pieces: seq<Piece>)
    requires forall i :: 0 <= i < |pieces| ==> pieces[i] == Chunk([])
    ensures Elements(pieces) == []
  {
    if pieces != [] { NoElements(pieces[1..]); }
  }

  lemma UnnoticedBytes()
    ensures Flatten(PieceRecords(AD_PLAY[4], [Single(7), Chunk([1]), Chunk([]), Chunk([]), Chunk([]), Chunk([])])) ==
            [40, 7, 42, 1, 1, 42, 0, 42, 0, 42, 0, 42, 0]
  {
    hide PieceRecord, PieceRecords, Flatten, IsPiece;
    var f, none, one, single := AD_PLAY[4], Chunk([]), Chunk([1]), Single(7);
    PieceBytes();
    FirstPiece(f, single, [one, none, none, none, none]);
    assert [single] + [one, none, none, none, none] == [single, one, none, none, none, none];
    FirstPiece(f, one, [none, none, none, none]);
    assert [one] + [none, none, none, none] == [one, none, none, none, none];
    FourEmpty();
  }

  lemma PieceBytes()
    ensures IsPiece(Chunk([])) && IsPiece(Chunk([1])) && IsPiece(Single(7))
    ensures PieceRecord(AD_PLAY[4], Chunk([])) == [42, 0]
    ensures PieceRecord(AD_PLAY[4], Chunk([1])) == [42, 1, 1] && PieceRecord(AD_PLAY[4], Single(7)) == [40, 7]
  {
    assert Packed([1]) == [1];
  }

  lemma FourEmpty()
    ensures IsPiece(Chunk([]))
    ensures Flatten(PieceRecords(AD_PLAY[4], [Chunk([]), Chunk([]), Chunk([]), Chunk([])])) == [42, 0, 42, 0, 42, 0, 42, 0]
  {
    hide PieceRecord, PieceRecords, Flatten, IsPiece;
    var f, none := AD_PLAY[4], Chunk([]);
    PieceBytes();
    FirstPiece(f, none, [none, none, none]);
    assert [none] + [none, none, none] == [none, none, none, none];
    FirstPiece(f, none, [none, none]);
    assert [none] + [none, none] == [none, none, none];
    FirstPiece(f, none, [none]);
    assert [none] + [none] == [none, none];
    FirstPiece(f, none, []);
    assert [none] + [] == [none];
    assert Flatten(PieceRecords(f, [])) == [] by { NoPieces(f); }
  }

  lemma NoPieces(f: Field)
    ensures Flatten(PieceRecords(f, [])) == []
  {
  }

  lemma FirstPiece(f: Field, p: Piece, rest: seq<Piece>)
    requires forall q :: q in [p] + rest ==> IsPiece(q)
    ensures forall q :: q in rest ==> IsPiece(q)
    ensures IsPiece(p) && Flatten(PieceRecords(f, [p] + rest)) == PieceRecord(f, p) + Flatten(PieceRecords(f, rest))
  {
    hide IsPiece, PieceRecord;
    assert ([p] + rest)[1..] == rest && p in [p] + rest;
    assert forall q :: q in rest ==> q in [p] + rest;
    var rs := PieceRecords(f, [p] + rest);
    assert rs[1..] == PieceRecords(f, rest);
  }

  lemma UnnoticedFirst(m: Message)
    requires HasFields(m, AD_PLAY) && m.values[4] == Ints([], 0)
    ensures Step(AD_PLAY, m, [40, 7, 42, 1, 1, 42, 0, 42, 0, 42, 0, 42, 0]) ==
            Some((SetValue(m, 4, Ints([7, 1], 4)), [1, 42, 0, 42, 0, 42, 0, 42, 0]))
  {
    hide ReadVarint, HasFields, ReadRepeated, ReadDelimited, SkipField;
    var rest: seq<Byte> := [7, 42, 1, 1, 42, 0, 42, 0, 42, 0, 42, 0];
    OneByte(40, rest);
    assert [40] + rest == [40, 7, 42, 1, 1, 42, 0, 42, 0, 42, 0, 42, 0];
    FieldNumbers();
    UnnoticedInts();
    FieldsHave(AD_PLAY, m, 4);
    assert ReadValue(AD_PLAY[4], 40, m.values[4], rest) == ReadRepeated(42, Ints([], 0), rest);
  }

  lemma UnnoticedInts()
    ensures ReadRepeated(42, Ints([], 0), [7, 42, 1, 1, 42, 0, 42, 0, 42, 0, 42, 0]) ==
            Some((Ints([7, 1], 4), [1, 42, 0, 42, 0, 42, 0, 42, 0]))
  {
    hide Varint, ReadVarint, ReadRepeated;
    OneByte(7, []);
    OneByte(42, []);
    var payload: seq<Byte>, after: seq<Byte> := [1], [42, 0, 42, 0, 42, 0, 42, 0];
    OneByte(1, payload + after);
    LengthMisread(AD_PLAY[4], Ints([], 0), 7, payload, after);
    assert Delimited(payload) + after == [1] + (payload + after);
    assert [7] + (BytesRecord(AD_PLAY[4], payload) + after) == [7, 42, 1, 1, 42, 0, 42, 0, 42, 0, 42, 0];
    assert AddInt(Ints([], 0), 7) == Ints([7], 4) && AddInt(Ints([7], 4), 1) == Ints([7, 1], 4);
    assert (payload + after)[0] == 1 && Varint(42)[0] == 42;
    RepeatedOnce(42, Ints([7], 4), 1, payload + after);
    assert payload + after == [1, 42, 0, 42, 0, 42, 0, 42, 0];
  }

  // One integer, and then no tag of a packed record
  lemma RepeatedOnce(tag: nat, v: Value, n: Byte, t: seq<Byte>)
    requires HasKind(v, Int32sKind) && v.Ints? && n < 0x80 && !ExpectTag(tag, t)
    ensures ReadRepeated(tag, v, [n] + t) == Some((AddInt(v, n), t))
  {
    hide ReadVarint, Varint;
    OneByte(n, t);
  }

  lemma UnnoticedSecond(n: Message)
    requires HasFields(n, AD_PLAY)
    ensures Step(AD_PLAY, n, [1, 42, 0, 42, 0, 42, 0, 42, 0]) == Some((n, []))
  {
    hide ReadVarint, HasFields, ReadValue;
    var rest: seq<Byte> := [42, 0, 42, 0, 42, 0, 42, 0];
    OneByte(1, rest);
    assert [1] + rest == [1, 42, 0, 42, 0, 42, 0, 42, 0];
    assert rest[8..] == [];
  }

  // With an unknown field between the single integer and the packed record of MixedMisread, they are
  // parsed as the list 1, 8, 5: here the unknown field does change the result.
  lemma UnknownBetween()
    ensures Parse(AD_PLAY, Empty(AD_PLAY), [40, 1, 48, 0, 42, 2, 8, 5]) == Some(SetValue(Empty(AD_PLAY), 4, Ints([1, 8, 5], 4)))
    ensures Parse(AD_PLAY, Empty(AD_PLAY), [40, 1, 42, 2, 8, 5]) != Parse(AD_PLAY, Empty(AD_PLAY), [40, 1, 48, 0, 42, 2, 8, 5])
    ensures IsRecord([48, 0]) && !IsKnown(AD_PLAY, [48, 0])
  {
    hide Parse, HasFields, IsRecord, IsKnown, IsSchema, AddInts, PieceRecord, IsPiece;
    var m := Empty(AD_PLAY);
    var u: seq<Byte> := [48, 0];
    assert m.values[4] == Ints([], 0);
    UnknownRecord();
    BetweenPieces();
    AllSchemas();
    KeptApart(AD_PLAY, m, 4, 1, [8, 5], u);
    assert [40, 1] + u + [42, 2, 8, 5] == [40, 1, 48, 0, 42, 2, 8, 5];
    OneEightFive();
    MixedMisread();
    MixedBytes();
    var misread := Message([Int(5), Int(0), Bool(false), Messages([]), Ints([1, 2], 4)]);
    assert misread.values[4] == Ints([1, 2], 4) && |[1, 2]| != |[1, 8, 5]|;
    assert SetValue(m, 4, Ints([1, 8, 5], 4)).values[4] == Ints([1, 8, 5], 4);
  }

  lemma BetweenPieces()
    ensures IsPiece(Single(1)) && PieceRecord(AD_PLAY[4], Single(1)) == [40, 1]
    ensures IsPiece(Chunk([8, 5])) && PieceRecord(AD_PLAY[4], Chunk([8, 5])) == [42, 2, 8, 5]
  {
    assert Packed([5]) == [5] && Packed([8, 5]) == [8] + Packed([5]);
  }

  lemma OneEightFive()
    ensures AddInts(Ints([], 0), [1] + [8, 5]) == Ints([1, 8, 5], 4)
  {
    hide AddInts;
    var none, one, two := Ints([], 0), Ints([1], 4), Ints([1, 8], 4);
    assert AddInt(none, 1) == one && AddInt(one, 8) == two && AddInt(two, 5) == Ints([1, 8, 5], 4);
    AddedOne(none, 1);
    AddedOne(one, 8);
    AddedOne(two, 5);
    AddIntsTwice(none, [1], [8, 5]);
    assert [8] + [5] == [8, 5];
    AddIntsTwice(one, [8], [5]);
  }

  lemma UnknownRecord()
    ensures IsRecord([48, 0]) && !IsKnown(AD_PLAY, [48, 0])
  {
    hide ReadVarint;
    OneByte(48, [0]);
    OneByte(0, []);
    assert [48] + [0] == [48, 0] && [0] + [] == [0];
  }
}
