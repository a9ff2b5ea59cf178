// Fields that need not have been written by the serializers: unknown ones in between, and lists of
// integers that are packed, not packed, or both.

module ProtoMixed {
  import opened Arithmetic
  import opened Words
  import opened Results
  import opened Wire
  import opened ProtoValues
  import opened ProtoParse
  import opened ProtoRecords
  import opened ProtoRoundTrip
  import opened Chains

  // ---------- unknown fields ----------

  // Unknown fields anywhere between others change nothing, whenever the parser reads the known ones
  // one by one.
  lemma UnknownFieldsIgnored(fields: seq<Field>, m: Message, rs: seq<seq<Byte>>)
    requires HasFields(m, fields) && (forall r :: r in rs ==> IsRecord(r)) && ReadOneByOne(fields, m, Known(fields, rs))
    ensures ReadOneByOne(fields, m, rs)
    ensures Parse(fields, m, Flatten(rs)) == Parse(fields, m, Flatten(Known(fields, rs)))
  {
    hide HasFields, Parse, Aligned, ReadOneByOne, IsRecord, ApplyAll, Known;
    KnownAmong(fields, rs);
    AlignedExactly(fields, m, Known(fields, rs));
    KnownAligned(fields, m, rs);
    AlignedExactly(fields, m, rs);
    ParseRecords(fields, m, rs);
    ParseRecords(fields, m, Known(fields, rs));
    UnknownIgnored(fields, m, rs);
  }

  lemma {:induction false} KnownAmong(fields: seq<Field>, rs: seq<seq<Byte>>)
    ensures forall r :: r in Known(fields, rs) ==> r in rs
  {
    if rs != [] { KnownAmong(fields, rs[1..]); }
  }

  // Bytes that begin with a tag, even if others follow them
  lemma TagWithin(tag: nat, r: seq<Byte>, t: seq<Byte>)
    requires ReadTag(r).Some? && tag < 0x4000 && Varint(tag) <= r + t
    ensures ReadTag(r).value.0 == tag && Varint(tag) <= r
  {
    hide ReadVarint, Varint;
    var u := (r + t)[|Varint(tag)|..];
    assert r + t == Varint(tag) + u;
    VarintRead(tag, u);
    VarintLocal(r, t);
    assert u == ReadTag(r).value.1 + t;
  }

  // The tag of a packed record, in front of a list of fields, is still there without the unknown ones.
  lemma ExpectKnown(fields: seq<Field>, i: nat, rs: seq<seq<Byte>>)
    requires forall r :: r in rs ==> IsRecord(r)
    requires i < |fields| && i == FindField(fields, fields[i].number) && fields[i].kind.Int32sKind?
    requires ExpectTag(TagOf(fields[i]), Flatten(rs))
    ensures ExpectTag(TagOf(fields[i]), Flatten(Known(fields, rs)))
  {
    hide Varint, ReadTag, FindField;
    var tag := TagOf(fields[i]);
    if rs == [] {
      NoTagAtEnd(tag);
    } else {
      assert rs[0] in rs;
      TagWithin(tag, rs[0], Flatten(rs[1..]));
      assert tag / 8 == fields[i].number && IsKnown(fields, rs[0]);
      var known := Known(fields, rs);
      assert known == [rs[0]] + Known(fields, rs[1..]) && rs[0] <= Flatten(known);
    }
  }

  lemma StraddlesKnown(fields: seq<Field>, m: Message, r: seq<Byte>, rs: seq<seq<Byte>>)
    requires HasFields(m, fields) && IsRecord(r) && (forall q :: q in rs ==> IsRecord(q))
    ensures ReadTag(r).Some?
    ensures Straddles(fields, m, r, Flatten(rs)) ==> IsKnown(fields, r) && Straddles(fields, m, r, Flatten(Known(fields, rs)))
  {
    hide HasFields, ReadTag, ExpectTag, Known, SkipField;
    if Straddles(fields, m, r, Flatten(rs)) {
      ExpectKnown(fields, FindField(fields, ReadTag(r).value.0 / 8), rs);
    }
  }

  lemma {:induction false} KnownAligned(fields: seq<Field>, m: Message, rs: seq<seq<Byte>>)
    requires HasFields(m, fields) && forall r :: r in rs ==> IsRecord(r)
    requires (forall r :: r in Known(fields, rs) ==> IsRecord(r)) && Aligned(fields, m, Known(fields, rs))
    ensures Aligned(fields, m, rs)
    decreases |rs|
  {
    hide HasFields, Step, Straddles, IsRecord, IsKnown;
    if rs != [] {
      assert rs[0] in rs;
      var rest := Known(fields, rs[1..]);
      KnownAmong(fields, rs[1..]);
      var one := Step(fields, m, rs[0]);
      if IsKnown(fields, rs[0]) {
        assert ([rs[0]] + rest)[1..] == rest;
      } else {
        assert [] + rest == rest;
        UnknownStep(fields, m, rs[0]);
      }
      if one.Some? {
        var n := one.value.0;
        KnownAligned(fields, n, rs[1..]);
        StraddlesKnown(fields, n, rs[0], rs[1..]);
      }
    }
  }

  // ---------- pieces of a list of integers ----------

  datatype Piece = Single(n: int) | Chunk(list: seq<int>)

  ghost predicate IsPiece(p: Piece) {
    match p
    case Single(n) => IsInt32(n)
    case Chunk(list) => (forall n :: n in list ==> IsInt32(n)) && |Packed(list)| <= INT_MAX
  }

  function PieceRecord(f: Field, p: Piece): seq<Byte>
    requires IsPiece(p)
  {
    match p
    case Single(n) => Varint(UnpackedTag(f)) + Varint(Unsigned(n))
    case Chunk(list) => BytesRecord(f, Packed(list))
  }

  ghost function PieceRecords(f: Field, pieces: seq<Piece>): (rs: seq<seq<Byte>>)
    requires forall p :: p in pieces ==> IsPiece(p)
    ensures |rs| == |pieces|
  {
    if pieces == [] then [] else (assert pieces[0] in pieces; [PieceRecord(f, pieces[0])]) + PieceRecords(f, pieces[1..])
  }

  function PieceElements(p: Piece): seq<int> { match p case Single(n) => [n] case Chunk(list) => list }

  function Elements(pieces: seq<Piece>): seq<int> {
    if pieces == [] then [] else PieceElements(pieces[0]) + Elements(pieces[1..])
  }

  function AddInts(v: Value, list: seq<int>): (w: Value)
    requires v.Ints?
    ensures w.Ints? && w.elements == v.elements + list
    decreases |list|
  {
    if list == [] then v else AddInts(AddInt(v, list[0]), list[1..])
  }

  // The room of a list to which integers have been added one by one: four, eight, sixteen, and so on
  ghost predicate HasRoom(v: Value) {
    v.Ints? && if v.elements == [] then v.capacity == 0
               else IsPow2(v.capacity) && |v.elements| <= v.capacity && 4 <= v.capacity < Max(5, 2 * |v.elements|)
  }

  lemma {:induction false} Capacities(v: Value, list: seq<int>)
    requires HasRoom(v)
    ensures HasRoom(AddInts(v, list))
    decreases |list|
  {
    if list != [] {
      assert Pow2(2) == 4 && IsPow2(4);
      if v.elements != [] { Pow2Even(v.capacity); }
      Capacities(AddInt(v, list[0]), list[1..]);
    }
  }

  // One allocation for all the integers of another list: exactly enough, but four at least, and twice
  // what there was
  lemma CapacityMerged(v: Value, list: seq<int>, capacity: nat)
    requires HasKind(v, Int32sKind) && HasKind(Ints(list, capacity), Int32sKind) && list != []
    ensures var w, n := MergeValue(Int32sKind, v, Ints(list, capacity)), |v.elements| + |list|;
            && w.elements == v.elements + list
            && (n <= v.capacity ==> w.capacity == v.capacity)
            && (n > v.capacity ==> w.capacity >= 4 && w.capacity >= 2 * v.capacity && w.capacity >= n
                                   && (w.capacity == 4 || w.capacity == 2 * v.capacity || w.capacity == n))
  {
  }

  // No single integer comes right before a packed record while the array has room.
  predicate Separated(v: Value, pieces: seq<Piece>)
    requires v.Ints?
    decreases |pieces|
  {
    pieces == [] ||
    var w := AddInts(v, PieceElements(pieces[0]));
    && (pieces[0].Single? && |pieces| > 1 && pieces[1].Chunk? ==> |w.elements| == w.capacity)
    && Separated(w, pieces[1..])
  }

  // ---------- one piece ----------

  lemma {:induction false} ReadPackedIs(v: Value, list: seq<int>)
    requires HasKind(v, Int32sKind) && forall n :: n in list ==> IsInt32(n)
    ensures ReadPacked(v, Packed(list)) == Some(AddInts(v, list))
    decreases |list|
  {
    hide ReadVarint, Varint;
    if list != [] {
      var n := list[0];
      assert n in list && IsInt32(n);
      VarintRead(Unsigned(n), Packed(list[1..]));
      IntsBack(n);
      ReadPackedIs(AddInt(v, n), list[1..]);
    }
  }

  lemma PieceShape(f: Field, p: Piece)
    requires IsField(f) && f.kind.Int32sKind? && IsPiece(p)
    ensures IsRecord(PieceRecord(f, p))
    ensures ReadTag(PieceRecord(f, p)).value.0 == if p.Single? then UnpackedTag(f) else TagOf(f)
  {
    hide ReadVarint, Varint, ReadTag;
    match p
    case Single(n) =>
      TagRead(UnpackedTag(f), Varint(Unsigned(n)));
      VarintRead(Unsigned(n), []);
      assert Varint(Unsigned(n)) + [] == Varint(Unsigned(n));
    case Chunk(list) => BytesRecordShape(f, Packed(list));
  }

  lemma StepPiece(fields: seq<Field>, m: Message, i: nat, p: Piece)
    requires IsSchema(fields) && HasFields(m, fields) && i < |fields| && fields[i].kind.Int32sKind? && IsPiece(p)
    ensures m.values[i].Ints?
    ensures Step(fields, m, PieceRecord(fields[i], p)) == Some((SetValue(m, i, AddInts(m.values[i], PieceElements(p))), []))
  {
    hide IsSchema, FindField, ReadVarint, Varint, ReadTag, ReadPacked, Packed;
    FieldFound(fields, i);
    match p
    case Single(n) =>
      TagRead(UnpackedTag(fields[i]), Varint(Unsigned(n)));
      VarintRead(Unsigned(n), []);
      assert Varint(Unsigned(n)) + [] == Varint(Unsigned(n));
      IntsBack(n);
      NoTagAtEnd(TagOf(fields[i]));
      assert AddInts(m.values[i], [n]) == AddInt(m.values[i], n);
    case Chunk(list) =>
      StepBytes(fields, m, i, Packed(list));
      ReadPackedIs(m.values[i], list);
  }

  lemma NoTagAtEnd(tag: nat)
    ensures !ExpectTag(tag, [])
  {
  }

  // What a list of pieces starts with is the tag of the first one.
  lemma ExpectPieces(f: Field, pieces: seq<Piece>)
    requires IsField(f) && f.kind.Int32sKind? && TagOf(f) < 0x4000 && forall p :: p in pieces ==> IsPiece(p)
    ensures ExpectTag(TagOf(f), Flatten(PieceRecords(f, pieces))) <==> pieces != [] && pieces[0].Chunk?
  {
    hide ReadVarint, Varint, Packed, IsPiece;
    if pieces != [] {
      var p, rest := pieces[0], Flatten(PieceRecords(f, pieces[1..]));
      assert p in pieces;
      var s := PieceRecord(f, p) + rest;
      assert Flatten(PieceRecords(f, pieces)) == s;
      var tag := if p.Single? then UnpackedTag(f) else TagOf(f);
      assert Varint(tag) <= s;
      OneVarint(tag, TagOf(f), s);
    } else {
      NoTagAtEnd(TagOf(f));
    }
  }

  lemma OneVarint(a: nat, b: nat, s: seq<Byte>)
    requires a < WORD64 && b < WORD64 && Varint(a) <= s
    ensures Varint(b) <= s <==> a == b
  {
    hide ReadVarint, Varint;
    if Varint(b) <= s {
      assert s == Varint(a) + s[|Varint(a)|..] && s == Varint(b) + s[|Varint(b)|..];
      VarintRead(a, s[|Varint(a)|..]);
      VarintRead(b, s[|Varint(b)|..]);
    }
  }

  // ---------- all pieces ----------

  lemma {:induction false} PiecesAreRecords(f: Field, pieces: seq<Piece>)
    requires IsField(f) && f.kind.Int32sKind? && forall p :: p in pieces ==> IsPiece(p)
    ensures forall r :: r in PieceRecords(f, pieces) ==> IsRecord(r)
  {
    hide IsField, IsRecord, IsPiece, PieceRecord;
    if pieces != [] {
      assert pieces[0] in pieces;
      PieceShape(f, pieces[0]);
      PiecesAreRecords(f, pieces[1..]);
    }
  }

  lemma {:induction false} PiecesApplied(fields: seq<Field>, m: Message, i: nat, pieces: seq<Piece>)
    requires IsSchema(fields) && HasFields(m, fields) && i < |fields| && fields[i].kind.Int32sKind?
    requires forall p :: p in pieces ==> IsPiece(p)
    ensures m.values[i].Ints?
    ensures var r := ApplyAll(fields, m, PieceRecords(fields[i], pieces));
            r.Some? && r.value == SetValue(m, i, AddInts(m.values[i], Elements(pieces)))
    decreases |pieces|
  {
    hide IsSchema, Step, IsPiece, PieceRecord, AddInts;
    var f := fields[i];
    if pieces == [] {
      NoInts(m.values[i]);
      assert m.values[i := m.values[i]] == m.values;
    } else {
      assert pieces[0] in pieces;
      var r, more := PieceRecord(f, pieces[0]), PieceRecords(f, pieces[1..]);
      StepPiece(fields, m, i, pieces[0]);
      var n := SetValue(m, i, AddInts(m.values[i], PieceElements(pieces[0])));
      PiecesApplied(fields, n, i, pieces[1..]);
      AddIntsTwice(m.values[i], PieceElements(pieces[0]), Elements(pieces[1..]));
      assert ([r] + more)[1..] == more;
    }
  }

  lemma NoInts(v: Value)
    requires v.Ints?
    ensures AddInts(v, []) == v
  {
  }

  lemma AddedOne(v: Value, n: int)
    requires v.Ints?
    ensures AddInts(v, [n]) == AddInt(v, n)
  {
  }

  lemma {:induction false} AddIntsTwice(v: Value, a: seq<int>, b: seq<int>)
    requires v.Ints?
    ensures AddInts(AddInts(v, a), b) == AddInts(v, a + b)
    decreases |a|
  {
    if a == [] {
      assert a + b == b;
    } else {
      assert (a + b)[1..] == a[1..] + b;
      AddIntsTwice(AddInt(v, a[0]), a[1..], b);
    }
  }

  lemma {:induction false} PiecesAligned(fields: seq<Field>, m: Message, i: nat, pieces: seq<Piece>)
    requires IsSchema(fields) && HasFields(m, fields) && i < |fields| && fields[i].kind.Int32sKind? && TagOf(fields[i]) < 0x4000
    requires forall p :: p in pieces ==> IsPiece(p)
    ensures m.values[i].Ints? && forall r :: r in PieceRecords(fields[i], pieces) ==> IsRecord(r)
    ensures Aligned(fields, m, PieceRecords(fields[i], pieces)) <==> Separated(m.values[i], pieces)
    decreases |pieces|
  {
    hide IsSchema, Step, IsRecord, IsPiece, PieceRecord, AddInts, HasKind, Straddles;
    var f := fields[i];
    FieldFound(fields, i);
    PiecesAreRecords(f, pieces);
    IntsField(fields, m, i);
    if pieces != [] {
      assert pieces[0] in pieces;
      var r, more := PieceRecord(f, pieces[0]), PieceRecords(f, pieces[1..]);
      StepPiece(fields, m, i, pieces[0]);
      var n := SetValue(m, i, AddInts(m.values[i], PieceElements(pieces[0])));
      PiecesAligned(fields, n, i, pieces[1..]);
      PieceStraddles(fields, n, i, pieces);
      assert ([r] + more)[1..] == more;
    }
  }

  lemma IntsField(fields: seq<Field>, m: Message, i: nat)
    requires HasFields(m, fields) && i < |fields| && fields[i].kind.Int32sKind?
    ensures |m.values| == |fields| && m.values[i].Ints? && |m.values[i].elements| <= m.values[i].capacity
  {
    assert HasKind(m.values[i], fields[i].kind);
  }

  lemma PieceStraddles(fields: seq<Field>, n: Message, i: nat, pieces: seq<Piece>)
    requires IsSchema(fields) && HasFields(n, fields) && i < |fields| && fields[i].kind.Int32sKind? && TagOf(fields[i]) < 0x4000
    requires pieces != [] && forall p :: p in pieces ==> IsPiece(p)
    ensures n.values[i].Ints? && ReadTag(PieceRecord(fields[i], pieces[0])).Some?
    ensures Straddles(fields, n, PieceRecord(fields[i], pieces[0]), Flatten(PieceRecords(fields[i], pieces[1..]))) <==>
            pieces[0].Single? && |pieces| > 1 && pieces[1].Chunk? && |n.values[i].elements| != n.values[i].capacity
  {
    hide IsSchema, FindField, IsPiece, PieceRecord, PieceRecords, ExpectTag, ReadTag;
    assert pieces[0] in pieces;
    FieldFound(fields, i);
    PieceShape(fields[i], pieces[0]);
    ExpectPieces(fields[i], pieces[1..]);
  }

  // A list of integers in pieces is read piece by piece exactly if no single integer comes right
  // before a packed record while the array has room; and then it is parsed as the whole list, no
  // matter how it is divided.
  lemma MixedEncodings(fields: seq<Field>, m: Message, i: nat, pieces: seq<Piece>)
    requires IsSchema(fields) && HasFields(m, fields) && i < |fields| && fields[i].kind.Int32sKind? && TagOf(fields[i]) < 0x4000
    requires forall p :: p in pieces ==> IsPiece(p)
    ensures m.values[i].Ints?
    ensures ReadOneByOne(fields, m, PieceRecords(fields[i], pieces)) <==> Separated(m.values[i], pieces)
    ensures Separated(m.values[i], pieces) ==>
              var r := Parse(fields, m, Flatten(PieceRecords(fields[i], pieces)));
              r.Some? && r.value == SetValue(m, i, AddInts(m.values[i], Elements(pieces)))
  {
    hide IsSchema, HasFields, Step, IsRecord, IsPiece, PieceRecord, PieceRecords, Aligned, Separated, ApplyAll, Parse, ReadOneByOne;
    IntsField(fields, m, i);
    PiecesAligned(fields, m, i, pieces);
    PiecesApplied(fields, m, i, pieces);
    var rs := PieceRecords(fields[i], pieces);
    AlignedExactly(fields, m, rs);
    if Separated(m.values[i], pieces) { ParseRecords(fields, m, rs); }
  }

  // Packed records only, single integers only, and packed records before single integers
  lemma {:induction false} SeparatedIf(v: Value, pieces: seq<Piece>)
    requires v.Ints? && forall j :: 0 < j < |pieces| && pieces[j].Chunk? ==> pieces[j - 1].Chunk?
    ensures Separated(v, pieces)
    decreases |pieces|
  {
    if pieces != [] { SeparatedIf(AddInts(v, PieceElements(pieces[0])), pieces[1..]); }
  }

  // Otherwise the parser goes on as if the length of the packed record were one more integer.
  lemma LengthMisread(f: Field, v: Value, n: int, payload: seq<Byte>, t: seq<Byte>)
    requires HasKind(v, Int32sKind) && v.Ints? && IsInt32(n) && IsField(f) && TagOf(f) < 0x4000
    requires |AddInt(v, n).elements| < AddInt(v, n).capacity
    ensures ReadRepeated(TagOf(f), v, Varint(Unsigned(n)) + (BytesRecord(f, payload) + t)) ==
            ReadRepeated(TagOf(f), AddInt(v, n), Delimited(payload) + t)
  {
    hide ReadVarint, Varint, Delimited, HasKind;
    var rest := BytesRecord(f, payload) + t;
    VarintRead(Unsigned(n), rest);
    IntsBack(n);
    assert rest == Varint(TagOf(f)) + (Delimited(payload) + t);
    assert rest[|Varint(TagOf(f))|..] == Delimited(payload) + t;
  }

  // An unknown field between the two keeps them apart.
  lemma KeptApart(fields: seq<Field>, m: Message, i: nat, n: int, list: seq<int>, u: seq<Byte>)
    requires IsSchema(fields) && HasFields(m, fields) && i < |fields| && fields[i].kind.Int32sKind?
    requires IsPiece(Single(n)) && IsPiece(Chunk(list)) && IsRecord(u) && !IsKnown(fields, u)
    ensures i < |m.values| && m.values[i].Ints?
    ensures Parse(fields, m, PieceRecord(fields[i], Single(n)) + u + PieceRecord(fields[i], Chunk(list))) ==
            Some(SetValue(m, i, AddInts(m.values[i], [n] + list)))
  {
    hide HasFields, IsSchema, Step, IsRecord, IsPiece, IsKnown, PieceRecord, AddInts, Straddles, ExpectTag, Parse;
    var r, q := PieceRecord(fields[i], Single(n)), PieceRecord(fields[i], Chunk(list));
    IntsField(fields, m, i);
    PieceAlone(fields, m, i, Single(n), u + q) by { NotExpected(fields, i, u, q); }
    var o := SetValue(m, i, AddInts(m.values[i], [n]));
    UnknownAlone(fields, o, u, q);
    NoTagAtEnd(TagOf(fields[i]));
    PieceAlone(fields, o, i, Chunk(list), []);
    assert r + u + q == r + (u + q) && q + [] == q;
    ParseOne(fields, m, r + (u + q));
    ParseOne(fields, o, u + q);
    AddIntsTwice(m.values[i], [n], list);
    ParseOne(fields, o, q);
    var w := AddInts(m.values[i], [n] + list);
    assert SetValue(o, i, w) == SetValue(m, i, w);
    ParseEnd(fields, SetValue(o, i, w));
  }

  lemma PieceAlone(fields: seq<Field>, m: Message, i: nat, p: Piece, t: seq<Byte>)
    requires IsSchema(fields) && HasFields(m, fields) && i < |fields| && fields[i].kind.Int32sKind? && IsPiece(p)
    requires p.Single? ==> !ExpectTag(TagOf(fields[i]), t)
    ensures i < |m.values| && m.values[i].Ints? && PieceRecord(fields[i], p) != []
    ensures Step(fields, m, PieceRecord(fields[i], p) + t) == Some((SetValue(m, i, AddInts(m.values[i], PieceElements(p))), t))
    ensures HasFields(SetValue(m, i, AddInts(m.values[i], PieceElements(p))), fields)
  {
    hide HasFields, IsSchema, Step, IsPiece, PieceRecord, AddInts, ExpectTag, ReadTag;
    IntsField(fields, m, i);
    FieldFound(fields, i);
    StepPiece(fields, m, i, p);
    PieceShape(fields[i], p);
    RecordNotEmpty(PieceRecord(fields[i], p));
    StepRecord(fields, m, PieceRecord(fields[i], p), t);
  }

  lemma UnknownAlone(fields: seq<Field>, m: Message, u: seq<Byte>, t: seq<Byte>)
    requires HasFields(m, fields) && IsRecord(u) && !IsKnown(fields, u)
    ensures u != [] && Step(fields, m, u + t) == Some((m, t))
  {
    hide HasFields, Step, SkipField, ExpectTag, ReadTag;
    UnknownStep(fields, m, u);
    RecordNotEmpty(u);
    StepRecord(fields, m, u, t);
  }

  lemma NotExpected(fields: seq<Field>, i: nat, u: seq<Byte>, t: seq<Byte>)
    requires IsSchema(fields) && i < |fields| && IsRecord(u) && !IsKnown(fields, u)
    ensures !ExpectTag(TagOf(fields[i]), u + t)
  {
    hide IsSchema, Varint, ReadTag;
    FieldFound(fields, i);
    if ExpectTag(TagOf(fields[i]), u + t) { TagWithin(TagOf(fields[i]), u, t); }
  }

  lemma ParseOne(fields: seq<Field>, m: Message, s: seq<Byte>)
    requires HasFields(m, fields) && s != [] && Step(fields, m, s).Some?
    ensures Parse(fields, m, s) == Parse(fields, Step(fields, m, s).value.0, Step(fields, m, s).value.1)
  {
  }

  lemma ParseEnd(fields: seq<Field>, m: Message)
    requires HasFields(m, fields)
    ensures Parse(fields, m, []) == Some(m)
  {
  }
}
