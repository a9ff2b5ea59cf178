// Parsing what was serialized is merging.

module ProtoRoundTrip {
  import opened Words
  import opened Results
  import opened Wire
  import opened Utf8
  import opened ProtoValues
  import opened ProtoParse
  import opened ProtoRecords
  import opened Chains

  // ---------- single records ----------

  lemma IntRecordShape(f: Field, n: nat, t: seq<Byte>)
    requires IsField(f) && WireTypeOf(f.kind) == VARINT && n < WORD64
    ensures IsRecord(IntRecord(f, n)) && ReadTag(IntRecord(f, n)) == Some((TagOf(f), Varint(n)))
    ensures ReadVarint(Varint(n)) == Some((n, []))
  {
    hide ReadVarint, Varint, ReadTag;
    TagRead(TagOf(f), Varint(n));
    VarintRead(n, []);
    assert Varint(n) + [] == Varint(n);
  }

  lemma BytesRecordShape(f: Field, payload: seq<Byte>)
    requires IsField(f) && WireTypeOf(f.kind) == LENGTH_DELIMITED && |payload| <= INT_MAX
    ensures IsRecord(BytesRecord(f, payload)) && ReadTag(BytesRecord(f, payload)) == Some((TagOf(f), Delimited(payload)))
    ensures ReadDelimited(Delimited(payload)) == Some((payload, []))
  {
    hide ReadDelimited, Varint, ReadTag, Delimited;
    TagRead(TagOf(f), Delimited(payload));
    DelimitedRead(payload, []);
    assert Delimited(payload) + [] == Delimited(payload);
  }

  lemma FieldFound(fields: seq<Field>, i: nat)
    requires IsSchema(fields) && i < |fields|
    ensures FindField(fields, fields[i].number) == i && IsField(fields[i])
    ensures TagOf(fields[i]) / 8 == fields[i].number && (fields[i].kind.Int32sKind? ==> TagOf(fields[i]) != UnpackedTag(fields[i]))
  {
  }

  lemma StepInt(fields: seq<Field>, m: Message, i: nat, n: nat)
    requires IsSchema(fields) && HasFields(m, fields) && i < |fields| && WireTypeOf(fields[i].kind) == VARINT && n < WORD64
    ensures Step(fields, m, IntRecord(fields[i], n)) == Some((SetValue(m, i, ReadInt(fields[i].kind, n)), []))
  {
    hide IsSchema, IsField, IsRecord, FindField, ReadVarint, ReadTag, IntRecord, ReadInt, SkipField;
    FieldFound(fields, i);
    IntRecordShape(fields[i], n, []);
  }

  lemma StepBytes(fields: seq<Field>, m: Message, i: nat, payload: seq<Byte>)
    requires IsSchema(fields) && HasFields(m, fields) && i < |fields| && WireTypeOf(fields[i].kind) == LENGTH_DELIMITED
    requires |payload| <= INT_MAX
    ensures var w := ReadBytes(fields[i].kind, m.values[i], payload);
            Step(fields, m, BytesRecord(fields[i], payload)) == if w.Some? then Some((SetValue(m, i, w.value), [])) else None
  {
    hide IsSchema, IsField, IsRecord, FindField, ReadDelimited, ReadPackedContent, ReadMessageContent, ReadTag, BytesRecord, ReadBytes, SkipField;
    FieldFound(fields, i);
    BytesRecordShape(fields[i], payload);
    CompleteContent(Delimited(payload));
  }

  // ---------- the payloads of one field ----------

  ghost function ReadEach(kind: Kind, v: Value, payloads: seq<seq<Byte>>): (r: Option<Value>)
    requires HasKind(v, kind) && WireTypeOf(kind) == LENGTH_DELIMITED
    ensures r.Some? ==> HasKind(r.value, kind)
    decreases |payloads|
  {
    if payloads == [] then Some(v)
    else
      match ReadBytes(kind, v, payloads[0])
      case None => None
      case Some(w) => ReadEach(kind, w, payloads[1..])
  }

  ghost predicate Fits(payloads: seq<seq<Byte>>) { forall p :: p in payloads ==> |p| <= INT_MAX }

  lemma {:induction false} ApplyBytes(fields: seq<Field>, m: Message, i: nat, payloads: seq<seq<Byte>>)
    requires IsSchema(fields) && HasFields(m, fields) && i < |fields| && WireTypeOf(fields[i].kind) == LENGTH_DELIMITED
    requires Fits(payloads)
    ensures var w := ReadEach(fields[i].kind, m.values[i], payloads);
            ApplyAll(fields, m, BytesRecords(fields[i], payloads)) == if w.Some? then Some(SetValue(m, i, w.value)) else None
    decreases |payloads|
  {
    hide IsSchema, Step, BytesRecord, ReadBytes;
    if payloads == [] {
      assert m.values[i := m.values[i]] == m.values;
    } else {
      var w := ReadBytes(fields[i].kind, m.values[i], payloads[0]);
      assert payloads[0] in payloads;
      StepBytes(fields, m, i, payloads[0]);
      if w.Some? {
        var n := SetValue(m, i, w.value);
        ApplyBytes(fields, n, i, payloads[1..]);
        assert forall x: Value :: SetValue(n, i, x) == SetValue(m, i, x);
      }
      assert BytesRecords(fields[i], payloads)[1..] == BytesRecords(fields[i], payloads[1..]);
    }
  }

  // ---------- values ----------

  // All strings are UTF-8.
  ghost predicate IsText(kind: Kind, v: Value)
    requires HasKind(v, kind)
    decreases v
  {
    match kind
    case StringKind => IsUtf8(v.bytes)
    case StringsKind => forall s :: s in v.list ==> IsUtf8(s)
    case MessagesKind(fields) => forall m :: m in v.messages ==> AllText(fields, m)
    case _ => true
  }

  ghost predicate AllText(fields: seq<Field>, m: Message)
    requires HasFields(m, fields)
    decreases m
  {
    forall i :: 0 <= i < |fields| ==> IsText(fields[i].kind, m.values[i])
  }

  lemma {:induction false} ReadStrings(v: Value, list: seq<seq<Byte>>)
    requires v.Texts?
    ensures var r := ReadEach(StringsKind, v, list);
            && (r.Some? <==> forall s :: s in list ==> IsUtf8(s))
            && (r.Some? ==> r.value == Texts(v.list + list))
    decreases |list|
  {
    hide IsUtf8;
    if list == [] {
      assert v.list + list == v.list;
    } else {
      assert list[0] in list && list == [list[0]] + list[1..];
      if IsUtf8(list[0]) {
        ReadStrings(Texts(v.list + [list[0]]), list[1..]);
        assert v.list + [list[0]] + list[1..] == v.list + list;
      }
    }
  }

  lemma {:induction false} ReadPackedBack(v: Value, elements: seq<int>)
    requires HasKind(v, Int32sKind) && forall n :: n in elements ==> IsInt32(n)
    ensures var r := ReadPacked(v, Packed(elements));
            r.Some? && r.value.Ints? && r.value.elements == v.elements + elements
    decreases |elements|
  {
    hide ReadVarint, Varint;
    if elements == [] {
      assert v.elements + elements == v.elements;
    } else {
      var n, w := elements[0], AddInt(v, elements[0]);
      assert n in elements && IsInt32(n);
      VarintRead(Unsigned(n), Packed(elements[1..]));
      IntsBack(n);
      ReadPackedBack(w, elements[1..]);
      assert v.elements + [n] + elements[1..] == v.elements + elements;
    }
  }

  // Strings and lists of them, bytes, and integers
  lemma ReadSimple(kind: Kind, u: Value, v: Value)
    requires WireTypeOf(kind) == LENGTH_DELIMITED && !kind.MessagesKind? && HasKind(u, kind) && HasKind(v, kind)
    ensures var r := ReadEach(kind, u, Payloads(kind, v));
            && (r.Some? <==> IsText(kind, v))
            && (r.Some? ==> Same(r.value, MergeValue(kind, u, v)))
  {
    hide IsUtf8, Reserve;
    match kind
    case StringKind => if v.bytes == [] { NoBytes(); SameReflexive(u); } else { SameReflexive(v); }
    case BytesKind => if v.bytes == [] { SameReflexive(u); } else { SameReflexive(v); }
    case StringsKind =>
      ReadStrings(u, v.list);
      SameReflexive(MergeValue(kind, u, v));
    case Int32sKind =>
      if v.elements == [] { SameReflexive(u); } else { ReadPackedBack(u, v.elements); }
  }

  lemma NoBytes()
    ensures IsUtf8([])
  {
  }

  lemma {:induction false} ReadMessages(fields: seq<Field>, u: Value, ms: seq<Message>)
    requires IsSchema(fields) && HasKind(u, MessagesKind(fields)) && forall m :: m in ms ==> HasFields(m, fields)
    requires Fits(SerializeAll(fields, ms))
    ensures var r := ReadEach(MessagesKind(fields), u, SerializeAll(fields, ms));
            && (r.Some? <==> forall m :: m in ms ==> AllText(fields, m))
            && (r.Some? ==> Same(r.value, Messages(u.messages + ms)))
    decreases ms, 4
  {
    hide HasFields, Serialize, Parse, AllText, SameMessage, IsSchema;
    var kind := MessagesKind(fields);
    if ms == [] {
      assert u.messages + ms == u.messages;
      SameReflexive(u);
    } else {
      var payloads := SerializeAll(fields, ms);
      assert ms[0] in ms && ms == [ms[0]] + ms[1..];
      assert payloads[0] in payloads && payloads[1..] == SerializeAll(fields, ms[1..]);
      MessageBack(fields, ms[0]);
      var one := Parse(fields, Empty(fields), payloads[0]);
      if one.Some? {
        var w := Messages(u.messages + [one.value]);
        ReadMessages(fields, w, ms[1..]);
        SameMessages(u.messages, one.value, ms[0], ms[1..]);
        var r := ReadEach(kind, w, payloads[1..]);
        if r.Some? { SameTransitive(r.value, Messages(w.messages + ms[1..]), Messages(u.messages + ms)); }
      }
    }
  }

  lemma SameMessages(us: seq<Message>, one: Message, m: Message, ms: seq<Message>)
    requires SameMessage(one, m)
    ensures Same(Messages(us + [one] + ms), Messages(us + ([m] + ms)))
  {
    hide SameMessage;
    var a, b := us + [one] + ms, us + ([m] + ms);
    forall i | 0 <= i < |a| ensures SameMessage(a[i], b[i]) {
      if i != |us| { assert a[i] == b[i]; SameMessageReflexive(a[i]); }
    }
  }

  // A message parses back from what it serializes to.
  lemma {:induction false} MessageBack(fields: seq<Field>, m: Message)
    requires IsSchema(fields) && HasFields(m, fields) && |Serialize(fields, m)| <= INT_MAX
    ensures var r := Parse(fields, Empty(fields), Serialize(fields, m));
            (r.Some? <==> AllText(fields, m)) && (r.Some? ==> SameMessage(r.value, m))
    decreases m, 5
  {
    hide HasFields, Serialize, Parse, AllText, SameMessage, IsSchema, Merge;
    SerializeParse(fields, Empty(fields), m);
    MergeMonoid(fields, m, m, m);
    var r := Parse(fields, Empty(fields), Serialize(fields, m));
    if r.Some? { SameMessageTransitive(r.value, Merge(fields, Empty(fields), m), m); }
  }

  lemma {:induction false} FieldApplied(fields: seq<Field>, m: Message, i: nat, v: Value)
    requires IsSchema(fields) && HasFields(m, fields) && i < |fields| && HasKind(v, fields[i].kind)
    requires forall r :: r in Records(fields[i], v) ==> |r| <= INT_MAX
    ensures var f := fields[i];
            var r := ApplyAll(fields, m, Records(f, v));
            && (r.Some? <==> IsText(f.kind, v))
            && (r.Some? ==> |r.value.values| == |m.values| && r.value == SetValue(m, i, r.value.values[i])
                            && Same(r.value.values[i], MergeValue(f.kind, m.values[i], v)))
    decreases v, 3
  {
    var f := fields[i];
    hide IsSchema, Step, IntRecord, BytesRecord, IsText, ReadEach, Same, Serialize;
    if WireTypeOf(f.kind) == VARINT {
      IntApplied(fields, m, i, v);
    } else {
      var payloads := Payloads(f.kind, v);
      RecordsFit(f, payloads);
      ApplyBytes(fields, m, i, payloads);
      if f.kind.MessagesKind? {
        SubSchema(fields, i);
        ReadMessages(f.kind.fields, m.values[i], v.messages);
        TextMessages(f.kind.fields, v);
      } else {
        ReadSimple(f.kind, m.values[i], v);
      }
    }
  }

  lemma SubSchema(fields: seq<Field>, i: nat)
    requires IsSchema(fields) && i < |fields| && fields[i].kind.MessagesKind?
    ensures IsSchema(fields[i].kind.fields)
  {
    assert IsField(fields[i]);
  }

  lemma TextMessages(fields: seq<Field>, v: Value)
    requires HasKind(v, MessagesKind(fields))
    ensures IsText(MessagesKind(fields), v) <==> forall m :: m in v.messages ==> AllText(fields, m)
  {
  }

  lemma RecordsFit(f: Field, payloads: seq<seq<Byte>>)
    requires forall r :: r in BytesRecords(f, payloads) ==> |r| <= INT_MAX
    ensures Fits(payloads)
  {
    var rs := BytesRecords(f, payloads);
    forall p | p in payloads ensures |p| <= INT_MAX {
      var k :| 0 <= k < |payloads| && payloads[k] == p;
      assert rs[k] in rs && |rs[k]| >= |p|;
    }
  }

  lemma IntApplied(fields: seq<Field>, m: Message, i: nat, v: Value)
    requires IsSchema(fields) && HasFields(m, fields) && i < |fields|
    requires WireTypeOf(fields[i].kind) == VARINT && HasKind(v, fields[i].kind)
    ensures IsText(fields[i].kind, v)
    ensures ApplyAll(fields, m, Records(fields[i], v)) == Some(SetValue(m, i, MergeValue(fields[i].kind, m.values[i], v)))
    ensures Same(MergeValue(fields[i].kind, m.values[i], v), MergeValue(fields[i].kind, m.values[i], v))
  {
    hide IsSchema, Step, IntRecord;
    SameReflexive(MergeValue(fields[i].kind, m.values[i], v));
    if IntOf(v) == 0 {
      assert m.values[i := m.values[i]] == m.values;
    } else {
      StepInt(fields, m, i, IntOf(v));
      if v.Int? { IntsBack(v.n); }
    }
  }


  lemma {:induction false} SerializeParse(fields: seq<Field>, m: Message, b: Message)
    requires IsSchema(fields) && HasFields(m, fields) && HasFields(b, fields) && |Serialize(fields, b)| <= INT_MAX
    ensures var r := Parse(fields, m, Serialize(fields, b));
            (r.Some? <==> AllText(fields, b)) && (r.Some? ==> SameMessage(r.value, Merge(fields, m, b)))
    decreases b, 4
  {
    hide HasFields, Parse, AllText, SameMessage, IsSchema, Merge, Aligned, IsRecord, IsPlain;
    SerializeRecords(fields, b);
    var rs := AllRecords(fields, b.values);
    assert fields[0..] == fields && b.values[0..] == b.values;
    RecordsBound(rs);
    RecordsArePlain(fields, b, 0);
    PlainAligned(fields, m, rs);
    ParseRecords(fields, m, rs);
    FieldsApplied(fields, m, b, 0);
    TextFields(fields, b);
    if ApplyAll(fields, m, rs).Some? { MergedAll(fields, m, b, ApplyAll(fields, m, rs).value); }
  }

  lemma SerializeRecords(fields: seq<Field>, b: Message)
    requires HasFields(b, fields)
    ensures |b.values| == |fields| && forall i :: 0 <= i < |fields| ==> HasKind(b.values[i], fields[i].kind)
    ensures Serialize(fields, b) == Flatten(AllRecords(fields, b.values))
  {
  }

  lemma TextFields(fields: seq<Field>, b: Message)
    requires HasFields(b, fields)
    ensures AllText(fields, b) <==> forall j :: 0 <= j < |fields| ==> IsText(fields[j].kind, b.values[j])
  {
  }

  lemma {:induction false} RecordsBound(rs: seq<seq<Byte>>)
    ensures forall r :: r in rs ==> |r| <= |Flatten(rs)|
  {
    if rs != [] { RecordsBound(rs[1..]); }
  }

  // ---------- all fields ----------

  // The values after the fields from k on were merged
  ghost predicate MergedFrom(fields: seq<Field>, m: Message, b: Message, k: nat, n: Message)
    requires HasFields(m, fields) && HasFields(b, fields) && k <= |fields|
  {
    && |n.values| == |fields|
    && (forall j :: 0 <= j < k ==> n.values[j] == m.values[j])
    && forall j :: k <= j < |fields| ==> Same(n.values[j], MergeValue(fields[j].kind, m.values[j], b.values[j]))
  }

  lemma {:induction false} FieldsApplied(fields: seq<Field>, m: Message, b: Message, k: nat)
    requires IsSchema(fields) && HasFields(m, fields) && HasFields(b, fields) && k <= |fields|
    requires Fits(AllRecords(fields[k..], b.values[k..]))
    ensures var r := ApplyAll(fields, m, AllRecords(fields[k..], b.values[k..]));
            && (r.Some? <==> forall j :: k <= j < |fields| ==> IsText(fields[j].kind, b.values[j]))
            && (r.Some? ==> MergedFrom(fields, m, b, k, r.value))
    decreases b, 3, |fields| - k
  {
    hide IsSchema, IsText, Same, Records, MergedFrom, HasFields, HasKind, MergeValue;
    FieldsAre(fields, b);
    FieldsAre(fields, m);
    if k == |fields| {
      assert AllRecords(fields[k..], b.values[k..]) == [];
      NothingMerged(fields, m, b);
    } else {
      var rs, more := Records(fields[k], b.values[k]), AllRecords(fields[k + 1..], b.values[k + 1..]);
      assert fields[k..][1..] == fields[k + 1..] && b.values[k..][1..] == b.values[k + 1..];
      assert AllRecords(fields[k..], b.values[k..]) == rs + more;
      FieldApplied(fields, m, k, b.values[k]);
      ApplyAppend(fields, m, rs, more);
      var n := ApplyAll(fields, m, rs);
      if n.Some? {
        FieldsApplied(fields, n.value, b, k + 1);
        var r := ApplyAll(fields, n.value, more);
        if r.Some? { OneMoreMerged(fields, m, b, k, n.value, r.value); }
      }
    }
  }

  lemma FieldsAre(fields: seq<Field>, m: Message)
    requires HasFields(m, fields)
    ensures |m.values| == |fields| && forall i :: 0 <= i < |fields| ==> HasKind(m.values[i], fields[i].kind)
  {
  }

  lemma NothingMerged(fields: seq<Field>, m: Message, b: Message)
    requires HasFields(m, fields) && HasFields(b, fields)
    ensures MergedFrom(fields, m, b, |fields|, m)
  {
  }

  lemma OneMoreMerged(fields: seq<Field>, m: Message, b: Message, k: nat, n: Message, r: Message)
    requires HasFields(m, fields) && HasFields(b, fields) && k < |fields| && HasFields(n, fields)
    requires n == SetValue(m, k, n.values[k]) && Same(n.values[k], MergeValue(fields[k].kind, m.values[k], b.values[k]))
    requires MergedFrom(fields, n, b, k + 1, r)
    ensures MergedFrom(fields, m, b, k, r)
  {
    hide Same, MergeValue, HasKind;
  }

  lemma MergedAll(fields: seq<Field>, m: Message, b: Message, n: Message)
    requires HasFields(m, fields) && HasFields(b, fields) && MergedFrom(fields, m, b, 0, n)
    ensures SameMessage(n, Merge(fields, m, b))
  {
    hide HasKind, Same, MergeValue;
  }

  lemma {:induction false} RecordsArePlain(fields: seq<Field>, b: Message, k: nat)
    requires IsSchema(fields) && HasFields(b, fields) && k <= |fields|
    requires Fits(AllRecords(fields[k..], b.values[k..]))
    ensures forall r :: r in AllRecords(fields[k..], b.values[k..]) ==> IsRecord(r) && IsPlain(fields, r)
    decreases |fields| - k
  {
    hide IsSchema, Records, IsRecord, IsPlain;
    if k < |fields| {
      var rs, more := Records(fields[k], b.values[k]), AllRecords(fields[k + 1..], b.values[k + 1..]);
      assert fields[k..][1..] == fields[k + 1..] && b.values[k..][1..] == b.values[k + 1..];
      FieldRecordsPlain(fields, k, b.values[k]);
      RecordsArePlain(fields, b, k + 1);
    }
  }

  lemma FieldRecordsPlain(fields: seq<Field>, i: nat, v: Value)
    requires IsSchema(fields) && i < |fields| && HasKind(v, fields[i].kind) && Fits(Records(fields[i], v))
    ensures forall r :: r in Records(fields[i], v) ==> IsRecord(r) && IsPlain(fields, r)
  {
    hide IsSchema, IsRecord, IntRecord, BytesRecord, IsField;
    var f := fields[i];
    FieldFound(fields, i);
    if WireTypeOf(f.kind) == VARINT {
      if IntOf(v) != 0 { IntRecordShape(f, IntOf(v), []); }
    } else {
      var payloads := Payloads(f.kind, v);
      RecordsFit(f, payloads);
      forall r | r in BytesRecords(f, payloads) ensures IsRecord(r) && IsPlain(fields, r) {
        var k :| 0 <= k < |payloads| && r == BytesRecord(f, payloads[k]);
        assert payloads[k] in payloads;
        BytesRecordShape(f, payloads[k]);
      }
    }
  }

  // ---------- the main results ----------

  // What is written parses back to the same message exactly when every string in it is UTF-8: the
  // serializers write other strings all the same.
  lemma RoundTrip(fields: seq<Field>, m: Message)
    requires IsSchema(fields) && HasFields(m, fields) && |Serialize(fields, m)| <= INT_MAX
    ensures var r := Parse(fields, Empty(fields), Serialize(fields, m));
            r.Some? && SameMessage(r.value, m) <==> AllText(fields, m)
  {
    MessageBack(fields, m);
  }

  // Parsing two messages written one after the other is merging the second into the first.
  lemma ConcatenationIsMerge(fields: seq<Field>, a: Message, b: Message)
    requires IsSchema(fields) && HasFields(a, fields) && HasFields(b, fields)
    requires |Serialize(fields, a)| <= INT_MAX && |Serialize(fields, b)| <= INT_MAX && AllText(fields, a) && AllText(fields, b)
    ensures var r := Parse(fields, Empty(fields), Serialize(fields, a) + Serialize(fields, b));
            r.Some? && SameMessage(r.value, Merge(fields, a, b))
  {
    hide HasFields, Serialize, AllText, SameMessage, IsSchema, Merge, Parse, MergeValue;
    ParseBoth(fields, Empty(fields), a, b);
    MessageBack(fields, a);
    var n := Parse(fields, Empty(fields), Serialize(fields, a)).value;
    SerializeParse(fields, n, b);
    var r := Parse(fields, n, Serialize(fields, b)).value;
    MergeSame(fields, n, a, b);
    SameMessageTransitive(r, Merge(fields, n, b), Merge(fields, a, b));
  }

  lemma ParseBoth(fields: seq<Field>, m: Message, a: Message, b: Message)
    requires IsSchema(fields) && HasFields(m, fields) && HasFields(a, fields) && HasFields(b, fields)
    requires |Serialize(fields, a)| <= INT_MAX && |Serialize(fields, b)| <= INT_MAX
    ensures var n := Parse(fields, m, Serialize(fields, a));
            Parse(fields, m, Serialize(fields, a) + Serialize(fields, b)) ==
            if n.Some? then Parse(fields, n.value, Serialize(fields, b)) else None
  {
    hide HasFields, Serialize, Parse, IsSchema, Aligned, IsRecord, IsPlain, ApplyAll;
    SerializeRecords(fields, a);
    SerializeRecords(fields, b);
    var rs, qs := AllRecords(fields, a.values), AllRecords(fields, b.values);
    assert fields[0..] == fields && a.values[0..] == a.values && b.values[0..] == b.values;
    RecordsBound(rs);
    RecordsBound(qs);
    RecordsArePlain(fields, a, 0);
    RecordsArePlain(fields, b, 0);
    PlainAligned(fields, m, rs);
    ParseRecords(fields, m, rs);
    PlainAligned(fields, m, rs + qs);
    ParseRecords(fields, m, rs + qs);
    FlattenAppend(rs, qs);
    ApplyAppend(fields, m, rs, qs);
    var n := ApplyAll(fields, m, rs);
    if n.Some? {
      PlainAligned(fields, n.value, qs);
      ParseRecords(fields, n.value, qs);
    }
  }

  lemma MergeSame(fields: seq<Field>, a: Message, b: Message, c: Message)
    requires HasFields(a, fields) && HasFields(b, fields) && HasFields(c, fields) && SameMessage(a, b)
    ensures SameMessage(Merge(fields, a, c), Merge(fields, b, c))
  {
    forall i | 0 <= i < |fields| ensures Same(Merge(fields, a, c).values[i], Merge(fields, b, c).values[i]) {
      MergeValueSame(fields[i].kind, a.values[i], b.values[i], c.values[i]);
    }
  }

  lemma MergeValueSame(kind: Kind, a: Value, b: Value, c: Value)
    requires HasKind(a, kind) && HasKind(b, kind) && HasKind(c, kind) && Same(a, b)
    ensures Same(MergeValue(kind, a, c), MergeValue(kind, b, c))
  {
    hide Reserve, SameMessage, HasFields;
    if kind.MessagesKind? {
      MessagesThen(a.messages, b.messages, c.messages);
    } else {
      SameReflexive(c);
    }
  }

  lemma MessagesThen(ks: seq<Message>, ms: seq<Message>, more: seq<Message>)
    requires |ks| == |ms| && forall i :: 0 <= i < |ks| ==> SameMessage(ks[i], ms[i])
    ensures Same(Messages(ks + more), Messages(ms + more))
  {
    hide SameMessage;
    forall i | 0 <= i < |ks + more| ensures SameMessage((ks + more)[i], (ms + more)[i]) {
      if i >= |ks| { SameMessageReflexive(more[i - |ks|]); }
    }
  }

  // ---------- lengths past the end ----------

  // A sub-message or a packed record whose length goes past the end of the input is read as if it ended
  // there: input that has been cut short in it is not refused for that.
  lemma LengthPastEnd(fields: seq<Field>, m: Message, i: nat, n: nat, payload: seq<Byte>)
    requires IsSchema(fields) && HasFields(m, fields) && i < |fields|
    requires fields[i].kind.MessagesKind? || fields[i].kind.Int32sKind?
    requires |payload| <= n <= INT_MAX
    ensures Step(fields, m, Varint(TagOf(fields[i])) + (Varint(n) + payload)) == Step(fields, m, BytesRecord(fields[i], payload))
  {
    hide IsSchema, IsField, FindField, ReadVarint, Varint, ReadBytes, HasFields, SkipField, ReadTag;
    var f := fields[i];
    FieldFound(fields, i);
    FieldsHave(fields, m, i);
    TagRead(TagOf(f), Varint(n) + payload);
    VarintRead(n, payload);
    TagRead(TagOf(f), Varint(|payload|) + payload);
    VarintRead(|payload|, payload);
    assert BytesRecord(f, payload) == Varint(TagOf(f)) + (Varint(|payload|) + payload);
  }

  // So is a sub-message whose length is missing: an empty one is added.
  lemma LengthMissing(fields: seq<Field>, m: Message, i: nat)
    requires IsSchema(fields) && HasFields(m, fields) && i < |fields| && fields[i].kind.MessagesKind?
    ensures |m.values| == |fields| && m.values[i].Messages?
    ensures Step(fields, m, Varint(TagOf(fields[i]))) ==
            Some((SetValue(m, i, Messages(m.values[i].messages + [Empty(fields[i].kind.fields)])), []))
  {
    hide IsSchema, IsField, FindField, Varint, HasFields, SkipField, ReadTag;
    var f := fields[i];
    FieldFound(fields, i);
    FieldsHave(fields, m, i);
    TagRead(TagOf(f), []);
    assert Varint(TagOf(f)) + [] == Varint(TagOf(f));
    assert HasKind(m.values[i], f.kind);
    EmptyRead(f.kind.fields);
  }

  lemma EmptyRead(fields: seq<Field>)
    ensures Parse(fields, Empty(fields), []) == Some(Empty(fields)) && ReadMessageContent([]) == ([], [])
  {
  }

  // What is not zero is true, and numbers count modulo their width.
  lemma IntsRead(n: nat)
    requires n < WORD64
    ensures ReadInt(BoolKind, n) == Bool(false) <==> n == 0
    ensures ReadInt(Int32Kind, n).Int? && (ReadInt(Int32Kind, n).n - n) % 0x1_0000_0000 == 0
    ensures ReadInt(Int64Kind, n).Int? && (ReadInt(Int64Kind, n).n - n) % 0x1_0000_0000_0000_0000 == 0
  {
    Congruent(n);
  }

  // A zero tag is a failure, and so is the end of a group that has not begun.
  lemma BadTags(fields: seq<Field>, m: Message, number: nat, t: seq<Byte>)
    requires IsSchema(fields) && HasFields(m, fields) && number < 0x2000_0000
    ensures Parse(fields, m, Varint(0) + t) == None && Parse(fields, m, Varint(8 * number + 4) + t) == None
  {
    hide Varint, HasFields, SkipField, ReadTag, IsSchema;
    TagRead(0, t);
    TagRead(8 * number + 4, t);
    var i := FindField(fields, 0);
    if i < |fields| { SchemaNumbers(fields, i); }
  }

  lemma SchemaNumbers(fields: seq<Field>, i: nat)
    requires IsSchema(fields) && i < |fields|
    ensures fields[i].number > 0
  {
    assert IsField(fields[i]);
  }
}
