// Input that is a list of complete fields: when the parser reads it field by field, and what it
// makes of it.

module ProtoRecords {
  import opened Words
  import opened Results
  import opened Wire
  import opened ProtoValues
  import opened ProtoParse
  import opened Chains

  // One field, with a content that fits the tag
  ghost predicate IsRecord(r: seq<Byte>) {
    && ReadTag(r).Some?
    && var (tag, content) := ReadTag(r).value;
    && tag != 0 && tag % 8 != END_GROUP && SkipField(tag, content) == Some([])
  }

  // After an integer outside a packed record, with room left in the array: a packed record of the
  // same field that follows is taken for more of the same.
  ghost predicate Straddles(fields: seq<Field>, m: Message, r: seq<Byte>, next: seq<Byte>)
    requires HasFields(m, fields) && ReadTag(r).Some?
  {
    var tag := ReadTag(r).value.0;
    var i := FindField(fields, tag / 8);
    && i < |fields| && fields[i].kind.Int32sKind? && tag == UnpackedTag(fields[i])
    && m.values[i].Ints? && |m.values[i].elements| < m.values[i].capacity && ExpectTag(TagOf(fields[i]), next)
  }

  // The parser reads a field alone, and leaves what follows it, exactly when it does not straddle.
  lemma StepRecord(fields: seq<Field>, m: Message, r: seq<Byte>, t: seq<Byte>)
    requires HasFields(m, fields) && IsRecord(r)
    ensures var one := Step(fields, m, r);
            && (one.None? ==> Step(fields, m, r + t).None?)
            && (one.Some? ==> one.value.1 == []
                              && (Step(fields, m, r + t) == Some((one.value.0, t)) <==> !Straddles(fields, one.value.0, r, t)))
  {
    hide HasFields, ReadValue, SkipField;
    TagLocal(r, t);
    var (tag, content) := ReadTag(r).value;
    SkipLocal(tag, content, t);
    assert [] + t == t;
    var i := FindField(fields, tag / 8);
    if i < |fields| && Accepts(fields[i], tag) {
      FieldsHave(fields, m, i);
      ValueRecord(fields[i], tag, m.values[i], content, t);
    }
  }

  lemma FieldsHave(fields: seq<Field>, m: Message, i: nat)
    requires HasFields(m, fields) && i < |fields|
    ensures |m.values| == |fields| && HasKind(m.values[i], fields[i].kind)
  {
  }

  lemma ValueRecord(f: Field, tag: nat, v: Value, s: seq<Byte>, t: seq<Byte>)
    requires HasKind(v, f.kind) && Accepts(f, tag) && SkipField(tag, s) == Some([])
    ensures var one := ReadValue(f, tag, v, s);
            && (one.None? ==> ReadValue(f, tag, v, s + t).None?)
            && (one.Some? ==> one.value.1 == []
                              && (ReadValue(f, tag, v, s + t) == Some((one.value.0, t)) <==>
                                  !(f.kind.Int32sKind? && tag == UnpackedTag(f)
                                    && |one.value.0.elements| < one.value.0.capacity && ExpectTag(TagOf(f), t))))
  {
    hide HasKind, ReadVarint, ReadBytes, ReadRepeated, ReadInt, ReadDelimited, ReadPackedContent, ReadMessageContent, ExpectTag;
    assert [] + t == t;
    if f.kind.Int32sKind? && tag == UnpackedTag(f) {
      IntsRecord(TagOf(f), v, s, t);
    } else if WireTypeOf(f.kind) == VARINT {
      VarintLocal(s, t);
    } else {
      DelimitedLocal(s, t);
      CompleteContent(s);
      CompleteContent(s + t);
    }
  }

  lemma IntsRecord(tag: nat, v: Value, s: seq<Byte>, t: seq<Byte>)
    requires HasKind(v, Int32sKind) && ReadVarint(s).Some? && ReadVarint(s).value.1 == []
    ensures var one := ReadRepeated(tag, v, s);
            && one.Some? && one.value.1 == [] && one.value.0.Ints?
            && (ReadRepeated(tag, v, s + t) == Some((one.value.0, t)) <==>
                !(|one.value.0.elements| < one.value.0.capacity && ExpectTag(tag, t)))
  {
    hide ReadVarint, Varint;
    IntsKind(v);
    VarintLocal(s, t);
    assert [] + t == t;
  }

  lemma IntsKind(v: Value)
    requires HasKind(v, Int32sKind)
    ensures v.Ints? && |v.elements| <= v.capacity
  {
  }

  // ---------- lists of fields ----------

  // What a list of fields amounts to when each one is read alone
  ghost function ApplyAll(fields: seq<Field>, m: Message, rs: seq<seq<Byte>>): (r: Option<Message>)
    requires HasFields(m, fields)
    ensures r.Some? ==> HasFields(r.value, fields)
    decreases |rs|
  {
    if rs == [] then Some(m)
    else
      match Step(fields, m, rs[0])
      case None => None
      case Some((n, _)) => ApplyAll(fields, n, rs[1..])
  }

  // Each field that the parser reads leaves the rest of the list, up to the first bad one.
  ghost predicate ReadOneByOne(fields: seq<Field>, m: Message, rs: seq<seq<Byte>>)
    requires HasFields(m, fields)
    decreases |rs|
  {
    rs == [] || match Step(fields, m, rs[0])
                case None => true
                case Some((n, _)) =>
                  Step(fields, m, Flatten(rs)) == Some((n, Flatten(rs[1..]))) && ReadOneByOne(fields, n, rs[1..])
  }

  // No field straddles into what follows it, up to the first bad one.
  ghost predicate Aligned(fields: seq<Field>, m: Message, rs: seq<seq<Byte>>)
    requires HasFields(m, fields) && forall r :: r in rs ==> IsRecord(r)
    decreases |rs|
  {
    rs == [] || (assert rs[0] in rs;
                 match Step(fields, m, rs[0])
                 case None => true
                 case Some((n, _)) => !Straddles(fields, n, rs[0], Flatten(rs[1..])) && Aligned(fields, n, rs[1..]))
  }

  lemma {:induction false} AlignedExactly(fields: seq<Field>, m: Message, rs: seq<seq<Byte>>)
    requires HasFields(m, fields) && forall r :: r in rs ==> IsRecord(r)
    ensures ReadOneByOne(fields, m, rs) <==> Aligned(fields, m, rs)
    decreases |rs|
  {
    hide HasFields, Step, Straddles, IsRecord;
    if rs != [] {
      assert rs[0] in rs;
      StepRecord(fields, m, rs[0], Flatten(rs[1..]));
      if Step(fields, m, rs[0]).Some? { AlignedExactly(fields, Step(fields, m, rs[0]).value.0, rs[1..]); }
    }
  }

  // Read one by one, a list of fields is parsed as what it amounts to.
  lemma {:induction false} ParseRecords(fields: seq<Field>, m: Message, rs: seq<seq<Byte>>)
    requires HasFields(m, fields) && (forall r :: r in rs ==> IsRecord(r)) && Aligned(fields, m, rs)
    ensures Parse(fields, m, Flatten(rs)) == ApplyAll(fields, m, rs)
    decreases |rs|
  {
    hide HasFields, Step, Straddles, IsRecord;
    if rs != [] {
      assert rs[0] in rs;
      StepRecord(fields, m, rs[0], Flatten(rs[1..]));
      RecordNotEmpty(rs[0]);
      if Step(fields, m, rs[0]).Some? { ParseRecords(fields, Step(fields, m, rs[0]).value.0, rs[1..]); }
    }
  }

  lemma RecordNotEmpty(r: seq<Byte>)
    requires IsRecord(r)
    ensures r != []
  {
  }

  // ---------- packed fields only ----------

  // A field that is not a repeated integer outside a packed record
  ghost predicate IsPlain(fields: seq<Field>, r: seq<Byte>) {
    && IsRecord(r)
    && var tag := ReadTag(r).value.0;
       var i := FindField(fields, tag / 8);
       i < |fields| && fields[i].kind.Int32sKind? ==> tag != UnpackedTag(fields[i])
  }

  lemma {:induction false} PlainAligned(fields: seq<Field>, m: Message, rs: seq<seq<Byte>>)
    requires HasFields(m, fields) && forall r :: r in rs ==> IsRecord(r) && IsPlain(fields, r)
    ensures Aligned(fields, m, rs)
    decreases |rs|
  {
    hide HasFields, Step, IsRecord;
    if rs != [] {
      assert rs[0] in rs && IsPlain(fields, rs[0]);
      if Step(fields, m, rs[0]).Some? { PlainAligned(fields, Step(fields, m, rs[0]).value.0, rs[1..]); }
    }
  }

  lemma {:induction false} ApplyAppend(fields: seq<Field>, m: Message, rs: seq<seq<Byte>>, qs: seq<seq<Byte>>)
    requires HasFields(m, fields)
    ensures var n := ApplyAll(fields, m, rs);
            ApplyAll(fields, m, rs + qs) == if n.Some? then ApplyAll(fields, n.value, qs) else None
    decreases |rs|
  {
    hide HasFields, Step;
    if rs == [] {
      assert rs + qs == qs;
    } else {
      assert (rs + qs)[1..] == rs[1..] + qs;
      if Step(fields, m, rs[0]).Some? { ApplyAppend(fields, Step(fields, m, rs[0]).value.0, rs[1..], qs); }
    }
  }

  // ---------- unknown fields ----------

  ghost predicate IsKnown(fields: seq<Field>, r: seq<Byte>) {
    && ReadTag(r).Some?
    && var tag := ReadTag(r).value.0;
       var i := FindField(fields, tag / 8);
       i < |fields| && Accepts(fields[i], tag)
  }

  ghost function Known(fields: seq<Field>, rs: seq<seq<Byte>>): seq<seq<Byte>>
  {
    if rs == [] then [] else (if IsKnown(fields, rs[0]) then [rs[0]] else []) + Known(fields, rs[1..])
  }

  lemma UnknownStep(fields: seq<Field>, m: Message, r: seq<Byte>)
    requires HasFields(m, fields) && IsRecord(r) && !IsKnown(fields, r)
    ensures Step(fields, m, r) == Some((m, []))
  {
    hide HasFields, ReadValue, SkipField;
  }

  // Fields with unknown numbers, or known ones with another wire type, add nothing.
  lemma {:induction false} UnknownIgnored(fields: seq<Field>, m: Message, rs: seq<seq<Byte>>)
    requires HasFields(m, fields) && forall r :: r in rs ==> IsRecord(r)
    ensures ApplyAll(fields, m, rs) == ApplyAll(fields, m, Known(fields, rs))
    decreases |rs|
  {
    hide HasFields, Step, IsRecord, IsKnown;
    if rs != [] {
      assert rs[0] in rs;
      var rest := Known(fields, rs[1..]);
      var one := Step(fields, m, rs[0]);
      if IsKnown(fields, rs[0]) {
        assert ([rs[0]] + rest)[1..] == rest;
        if one.Some? { UnknownIgnored(fields, one.value.0, rs[1..]); }
      } else {
        UnknownStep(fields, m, rs[0]);
        assert [] + rest == rest;
        UnknownIgnored(fields, m, rs[1..]);
      }
    }
  }
}
