// The message objects: fields and sub-messages updated in place, and the sizes they remember
// between measuring and writing.

module ProtoObjects {
  import opened Words
  import opened Results
  import opened Wire
  import opened Utf8
  import opened CodedStreams
  import opened ProtoValues
  import opened ProtoParse
  import opened ProtoRecords
  import opened ProtoRoundTrip
  import opened Chains

  // ---------- classes with one repeated sub-message at most ----------

  ghost predicate IsClass(fields: seq<Field>)
    decreases fields
  {
    && IsSchema(fields)
    && (forall i, j :: 0 <= i < j < |fields| && fields[i].kind.MessagesKind? ==> !fields[j].kind.MessagesKind?)
    && forall i :: 0 <= i < |fields| && fields[i].kind.MessagesKind? ==> IsSubClass(fields[i])
  }

  ghost predicate IsSubClass(f: Field)
    requires f.kind.MessagesKind?
    decreases f
  {
    IsClass(f.kind.fields)
  }

  // The place of the sub-messages; the end if there are none
  function SubPlace(fields: seq<Field>): (i: nat)
    ensures i <= |fields| && (i < |fields| ==> fields[i].kind.MessagesKind?)
    ensures forall j :: 0 <= j < i ==> !fields[j].kind.MessagesKind?
  {
    if fields == [] || fields[0].kind.MessagesKind? then 0 else 1 + SubPlace(fields[1..])
  }

  function SubFields(fields: seq<Field>): seq<Field> {
    if SubPlace(fields) < |fields| then fields[SubPlace(fields)].kind.fields else []
  }

  // The fields of an object with its sub-messages in their place
  function Assemble(fields: seq<Field>, values: seq<Value>, ms: seq<Message>): Message {
    Message(if SubPlace(fields) < |values| then values[SubPlace(fields) := Messages(ms)] else values)
  }

  ghost predicate HasOwnKinds(fields: seq<Field>, values: seq<Value>) {
    |values| == |fields| && forall i :: 0 <= i < |fields| ==> HasKind(values[i], fields[i].kind)
  }

  class MessageObject {
    const fields: seq<Field>
    var values: seq<Value>
    var messages: seq<MessageObject>
    var cachedSize: nat
    var packedSizes: map<nat, nat>
    ghost var repr: set<MessageObject>

    ghost predicate Valid()
      reads this`values, this`messages, this`repr, repr`values, repr`messages, repr`repr
      decreases repr, 0
    {
      && this in repr && IsClass(fields) && HasOwnKinds(fields, values)
      && (SubPlace(fields) == |fields| ==> messages == [])
      && AllValid(messages, SubFields(fields), repr - {this})
    }

    // Objects of one class whose trees lie apart within r
    static ghost predicate AllValid(os: seq<MessageObject>, fs: seq<Field>, r: set<MessageObject>)
      reads r`values, r`messages, r`repr
      decreases r, 1, |os|
    {
      os == [] || (&& os[0] in r && os[0].repr <= r && os[0].fields == fs && os[0].Valid()
                   && AllValid(os[1..], fs, r - os[0].repr))
    }

    // The message an object stands for
    ghost function Value(): (m: Message)
      requires Valid()
      reads this`values, this`messages, this`repr, repr`values, repr`messages, repr`repr
      ensures HasFields(m, fields)
      decreases repr, 0
    {
      var ms := Values(messages, SubFields(fields), repr - {this});
      AssembleHas(fields, values, ms);
      Assemble(fields, values, ms)
    }

    static ghost function Values(os: seq<MessageObject>, fs: seq<Field>, r: set<MessageObject>): (ms: seq<Message>)
      requires AllValid(os, fs, r)
      reads r`values, r`messages, r`repr
      ensures |ms| == |os| && forall m :: m in ms ==> HasFields(m, fs)
      decreases r, 1, |os|
    {
      if os == [] then [] else [os[0].Value()] + Values(os[1..], fs, r - os[0].repr)
    }

    static lemma {:induction false} Apart(os: seq<MessageObject>, fs: seq<Field>, r: set<MessageObject>)
      requires AllValid(os, fs, r)
      ensures forall j :: 0 <= j < |os| ==> os[j] in os[j].repr && os[j].repr <= r && os[j].fields == fs && os[j].Valid()
      ensures forall j :: 0 <= j < |os| ==> Values(os, fs, r)[j] == os[j].Value()
      ensures forall i, j :: 0 <= i < j < |os| ==> os[i].repr !! os[j].repr
    {
      if os != [] { Apart(os[1..], fs, r - os[0].repr); }
    }

    static lemma {:induction false} AppendApart(os: seq<MessageObject>, o: MessageObject, fs: seq<Field>, r: set<MessageObject>)
      requires AllValid(os, fs, r) && o in o.repr && o.repr !! r && o.fields == fs && o.Valid()
      ensures AllValid(os + [o], fs, r + o.repr) && Values(os + [o], fs, r + o.repr) == Values(os, fs, r) + [o.Value()]
      decreases |os|
    {
      hide IsClass;
      if os == [] {
        assert os + [o] == [o];
      } else {
        assert (os + [o])[1..] == os[1..] + [o];
        assert (r + o.repr) - os[0].repr == (r - os[0].repr) + o.repr;
        AppendApart(os[1..], o, fs, r - os[0].repr);
      }
    }

    // ---------- construction, clearing and merging ----------

    constructor (fields: seq<Field>)
      requires IsClass(fields)
      ensures Valid() && this.fields == fields && Value() == Empty(fields) && repr == {this}
    {
      this.fields := fields;
      values, messages := seq(|fields|, i requires 0 <= i < |fields| => Default(fields[i].kind)), [];
      cachedSize, packedSizes, repr := 0, map[], {this};
      new;
      assert Value().values == values;
    }

    // The arrays of integers keep their capacity.
    method Clear()
      requires Valid()
      modifies `values, `messages, `repr
      ensures Valid() && repr == {this} && SameMessage(Value(), Empty(fields))
    {
      hide IsClass, AllValid, Values;
      var current := values;
      values := seq(|fields|, i requires 0 <= i < |fields| => ClearedValue(fields[i].kind, current[i]));
      messages, repr := [], {this};
      NoObjects(SubFields(fields), repr - {this});
      FieldsAll();
    }

    static lemma NoObjects(fs: seq<Field>, r: set<MessageObject>)
      ensures AllValid([], fs, r) && Values([], fs, r) == []
    {
    }

    lemma FieldsAll()
      requires Valid()
      ensures |Value().values| == |fields| == |values|
      ensures forall i :: 0 <= i < |fields| ==>
                Value().values[i] == if i == SubPlace(fields) then Messages(Values(messages, SubFields(fields), repr - {this})) else values[i]
    {
    }

    // The sub-messages as values
    ghost function SubValues(): (ms: seq<Message>)
      requires Valid()
      reads this`values, this`messages, this`repr, repr`values, repr`messages, repr`repr
      ensures |ms| == |messages|
    {
      Values(messages, SubFields(fields), repr - {this})
    }

    method AddMessage(o: MessageObject)
      requires Valid() && SubPlace(fields) < |fields| && o.Valid() && o.fields == SubFields(fields) && o.repr !! repr
      modifies `messages, `repr
      ensures Valid() && repr == old(repr) + o.repr && SubValues() == old(SubValues()) + [o.Value()]
      ensures old(Value()).values[SubPlace(fields)] == Messages(old(SubValues()))
      ensures Value() == SetValue(old(Value()), SubPlace(fields), Messages(old(SubValues()) + [o.Value()]))
    {
      hide IsClass, AllValid, Values;
      ghost var r := repr - {this};
      SubMessagesAre();
      OwnTree(o);
      AppendApart(messages, o, SubFields(fields), r);
      messages := messages + [o];
      repr := repr + o.repr;
      assert repr - {this} == r + o.repr;
      SubMessagesAre();
      assert Value().values == SetValue(old(Value()), SubPlace(fields), Messages(SubValues())).values;
    }

    static lemma OwnTree(o: MessageObject)
      requires o.Valid()
      ensures o in o.repr
    {
    }

    // Adds what another message of the class holds; sub-messages are copied.
    method MergeFrom(from: MessageObject)
      requires Valid() && from.Valid() && from.fields == fields && from.repr !! repr
      modifies `values, `messages, `repr
      ensures Valid() && fresh(repr - old(repr))
      ensures SameMessage(Value(), Merge(fields, old(Value()), from.Value()))
      decreases from.repr, 0
    {
      hide IsClass, AllValid, Values, HasKind, MergeValue, SameMessage, Merge;
      ghost var a, b := Value(), from.Value();
      ghost var ours, theirs := SubValues(), from.SubValues();
      FieldsAll();
      from.FieldsAll();
      ghost var was := values;
      var i := 0;
      while i < |fields|
        invariant i <= |fields| && Valid() && repr == old(repr) && messages == old(messages) && SubValues() == ours
        invariant MergedBefore(fields, i, was, from.values, values)
      {
        if i != SubPlace(fields) {
          values := values[i := MergeValue(fields[i].kind, values[i], from.values[i])];
        }
        i := i + 1;
      }
      if SubPlace(fields) < |fields| {
        AddCopies(from.messages, SubFields(fields), from.repr - {from});
      }
      SubMessagesAre();
      from.SubMessagesAre();
      MergedIs(fields, was, ours, from.values, theirs, values, SubValues());
    }

    lemma SubMessagesAre()
      requires Valid()
      ensures HasOwnKinds(fields, values) && forall m :: m in SubValues() ==> HasFields(m, SubFields(fields))
      ensures SubPlace(fields) == |fields| ==> SubValues() == []
      ensures Value() == Assemble(fields, values, SubValues())
    {
    }

    static method CopyMessage(from: MessageObject) returns (o: MessageObject)
      requires from.Valid()
      ensures o.Valid() && o.fields == from.fields && fresh(o.repr) && SameMessage(o.Value(), from.Value())
      decreases from.repr, 1
    {
      hide AllValid, Values, SameMessage, Merge, IsClass;
      o := new MessageObject(from.fields);
      ghost var m := from.Value();
      o.MergeFrom(from);
      MergeMonoid(from.fields, m, m, m);
      SameMessageTransitive(o.Value(), Merge(from.fields, Empty(from.fields), m), m);
    }

    method AddCopies(others: seq<MessageObject>, fs: seq<Field>, ghost r: set<MessageObject>)
      requires Valid() && SubPlace(fields) < |fields| && fs == SubFields(fields) && AllValid(others, fs, r) && r !! repr
      modifies `messages, `repr
      ensures Valid() && fresh(repr - old(repr))
      ensures values == old(values) && Copied(old(SubValues()), Values(others, fs, r), SubValues())
      decreases r, 2
    {
      hide Valid, AllValid, Values, SameMessage, Copied, SubValues;
      Apart(others, fs, r);
      ghost var ours, theirs := SubValues(), Values(others, fs, r);
      CopiedNone(ours, theirs);
      OwnTree(this);
      var k := 0;
      while k < |others|
        invariant k <= |others| && Valid() && this in repr && fresh(repr - old(repr)) && r !! repr
        invariant Copied(ours, theirs[..k], SubValues())
      {
        var o := CopyMessage(others[k]);
        CopiedMore(ours, theirs, k, SubValues(), o.Value());
        AddMessage(o);
        k := k + 1;
      }
      assert theirs[..k] == theirs;
    }

    // The message becomes one like another.
    method CopyFrom(from: MessageObject)
      requires Valid() && from.Valid() && from.fields == fields && (from == this || from.repr !! repr)
      modifies `values, `messages, `repr
      ensures Valid() && fresh(repr - old(repr)) && SameMessage(Value(), old(from.Value()))
    {
      hide AllValid, Values, SameMessage, Merge, IsClass;
      ghost var m := from.Value();
      if from == this {
        SameMessageReflexive(m);
        return;
      }
      OwnTree(this);
      Clear();
      ghost var cleared := Value();
      MergeFrom(from);
      MergeSame(fields, cleared, Empty(fields), m);
      MergeMonoid(fields, m, m, m);
      SameMessageTransitive(Value(), Merge(fields, cleared, m), Merge(fields, Empty(fields), m));
      SameMessageTransitive(Value(), Merge(fields, Empty(fields), m), m);
    }

    // ---------- parsing ----------

    method SetOwn(i: nat, v: Value)
      requires Valid() && i < |fields| && !fields[i].kind.MessagesKind? && HasKind(v, fields[i].kind)
      modifies `values
      ensures Valid() && Value() == SetValue(old(Value()), i, v)
    {
      hide IsClass, AllValid, Values, HasKind;
      FieldIs(i);
      ghost var ms := SubValues();
      SubMessagesAre();
      values := values[i := v];
      assert SubValues() == ms;
      SubMessagesAre();
      assert Assemble(fields, values, ms).values == SetValue(old(Value()), i, v).values;
    }

    // Reads fields up to the limit of the input.  The caller must check that the end was legitimate.
    method MergePartialFromCodedStream(input: CodedInputStream) returns (ok: bool)
      requires Valid() && input.Valid() && !input.legitimateMessageEnd
      modifies `values, `messages, `repr, input`position, input`limit, input`legitimateMessageEnd
      ensures input.Valid()
      ensures var r := Parse(fields, old(Value()), old(input.Rest()));
              if r.None? then !(ok && input.legitimateMessageEnd)
              else ok && input.legitimateMessageEnd && input.Rest() == [] && input.limit == old(input.limit)
                   && Valid() && fresh(repr - old(repr)) && Value() == r.value
      decreases |input.Rest()|, 2
    {
      hide IsClass, AllValid, Values, HasOwnKinds, ReadValue, Wire.SkipField, Wire.ReadTag, Parse, Step, FindField, Value, HasFields;
      ghost var goal := Parse(fields, Value(), input.Rest());
      while true
        invariant Valid() && fresh(repr - old(repr)) && input.Valid() && !input.legitimateMessageEnd
        invariant input.limit == old(input.limit) && |input.Rest()| <= old(|input.Rest()|)
        invariant Parse(fields, Value(), input.Rest()) == goal
        decreases |input.Rest()|
      {
        NumbersArePositive();
        ParseTag(fields, Value(), input.Rest());
        var tag := input.ReadTag();
        var i := FindField(fields, tag / 8);
        if i < |fields| && Accepts(fields[i], tag) {
          ok := ReadField(i, tag, input);
          if !ok { return; }
        } else {
          if tag == 0 || tag % 8 == END_GROUP { return true; }
          ok := input.SkipField(tag);
          if !ok { return; }
        }
      }
    }

    lemma NumbersArePositive()
      requires Valid()
      ensures FindField(fields, 0) == |fields|
    {
      assert IsSchema(fields);
    }

    method ReadField(i: nat, tag: nat, input: CodedInputStream) returns (ok: bool)
      requires Valid() && input.Valid() && !input.legitimateMessageEnd && i < |fields| && Accepts(fields[i], tag)
      modifies `values, `messages, `repr, input`position, input`limit, input`legitimateMessageEnd
      ensures input.Valid()
      ensures |old(Value()).values| == |fields| && HasKind(old(Value()).values[i], fields[i].kind)
      ensures var r := ReadValue(fields[i], tag, old(Value()).values[i], old(input.Rest()));
              ok == r.Some? && (ok ==> && Valid() && fresh(repr - old(repr)) && Value() == SetValue(old(Value()), i, r.value.0)
                                       && input.Rest() == r.value.1 && input.limit == old(input.limit) && !input.legitimateMessageEnd)
      decreases |input.Rest()|, 4
    {
      hide IsClass, AllValid, Values, HasOwnKinds, ReadVarint, ReadDelimited, ReadPackedContent, ReadMessageContent, ReadPacked, ReadRepeated, HasKind, ReadInt, IsUtf8, Parse;
      FieldIs(i);
      var f := fields[i];
      if f.kind.Int32sKind? && tag == UnpackedTag(f) {
        ok := ReadRepeatedPrimitive(i, input);
      } else if WireTypeOf(f.kind) == VARINT {
        var n := input.ReadVarint();
        ok := n.Some?;
        if ok { SetOwn(i, ReadInt(f.kind, n.value)); }
      } else if f.kind.Int32sKind? {
        ok := ReadPackedPrimitive(i, input);
      } else if f.kind.MessagesKind? {
        ok := ReadMessage(i, input);
      } else {
        ok := ReadText(i, input);
      }
    }

    // Strings are checked to be UTF-8, bytes are not.
    method ReadText(i: nat, input: CodedInputStream) returns (ok: bool)
      requires Valid() && input.Valid() && i < |fields| && WireTypeOf(fields[i].kind) == LENGTH_DELIMITED
      requires !fields[i].kind.Int32sKind? && !fields[i].kind.MessagesKind?
      modifies `values, input`position
      ensures input.Valid()
      ensures |old(Value()).values| == |fields| && HasKind(old(Value()).values[i], fields[i].kind)
      ensures var d := ReadDelimited(old(input.Rest()));
              var r := if d.Some? then ReadBytes(fields[i].kind, old(Value()).values[i], d.value.0) else None;
              ok == r.Some? && (ok ==> Valid() && Value() == SetValue(old(Value()), i, r.value) && input.Rest() == d.value.1)
    {
      hide IsClass, AllValid, Values, ReadDelimited, IsUtf8;
      FieldIs(i);
      var kind := fields[i].kind;
      var payload := input.ReadBytes();
      if payload == None { return false; }
      ok := kind.BytesKind? || IsUtf8(payload.value);
      if ok { SetOwn(i, if kind.StringsKind? then Texts(values[i].list + [payload.value]) else Text(payload.value)); }
    }

    // An integer, and more of them as long as the array has room and the tag of a packed record
    // follows.
    method ReadRepeatedPrimitive(i: nat, input: CodedInputStream) returns (ok: bool)
      requires Valid() && input.Valid() && i < |fields| && fields[i].kind.Int32sKind?
      modifies `values, input`position
      ensures input.Valid()
      ensures |old(Value()).values| == |fields| && HasKind(old(Value()).values[i], Int32sKind)
      ensures var r := ReadRepeated(TagOf(fields[i]), old(Value()).values[i], old(input.Rest()));
              ok == r.Some? && (ok ==> Valid() && Value() == SetValue(old(Value()), i, r.value.0) && input.Rest() == r.value.1)
    {
      hide Valid, IsClass, AllValid, Values, HasOwnKinds, ReadVarint, Varint, HasKind, Value, ReadRepeated, AddInt, Wire.ExpectTag;
      hide SetValue, CodedInputStream.Rest, CodedInputStream.Valid;
      FieldIs(i);
      ghost var m, tag := Value(), TagOf(fields[i]);
      ghost var goal := ReadRepeated(tag, m.values[i], input.Rest());
      IntsKind(m.values[i]);
      RepeatedStep(tag, m.values[i], input.Rest());
      ok := AddVarint(i, input);
      if !ok { return; }
      var reserved := values[i].capacity - |values[i].elements|;
      var expected := false;
      if reserved > 0 { expected := input.ExpectTag(TagOf(fields[i])); }
      while reserved > 0 && expected
        invariant input.Valid() && Valid() && |values| == |fields| && HasKind(values[i], Int32sKind)
        invariant Value() == SetValue(m, i, values[i]) && values[i].Ints?
        invariant expected ==> 0 < reserved == values[i].capacity - |values[i].elements|
        invariant goal == if expected then ReadRepeated(tag, values[i], input.Rest()) else Some((values[i], input.Rest()))
        decreases reserved
      {
        RepeatedStep(tag, values[i], input.Rest());
        ghost var before := values[i];
        ok := AddVarint(i, input);
        if !ok { return; }
        SetTwice(m, i, before, values[i]);
        reserved := reserved - 1;
        expected := false;
        if reserved > 0 { expected := input.ExpectTag(TagOf(fields[i])); }
      }
    }

    // Reads one integer into the array.
    method AddVarint(i: nat, input: CodedInputStream) returns (ok: bool)
      requires Valid() && input.Valid() && i < |fields| && fields[i].kind.Int32sKind?
      modifies `values, input`position
      ensures input.Valid() && |old(values)| == |fields| && old(values[i]).Ints?
      ensures |old(Value()).values| == |fields| && old(Value()).values[i] == old(values[i])
      ensures var r := ReadVarint(old(input.Rest()));
              ok == r.Some? && (ok ==> && Valid() && |values| == |fields| && HasKind(values[i], Int32sKind)
                                       && values[i] == AddInt(old(values[i]), ToInt32(r.value.0))
                                       && Value() == SetValue(old(Value()), i, values[i]) && input.Rest() == r.value.1)
    {
      hide IsClass, AllValid, Values, ReadVarint, AddInt;
      FieldIs(i);
      var n := input.ReadVarint();
      ok := n.Some?;
      if ok {
        AddIntHas(values[i], n.value);
        SetOwn(i, AddInt(values[i], ToInt32(n.value)));
        FieldIs(i);
      }
    }

    method ReadPackedPrimitive(i: nat, input: CodedInputStream) returns (ok: bool)
      requires Valid() && input.Valid() && !input.legitimateMessageEnd && i < |fields| && fields[i].kind.Int32sKind?
      modifies `values, input`position, input`limit, input`legitimateMessageEnd
      ensures input.Valid()
      ensures |old(Value()).values| == |fields| && HasKind(old(Value()).values[i], Int32sKind)
      ensures var d := ReadPackedContent(old(input.Rest()));
              var r := if d.Some? then ReadPacked(old(Value()).values[i], d.value.0) else None;
              ok == r.Some? && (ok ==> && Valid() && Value() == SetValue(old(Value()), i, r.value)
                                       && input.Rest() == d.value.1 && input.limit == old(input.limit) && !input.legitimateMessageEnd)
    {
      hide IsClass, AllValid, Values, HasOwnKinds, Wire.ReadVarint, HasKind, Value;
      FieldIs(i);
      ghost var m := Value();
      var length := input.ReadVarint();
      if length == None || length.value > INT_MAX { return false; }
      var previous := input.PushLimit(length.value);
      ghost var goal, end := ReadPacked(m.values[i], input.Rest()), input.limit;
      ok := true;
      while input.position < input.limit
        invariant input.Valid() && input.limit == end && !input.legitimateMessageEnd
        invariant Valid() && |values| == |fields| && HasKind(values[i], Int32sKind)
        invariant Value() == SetValue(m, i, values[i]) && goal == ReadPacked(values[i], input.Rest())
        decreases |input.Rest()|
      {
        ok := AddVarint(i, input);
        if !ok { return; }
      }
      input.PopLimit(previous);
    }

    // A sub-message is parsed up to a limit of its own.
    method ReadMessage(i: nat, input: CodedInputStream) returns (ok: bool)
      requires Valid() && input.Valid() && !input.legitimateMessageEnd && i < |fields| && fields[i].kind.MessagesKind?
      modifies `messages, `repr, input`position, input`limit, input`legitimateMessageEnd
      ensures input.Valid()
      ensures |old(Value()).values| == |fields| && HasKind(old(Value()).values[i], fields[i].kind)
      ensures var fs := fields[i].kind.fields;
              var (content, after) := ReadMessageContent(old(input.Rest()));
              var r := Parse(fs, Empty(fs), content);
              ok == r.Some? && (ok ==> && Valid() && fresh(repr - old(repr))
                                       && Value() == SetValue(old(Value()), i, Messages(old(Value()).values[i].messages + [r.value]))
                                       && input.Rest() == after && input.limit == old(input.limit) && !input.legitimateMessageEnd)
      decreases |input.Rest()|, 3
    {
      hide Valid, IsClass, AllValid, Values, HasOwnKinds, ReadMessageContent, HasKind, Value, Parse, SubValues, FindField;
      OwnTree(this);
      FieldIs(i);
      SubClass(i);
      var previous := input.ReadLengthAndPushLimit();
      var o := new MessageObject(fields[i].kind.fields);
      ok := o.MergePartialFromCodedStream(input);
      if !ok || !input.legitimateMessageEnd { return false; }
      input.PopLimit(previous);
      AddMessage(o);
    }

    lemma SubClass(i: nat)
      requires Valid() && i < |fields| && fields[i].kind.MessagesKind?
      ensures IsClass(fields[i].kind.fields) && i == SubPlace(fields) && SubFields(fields) == fields[i].kind.fields
    {
      assert IsSubClass(fields[i]);
    }

    // ---------- sizes ----------

    // The remembered sizes are those of the packed fields and of the message, all the way down.
    ghost predicate Cached()
      requires Valid()
      reads this, repr
      decreases repr, 0
    {
      && cachedSize == |Serialize(fields, Value())|
      && (forall i :: 0 <= i < |fields| && fields[i].kind.Int32sKind? ==> PackedCached(i))
      && AllCached(messages, SubFields(fields), repr - {this})
    }

    ghost predicate PackedCached(i: nat)
      requires Valid() && i < |fields| && fields[i].kind.Int32sKind?
      reads this`values, this`messages, this`repr, this`packedSizes, repr`values, repr`messages, repr`repr
    {
      i in packedSizes && packedSizes[i] == PackedSize(values[i].elements)
    }

    static ghost predicate AllCached(os: seq<MessageObject>, fs: seq<Field>, r: set<MessageObject>)
      requires AllValid(os, fs, r)
      reads r
      decreases r, 1, |os|
    {
      os == [] || (os[0].Cached() && AllCached(os[1..], fs, r - os[0].repr))
    }

    static lemma {:induction false} EachCached(os: seq<MessageObject>, fs: seq<Field>, r: set<MessageObject>)
      requires AllValid(os, fs, r)
      ensures AllCached(os, fs, r) <==> forall j :: 0 <= j < |os| ==> os[j].Valid() && os[j].Cached()
    {
      if os != [] {
        EachCached(os[1..], fs, r - os[0].repr);
        assert AllCached(os, fs, r) ==> forall j :: 0 < j < |os| ==> os[j] == os[1..][j - 1];
      }
    }

    method ByteSizeLong() returns (size: nat)
      requires Valid()
      modifies repr`cachedSize, repr`packedSizes
      ensures Cached() && size == |Serialize(fields, Value())|
      decreases repr, 3
    {
      hide Serialize, IsClass, AllValid, Values, HasOwnKinds, Cached, AllCached, PackedCached;
      size := SizeFields();
      cachedSize := size;
      AllBefore();
    }

    method SizeFields() returns (size: nat)
      requires Valid()
      modifies this`packedSizes, (repr - {this})`cachedSize, (repr - {this})`packedSizes
      ensures CachedBefore(|fields|) && size == |Serialize(fields, Value())|
      decreases repr, 2
    {
      hide HasFields, Records, AllRecords, IsClass, AllValid, Values, HasOwnKinds, CachedBefore;
      ghost var v := Value();
      NothingBefore();
      SerializeRecords(fields, v);
      assert fields[0..] == fields && v.values[0..] == v.values;
      size := 0;
      var i := 0;
      while i < |fields|
        invariant i <= |fields| && Valid() && Value() == v
        invariant size + |Flatten(AllRecords(fields[i..], v.values[i..]))| == |Serialize(fields, v)|
        invariant CachedBefore(i)
      {
        var n := FieldSize(i);
        NextField(fields, v, i);
        size := size + n;
        i := i + 1;
      }
      NothingLeft(fields, v);
    }

    lemma NothingBefore()
      requires Valid()
      ensures CachedBefore(0)
    {
    }

    // The sizes of the fields before place i are remembered.
    ghost predicate CachedBefore(i: nat)
      requires Valid()
      reads this`values, this`messages, this`repr, this`packedSizes, repr`values, repr`messages, repr`repr, repr - {this}
    {
      && (forall j :: 0 <= j < i && j < |fields| && fields[j].kind.Int32sKind? ==> PackedCached(j))
      && (SubPlace(fields) < i ==> AllCached(messages, SubFields(fields), repr - {this}))
    }

    lemma AllBefore()
      requires Valid() && CachedBefore(|fields|) && cachedSize == |Serialize(fields, Value())|
      ensures Cached()
    {
      if SubPlace(fields) == |fields| { assert messages == []; }
    }

    method FieldSize(i: nat) returns (n: nat)
      requires Valid() && i < |fields| && CachedBefore(i)
      modifies this`packedSizes, (repr - {this})`cachedSize, (repr - {this})`packedSizes
      ensures n == |Flatten(Records(fields[i], Value().values[i]))| && CachedBefore(i + 1)
      decreases repr, 1
    {
      hide Serialize, IsClass, AllValid, Values, Records, SingleSize, IsSchema;
      FieldIs(i);
      if IsSingle(fields[i].kind) {
        SingleSizeIs(fields[i], values[i]);
        n := SingleSize(fields[i], values[i]);
      } else if fields[i].kind.StringsKind? {
        StringsRecords(fields[i], values[i]);
        n := SizeStrings(fields[i], values[i].list);
      } else if fields[i].kind.Int32sKind? {
        n := SizePacked(i);
      } else {
        n := SizeMessages(i);
      }
    }

    // A field of the message is one of the object, or its sub-messages.
    lemma FieldIs(i: nat)
      requires Valid() && i < |fields|
      ensures fields[i].kind.MessagesKind? <==> i == SubPlace(fields)
      ensures |Value().values| == |values| == |fields| && HasKind(Value().values[i], fields[i].kind)
      ensures Value().values[i] ==
              if fields[i].kind.MessagesKind? then Messages(Values(messages, SubFields(fields), repr - {this})) else values[i]
    {
      hide IsSchema, HasKind, AllValid, Values;
      assert HasFields(Value(), fields);
    }

    static method SizeStrings(f: Field, list: seq<seq<Byte>>) returns (n: nat)
      ensures n == |Flatten(BytesRecords(f, list))|
    {
      hide BytesRecords, TagSize, DelimitedSize;
      n := 0;
      var k := 0;
      assert list[0..] == list;
      while k < |list|
        invariant k <= |list| && n + |Flatten(BytesRecords(f, list[k..]))| == |Flatten(BytesRecords(f, list))|
      {
        NextRecord(f, list, k);
        n := n + TagSize(f) + DelimitedSize(|list[k]|);
        k := k + 1;
      }
      NoRecord(f, list[k..]);
    }

    static method SizeInts(elements: seq<int>) returns (n: nat)
      ensures n == PackedSize(elements)
    {
      n := 0;
      var k := 0;
      assert elements[0..] == elements;
      while k < |elements|
        invariant k <= |elements| && n + PackedSize(elements[k..]) == PackedSize(elements)
      {
        assert elements[k..][0] == elements[k] && elements[k..][1..] == elements[k + 1..];
        n := n + Int32Size(elements[k]);
        k := k + 1;
      }
    }

    // The size of the integers is kept for the serializers.
    method SizePacked(i: nat) returns (n: nat)
      requires Valid() && i < |fields| && fields[i].kind.Int32sKind? && CachedBefore(i)
      modifies this`packedSizes
      ensures n == |Flatten(Records(fields[i], values[i]))| && CachedBefore(i + 1)
    {
      hide Serialize, IsClass, AllValid, Values, Records, IsSchema, PackedSize;
      PackedRecordSize(fields[i], values[i]);
      var dataSize := SizeInts(values[i].elements);
      n := if dataSize > 0 then TagSize(fields[i]) + VarintSize(dataSize) else 0;
      packedSizes := packedSizes[i := dataSize];
      n := n + dataSize;
      FieldIs(i);
    }

    method SizeMessages(i: nat) returns (n: nat)
      requires Valid() && i < |fields| && fields[i].kind.MessagesKind? && CachedBefore(i)
      modifies (repr - {this})`cachedSize, (repr - {this})`packedSizes
      ensures n == |Flatten(Records(fields[i], Value().values[i]))| && CachedBefore(i + 1)
      decreases repr, 0
    {
      hide Serialize, IsClass, AllValid, Values, IsSchema, BytesRecords, AllCached, HasFields;
      FieldIs(i);
      n := SizeEach(fields[i], messages, SubFields(fields), repr - {this});
    }

    static method SizeEach(f: Field, os: seq<MessageObject>, fs: seq<Field>, ghost r: set<MessageObject>) returns (n: nat)
      requires AllValid(os, fs, r)
      modifies r`cachedSize, r`packedSizes
      ensures AllCached(os, fs, r) && n == |Flatten(BytesRecords(f, SerializeAll(fs, Values(os, fs, r))))|
      decreases r, 4
    {
      hide Serialize, AllValid, Values, BytesRecords, TagSize, DelimitedSize, AllCached, HasFields, SerializeAll, Counted;
      hide MessageObject.Cached, MessageObject.Valid, MessageObject.Value;
      Apart(os, fs, r);
      ghost var ms := Values(os, fs, r);
      CountStart(f, fs, ms);
      n := 0;
      var k := 0;
      while k < |os|
        invariant k <= |os| && forall j :: 0 <= j < k ==> os[j].Cached()
        invariant Counted(f, fs, ms, k, n)
      {
        CountNext(f, fs, ms, k, n);
        var size := os[k].ByteSizeLong();
        n := n + TagSize(f) + DelimitedSize(size);
        k := k + 1;
      }
      CountAll(f, fs, ms, n);
      EachCached(os, fs, r);
    }

    // ---------- the serializer to a stream ----------

    method SerializeWithCachedSizes(output: CodedOutputStream)
      requires Valid() && Cached()
      modifies output
      ensures output.data == old(output.data) + Serialize(fields, Value())
      decreases repr, 3
    {
      hide HasFields, Records, AllRecords, IsClass, AllValid, Values, HasOwnKinds, Cached, Completes;
      ghost var v := Value();
      SerializeRecords(fields, v);
      assert fields[0..] == fields && v.values[0..] == v.values;
      ghost var whole := output.data + Serialize(fields, v);
      CompletesStart(output.data, Serialize(fields, v), whole);
      var i := 0;
      while i < |fields|
        invariant i <= |fields|
        invariant Completes(output.data, Flatten(AllRecords(fields[i..], v.values[i..])), whole)
      {
        NextField(fields, v, i);
        CompletesNext(output.data, Flatten(Records(fields[i], v.values[i])), Flatten(AllRecords(fields[i + 1..], v.values[i + 1..])), whole);
        WriteField(i, output);
        i := i + 1;
      }
      NothingLeft(fields, v);
      CompletesNothing(output.data, whole);
    }

    method WriteField(i: nat, output: CodedOutputStream)
      requires Valid() && Cached() && i < |fields|
      modifies output
      ensures output.data == old(output.data) + Flatten(Records(fields[i], Value().values[i]))
      decreases repr, 1
    {
      hide Serialize, IsClass, AllValid, Values, Records, IsSchema, AllCached;
      FieldIs(i);
      if IsSingle(fields[i].kind) {
        WriteSingle(fields[i], values[i], output);
      } else if fields[i].kind.StringsKind? {
        StringsRecords(fields[i], values[i]);
        WriteStrings(fields[i], values[i].list, output);
      } else if fields[i].kind.Int32sKind? {
        assert PackedCached(i);
        WritePacked(fields[i], values[i], packedSizes[i], output);
      } else {
        MessagesRecords(fields[i], Value().values[i]);
        WriteMessages(fields[i], messages, SubFields(fields), repr - {this}, output);
      }
    }

    static method WriteSingle(f: Field, v: Value, output: CodedOutputStream)
      requires HasKind(v, f.kind) && IsSingle(f.kind)
      modifies output
      ensures output.data == old(output.data) + Flatten(Records(f, v))
    {
      hide Varint;
      SingleBytes(f, v);
      if WireTypeOf(f.kind) == VARINT {
        if IntOf(v) != 0 {
          output.Write(Varint(TagOf(f)));
          output.Write(Varint(IntOf(v)));
        }
      } else if |v.bytes| > 0 {
        output.Write(Varint(TagOf(f)));
        output.Write(Varint(|v.bytes|));
        output.Write(v.bytes);
      }
    }

    static method WriteStrings(f: Field, list: seq<seq<Byte>>, output: CodedOutputStream)
      modifies output
      ensures output.data == old(output.data) + Flatten(BytesRecords(f, list))
    {
      hide BytesRecords, TagSize, DelimitedSize, Varint;
      var k := 0;
      assert list[0..] == list;
      while k < |list|
        invariant k <= |list|
        invariant output.data + Flatten(BytesRecords(f, list[k..])) == old(output.data) + Flatten(BytesRecords(f, list))
      {
        NextRecord(f, list, k);
        output.Write(Varint(TagOf(f)));
        output.Write(Varint(|list[k]|));
        output.Write(list[k]);
        k := k + 1;
      }
      NoRecord(f, list[k..]);
      assert output.data + [] == output.data;
    }

    // The integers come after the size that was kept for them.
    static method WritePacked(f: Field, v: Value, size: nat, output: CodedOutputStream)
      requires f.kind.Int32sKind? && HasKind(v, f.kind) && size == PackedSize(v.elements)
      modifies output
      ensures output.data == old(output.data) + Flatten(Records(f, v))
    {
      hide Varint, Records, PackedSize;
      PackedBytes(f, v);
      if |v.elements| > 0 {
        output.Write(Varint(TagOf(f)));
        output.Write(Varint(size));
      }
      ghost var start := output.data;
      assert v.elements[0..] == v.elements;
      var k := 0;
      while k < |v.elements|
        invariant k <= |v.elements|
        invariant output.data + Packed(v.elements[k..]) == start + Packed(v.elements)
      {
        NextInt(v.elements, k);
        output.Write(Varint(Unsigned(v.elements[k])));
        k := k + 1;
      }
      assert output.data + [] == output.data;
    }

    static method WriteMessages(f: Field, os: seq<MessageObject>, ghost fs: seq<Field>, ghost r: set<MessageObject>, output: CodedOutputStream)
      requires AllValid(os, fs, r) && AllCached(os, fs, r)
      modifies output
      ensures output.data == old(output.data) + Flatten(BytesRecords(f, SerializeAll(fs, Values(os, fs, r))))
      decreases r, 5
    {
      hide MessageObject.Cached, BytesRecord, Serialize, AllValid, Values, BytesRecords, HasFields, SerializeAll, Completes;
      Apart(os, fs, r);
      EachCached(os, fs, r);
      ghost var ms := Values(os, fs, r);
      ghost var payloads := SerializeAll(fs, ms);
      assert payloads[0..] == payloads;
      ghost var whole := output.data + Flatten(BytesRecords(f, payloads));
      CompletesStart(old(output.data), Flatten(BytesRecords(f, payloads)), whole);
      var k := 0;
      while k < |os|
        invariant k <= |os|
        invariant Completes(output.data, Flatten(BytesRecords(f, payloads[k..])), whole)
      {
        NextRecord(f, payloads, k);
        SerializeAt(fs, ms, k);
        CompletesNext(output.data, BytesRecord(f, payloads[k]), Flatten(BytesRecords(f, payloads[k + 1..])), whole);
        os[k].WriteMessage(f, output);
        k := k + 1;
      }
      NoRecord(f, payloads[k..]);
      CompletesNothing(output.data, whole);
    }

    // The message comes after the size that was kept for it.
    method WriteMessage(f: Field, output: CodedOutputStream)
      requires Valid() && Cached()
      modifies output
      ensures output.data == old(output.data) + BytesRecord(f, Serialize(fields, Value()))
      decreases repr, 4
    {
      hide Serialize, Valid, Varint;
      output.Write(Varint(TagOf(f)));
      output.Write(Varint(cachedSize));
      SerializeWithCachedSizes(output);
    }

    // ---------- the serializer to an array ----------

    // Writes bytes at a place in the array; the place after them is returned.
    static method WriteToArray(bytes: seq<Byte>, buffer: array<Byte>, target: nat) returns (end: nat)
      requires target + |bytes| <= buffer.Length
      modifies buffer
      ensures end == target + |bytes| && buffer[..] == Put(old(buffer[..]), target, bytes)
    {
      end := target;
      while end < target + |bytes|
        invariant target <= end <= target + |bytes|
        invariant forall k :: 0 <= k < buffer.Length ==> buffer[k] == if target <= k < end then bytes[k - target] else old(buffer[k])
      {
        buffer[end] := bytes[end - target];
        end := end + 1;
      }
    }

    method InternalSerializeWithCachedSizesToArray(buffer: array<Byte>, target: nat) returns (end: nat)
      requires Valid() && Cached() && target + |Serialize(fields, Value())| <= buffer.Length
      modifies buffer
      ensures end == target + |Serialize(fields, Value())| && buffer[..] == Put(old(buffer[..]), target, Serialize(fields, Value()))
      decreases repr, 3
    {
      hide HasFields, Records, AllRecords, IsClass, AllValid, Values, HasOwnKinds, Cached, Put;
      ghost var v := Value();
      SerializeRecords(fields, v);
      assert fields[0..] == fields && v.values[0..] == v.values;
      end := target;
      var i := 0;
      while i < |fields|
        invariant i <= |fields|
        invariant Awaits(buffer[..], end, Flatten(AllRecords(fields[i..], v.values[i..])), old(buffer[..]), target, Serialize(fields, v))
      {
        NextField(fields, v, i);
        ghost var one := Flatten(Records(fields[i], v.values[i]));
        PutNext(buffer[..], end, one, Flatten(AllRecords(fields[i + 1..], v.values[i + 1..])));
        end := WriteFieldToArray(i, buffer, end);
        i := i + 1;
      }
      NothingLeft(fields, v);
      PutNothing(buffer[..], end);
    }

    method WriteFieldToArray(i: nat, buffer: array<Byte>, target: nat) returns (end: nat)
      requires Valid() && Cached() && i < |fields| && target + |Flatten(Records(fields[i], Value().values[i]))| <= buffer.Length
      modifies buffer
      ensures var bytes := Flatten(Records(fields[i], Value().values[i]));
              end == target + |bytes| && buffer[..] == Put(old(buffer[..]), target, bytes)
      decreases repr, 1
    {
      hide Serialize, IsClass, AllValid, Values, Records, IsSchema, AllCached, Put;
      FieldIs(i);
      if IsSingle(fields[i].kind) {
        end := WriteSingleToArray(fields[i], values[i], buffer, target);
      } else if fields[i].kind.StringsKind? {
        StringsRecords(fields[i], values[i]);
        end := WriteStringsToArray(fields[i], values[i].list, buffer, target);
      } else if fields[i].kind.Int32sKind? {
        assert PackedCached(i);
        end := WritePackedToArray(fields[i], values[i], packedSizes[i], buffer, target);
      } else {
        MessagesRecords(fields[i], Value().values[i]);
        end := WriteMessagesToArray(fields[i], messages, SubFields(fields), repr - {this}, buffer, target);
      }
    }

    static method WriteSingleToArray(f: Field, v: Value, buffer: array<Byte>, target: nat) returns (end: nat)
      requires HasKind(v, f.kind) && IsSingle(f.kind) && target + |Flatten(Records(f, v))| <= buffer.Length
      modifies buffer
      ensures end == target + |Flatten(Records(f, v))| && buffer[..] == Put(old(buffer[..]), target, Flatten(Records(f, v)))
    {
      hide Varint, Records, Put;
      SingleBytes(f, v);
      end := target;
      PutNothing(buffer[..], end);
      if WireTypeOf(f.kind) == VARINT {
        if IntOf(v) != 0 {
          PutNext(buffer[..], target, Varint(TagOf(f)), Varint(IntOf(v)));
          end := WriteToArray(Varint(TagOf(f)), buffer, end);
          end := WriteToArray(Varint(IntOf(v)), buffer, end);
        }
      } else if |v.bytes| > 0 {
        PutThree(buffer[..], target, Varint(TagOf(f)), Varint(|v.bytes|), v.bytes);
        end := WriteToArray(Varint(TagOf(f)), buffer, end);
        end := WriteToArray(Varint(|v.bytes|), buffer, end);
        end := WriteToArray(v.bytes, buffer, end);
      }
    }

    static method WriteStringsToArray(f: Field, list: seq<seq<Byte>>, buffer: array<Byte>, target: nat) returns (end: nat)
      requires target + |Flatten(BytesRecords(f, list))| <= buffer.Length
      modifies buffer
      ensures var bytes := Flatten(BytesRecords(f, list));
              end == target + |bytes| && buffer[..] == Put(old(buffer[..]), target, bytes)
    {
      hide BytesRecords, TagSize, DelimitedSize, Varint, Put;
      end := target;
      var k := 0;
      assert list[0..] == list;
      while k < |list|
        invariant k <= |list|
        invariant Awaits(buffer[..], end, Flatten(BytesRecords(f, list[k..])), old(buffer[..]), target, Flatten(BytesRecords(f, list)))
      {
        NextRecord(f, list, k);
        PutNext(buffer[..], end, BytesRecord(f, list[k]), Flatten(BytesRecords(f, list[k + 1..])));
        PutThree(buffer[..], end, Varint(TagOf(f)), Varint(|list[k]|), list[k]);
        RecordPieces(f, list[k]);
        end := WriteToArray(Varint(TagOf(f)), buffer, end);
        end := WriteToArray(Varint(|list[k]|), buffer, end);
        end := WriteToArray(list[k], buffer, end);
        k := k + 1;
      }
      NoRecord(f, list[k..]);
      PutNothing(buffer[..], end);
    }

    static method WritePackedToArray(f: Field, v: Value, size: nat, buffer: array<Byte>, target: nat) returns (end: nat)
      requires f.kind.Int32sKind? && HasKind(v, f.kind) && size == PackedSize(v.elements)
      requires target + |Flatten(Records(f, v))| <= buffer.Length
      modifies buffer
      ensures end == target + |Flatten(Records(f, v))| && buffer[..] == Put(old(buffer[..]), target, Flatten(Records(f, v)))
    {
      hide Varint, Records, PackedSize, Put;
      PackedBytes(f, v);
      end := target;
      PutNothing(buffer[..], end);
      if |v.elements| > 0 {
        PutThree(buffer[..], target, Varint(TagOf(f)), Varint(size), Packed(v.elements));
        end := WriteToArray(Varint(TagOf(f)), buffer, end);
        end := WriteToArray(Varint(size), buffer, end);
        end := WriteInts(v.elements, buffer, end);
      }
    }

    static method WriteInts(elements: seq<int>, buffer: array<Byte>, target: nat) returns (end: nat)
      requires (forall n :: n in elements ==> IsInt32(n)) && target + |Packed(elements)| <= buffer.Length
      modifies buffer
      ensures end == target + |Packed(elements)| && buffer[..] == Put(old(buffer[..]), target, Packed(elements))
    {
      hide Varint, Put;
      end := target;
      assert elements[0..] == elements;
      var k := 0;
      while k < |elements|
        invariant k <= |elements|
        invariant Awaits(buffer[..], end, Packed(elements[k..]), old(buffer[..]), target, Packed(elements))
      {
        NextInt(elements, k);
        PutNext(buffer[..], end, Varint(Unsigned(elements[k])), Packed(elements[k + 1..]));
        end := WriteToArray(Varint(Unsigned(elements[k])), buffer, end);
        k := k + 1;
      }
      PutNothing(buffer[..], end);
    }

    static method WriteMessagesToArray(f: Field, os: seq<MessageObject>, ghost fs: seq<Field>, ghost r: set<MessageObject>, buffer: array<Byte>, target: nat)
      returns (end: nat)
      requires AllValid(os, fs, r) && AllCached(os, fs, r)
      requires target + |Flatten(BytesRecords(f, SerializeAll(fs, Values(os, fs, r))))| <= buffer.Length
      modifies buffer
      ensures var bytes := Flatten(BytesRecords(f, SerializeAll(fs, Values(os, fs, r))));
              end == target + |bytes| && buffer[..] == Put(old(buffer[..]), target, bytes)
      decreases r, 5
    {
      hide BytesRecord, Serialize, AllValid, Values, BytesRecords, HasFields, SerializeAll, AllCached, Put, Awaits;
      hide MessageObject.Cached, MessageObject.Valid, MessageObject.Value;
      Apart(os, fs, r);
      EachCached(os, fs, r);
      ghost var ms := Values(os, fs, r);
      ghost var payloads := SerializeAll(fs, ms);
      ghost var before, whole := buffer[..], Flatten(BytesRecords(f, payloads));
      assert payloads[0..] == payloads;
      AwaitsStart(before, target, whole);
      end := target;
      var k := 0;
      while k < |os|
        invariant k <= |os| && Awaits(buffer[..], end, Flatten(BytesRecords(f, payloads[k..])), before, target, whole)
      {
        NextRecord(f, payloads, k);
        SerializeAt(fs, ms, k);
        AwaitsNext(buffer[..], end, BytesRecord(f, payloads[k]), Flatten(BytesRecords(f, payloads[k + 1..])), before, target, whole);
        end := os[k].WriteMessageToArray(f, buffer, end);
        k := k + 1;
      }
      NoRecord(f, payloads[k..]);
      AwaitsNothing(buffer[..], end, before, target, whole);
    }

    method WriteMessageToArray(f: Field, buffer: array<Byte>, target: nat) returns (end: nat)
      requires Valid() && Cached() && target + |BytesRecord(f, Serialize(fields, Value()))| <= buffer.Length
      modifies buffer
      ensures var bytes := BytesRecord(f, Serialize(fields, Value()));
              end == target + |bytes| && buffer[..] == Put(old(buffer[..]), target, bytes)
      decreases repr, 4
    {
      hide Serialize, Valid, Varint, Put, BytesRecord;
      RecordPieces(f, Serialize(fields, Value()));
      PutThree(buffer[..], target, Varint(TagOf(f)), Varint(cachedSize), Serialize(fields, Value()));
      end := WriteToArray(Varint(TagOf(f)), buffer, target);
      end := WriteToArray(Varint(cachedSize), buffer, end);
      end := InternalSerializeWithCachedSizesToArray(buffer, end);
    }
  }

  // n is the size of the records of the first k messages.
  ghost predicate Counted(f: Field, fs: seq<Field>, ms: seq<Message>, k: nat, n: nat)
    requires k <= |ms| && forall m :: m in ms ==> HasFields(m, fs)
  {
    var payloads := SerializeAll(fs, ms);
    n + |Flatten(BytesRecords(f, payloads[k..]))| == |Flatten(BytesRecords(f, payloads))|
  }

  lemma CountStart(f: Field, fs: seq<Field>, ms: seq<Message>)
    requires forall m :: m in ms ==> HasFields(m, fs)
    ensures Counted(f, fs, ms, 0, 0)
  {
    assert SerializeAll(fs, ms)[0..] == SerializeAll(fs, ms);
  }

  lemma CountNext(f: Field, fs: seq<Field>, ms: seq<Message>, k: nat, n: nat)
    requires k < |ms| && (forall m :: m in ms ==> HasFields(m, fs)) && Counted(f, fs, ms, k, n)
    ensures HasFields(ms[k], fs) && Counted(f, fs, ms, k + 1, n + TagSize(f) + DelimitedSize(|Serialize(fs, ms[k])|))
  {
    hide BytesRecords, Serialize, SerializeAll, TagSize, DelimitedSize, HasFields;
    assert ms[k] in ms;
    NextRecord(f, SerializeAll(fs, ms), k);
    SerializeAt(fs, ms, k);
  }

  lemma CountAll(f: Field, fs: seq<Field>, ms: seq<Message>, n: nat)
    requires (forall m :: m in ms ==> HasFields(m, fs)) && Counted(f, fs, ms, |ms|, n)
    ensures n == |Flatten(BytesRecords(f, SerializeAll(fs, ms)))|
  {
    NoRecord(f, SerializeAll(fs, ms)[|ms|..]);
  }

  // ---------- writing to a stream ----------

  ghost predicate Completes(now: seq<Byte>, rest: seq<Byte>, whole: seq<Byte>) { now + rest == whole }

  lemma CompletesStart(now: seq<Byte>, rest: seq<Byte>, whole: seq<Byte>)
    requires whole == now + rest
    ensures Completes(now, rest, whole)
  {
  }

  lemma CompletesNext(now: seq<Byte>, one: seq<Byte>, rest: seq<Byte>, whole: seq<Byte>)
    requires Completes(now, one + rest, whole)
    ensures Completes(now + one, rest, whole)
  {
    assert now + one + rest == now + (one + rest);
  }

  lemma CompletesNothing(now: seq<Byte>, whole: seq<Byte>)
    requires Completes(now, [], whole)
    ensures now == whole
  {
    assert now + [] == now;
  }

  // ---------- writing into an array ----------

  // A sequence with bytes put in at a place
  ghost function Put(s: seq<Byte>, at: nat, bytes: seq<Byte>): seq<Byte>
    requires at + |bytes| <= |s|
  {
    s[..at] + bytes + s[at + |bytes|..]
  }

  // What is still to be written at the end completes what was to be written from the start.
  ghost predicate Awaits(now: seq<Byte>, end: nat, rest: seq<Byte>, before: seq<Byte>, target: nat, whole: seq<Byte>) {
    && |now| == |before| && end + |rest| == target + |whole| <= |now|
    && Put(now, end, rest) == Put(before, target, whole)
  }

  lemma PutNext(s: seq<Byte>, at: nat, a: seq<Byte>, b: seq<Byte>)
    requires at + |a| + |b| <= |s|
    ensures |Put(s, at, a)| == |s| && Put(Put(s, at, a), at + |a|, b) == Put(s, at, a + b)
  {
  }

  lemma PutThree(s: seq<Byte>, at: nat, a: seq<Byte>, b: seq<Byte>, c: seq<Byte>)
    requires at + |a| + |b| + |c| <= |s|
    ensures |Put(s, at, a)| == |s| && |Put(Put(s, at, a), at + |a|, b)| == |s|
    ensures Put(Put(Put(s, at, a), at + |a|, b), at + |a| + |b|, c) == Put(s, at, a + b + c)
  {
    hide Put;
    PutNext(s, at, a, b);
    PutNext(s, at, a + b, c);
  }

  lemma PutNothing(s: seq<Byte>, at: nat)
    requires at <= |s|
    ensures Put(s, at, []) == s
  {
  }

  lemma AwaitsStart(s: seq<Byte>, target: nat, whole: seq<Byte>)
    requires target + |whole| <= |s|
    ensures Awaits(s, target, whole, s, target, whole)
  {
  }

  lemma AwaitsNext(now: seq<Byte>, end: nat, one: seq<Byte>, rest: seq<Byte>, before: seq<Byte>, target: nat, whole: seq<Byte>)
    requires Awaits(now, end, one + rest, before, target, whole)
    ensures end + |one| <= |now| && |Put(now, end, one)| == |now|
    ensures Awaits(Put(now, end, one), end + |one|, rest, before, target, whole)
  {
    hide Put;
    PutNext(now, end, one, rest);
  }

  lemma AwaitsNothing(now: seq<Byte>, end: nat, before: seq<Byte>, target: nat, whole: seq<Byte>)
    requires Awaits(now, end, [], before, target, whole)
    ensures target + |whole| <= |before| && end == target + |whole| && now == Put(before, target, whole)
  {
    PutNothing(now, end);
  }

  lemma RecordPieces(f: Field, payload: seq<Byte>)
    ensures BytesRecord(f, payload) == Varint(TagOf(f)) + Varint(|payload|) + payload
  {
  }

  // Once a message is measured, the two serializers write the same bytes, as many as its size.
  method SerializeBothWays(o: MessageObject) returns (size: nat, stream: seq<Byte>, flat: array<Byte>)
    requires o.Valid()
    modifies o.repr`cachedSize, o.repr`packedSizes
    ensures o.Valid() && o.Cached()
    ensures stream == flat[..] == Serialize(o.fields, o.Value()) && size == |stream|
  {
    hide MessageObject.Valid, MessageObject.Cached, Serialize;
    size := o.ByteSizeLong();
    var output := new CodedOutputStream();
    o.SerializeWithCachedSizes(output);
    stream := output.data;
    assert [] + stream == stream;
    flat := new Byte[size];
    var end := o.InternalSerializeWithCachedSizesToArray(flat, 0);
    WholePut(flat[..], stream);
  }

  lemma WholePut(s: seq<Byte>, bytes: seq<Byte>)
    requires |bytes| == |s|
    ensures Put(s, 0, bytes) == bytes
  {
  }

  lemma NextInt(elements: seq<int>, k: nat)
    requires k < |elements| && forall n :: n in elements ==> IsInt32(n)
    ensures IsInt32(elements[k]) && Packed(elements[k..]) == Varint(Unsigned(elements[k])) + Packed(elements[k + 1..])
  {
    assert elements[k..][0] == elements[k] && elements[k..][1..] == elements[k + 1..];
  }

  lemma {:induction false} SerializeAt(fields: seq<Field>, ms: seq<Message>, k: nat)
    requires k < |ms| && forall m :: m in ms ==> HasFields(m, fields)
    ensures SerializeAll(fields, ms)[k] == Serialize(fields, ms[k])
  {
    if k > 0 { SerializeAt(fields, ms[1..], k - 1); }
  }

  // ---------- sizes of lists of records ----------

  lemma NextRecord(f: Field, payloads: seq<seq<Byte>>, k: nat)
    requires k < |payloads|
    ensures var rest, more := Flatten(BytesRecords(f, payloads[k..])), Flatten(BytesRecords(f, payloads[k + 1..]));
            rest == BytesRecord(f, payloads[k]) + more && |rest| == TagSize(f) + DelimitedSize(|payloads[k]|) + |more|
  {
    hide BytesRecord, TagSize, DelimitedSize;
    assert payloads[k..][0] == payloads[k] && payloads[k..][1..] == payloads[k + 1..];
    DelimitedSizeIs(f, payloads[k]);
    var rs := BytesRecords(f, payloads[k..]);
    assert rs[1..] == BytesRecords(f, payloads[k + 1..]);
  }

  lemma StringsRecords(f: Field, v: Value)
    requires f.kind.StringsKind? && HasKind(v, f.kind)
    ensures Records(f, v) == BytesRecords(f, v.list)
  {
  }

  lemma MessagesRecords(f: Field, v: Value)
    requires f.kind.MessagesKind? && HasKind(v, f.kind)
    ensures Records(f, v) == BytesRecords(f, SerializeAll(f.kind.fields, v.messages))
  {
  }

  lemma NoRecord(f: Field, payloads: seq<seq<Byte>>)
    requires payloads == []
    ensures Flatten(BytesRecords(f, payloads)) == []
  {
  }

  lemma NothingLeft(fields: seq<Field>, m: Message)
    requires HasFields(m, fields)
    ensures AllRecords(fields[|fields|..], m.values[|fields|..]) == [] && Flatten<Byte>([]) == []
  {
  }

  lemma NextField(fields: seq<Field>, m: Message, k: nat)
    requires HasFields(m, fields) && k < |fields|
    ensures Flatten(AllRecords(fields[k..], m.values[k..])) ==
            Flatten(Records(fields[k], m.values[k])) + Flatten(AllRecords(fields[k + 1..], m.values[k + 1..]))
  {
    hide Records;
    assert fields[k..][1..] == fields[k + 1..] && m.values[k..][1..] == m.values[k + 1..];
    FlattenAppend(Records(fields[k], m.values[k]), AllRecords(fields[k + 1..], m.values[k + 1..]));
  }

  // The fields before place i are merged, but for the sub-messages.
  ghost predicate MergedBefore(fields: seq<Field>, i: nat, was: seq<Value>, theirs: seq<Value>, now: seq<Value>)
    requires HasOwnKinds(fields, was) && HasOwnKinds(fields, theirs)
  {
    && |now| == |fields|
    && forall j :: 0 <= j < |fields| ==>
         (now[j] == if j < i && j != SubPlace(fields) then MergeValue(fields[j].kind, was[j], theirs[j]) else was[j])
  }

  lemma MergedIs(fields: seq<Field>, was: seq<Value>, ours: seq<Message>, theirs: seq<Value>, others: seq<Message>,
                 now: seq<Value>, ms: seq<Message>)
    requires HasOwnKinds(fields, was) && forall m :: m in ours ==> HasFields(m, SubFields(fields))
    requires HasOwnKinds(fields, theirs) && forall m :: m in others ==> HasFields(m, SubFields(fields))
    requires MergedBefore(fields, |fields|, was, theirs, now) && Copied(ours, others, ms)
    ensures HasFields(Assemble(fields, was, ours), fields) && HasFields(Assemble(fields, theirs, others), fields)
    ensures SameMessage(Assemble(fields, now, ms), Merge(fields, Assemble(fields, was, ours), Assemble(fields, theirs, others)))
  {
    AssembleHas(fields, was, ours);
    AssembleHas(fields, theirs, others);
    var a, b, c := Assemble(fields, was, ours), Assemble(fields, theirs, others), Assemble(fields, now, ms);
    var merged := Merge(fields, a, b);
    forall j | 0 <= j < |fields| ensures Same(c.values[j], merged.values[j]) {
      if j == SubPlace(fields) {
        CopiedSame(ours, others, ms);
      } else {
        SameReflexive(c.values[j]);
      }
    }
  }

  lemma CopiedNone(ours: seq<Message>, theirs: seq<Message>)
    ensures Copied(ours, theirs[..0], ours)
  {
  }

  lemma CopiedMore(ours: seq<Message>, theirs: seq<Message>, k: nat, now: seq<Message>, m: Message)
    requires k < |theirs| && Copied(ours, theirs[..k], now) && SameMessage(m, theirs[k])
    ensures Copied(ours, theirs[..k + 1], now + [m])
  {
    hide SameMessage;
    assert theirs[..k + 1] == theirs[..k] + [theirs[k]];
  }

  lemma CopiedSame(ours: seq<Message>, others: seq<Message>, ms: seq<Message>)
    requires Copied(ours, others, ms)
    ensures Same(Messages(ms), Messages(ours + others))
  {
    hide SameMessage;
    var merged := ours + others;
    forall j | 0 <= j < |ms| ensures SameMessage(ms[j], merged[j]) {
      if j < |ours| {
        assert ms[j] == ms[..|ours|][j];
        SameMessageReflexive(ms[j]);
      } else {
        assert ms[j] == ms[|ours| + (j - |ours|)];
      }
    }
  }

  // Sub-messages after which copies of others were added
  ghost predicate Copied(ours: seq<Message>, theirs: seq<Message>, now: seq<Message>) {
    && |now| == |ours| + |theirs| && now[..|ours|] == ours
    && forall j :: 0 <= j < |theirs| ==> SameMessage(now[|ours| + j], theirs[j])
  }

  function ClearedValue(kind: Kind, v: Value): Value
    requires HasKind(v, kind)
  {
    if kind.Int32sKind? then Ints([], v.capacity) else Default(kind)
  }

  // What the next tag of the input means for the rest of the parse
  lemma ParseTag(fields: seq<Field>, m: Message, s: seq<Byte>)
    requires HasFields(m, fields)
    ensures |m.values| == |fields| && forall i :: 0 <= i < |fields| ==> HasKind(m.values[i], fields[i].kind)
    ensures ReadTag(s).None? ==> Parse(fields, m, s) == if s == [] then Some(m) else None
    ensures ReadTag(s).Some? ==>
              var (tag, content) := ReadTag(s).value;
              var i := FindField(fields, tag / 8);
              && s != []
              && Parse(fields, m, s) ==
                 if i < |fields| && Accepts(fields[i], tag) then
                   var v := ReadValue(fields[i], tag, m.values[i], content);
                   if v.None? then None else Parse(fields, SetValue(m, i, v.value.0), v.value.1)
                 else if tag == 0 || tag % 8 == END_GROUP || SkipField(tag, content).None? then None
                 else Parse(fields, m, SkipField(tag, content).value)
  {
    hide ReadValue, SkipField;
  }

  lemma SetTwice(m: Message, i: nat, v: Value, w: Value)
    requires i < |m.values|
    ensures |SetValue(m, i, v).values| == |m.values| && SetValue(SetValue(m, i, v), i, w) == SetValue(m, i, w)
  {
  }

  lemma RepeatedStep(tag: nat, v: Value, s: seq<Byte>)
    requires HasKind(v, Int32sKind) && v.Ints?
    ensures ReadVarint(s).None? ==> ReadRepeated(tag, v, s) == None
    ensures ReadVarint(s).Some? ==>
              var (n, rest) := ReadVarint(s).value;
              var w := AddInt(v, ToInt32(n));
              && HasKind(w, Int32sKind)
              && (|v.elements| < v.capacity ==> w.capacity - |w.elements| == v.capacity - |v.elements| - 1)
              && ReadRepeated(tag, v, s) ==
                 if |w.elements| < w.capacity && ExpectTag(tag, rest) then ReadRepeated(tag, w, rest[|Varint(tag)|..])
                 else Some((w, rest))
  {
    hide ReadVarint, Varint;
  }

  lemma AddIntHas(v: Value, n: nat)
    requires HasKind(v, Int32sKind)
    ensures v.Ints? && HasKind(AddInt(v, ToInt32(n)), Int32sKind)
  {
  }

  lemma AssembleHas(fields: seq<Field>, values: seq<Value>, ms: seq<Message>)
    requires HasOwnKinds(fields, values) && forall m :: m in ms ==> HasFields(m, SubFields(fields))
    ensures HasFields(Assemble(fields, values, ms), fields)
  {
  }
}
