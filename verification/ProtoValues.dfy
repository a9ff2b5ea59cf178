// Messages of the generated classes as values: their fields, serialization, size and merging.

module ProtoValues {
  import opened Arithmetic
  import opened Words
  import opened Wire
  import Chains

  // ---------- descriptions and values ----------

  datatype Kind = Int32Kind | Int64Kind | BoolKind | StringKind | BytesKind | StringsKind | Int32sKind
                | MessagesKind(fields: seq<Field>)

  datatype Field = Field(number: nat, kind: Kind)

  // Integers of a repeated field come with the capacity of its array.
  datatype Value = Int(n: int) | Bool(b: bool) | Text(bytes: seq<Byte>) | Texts(list: seq<seq<Byte>>)
                 | Ints(elements: seq<int>, capacity: nat) | Messages(messages: seq<Message>)

  datatype Message = Message(values: seq<Value>)

  ghost predicate HasKind(v: Value, kind: Kind)
    decreases v
  {
    match kind
    case Int32Kind => v.Int? && IsInt32(v.n)
    case Int64Kind => v.Int? && IsInt64(v.n)
    case BoolKind => v.Bool?
    case StringKind => v.Text?
    case BytesKind => v.Text?
    case StringsKind => v.Texts?
    case Int32sKind => v.Ints? && |v.elements| <= v.capacity && forall n :: n in v.elements ==> IsInt32(n)
    case MessagesKind(fields) => v.Messages? && forall m :: m in v.messages ==> HasFields(m, fields)
  }

  ghost predicate HasFields(m: Message, fields: seq<Field>)
    decreases m
  {
    |m.values| == |fields| && forall i :: 0 <= i < |fields| ==> HasKind(m.values[i], fields[i].kind)
  }

  // Numbers identify fields, and fit in a tag.
  ghost predicate IsSchema(fields: seq<Field>)
    decreases fields
  {
    && (forall i :: 0 <= i < |fields| ==> IsField(fields[i]))
    && forall i, j :: 0 <= i < j < |fields| ==> fields[i].number != fields[j].number
  }

  ghost predicate IsField(f: Field)
    decreases f
  {
    0 < f.number < 0x2000_0000 && (f.kind.MessagesKind? ==> IsSchema(f.kind.fields))
  }

  function Default(kind: Kind): (v: Value)
    ensures HasKind(v, kind)
  {
    match kind
    case Int32Kind => Int(0)
    case Int64Kind => Int(0)
    case BoolKind => Bool(false)
    case StringKind => Text([])
    case BytesKind => Text([])
    case StringsKind => Texts([])
    case Int32sKind => Ints([], 0)
    case MessagesKind(_) => Messages([])
  }

  function Empty(fields: seq<Field>): (m: Message)
    ensures HasFields(m, fields)
  {
    Message(seq(|fields|, i requires 0 <= i < |fields| => Default(fields[i].kind)))
  }

  // ---------- values up to capacity ----------

  // Two values that differ in nothing but the capacity of arrays
  ghost predicate Same(v: Value, w: Value)
    decreases v
  {
    match v
    case Ints(elements, _) => w.Ints? && w.elements == elements
    case Messages(ms) => w.Messages? && |w.messages| == |ms| && forall i :: 0 <= i < |ms| ==> SameMessage(ms[i], w.messages[i])
    case _ => v == w
  }

  ghost predicate SameMessage(m: Message, n: Message)
    decreases m
  {
    |m.values| == |n.values| && forall i :: 0 <= i < |m.values| ==> Same(m.values[i], n.values[i])
  }

  lemma {:induction false} SameReflexive(v: Value)
    ensures Same(v, v)
    decreases v
  {
    if v.Messages? {
      forall i | 0 <= i < |v.messages| ensures SameMessage(v.messages[i], v.messages[i]) { SameMessageReflexive(v.messages[i]); }
    }
  }

  lemma {:induction false} SameMessageReflexive(m: Message)
    ensures SameMessage(m, m)
    decreases m
  {
    forall i | 0 <= i < |m.values| ensures Same(m.values[i], m.values[i]) { SameReflexive(m.values[i]); }
  }

  lemma {:induction false} SameTransitive(u: Value, v: Value, w: Value)
    requires Same(u, v) && Same(v, w)
    ensures Same(u, w)
    decreases u
  {
    if u.Messages? {
      forall i | 0 <= i < |u.messages| ensures SameMessage(u.messages[i], w.messages[i]) {
        SameMessageTransitive(u.messages[i], v.messages[i], w.messages[i]);
      }
    }
  }

  lemma {:induction false} SameMessageTransitive(l: Message, m: Message, n: Message)
    requires SameMessage(l, m) && SameMessage(m, n)
    ensures SameMessage(l, n)
    decreases l
  {
    forall i | 0 <= i < |l.values| ensures Same(l.values[i], n.values[i]) {
      SameTransitive(l.values[i], m.values[i], n.values[i]);
    }
  }

  // ---------- arrays of integers ----------

  // The capacity after making room for a number of elements
  function Reserve(capacity: nat, size: nat): (c: nat)
    ensures c >= size && c >= capacity
  {
    if capacity >= size then capacity else Max(4, Max(2 * capacity, size))
  }

  function AddInt(v: Value, n: int): (w: Value)
    requires v.Ints?
    ensures w.Ints?
  {
    Ints(v.elements + [n], if |v.elements| == v.capacity then Reserve(v.capacity, v.capacity + 1) else v.capacity)
  }

  // ---------- serialization ----------

  function WireTypeOf(kind: Kind): nat {
    if kind.Int32Kind? || kind.Int64Kind? || kind.BoolKind? then VARINT else LENGTH_DELIMITED
  }

  function TagOf(f: Field): nat { MakeTag(f.number, WireTypeOf(f.kind)) }

  // A field with an integer, and one with bytes
  function IntRecord(f: Field, n: nat): seq<Byte> { Varint(TagOf(f)) + Varint(n) }

  function BytesRecord(f: Field, payload: seq<Byte>): seq<Byte> { Varint(TagOf(f)) + Delimited(payload) }

  function BytesRecords(f: Field, payloads: seq<seq<Byte>>): (rs: seq<seq<Byte>>)
    ensures |rs| == |payloads| && forall i :: 0 <= i < |rs| ==> rs[i] == BytesRecord(f, payloads[i])
  {
    if payloads == [] then [] else [BytesRecord(f, payloads[0])] + BytesRecords(f, payloads[1..])
  }

  function Packed(elements: seq<int>): seq<Byte>
    requires forall n :: n in elements ==> IsInt32(n)
  {
    if elements == [] then []
    else
      assert elements[0] in elements && IsInt32(elements[0]);
      Varint(Unsigned(elements[0])) + Packed(elements[1..])
  }

  // The varint of a field with an integer, zero for a default value
  function IntOf(v: Value): (n: nat)
    requires v.Bool? || (v.Int? && IsInt64(v.n))
    ensures n < WORD64
  {
    if v.Bool? then if v.b then 1 else 0 else Unsigned(v.n)
  }

  // The contents of the length-delimited fields
  ghost function Payloads(kind: Kind, v: Value): seq<seq<Byte>>
    requires HasKind(v, kind) && WireTypeOf(kind) == LENGTH_DELIMITED
    decreases v, 1
  {
    match kind
    case StringKind => if v.bytes == [] then [] else [v.bytes]
    case BytesKind => if v.bytes == [] then [] else [v.bytes]
    case StringsKind => v.list
    case Int32sKind => if v.elements == [] then [] else [Packed(v.elements)]
    case MessagesKind(fields) => SerializeAll(fields, v.messages)
  }

  // What is written for one field, record by record; nothing for a default value
  ghost function Records(f: Field, v: Value): seq<seq<Byte>>
    requires HasKind(v, f.kind)
    decreases v, 2
  {
    if WireTypeOf(f.kind) == VARINT then if IntOf(v) == 0 then [] else [IntRecord(f, IntOf(v))]
    else BytesRecords(f, Payloads(f.kind, v))
  }

  ghost function SerializeAll(fields: seq<Field>, ms: seq<Message>): (ss: seq<seq<Byte>>)
    requires forall m :: m in ms ==> HasFields(m, fields)
    ensures |ss| == |ms|
    decreases ms, 0
  {
    if ms == [] then [] else [Serialize(fields, ms[0])] + SerializeAll(fields, ms[1..])
  }

  ghost function AllRecords(fields: seq<Field>, values: seq<Value>): seq<seq<Byte>>
    requires |values| == |fields| && forall i :: 0 <= i < |fields| ==> HasKind(values[i], fields[i].kind)
    decreases values, 2
  {
    if fields == [] then [] else Records(fields[0], values[0]) + AllRecords(fields[1..], values[1..])
  }

  ghost function Serialize(fields: seq<Field>, m: Message): seq<Byte>
    requires HasFields(m, fields)
    decreases m
  {
    Chains.Flatten(AllRecords(fields, m.values))
  }

  // ---------- merging ----------

  function MergeValue(kind: Kind, a: Value, b: Value): (v: Value)
    requires HasKind(a, kind) && HasKind(b, kind)
    ensures HasKind(v, kind)
  {
    match kind
    case Int32Kind => if b.n != 0 then b else a
    case Int64Kind => if b.n != 0 then b else a
    case BoolKind => if b.b then b else a
    case StringKind => if b.bytes != [] then b else a
    case BytesKind => if b.bytes != [] then b else a
    case StringsKind => Texts(a.list + b.list)
    case Int32sKind =>
      if b.elements == [] then a else Ints(a.elements + b.elements, Reserve(a.capacity, |a.elements| + |b.elements|))
    case MessagesKind(fields) => Messages(a.messages + b.messages)
  }

  function Merge(fields: seq<Field>, a: Message, b: Message): (m: Message)
    requires HasFields(a, fields) && HasFields(b, fields)
    ensures HasFields(m, fields)
  {
    Message(seq(|fields|, i requires 0 <= i < |fields| => MergeValue(fields[i].kind, a.values[i], b.values[i])))
  }

  // Merging is associative, and the cleared message is its identity.
  lemma MergeMonoid(fields: seq<Field>, a: Message, b: Message, c: Message)
    requires HasFields(a, fields) && HasFields(b, fields) && HasFields(c, fields)
    ensures SameMessage(Merge(fields, Merge(fields, a, b), c), Merge(fields, a, Merge(fields, b, c)))
    ensures SameMessage(Merge(fields, Empty(fields), a), a) && Merge(fields, a, Empty(fields)) == a
  {
    forall i | 0 <= i < |fields|
      ensures Same(Merge(fields, Merge(fields, a, b), c).values[i], Merge(fields, a, Merge(fields, b, c)).values[i])
    {
      MergeValueAssociative(fields[i].kind, a.values[i], b.values[i], c.values[i]);
    }
    forall i | 0 <= i < |fields|
      ensures Same(Merge(fields, Empty(fields), a).values[i], a.values[i]) && Merge(fields, a, Empty(fields)).values[i] == a.values[i]
    {
      MergeValueDefault(fields[i].kind, a.values[i]);
    }
  }

  lemma MergeValueAssociative(kind: Kind, a: Value, b: Value, c: Value)
    requires HasKind(a, kind) && HasKind(b, kind) && HasKind(c, kind)
    ensures Same(MergeValue(kind, MergeValue(kind, a, b), c), MergeValue(kind, a, MergeValue(kind, b, c)))
  {
    if kind.Int32sKind? {
      MergeIntsAssociative(kind, a, b, c);
    } else {
      MergeOthersAssociative(kind, a, b, c);
      SameReflexive(MergeValue(kind, MergeValue(kind, a, b), c));
    }
  }

  lemma MergeIntsAssociative(kind: Kind, a: Value, b: Value, c: Value)
    requires kind.Int32sKind? && HasKind(a, kind) && HasKind(b, kind) && HasKind(c, kind)
    requires a.Ints? && b.Ints? && c.Ints?
    ensures Same(MergeValue(kind, MergeValue(kind, a, b), c), MergeValue(kind, a, MergeValue(kind, b, c)))
  {
    hide HasKind, MergeValue, Same;
    var ab, bc := MergeValue(kind, a, b), MergeValue(kind, b, c);
    MergeInts(kind, a, b);
    MergeInts(kind, b, c);
    MergeInts(kind, ab, c);
    MergeInts(kind, a, bc);
    assert a.elements + b.elements + c.elements == a.elements + (b.elements + c.elements);
    SameInts(MergeValue(kind, ab, c), MergeValue(kind, a, bc));
  }

  lemma SameInts(v: Value, w: Value)
    requires v.Ints? && w.Ints? && v.elements == w.elements
    ensures Same(v, w)
  {
  }

  lemma MergeInts(kind: Kind, a: Value, b: Value)
    requires kind.Int32sKind? && HasKind(a, kind) && HasKind(b, kind) && a.Ints? && b.Ints?
    ensures MergeValue(kind, a, b).Ints? && MergeValue(kind, a, b).elements == a.elements + b.elements
  {
  }

  lemma MergeOthersAssociative(kind: Kind, a: Value, b: Value, c: Value)
    requires !kind.Int32sKind? && HasKind(a, kind) && HasKind(b, kind) && HasKind(c, kind)
    ensures MergeValue(kind, MergeValue(kind, a, b), c) == MergeValue(kind, a, MergeValue(kind, b, c))
  {
    match kind
    case StringsKind => assert a.list + b.list + c.list == a.list + (b.list + c.list);
    case MessagesKind(_) => assert a.messages + b.messages + c.messages == a.messages + (b.messages + c.messages);
    case _ =>
  }

  lemma MergeValueDefault(kind: Kind, a: Value)
    requires HasKind(a, kind)
    ensures Same(MergeValue(kind, Default(kind), a), a) && MergeValue(kind, a, Default(kind)) == a
  {
    hide Reserve;
    match kind
    case StringsKind => assert [] + a.list == a.list && a.list + [] == a.list;
    case Int32sKind => assert [] + a.elements == a.elements;
    case MessagesKind(_) =>
      assert [] + a.messages == a.messages && a.messages + [] == a.messages;
      SameReflexive(a);
    case _ => SameReflexive(a);
  }

  // ---------- sizes ----------

  // The size of a tag is a constant of the generated code.
  function TagSize(f: Field): nat { VarintSize(TagOf(f)) }

  function DelimitedSize(n: nat): nat { n + VarintSize(n) }

  function PackedSize(elements: seq<int>): nat {
    if elements == [] then 0 else Int32Size(elements[0]) + PackedSize(elements[1..])
  }

  lemma {:induction false} PackedSizeIs(elements: seq<int>)
    requires forall n :: n in elements ==> IsInt32(n)
    ensures PackedSize(elements) == |Packed(elements)|
  {
    if elements != [] {
      Int32SizeIs(elements[0]);
      PackedSizeIs(elements[1..]);
    }
  }

  lemma DelimitedSizeIs(f: Field, payload: seq<Byte>)
    ensures |BytesRecord(f, payload)| == TagSize(f) + DelimitedSize(|payload|)
  {
    VarintSizeIs(TagOf(f));
    VarintSizeIs(|payload|);
  }

  predicate IsSingle(kind: Kind) { !kind.StringsKind? && !kind.Int32sKind? && !kind.MessagesKind? }

  // What a field that is not repeated adds to the size
  function SingleSize(f: Field, v: Value): nat
    requires HasKind(v, f.kind) && IsSingle(f.kind)
  {
    if f.kind.Int32Kind? then if v.n != 0 then TagSize(f) + Int32Size(v.n) else 0
    else if f.kind.Int64Kind? then if v.n != 0 then TagSize(f) + VarintSize(Unsigned(v.n)) else 0
    else if f.kind.BoolKind? then if v.b then TagSize(f) + 1 else 0
    else if |v.bytes| > 0 then TagSize(f) + DelimitedSize(|v.bytes|) else 0
  }

  lemma SingleBytes(f: Field, v: Value)
    requires HasKind(v, f.kind) && IsSingle(f.kind)
    ensures Chains.Flatten(Records(f, v)) ==
            if WireTypeOf(f.kind) == VARINT then if IntOf(v) == 0 then [] else Varint(TagOf(f)) + Varint(IntOf(v))
            else if v.bytes == [] then [] else Varint(TagOf(f)) + Varint(|v.bytes|) + v.bytes
  {
    hide Varint;
    if WireTypeOf(f.kind) == VARINT {
      if IntOf(v) != 0 {
        assert Records(f, v) == [IntRecord(f, IntOf(v))];
        OneRecord(IntRecord(f, IntOf(v)));
      }
    } else if v.bytes != [] {
      assert Payloads(f.kind, v) == [v.bytes] && [v.bytes][1..] == [];
      assert Records(f, v) == [BytesRecord(f, v.bytes)];
      OneRecord(BytesRecord(f, v.bytes));
      assert BytesRecord(f, v.bytes) == Varint(TagOf(f)) + Varint(|v.bytes|) + v.bytes;
    }
  }

  lemma PackedBytes(f: Field, v: Value)
    requires f.kind.Int32sKind? && HasKind(v, f.kind)
    ensures Chains.Flatten(Records(f, v)) ==
            if v.elements == [] then [] else Varint(TagOf(f)) + Varint(PackedSize(v.elements)) + Packed(v.elements)
  {
    hide Varint;
    PackedSizeIs(v.elements);
    if v.elements != [] {
      var payload := Packed(v.elements);
      var payloads := [payload];
      assert payloads[1..] == [];
      assert Records(f, v) == [BytesRecord(f, payload)];
      OneRecord(BytesRecord(f, payload));
      assert BytesRecord(f, payload) == Varint(TagOf(f)) + Varint(|payload|) + payload;
    }
  }

  lemma SingleSizeIs(f: Field, v: Value)
    requires HasKind(v, f.kind) && IsSingle(f.kind)
    ensures SingleSize(f, v) == |Chains.Flatten(Records(f, v))|
  {
    hide Varint, VarintSize, BytesRecord, TagSize, DelimitedSize;
    if WireTypeOf(f.kind) == VARINT {
      var n := IntOf(v);
      if n != 0 {
        assert Records(f, v) == [IntRecord(f, n)];
        OneRecord(IntRecord(f, n));
        TagSizeIs(f);
        VarintSizeIs(n);
        if f.kind.Int32Kind? { Int32SizeIs(v.n); }
        OneByteSize();
      }
    } else if v.bytes != [] {
      assert Payloads(f.kind, v) == [v.bytes] && [v.bytes][1..] == [];
      assert Records(f, v) == [BytesRecord(f, v.bytes)];
      OneRecord(BytesRecord(f, v.bytes));
      DelimitedSizeIs(f, v.bytes);
    }
  }

  lemma PackedRecordSize(f: Field, v: Value)
    requires f.kind.Int32sKind? && HasKind(v, f.kind)
    ensures var n := PackedSize(v.elements);
            |Chains.Flatten(Records(f, v))| == if n > 0 then TagSize(f) + VarintSize(n) + n else 0
  {
    hide BytesRecord, TagSize, DelimitedSize;
    PackedSizeIs(v.elements);
    if v.elements != [] {
      var payload := Packed(v.elements);
      var payloads := [payload];
      assert payload != [] && payloads[1..] == [];
      assert Records(f, v) == [BytesRecord(f, payload)];
      OneRecord(BytesRecord(f, payload));
      DelimitedSizeIs(f, payload);
      assert DelimitedSize(|payload|) == |payload| + VarintSize(|payload|) by { DelimitedSum(|payload|); }
    }
  }

  lemma DelimitedSum(n: nat)
    ensures DelimitedSize(n) == n + VarintSize(n)
  {
  }

  lemma TagSizeIs(f: Field)
    ensures TagSize(f) == |Varint(TagOf(f))|
  {
    VarintSizeIs(TagOf(f));
  }

  lemma OneByteSize()
    ensures VarintSize(1) == 1
  {
  }

  lemma OneRecord(r: seq<Byte>)
    ensures Chains.Flatten([r]) == r
  {
    assert [r][1..] == [] && r + [] == r;
  }
}
