// The parser of the generated classes: a loop over the fields of the input.

module ProtoParse {
  import opened Words
  import opened Results
  import opened Wire
  import opened Utf8
  import opened ProtoValues

  // ---------- the value of one field ----------

  // The tag of a repeated integer that is not packed
  function UnpackedTag(f: Field): nat { MakeTag(f.number, VARINT) }

  // The tags the parser reads a field from; others are skipped like those of unknown fields.
  predicate Accepts(f: Field, tag: nat) { tag == TagOf(f) || (f.kind.Int32sKind? && tag == UnpackedTag(f)) }

  // Integers up to the end of a packed record
  function ReadPacked(v: Value, payload: seq<Byte>): (r: Option<Value>)
    requires HasKind(v, Int32sKind)
    ensures r.Some? ==> HasKind(r.value, Int32sKind)
    decreases |payload|
  {
    if payload == [] then Some(v)
    else
      match ReadVarint(payload)
      case None => None
      case Some((n, rest)) => ReadPacked(AddInt(v, ToInt32(n)), rest)
  }

  // An integer outside a packed record.  As long as the array has room, the next field is taken
  // for another one if it has the tag that the generated code passes, which is that of a packed
  // record.
  function ReadRepeated(tag: nat, v: Value, s: seq<Byte>): (r: Option<(Value, seq<Byte>)>)
    requires HasKind(v, Int32sKind)
    ensures r.Some? ==> HasKind(r.value.0, Int32sKind) && |r.value.1| < |s|
    decreases |s|
  {
    match ReadVarint(s)
    case None => None
    case Some((n, rest)) =>
      var w := AddInt(v, ToInt32(n));
      if |w.elements| < w.capacity && ExpectTag(tag, rest) then ReadRepeated(tag, w, rest[|Varint(tag)|..])
      else Some((w, rest))
  }

  function ReadValue(f: Field, tag: nat, v: Value, s: seq<Byte>): (r: Option<(Value, seq<Byte>)>)
    requires HasKind(v, f.kind) && Accepts(f, tag)
    ensures r.Some? ==> HasKind(r.value.0, f.kind) && |r.value.1| <= |s|
    decreases |s|, 3
  {
    if f.kind.Int32sKind? && tag == UnpackedTag(f) then ReadRepeated(TagOf(f), v, s)
    else if WireTypeOf(f.kind) == VARINT then
      match ReadVarint(s)
      case None => None
      case Some((n, rest)) => Some((ReadInt(f.kind, n), rest))
    else
      match ReadContent(f.kind, s)
      case None => None
      case Some((payload, rest)) =>
        match ReadBytes(f.kind, v, payload)
        case None => None
        case Some(w) => Some((w, rest))
  }

  // The bytes of a record, whose length is read in one of three ways
  function ReadContent(kind: Kind, s: seq<Byte>): (r: Option<(seq<Byte>, seq<Byte>)>)
    ensures r.Some? ==> |r.value.0| + |r.value.1| <= |s|
  {
    match kind
    case Int32sKind => ReadPackedContent(s)
    case MessagesKind(_) => Some(ReadMessageContent(s))
    case _ => ReadDelimited(s)
  }

  function ReadInt(kind: Kind, n: nat): (v: Value)
    requires WireTypeOf(kind) == VARINT && n < WORD64
    ensures HasKind(v, kind)
  {
    if kind.Int32Kind? then Int(ToInt32(n)) else if kind.Int64Kind? then Int(ToInt64(n)) else Bool(n != 0)
  }

  // A string must be UTF-8; a sub-message is read into a new object.
  function ReadBytes(kind: Kind, v: Value, payload: seq<Byte>): (r: Option<Value>)
    requires HasKind(v, kind) && WireTypeOf(kind) == LENGTH_DELIMITED
    ensures r.Some? ==> HasKind(r.value, kind)
    decreases |payload|, 2
  {
    match kind
    case StringKind => if IsUtf8(payload) then Some(Text(payload)) else None
    case BytesKind => Some(Text(payload))
    case StringsKind => if IsUtf8(payload) then Some(Texts(v.list + [payload])) else None
    case Int32sKind => ReadPacked(v, payload)
    case MessagesKind(fields) =>
      match Parse(fields, Empty(fields), payload)
      case None => None
      case Some(m) => Some(Messages(v.messages + [m]))
  }

  // ---------- messages ----------

  // The place of the field with the given number; the end if there is none
  function FindField(fields: seq<Field>, number: nat): (i: nat)
    ensures i <= |fields| && (i < |fields| ==> fields[i].number == number) && forall j :: 0 <= j < i ==> fields[j].number != number
  {
    if fields == [] || fields[0].number == number then 0 else 1 + FindField(fields[1..], number)
  }

  function SetValue(m: Message, i: nat, v: Value): Message
    requires i < |m.values|
  {
    Message(m.values[i := v])
  }

  // One field of the input, known or not.  A zero tag, or one that ends a group, makes the program
  // stop short of the end of the message, which its callers take for a failure.
  function Step(fields: seq<Field>, m: Message, s: seq<Byte>): (r: Option<(Message, seq<Byte>)>)
    requires HasFields(m, fields)
    ensures r.Some? ==> HasFields(r.value.0, fields) && |r.value.1| < |s|
    decreases |s|, 0
  {
    match ReadTag(s)
    case None => None
    case Some((tag, content)) =>
      var i := FindField(fields, tag / 8);
      if i < |fields| && Accepts(fields[i], tag) then
        match ReadValue(fields[i], tag, m.values[i], content)
        case None => None
        case Some((v, rest)) => Some((SetValue(m, i, v), rest))
      else if tag == 0 || tag % 8 == END_GROUP then None
      else
        match SkipField(tag, content)
        case None => None
        case Some(rest) => Some((m, rest))
  }

  // The whole input
  function Parse(fields: seq<Field>, m: Message, s: seq<Byte>): (r: Option<Message>)
    requires HasFields(m, fields)
    ensures r.Some? ==> HasFields(r.value, fields)
    decreases |s|, 1
  {
    if s == [] then Some(m)
    else
      match Step(fields, m, s)
      case None => None
      case Some((n, rest)) => Parse(fields, n, rest)
  }
}
