// The six classes field by field: which values they hold, the bytes that are written for them, and
// when they are read back.

module ProtoClasses {
  import opened Words
  import opened Wire
  import opened Utf8
  import opened ProtoValues
  import opened ProtoParse
  import opened ProtoRoundTrip
  import opened ProtoSchemas
  import opened Chains

  // ---------- what is written for one field, with the bytes of its tag ----------

  function IntText(tag: seq<Byte>, n: int): seq<Byte>
    requires IsInt64(n)
  {
    if n == 0 then [] else tag + Varint(if n < 0 then n + 0x1_0000_0000_0000_0000 else n)
  }

  function BoolText(tag: seq<Byte>, b: bool): seq<Byte> { if b then tag + [1] else [] }

  function BytesText(tag: seq<Byte>, s: seq<Byte>): seq<Byte> { if s == [] then [] else tag + Varint(|s|) + s }

  function ListText(tag: seq<Byte>, list: seq<seq<Byte>>): seq<Byte> {
    if list == [] then [] else tag + Varint(|list[0]|) + list[0] + ListText(tag, list[1..])
  }

  function IntsText(tag: seq<Byte>, list: seq<int>): seq<Byte>
    requires forall n :: n in list ==> IsInt32(n)
  {
    BytesText(tag, Packed(list))
  }

  ghost function Written(f: Field, v: Value): seq<Byte>
    requires HasKind(v, f.kind)
  {
    Flatten(Records(f, v))
  }

  lemma IntWritten(f: Field, n: int)
    requires (f.kind.Int32Kind? && IsInt32(n)) || (f.kind.Int64Kind? && IsInt64(n))
    ensures HasKind(Int(n), f.kind) && Written(f, Int(n)) == IntText(Varint(8 * f.number), n)
  {
    hide Varint;
    OneFlat(Varint(8 * f.number) + Varint(Unsigned(n)));
  }

  lemma BoolWritten(f: Field, b: bool)
    requires f.kind.BoolKind?
    ensures HasKind(Bool(b), f.kind) && Written(f, Bool(b)) == BoolText(Varint(8 * f.number), b)
  {
    OneFlat(Varint(8 * f.number) + Varint(1));
  }

  lemma OneFlat(s: seq<Byte>)
    ensures Flatten([s]) == s
  {
    assert [s][1..] == [];
  }

  lemma {:induction false} ListWritten(f: Field, list: seq<seq<Byte>>)
    requires WireTypeOf(f.kind) == LENGTH_DELIMITED
    ensures Flatten(BytesRecords(f, list)) == ListText(Varint(8 * f.number + 2), list)
  {
    hide Varint;
    if list != [] {
      var rs := BytesRecords(f, list);
      ListWritten(f, list[1..]);
      assert rs[1..] == BytesRecords(f, list[1..]);
      assert BytesRecord(f, list[0]) == Varint(8 * f.number + 2) + Varint(|list[0]|) + list[0];
    }
  }

  lemma OneListed(tag: seq<Byte>, s: seq<Byte>)
    ensures ListText(tag, [s]) == tag + Varint(|s|) + s && ListText(tag, []) == []
  {
    hide Varint;
    assert [s][1..] == [];
    assert tag + Varint(|s|) + s + [] == tag + Varint(|s|) + s;
  }

  lemma BytesWritten(f: Field, s: seq<Byte>)
    requires f.kind.StringKind? || f.kind.BytesKind?
    ensures HasKind(Text(s), f.kind) && Written(f, Text(s)) == BytesText(Varint(8 * f.number + 2), s)
  {
    hide Varint;
    ListWritten(f, Payloads(f.kind, Text(s)));
    OneListed(Varint(8 * f.number + 2), s);
  }

  lemma StringsWritten(f: Field, list: seq<seq<Byte>>)
    requires f.kind.StringsKind?
    ensures HasKind(Texts(list), f.kind) && Written(f, Texts(list)) == ListText(Varint(8 * f.number + 2), list)
  {
    hide Varint;
    assert Records(f, Texts(list)) == BytesRecords(f, list);
    ListWritten(f, list);
  }

  lemma IntsWritten(f: Field, list: seq<int>, capacity: nat)
    requires f.kind.Int32sKind? && |list| <= capacity && forall n :: n in list ==> IsInt32(n)
    ensures HasKind(Ints(list, capacity), f.kind) && Written(f, Ints(list, capacity)) == IntsText(Varint(8 * f.number + 2), list)
  {
    hide Varint;
    ListWritten(f, Payloads(f.kind, Ints(list, capacity)));
    OneListed(Varint(8 * f.number + 2), Packed(list));
    if list != [] { assert Packed(list) != [] by { SomePacked(list); } }
  }

  lemma SomePacked(list: seq<int>)
    requires list != [] && forall n :: n in list ==> IsInt32(n)
    ensures Packed(list) != []
  {
  }

  lemma MessagesWritten(f: Field, ms: seq<Message>)
    requires f.kind.MessagesKind? && forall m :: m in ms ==> HasFields(m, f.kind.fields)
    ensures HasKind(Messages(ms), f.kind)
    ensures Written(f, Messages(ms)) == ListText(Varint(8 * f.number + 2), SerializeAll(f.kind.fields, ms))
  {
    hide Varint;
    assert Records(f, Messages(ms)) == BytesRecords(f, SerializeAll(f.kind.fields, ms));
    ListWritten(f, SerializeAll(f.kind.fields, ms));
  }

  // ---------- a message is its fields one after the other ----------

  ghost function Pieces(fields: seq<Field>, values: seq<Value>): (ps: seq<seq<Byte>>)
    requires |values| == |fields| && forall i :: 0 <= i < |fields| ==> HasKind(values[i], fields[i].kind)
    ensures |ps| == |fields| && forall i :: 0 <= i < |fields| ==> ps[i] == Written(fields[i], values[i])
  {
    seq(|fields|, i requires 0 <= i < |fields| => Written(fields[i], values[i]))
  }

  lemma {:induction false} PiecesWritten(fields: seq<Field>, values: seq<Value>)
    requires |values| == |fields| && forall i :: 0 <= i < |fields| ==> HasKind(values[i], fields[i].kind)
    ensures Flatten(AllRecords(fields, values)) == Flatten(Pieces(fields, values))
    decreases |fields|
  {
    hide HasKind, Records;
    if fields != [] {
      var ps := Pieces(fields, values);
      PiecesWritten(fields[1..], values[1..]);
      FlattenAppend(Records(fields[0], values[0]), AllRecords(fields[1..], values[1..]));
      assert ps[1..] == Pieces(fields[1..], values[1..]);
    }
  }

  lemma WrittenAs(fields: seq<Field>, m: Message, ps: seq<seq<Byte>>)
    requires HasFields(m, fields) && |ps| == |fields|
    requires forall i :: 0 <= i < |fields| ==> ps[i] == Written(fields[i], m.values[i])
    ensures Serialize(fields, m) == Flatten(ps)
  {
    hide HasKind, Written;
    PiecesWritten(fields, m.values);
    assert ps == Pieces(fields, m.values);
  }

  lemma {:induction false} SerializedAll(fields: seq<Field>, ms: seq<Message>)
    requires forall m :: m in ms ==> HasFields(m, fields)
    ensures |SerializeAll(fields, ms)| == |ms|
    ensures forall i :: 0 <= i < |ms| ==> ms[i] in ms && SerializeAll(fields, ms)[i] == Serialize(fields, ms[i])
  {
    hide HasFields, Serialize;
    if ms != [] {
      SerializedAll(fields, ms[1..]);
      forall i | 0 < i < |ms| ensures SerializeAll(fields, ms)[i] == Serialize(fields, ms[i]) { assert ms[i] == ms[1..][i - 1]; }
    }
  }

  lemma TagBytes()
    ensures Varint(8) == [8] && Varint(10) == [10] && Varint(16) == [16] && Varint(18) == [18] && Varint(24) == [24] && Varint(26) == [26] && Varint(32) == [32] && Varint(34) == [34] && Varint(40) == [40] && Varint(42) == [42]
    ensures Varint(50) == [50] && Varint(58) == [58] && Varint(64) == [64] && Varint(72) == [72] && Varint(82) == [82] && Varint(88) == [88] && Varint(98) == [98] && Varint(104) == [104] && Varint(114) == [114] && Varint(120) == [120]
    ensures Varint(128) == [128, 1] && Varint(136) == [136, 1] && Varint(146) == [146, 1] && Varint(154) == [154, 1] && Varint(162) == [162, 1]
  {
  }

  // ---------- the classes ----------

  // Envelope: a value for each field
  function EnvelopeOf(id: int, verb: seq<Byte>, content: seq<Byte>, returnCode: int, returnMsg: seq<Byte>): (m: Message)
    requires IsInt64(id) && IsInt32(returnCode)
    ensures HasFields(m, MESSAGE)
  {
    Message([Int(id), Text(verb), Text(content), Int(returnCode), Text(returnMsg)])
  }

  // A message with these values; arrays may have any capacity.
  ghost predicate EnvelopeIs(id: int, verb: seq<Byte>, content: seq<Byte>, returnCode: int, returnMsg: seq<Byte>, n: Message) {
    && |n.values| == 5
    && n.values[0] == Int(id)
    && n.values[1] == Text(verb)
    && n.values[2] == Text(content)
    && n.values[3] == Int(returnCode)
    && n.values[4] == Text(returnMsg)
  }

  // The strings among them are UTF-8.
  ghost predicate EnvelopeIsText(id: int, verb: seq<Byte>, content: seq<Byte>, returnCode: int, returnMsg: seq<Byte>)
    requires IsInt64(id) && IsInt32(returnCode)
  {
    IsUtf8(verb) && IsUtf8(returnMsg)
  }

  // The bytes that are written
  lemma EnvelopeWritten(id: int, verb: seq<Byte>, content: seq<Byte>, returnCode: int, returnMsg: seq<Byte>)
    requires IsInt64(id) && IsInt32(returnCode)
    ensures Serialize(MESSAGE, EnvelopeOf(id, verb, content, returnCode, returnMsg)) ==
            Flatten([IntText([8], id), BytesText([18], verb), BytesText([26], content), IntText([32], returnCode),
                     BytesText([42], returnMsg)])
  {
    hide HasFields, Serialize, Written, SerializeAll, Varint, IntText, BoolText, BytesText, ListText, IntsText;
    TagBytes();
    IntWritten(MESSAGE[0], id);
    BytesWritten(MESSAGE[1], verb);
    BytesWritten(MESSAGE[2], content);
    IntWritten(MESSAGE[3], returnCode);
    BytesWritten(MESSAGE[4], returnMsg);
    WrittenAs(MESSAGE, EnvelopeOf(id, verb, content, returnCode, returnMsg),
      [IntText([8], id), BytesText([18], verb), BytesText([26], content), IntText([32], returnCode),
       BytesText([42], returnMsg)]);
  }

  // They are read back exactly if the strings are UTF-8.
  lemma EnvelopeBack(id: int, verb: seq<Byte>, content: seq<Byte>, returnCode: int, returnMsg: seq<Byte>, m: Message)
    requires IsInt64(id) && IsInt32(returnCode)
    requires m == EnvelopeOf(id, verb, content, returnCode, returnMsg) && |Serialize(MESSAGE, m)| <= INT_MAX
    ensures var r := Parse(MESSAGE, Empty(MESSAGE), Serialize(MESSAGE, m));
            && (r.Some? <==> EnvelopeIsText(id, verb, content, returnCode, returnMsg))
            && (r.Some? ==> EnvelopeIs(id, verb, content, returnCode, returnMsg, r.value))
  {
    hide IsSchema, HasFields, Serialize, Parse, Empty, IsUtf8, SameMessage, AllText, EnvelopeIs, EnvelopeIsText;
    var r := Parse(MESSAGE, Empty(MESSAGE), Serialize(MESSAGE, m));
    MessageBack(MESSAGE, m) by { AllSchemas(); }
    EnvelopeText(id, verb, content, returnCode, returnMsg, m);
    if r.Some? { EnvelopeSame(id, verb, content, returnCode, returnMsg, r.value, m); }
  }

  lemma EnvelopeText(id: int, verb: seq<Byte>, content: seq<Byte>, returnCode: int, returnMsg: seq<Byte>, m: Message)
    requires IsInt64(id) && IsInt32(returnCode)
    requires m == EnvelopeOf(id, verb, content, returnCode, returnMsg)
    ensures AllText(MESSAGE, m) <==> EnvelopeIsText(id, verb, content, returnCode, returnMsg)
  {
    hide IsUtf8, HasFields, HasKind, AllText;
    TextFields(MESSAGE, m);
    assert IsText(MESSAGE[0].kind, m.values[0]) <==> true;
    assert IsText(MESSAGE[1].kind, m.values[1]) <==> IsUtf8(verb);
    assert IsText(MESSAGE[2].kind, m.values[2]) <==> true;
    assert IsText(MESSAGE[3].kind, m.values[3]) <==> true;
    assert IsText(MESSAGE[4].kind, m.values[4]) <==> IsUtf8(returnMsg);
  }

  lemma EnvelopeSame(id: int, verb: seq<Byte>, content: seq<Byte>, returnCode: int, returnMsg: seq<Byte>, n: Message, m: Message)
    requires IsInt64(id) && IsInt32(returnCode)
    requires m == EnvelopeOf(id, verb, content, returnCode, returnMsg) && SameMessage(n, m)
    ensures EnvelopeIs(id, verb, content, returnCode, returnMsg, n)
  {
    hide SameMessage;
    SameFields(n, m);
  }

  // Ad: a value for each field
  function AdOf(id: int, name: seq<Byte>, filename: seq<Byte>, advertiser: seq<Byte>, kind: int, url: seq<Byte>, image: seq<Byte>,
    width: int, height: int, format: seq<Byte>, size: int, md5: seq<Byte>, duration: int, download: seq<seq<Byte>>,
    minAge: int, maxAge: int, sex: int, visitStatCode: seq<seq<Byte>>, pausePopAdIds: seq<int>,
    unlockPopAdIds: seq<int>): (m: Message)
    requires IsInt32(id) && IsInt32(kind) && IsInt32(width) && IsInt32(height) && IsInt32(size) && IsInt32(duration)
      && IsInt32(minAge) && IsInt32(maxAge) && IsInt32(sex) && (forall n :: n in pausePopAdIds ==> IsInt32(n))
      && (forall n :: n in unlockPopAdIds ==> IsInt32(n))
    ensures HasFields(m, AD)
  {
    Message([Int(id), Text(name), Text(filename), Text(advertiser), Int(kind), Text(url), Text(image), Int(width),
      Int(height), Text(format), Int(size), Text(md5), Int(duration), Texts(download), Int(minAge), Int(maxAge),
      Int(sex), Texts(visitStatCode), Ints(pausePopAdIds, |pausePopAdIds|), Ints(unlockPopAdIds, |unlockPopAdIds|)])
  }

  // A message with these values; arrays may have any capacity.
  ghost predicate AdIs(id: int, name: seq<Byte>, filename: seq<Byte>, advertiser: seq<Byte>, kind: int, url: seq<Byte>, image: seq<Byte>,
    width: int, height: int, format: seq<Byte>, size: int, md5: seq<Byte>, duration: int, download: seq<seq<Byte>>,
    minAge: int, maxAge: int, sex: int, visitStatCode: seq<seq<Byte>>, pausePopAdIds: seq<int>,
    unlockPopAdIds: seq<int>, n: Message) {
    && |n.values| == 20
    && n.values[0] == Int(id)
    && n.values[1] == Text(name)
    && n.values[2] == Text(filename)
    && n.values[3] == Text(advertiser)
    && n.values[4] == Int(kind)
    && n.values[5] == Text(url)
    && n.values[6] == Text(image)
    && n.values[7] == Int(width)
    && n.values[8] == Int(height)
    && n.values[9] == Text(format)
    && n.values[10] == Int(size)
    && n.values[11] == Text(md5)
    && n.values[12] == Int(duration)
    && n.values[13] == Texts(download)
    && n.values[14] == Int(minAge)
    && n.values[15] == Int(maxAge)
    && n.values[16] == Int(sex)
    && n.values[17] == Texts(visitStatCode)
    && n.values[18].Ints? && n.values[18].elements == pausePopAdIds
    && n.values[19].Ints? && n.values[19].elements == unlockPopAdIds
  }

  // The strings among them are UTF-8.
  ghost predicate AdIsText(id: int, name: seq<Byte>, filename: seq<Byte>, advertiser: seq<Byte>, kind: int, url: seq<Byte>, image: seq<Byte>,
    width: int, height: int, format: seq<Byte>, size: int, md5: seq<Byte>, duration: int, download: seq<seq<Byte>>,
    minAge: int, maxAge: int, sex: int, visitStatCode: seq<seq<Byte>>, pausePopAdIds: seq<int>,
    unlockPopAdIds: seq<int>)
    requires IsInt32(id) && IsInt32(kind) && IsInt32(width) && IsInt32(height) && IsInt32(size) && IsInt32(duration)
      && IsInt32(minAge) && IsInt32(maxAge) && IsInt32(sex) && (forall n :: n in pausePopAdIds ==> IsInt32(n))
      && (forall n :: n in unlockPopAdIds ==> IsInt32(n))
  {
    IsUtf8(name) && IsUtf8(filename) && IsUtf8(advertiser) && IsUtf8(url) && IsUtf8(format) && IsUtf8(md5)
    && AllUtf8(download) && AllUtf8(visitStatCode)
  }

  // The bytes that are written
  lemma AdWritten(id: int, name: seq<Byte>, filename: seq<Byte>, advertiser: seq<Byte>, kind: int, url: seq<Byte>, image: seq<Byte>,
    width: int, height: int, format: seq<Byte>, size: int, md5: seq<Byte>, duration: int, download: seq<seq<Byte>>,
    minAge: int, maxAge: int, sex: int, visitStatCode: seq<seq<Byte>>, pausePopAdIds: seq<int>,
    unlockPopAdIds: seq<int>)
    requires IsInt32(id) && IsInt32(kind) && IsInt32(width) && IsInt32(height) && IsInt32(size) && IsInt32(duration)
      && IsInt32(minAge) && IsInt32(maxAge) && IsInt32(sex) && (forall n :: n in pausePopAdIds ==> IsInt32(n))
      && (forall n :: n in unlockPopAdIds ==> IsInt32(n))
    ensures Serialize(AD, AdOf(id, name, filename, advertiser, kind, url, image, width, height, format, size, md5, duration, download,
            minAge, maxAge, sex, visitStatCode, pausePopAdIds, unlockPopAdIds)) ==
            Flatten([IntText([8], id), BytesText([18], name), BytesText([26], filename), BytesText([34], advertiser),
                     IntText([40], kind), BytesText([50], url), BytesText([58], image), IntText([64], width),
                     IntText([72], height), BytesText([82], format), IntText([88], size), BytesText([98], md5),
                     IntText([104], duration), ListText([114], download), IntText([120], minAge),
                     IntText([128, 1], maxAge), IntText([136, 1], sex), ListText([146, 1], visitStatCode),
                     IntsText([154, 1], pausePopAdIds), IntsText([162, 1], unlockPopAdIds)])
  {
    hide HasFields, Serialize, Written, SerializeAll, Varint, IntText, BoolText, BytesText, ListText, IntsText;
    TagBytes();
    AdWritten1(id, name, filename, advertiser, kind);
    AdWritten6(url, image, width, height, format);
    AdWritten11(size, md5, duration, download, minAge);
    AdWritten16(maxAge, sex, visitStatCode, pausePopAdIds, unlockPopAdIds);
    WrittenAs(AD, AdOf(id, name, filename, advertiser, kind, url, image, width, height, format, size, md5, duration, download,
            minAge, maxAge, sex, visitStatCode, pausePopAdIds, unlockPopAdIds),
      [IntText([8], id), BytesText([18], name), BytesText([26], filename), BytesText([34], advertiser),
       IntText([40], kind), BytesText([50], url), BytesText([58], image), IntText([64], width), IntText([72], height),
       BytesText([82], format), IntText([88], size), BytesText([98], md5), IntText([104], duration),
       ListText([114], download), IntText([120], minAge), IntText([128, 1], maxAge), IntText([136, 1], sex),
       ListText([146, 1], visitStatCode), IntsText([154, 1], pausePopAdIds), IntsText([162, 1], unlockPopAdIds)]);
  }

  lemma AdWritten1(id: int, name: seq<Byte>, filename: seq<Byte>, advertiser: seq<Byte>, kind: int)
    requires IsInt32(id) && IsInt32(kind)
    ensures HasKind(Int(id), AD[0].kind) && Written(AD[0], Int(id)) == IntText([8], id)
    ensures HasKind(Text(name), AD[1].kind) && Written(AD[1], Text(name)) == BytesText([18], name)
    ensures HasKind(Text(filename), AD[2].kind) && Written(AD[2], Text(filename)) == BytesText([26], filename)
    ensures HasKind(Text(advertiser), AD[3].kind) && Written(AD[3], Text(advertiser)) == BytesText([34], advertiser)
    ensures HasKind(Int(kind), AD[4].kind) && Written(AD[4], Int(kind)) == IntText([40], kind)
  {
    hide HasKind, Written, Varint, IntText, BoolText, BytesText, ListText, IntsText;
    TagBytes();
    IntWritten(AD[0], id);
    BytesWritten(AD[1], name);
    BytesWritten(AD[2], filename);
    BytesWritten(AD[3], advertiser);
    IntWritten(AD[4], kind);
  }

  lemma AdWritten6(url: seq<Byte>, image: seq<Byte>, width: int, height: int, format: seq<Byte>)
    requires IsInt32(width) && IsInt32(height)
    ensures HasKind(Text(url), AD[5].kind) && Written(AD[5], Text(url)) == BytesText([50], url)
    ensures HasKind(Text(image), AD[6].kind) && Written(AD[6], Text(image)) == BytesText([58], image)
    ensures HasKind(Int(width), AD[7].kind) && Written(AD[7], Int(width)) == IntText([64], width)
    ensures HasKind(Int(height), AD[8].kind) && Written(AD[8], Int(height)) == IntText([72], height)
    ensures HasKind(Text(format), AD[9].kind) && Written(AD[9], Text(format)) == BytesText([82], format)
  {
    hide HasKind, Written, Varint, IntText, BoolText, BytesText, ListText, IntsText;
    TagBytes();
    BytesWritten(AD[5], url);
    BytesWritten(AD[6], image);
    IntWritten(AD[7], width);
    IntWritten(AD[8], height);
    BytesWritten(AD[9], format);
  }

  lemma AdWritten11(size: int, md5: seq<Byte>, duration: int, download: seq<seq<Byte>>, minAge: int)
    requires IsInt32(size) && IsInt32(duration) && IsInt32(minAge)
    ensures HasKind(Int(size), AD[10].kind) && Written(AD[10], Int(size)) == IntText([88], size)
    ensures HasKind(Text(md5), AD[11].kind) && Written(AD[11], Text(md5)) == BytesText([98], md5)
    ensures HasKind(Int(duration), AD[12].kind) && Written(AD[12], Int(duration)) == IntText([104], duration)
    ensures HasKind(Texts(download), AD[13].kind) && Written(AD[13], Texts(download)) == ListText([114], download)
    ensures HasKind(Int(minAge), AD[14].kind) && Written(AD[14], Int(minAge)) == IntText([120], minAge)
  {
    hide HasKind, Written, Varint, IntText, BoolText, BytesText, ListText, IntsText;
    TagBytes();
    IntWritten(AD[10], size);
    BytesWritten(AD[11], md5);
    IntWritten(AD[12], duration);
    StringsWritten(AD[13], download);
    IntWritten(AD[14], minAge);
  }

  lemma AdWritten16(maxAge: int, sex: int, visitStatCode: seq<seq<Byte>>, pausePopAdIds: seq<int>, unlockPopAdIds: seq<int>)
    requires IsInt32(maxAge) && IsInt32(sex) && (forall n :: n in pausePopAdIds ==> IsInt32(n))
      && (forall n :: n in unlockPopAdIds ==> IsInt32(n))
    ensures HasKind(Int(maxAge), AD[15].kind) && Written(AD[15], Int(maxAge)) == IntText([128, 1], maxAge)
    ensures HasKind(Int(sex), AD[16].kind) && Written(AD[16], Int(sex)) == IntText([136, 1], sex)
    ensures HasKind(Texts(visitStatCode), AD[17].kind) && Written(AD[17], Texts(visitStatCode)) == ListText([146, 1], visitStatCode)
    ensures HasKind(Ints(pausePopAdIds, |pausePopAdIds|), AD[18].kind) && Written(AD[18], Ints(pausePopAdIds, |pausePopAdIds|)) == IntsText([154, 1], pausePopAdIds)
    ensures HasKind(Ints(unlockPopAdIds, |unlockPopAdIds|), AD[19].kind) && Written(AD[19], Ints(unlockPopAdIds, |unlockPopAdIds|)) == IntsText([162, 1], unlockPopAdIds)
  {
    hide HasKind, Written, Varint, IntText, BoolText, BytesText, ListText, IntsText;
    TagBytes();
    IntWritten(AD[15], maxAge);
    IntWritten(AD[16], sex);
    StringsWritten(AD[17], visitStatCode);
    IntsWritten(AD[18], pausePopAdIds, |pausePopAdIds|);
    IntsWritten(AD[19], unlockPopAdIds, |unlockPopAdIds|);
  }

  // They are read back exactly if the strings are UTF-8.
  lemma AdBack(id: int, name: seq<Byte>, filename: seq<Byte>, advertiser: seq<Byte>, kind: int, url: seq<Byte>, image: seq<Byte>,
    width: int, height: int, format: seq<Byte>, size: int, md5: seq<Byte>, duration: int, download: seq<seq<Byte>>,
    minAge: int, maxAge: int, sex: int, visitStatCode: seq<seq<Byte>>, pausePopAdIds: seq<int>,
    unlockPopAdIds: seq<int>, m: Message)
    requires IsInt32(id) && IsInt32(kind) && IsInt32(width) && IsInt32(height) && IsInt32(size) && IsInt32(duration)
      && IsInt32(minAge) && IsInt32(maxAge) && IsInt32(sex) && (forall n :: n in pausePopAdIds ==> IsInt32(n))
      && (forall n :: n in unlockPopAdIds ==> IsInt32(n))
    requires m == AdOf(id, name, filename, advertiser, kind, url, image, width, height, format, size, md5, duration, download,
            minAge, maxAge, sex, visitStatCode, pausePopAdIds, unlockPopAdIds) && |Serialize(AD, m)| <= INT_MAX
    ensures var r := Parse(AD, Empty(AD), Serialize(AD, m));
            && (r.Some? <==> AdIsText(id, name, filename, advertiser, kind, url, image, width, height, format, size, md5, duration, download,
            minAge, maxAge, sex, visitStatCode, pausePopAdIds, unlockPopAdIds))
            && (r.Some? ==> AdIs(id, name, filename, advertiser, kind, url, image, width, height, format, size, md5, duration, download,
            minAge, maxAge, sex, visitStatCode, pausePopAdIds, unlockPopAdIds, r.value))
  {
    hide IsSchema, HasFields, Serialize, Parse, Empty, IsUtf8, SameMessage, AllText, AdIs, AdIsText, AllUtf8, HasKind, Same, AdOf;
    var r := Parse(AD, Empty(AD), Serialize(AD, m));
    MessageBack(AD, m) by { AllSchemas(); }
    AdText(id, name, filename, advertiser, kind, url, image, width, height, format, size, md5, duration, download,
            minAge, maxAge, sex, visitStatCode, pausePopAdIds, unlockPopAdIds, m);
    if r.Some? { AdSame(id, name, filename, advertiser, kind, url, image, width, height, format, size, md5, duration, download,
            minAge, maxAge, sex, visitStatCode, pausePopAdIds, unlockPopAdIds, r.value, m); }
  }

  lemma AdText(id: int, name: seq<Byte>, filename: seq<Byte>, advertiser: seq<Byte>, kind: int, url: seq<Byte>, image: seq<Byte>,
    width: int, height: int, format: seq<Byte>, size: int, md5: seq<Byte>, duration: int, download: seq<seq<Byte>>,
    minAge: int, maxAge: int, sex: int, visitStatCode: seq<seq<Byte>>, pausePopAdIds: seq<int>,
    unlockPopAdIds: seq<int>, m: Message)
    requires IsInt32(id) && IsInt32(kind) && IsInt32(width) && IsInt32(height) && IsInt32(size) && IsInt32(duration)
      && IsInt32(minAge) && IsInt32(maxAge) && IsInt32(sex) && (forall n :: n in pausePopAdIds ==> IsInt32(n))
      && (forall n :: n in unlockPopAdIds ==> IsInt32(n))
    requires m == AdOf(id, name, filename, advertiser, kind, url, image, width, height, format, size, md5, duration, download,
            minAge, maxAge, sex, visitStatCode, pausePopAdIds, unlockPopAdIds)
    ensures AllText(AD, m) <==> AdIsText(id, name, filename, advertiser, kind, url, image, width, height, format, size, md5, duration, download,
            minAge, maxAge, sex, visitStatCode, pausePopAdIds, unlockPopAdIds)
  {
    hide IsUtf8, HasFields, HasKind, AllText, AllUtf8, IsText, TextsIn, AdOf;
    FourFives(AD, m);
    AdValues(id, name, filename, advertiser, kind, url, image, width, height, format, size, md5, duration, download,
            minAge, maxAge, sex, visitStatCode, pausePopAdIds, unlockPopAdIds, m);
    AdText1(id, name, filename, advertiser, kind, m);
    AdText6(url, image, width, height, format, m);
    AdText11(size, md5, duration, download, minAge, m);
    AdText16(maxAge, sex, visitStatCode, pausePopAdIds, unlockPopAdIds, m);
  }

  lemma AdSame(id: int, name: seq<Byte>, filename: seq<Byte>, advertiser: seq<Byte>, kind: int, url: seq<Byte>, image: seq<Byte>,
    width: int, height: int, format: seq<Byte>, size: int, md5: seq<Byte>, duration: int, download: seq<seq<Byte>>,
    minAge: int, maxAge: int, sex: int, visitStatCode: seq<seq<Byte>>, pausePopAdIds: seq<int>,
    unlockPopAdIds: seq<int>, n: Message, m: Message)
    requires IsInt32(id) && IsInt32(kind) && IsInt32(width) && IsInt32(height) && IsInt32(size) && IsInt32(duration)
      && IsInt32(minAge) && IsInt32(maxAge) && IsInt32(sex) && (forall n :: n in pausePopAdIds ==> IsInt32(n))
      && (forall n :: n in unlockPopAdIds ==> IsInt32(n))
    requires m == AdOf(id, name, filename, advertiser, kind, url, image, width, height, format, size, md5, duration, download,
            minAge, maxAge, sex, visitStatCode, pausePopAdIds, unlockPopAdIds) && SameMessage(n, m)
    ensures AdIs(id, name, filename, advertiser, kind, url, image, width, height, format, size, md5, duration, download,
            minAge, maxAge, sex, visitStatCode, pausePopAdIds, unlockPopAdIds, n)
  {
    hide Same, SameMessage, AdOf;
    AdValues(id, name, filename, advertiser, kind, url, image, width, height, format, size, md5, duration, download,
            minAge, maxAge, sex, visitStatCode, pausePopAdIds, unlockPopAdIds, m);
    SameFields(n, m);
    AdSame1(id, name, filename, advertiser, kind, n, m);
    AdSame6(url, image, width, height, format, n, m);
    AdSame11(size, md5, duration, download, minAge, n, m);
    AdSame16(maxAge, sex, visitStatCode, pausePopAdIds, unlockPopAdIds, n, m);
  }

  lemma AdValues(id: int, name: seq<Byte>, filename: seq<Byte>, advertiser: seq<Byte>, kind: int, url: seq<Byte>, image: seq<Byte>,
    width: int, height: int, format: seq<Byte>, size: int, md5: seq<Byte>, duration: int, download: seq<seq<Byte>>,
    minAge: int, maxAge: int, sex: int, visitStatCode: seq<seq<Byte>>, pausePopAdIds: seq<int>,
    unlockPopAdIds: seq<int>, m: Message)
    requires IsInt32(id) && IsInt32(kind) && IsInt32(width) && IsInt32(height) && IsInt32(size) && IsInt32(duration)
      && IsInt32(minAge) && IsInt32(maxAge) && IsInt32(sex) && (forall n :: n in pausePopAdIds ==> IsInt32(n))
      && (forall n :: n in unlockPopAdIds ==> IsInt32(n))
    requires m == AdOf(id, name, filename, advertiser, kind, url, image, width, height, format, size, md5, duration, download,
            minAge, maxAge, sex, visitStatCode, pausePopAdIds, unlockPopAdIds)
    ensures |m.values| == 20
    ensures m.values[0] == Int(id) && m.values[1] == Text(name) && m.values[2] == Text(filename)
      && m.values[3] == Text(advertiser) && m.values[4] == Int(kind)
    ensures m.values[5] == Text(url) && m.values[6] == Text(image) && m.values[7] == Int(width)
      && m.values[8] == Int(height) && m.values[9] == Text(format)
    ensures m.values[10] == Int(size) && m.values[11] == Text(md5) && m.values[12] == Int(duration)
      && m.values[13] == Texts(download) && m.values[14] == Int(minAge)
    ensures m.values[15] == Int(maxAge) && m.values[16] == Int(sex) && m.values[17] == Texts(visitStatCode)
      && m.values[18] == Ints(pausePopAdIds, |pausePopAdIds|)
      && m.values[19] == Ints(unlockPopAdIds, |unlockPopAdIds|)
  {
  }

  lemma AdText1(id: int, name: seq<Byte>, filename: seq<Byte>, advertiser: seq<Byte>, kind: int, m: Message)
    requires HasFields(m, AD) && |m.values| == 20 && (forall i :: 0 <= i < 20 ==> HasKind(m.values[i], AD[i].kind))
    requires m.values[0] == Int(id) && m.values[1] == Text(name) && m.values[2] == Text(filename)
      && m.values[3] == Text(advertiser) && m.values[4] == Int(kind)
    ensures TextsIn(AD, m, 0, 5) <==> (IsUtf8(name) && IsUtf8(filename) && IsUtf8(advertiser))
  {
    hide IsUtf8, HasFields, HasKind;
    forall i | 0 <= i < 5 ensures IsText(AD[i].kind, m.values[i]) <==>
      ((i == 1 ==> IsUtf8(name)) && (i == 2 ==> IsUtf8(filename)) && (i == 3 ==> IsUtf8(advertiser))) {
    }
  }

  lemma AdSame1(id: int, name: seq<Byte>, filename: seq<Byte>, advertiser: seq<Byte>, kind: int, n: Message, m: Message)
    requires |n.values| == |m.values| == 20 && forall i :: 0 <= i < 20 ==> Same(n.values[i], m.values[i])
    requires m.values[0] == Int(id) && m.values[1] == Text(name) && m.values[2] == Text(filename)
      && m.values[3] == Text(advertiser) && m.values[4] == Int(kind)
    ensures n.values[0] == Int(id)
            && n.values[1] == Text(name)
            && n.values[2] == Text(filename)
            && n.values[3] == Text(advertiser)
            && n.values[4] == Int(kind)
  {
    assert Same(n.values[0], m.values[0]) && Same(n.values[1], m.values[1]) && Same(n.values[2], m.values[2]) && Same(n.values[3], m.values[3]) && Same(n.values[4], m.values[4]);
  }

  lemma AdText6(url: seq<Byte>, image: seq<Byte>, width: int, height: int, format: seq<Byte>, m: Message)
    requires HasFields(m, AD) && |m.values| == 20 && (forall i :: 0 <= i < 20 ==> HasKind(m.values[i], AD[i].kind))
    requires m.values[5] == Text(url) && m.values[6] == Text(image) && m.values[7] == Int(width)
      && m.values[8] == Int(height) && m.values[9] == Text(format)
    ensures TextsIn(AD, m, 5, 10) <==> (IsUtf8(url) && IsUtf8(format))
  {
    hide IsUtf8, HasFields, HasKind;
    forall i | 5 <= i < 10 ensures IsText(AD[i].kind, m.values[i]) <==>
      ((i == 5 ==> IsUtf8(url)) && (i == 9 ==> IsUtf8(format))) {
    }
  }

  lemma AdSame6(url: seq<Byte>, image: seq<Byte>, width: int, height: int, format: seq<Byte>, n: Message, m: Message)
    requires |n.values| == |m.values| == 20 && forall i :: 0 <= i < 20 ==> Same(n.values[i], m.values[i])
    requires m.values[5] == Text(url) && m.values[6] == Text(image) && m.values[7] == Int(width)
      && m.values[8] == Int(height) && m.values[9] == Text(format)
    ensures n.values[5] == Text(url)
            && n.values[6] == Text(image)
            && n.values[7] == Int(width)
            && n.values[8] == Int(height)
            && n.values[9] == Text(format)
  {
    assert Same(n.values[5], m.values[5]) && Same(n.values[6], m.values[6]) && Same(n.values[7], m.values[7]) && Same(n.values[8], m.values[8]) && Same(n.values[9], m.values[9]);
  }

  lemma AdText11(size: int, md5: seq<Byte>, duration: int, download: seq<seq<Byte>>, minAge: int, m: Message)
    requires HasFields(m, AD) && |m.values| == 20 && (forall i :: 0 <= i < 20 ==> HasKind(m.values[i], AD[i].kind))
    requires m.values[10] == Int(size) && m.values[11] == Text(md5) && m.values[12] == Int(duration)
      && m.values[13] == Texts(download) && m.values[14] == Int(minAge)
    ensures TextsIn(AD, m, 10, 15) <==> (IsUtf8(md5) && AllUtf8(download))
  {
    hide IsUtf8, HasFields, HasKind;
    forall i | 10 <= i < 15 ensures IsText(AD[i].kind, m.values[i]) <==>
      ((i == 11 ==> IsUtf8(md5)) && (i == 13 ==> AllUtf8(download))) {
    }
  }

  lemma AdSame11(size: int, md5: seq<Byte>, duration: int, download: seq<seq<Byte>>, minAge: int, n: Message, m: Message)
    requires |n.values| == |m.values| == 20 && forall i :: 0 <= i < 20 ==> Same(n.values[i], m.values[i])
    requires m.values[10] == Int(size) && m.values[11] == Text(md5) && m.values[12] == Int(duration)
      && m.values[13] == Texts(download) && m.values[14] == Int(minAge)
    ensures n.values[10] == Int(size)
            && n.values[11] == Text(md5)
            && n.values[12] == Int(duration)
            && n.values[13] == Texts(download)
            && n.values[14] == Int(minAge)
  {
    assert Same(n.values[10], m.values[10]) && Same(n.values[11], m.values[11]) && Same(n.values[12], m.values[12]) && Same(n.values[13], m.values[13]) && Same(n.values[14], m.values[14]);
  }

  lemma AdText16(maxAge: int, sex: int, visitStatCode: seq<seq<Byte>>, pausePopAdIds: seq<int>, unlockPopAdIds: seq<int>, m: Message)
    requires HasFields(m, AD) && |m.values| == 20 && (forall i :: 0 <= i < 20 ==> HasKind(m.values[i], AD[i].kind))
    requires m.values[15] == Int(maxAge) && m.values[16] == Int(sex) && m.values[17] == Texts(visitStatCode)
      && m.values[18] == Ints(pausePopAdIds, |pausePopAdIds|)
      && m.values[19] == Ints(unlockPopAdIds, |unlockPopAdIds|)
    ensures TextsIn(AD, m, 15, 20) <==> (AllUtf8(visitStatCode))
  {
    hide IsUtf8, HasFields, HasKind;
    forall i | 15 <= i < 20 ensures IsText(AD[i].kind, m.values[i]) <==>
      ((i == 17 ==> AllUtf8(visitStatCode))) {
    }
  }

  lemma AdSame16(maxAge: int, sex: int, visitStatCode: seq<seq<Byte>>, pausePopAdIds: seq<int>, unlockPopAdIds: seq<int>, n: Message, m: Message)
    requires |n.values| == |m.values| == 20 && forall i :: 0 <= i < 20 ==> Same(n.values[i], m.values[i])
    requires m.values[15] == Int(maxAge) && m.values[16] == Int(sex) && m.values[17] == Texts(visitStatCode)
      && m.values[18] == Ints(pausePopAdIds, |pausePopAdIds|)
      && m.values[19] == Ints(unlockPopAdIds, |unlockPopAdIds|)
    ensures n.values[15] == Int(maxAge)
            && n.values[16] == Int(sex)
            && n.values[17] == Texts(visitStatCode)
            && n.values[18].Ints? && n.values[18].elements == pausePopAdIds
            && n.values[19].Ints? && n.values[19].elements == unlockPopAdIds
  {
    assert Same(n.values[15], m.values[15]) && Same(n.values[16], m.values[16]) && Same(n.values[17], m.values[17]) && Same(n.values[18], m.values[18]) && Same(n.values[19], m.values[19]);
  }

  // Result: a value for each field
  function ResultOf(ads: seq<Message>): (m: Message)
    requires (forall m :: m in ads ==> HasFields(m, AD))
    ensures HasFields(m, RESULT)
  {
    Message([Messages(ads)])
  }

  // A message with these values; arrays may have any capacity.
  ghost predicate ResultIs(ads: seq<Message>, n: Message) {
    && |n.values| == 1
    && n.values[0].Messages? && |n.values[0].messages| == |ads| && (forall j :: 0 <= j < |ads| ==> SameMessage(n.values[0].messages[j], ads[j]))
  }

  // The strings among them are UTF-8.
  ghost predicate ResultIsText(ads: seq<Message>)
    requires (forall m :: m in ads ==> HasFields(m, AD))
  {
    (forall m :: m in ads ==> AllText(AD, m))
  }

  // The bytes that are written
  lemma ResultWritten(ads: seq<Message>)
    requires (forall m :: m in ads ==> HasFields(m, AD))
    ensures Serialize(RESULT, ResultOf(ads)) ==
            Flatten([ListText([10], SerializeAll(AD, ads))])
  {
    hide HasFields, Serialize, Written, SerializeAll, Varint, IntText, BoolText, BytesText, ListText, IntsText;
    TagBytes();
    MessagesWritten(RESULT[0], ads);
    WrittenAs(RESULT, ResultOf(ads),
      [ListText([10], SerializeAll(AD, ads))]);
  }

  // They are read back exactly if the strings are UTF-8.
  lemma ResultBack(ads: seq<Message>, m: Message)
    requires (forall m :: m in ads ==> HasFields(m, AD))
    requires m == ResultOf(ads) && |Serialize(RESULT, m)| <= INT_MAX
    ensures var r := Parse(RESULT, Empty(RESULT), Serialize(RESULT, m));
            && (r.Some? <==> ResultIsText(ads))
            && (r.Some? ==> ResultIs(ads, r.value))
  {
    hide IsSchema, HasFields, Serialize, Parse, Empty, IsUtf8, SameMessage, AllText, ResultIs, ResultIsText;
    var r := Parse(RESULT, Empty(RESULT), Serialize(RESULT, m));
    MessageBack(RESULT, m) by { AllSchemas(); }
    ResultText(ads, m);
    if r.Some? { ResultSame(ads, r.value, m); }
  }

  lemma ResultText(ads: seq<Message>, m: Message)
    requires (forall m :: m in ads ==> HasFields(m, AD))
    requires m == ResultOf(ads)
    ensures AllText(RESULT, m) <==> ResultIsText(ads)
  {
    hide IsUtf8, HasFields, HasKind, AllText;
    TextFields(RESULT, m);
    assert IsText(RESULT[0].kind, m.values[0]) <==> (forall m :: m in ads ==> AllText(AD, m));
  }

  lemma ResultSame(ads: seq<Message>, n: Message, m: Message)
    requires (forall m :: m in ads ==> HasFields(m, AD))
    requires m == ResultOf(ads) && SameMessage(n, m)
    ensures ResultIs(ads, n)
  {
    hide SameMessage;
    SameFields(n, m);
  }

  // PlayTime: a value for each field
  function PlayTimeOf(bgnTime: seq<Byte>, endTime: seq<Byte>): (m: Message)
    ensures HasFields(m, PLAY_TIME)
  {
    Message([Text(bgnTime), Text(endTime)])
  }

  // A message with these values; arrays may have any capacity.
  ghost predicate PlayTimeIs(bgnTime: seq<Byte>, endTime: seq<Byte>, n: Message) {
    && |n.values| == 2
    && n.values[0] == Text(bgnTime)
    && n.values[1] == Text(endTime)
  }

  // The strings among them are UTF-8.
  ghost predicate PlayTimeIsText(bgnTime: seq<Byte>, endTime: seq<Byte>)
  {
    IsUtf8(bgnTime) && IsUtf8(endTime)
  }

  // The bytes that are written
  lemma PlayTimeWritten(bgnTime: seq<Byte>, endTime: seq<Byte>)
    ensures Serialize(PLAY_TIME, PlayTimeOf(bgnTime, endTime)) ==
            Flatten([BytesText([10], bgnTime), BytesText([18], endTime)])
  {
    hide HasFields, Serialize, Written, SerializeAll, Varint, IntText, BoolText, BytesText, ListText, IntsText;
    TagBytes();
    BytesWritten(PLAY_TIME[0], bgnTime);
    BytesWritten(PLAY_TIME[1], endTime);
    WrittenAs(PLAY_TIME, PlayTimeOf(bgnTime, endTime),
      [BytesText([10], bgnTime), BytesText([18], endTime)]);
  }

  // They are read back exactly if the strings are UTF-8.
  lemma PlayTimeBack(bgnTime: seq<Byte>, endTime: seq<Byte>, m: Message)
    requires m == PlayTimeOf(bgnTime, endTime) && |Serialize(PLAY_TIME, m)| <= INT_MAX
    ensures var r := Parse(PLAY_TIME, Empty(PLAY_TIME), Serialize(PLAY_TIME, m));
            && (r.Some? <==> PlayTimeIsText(bgnTime, endTime))
            && (r.Some? ==> PlayTimeIs(bgnTime, endTime, r.value))
  {
    hide IsSchema, HasFields, Serialize, Parse, Empty, IsUtf8, SameMessage, AllText, PlayTimeIs, PlayTimeIsText;
    var r := Parse(PLAY_TIME, Empty(PLAY_TIME), Serialize(PLAY_TIME, m));
    MessageBack(PLAY_TIME, m) by { AllSchemas(); }
    PlayTimeText(bgnTime, endTime, m);
    if r.Some? { PlayTimeSame(bgnTime, endTime, r.value, m); }
  }

  lemma PlayTimeText(bgnTime: seq<Byte>, endTime: seq<Byte>, m: Message)
    requires m == PlayTimeOf(bgnTime, endTime)
    ensures AllText(PLAY_TIME, m) <==> PlayTimeIsText(bgnTime, endTime)
  {
    hide IsUtf8, HasFields, HasKind, AllText;
    TextFields(PLAY_TIME, m);
    assert IsText(PLAY_TIME[0].kind, m.values[0]) <==> IsUtf8(bgnTime);
    assert IsText(PLAY_TIME[1].kind, m.values[1]) <==> IsUtf8(endTime);
  }

  lemma PlayTimeSame(bgnTime: seq<Byte>, endTime: seq<Byte>, n: Message, m: Message)
    requires m == PlayTimeOf(bgnTime, endTime) && SameMessage(n, m)
    ensures PlayTimeIs(bgnTime, endTime, n)
  {
    hide SameMessage;
    SameFields(n, m);
  }

  // AdPlay: a value for each field
  function AdPlayOf(location: int, mode: int, needSync: bool, playTimes: seq<Message>, adIds: seq<int>): (m: Message)
    requires IsInt32(location) && IsInt32(mode) && (forall m :: m in playTimes ==> HasFields(m, PLAY_TIME))
      && (forall n :: n in adIds ==> IsInt32(n))
    ensures HasFields(m, AD_PLAY)
  {
    Message([Int(location), Int(mode), Bool(needSync), Messages(playTimes), Ints(adIds, |adIds|)])
  }

  // A message with these values; arrays may have any capacity.
  ghost predicate AdPlayIs(location: int, mode: int, needSync: bool, playTimes: seq<Message>, adIds: seq<int>, n: Message) {
    && |n.values| == 5
    && n.values[0] == Int(location)
    && n.values[1] == Int(mode)
    && n.values[2] == Bool(needSync)
    && n.values[3].Messages? && |n.values[3].messages| == |playTimes| && (forall j :: 0 <= j < |playTimes| ==> SameMessage(n.values[3].messages[j], playTimes[j]))
    && n.values[4].Ints? && n.values[4].elements == adIds
  }

  // The strings among them are UTF-8.
  ghost predicate AdPlayIsText(location: int, mode: int, needSync: bool, playTimes: seq<Message>, adIds: seq<int>)
    requires IsInt32(location) && IsInt32(mode) && (forall m :: m in playTimes ==> HasFields(m, PLAY_TIME))
      && (forall n :: n in adIds ==> IsInt32(n))
  {
    (forall m :: m in playTimes ==> AllText(PLAY_TIME, m))
  }

  // The bytes that are written
  lemma AdPlayWritten(location: int, mode: int, needSync: bool, playTimes: seq<Message>, adIds: seq<int>)
    requires IsInt32(location) && IsInt32(mode) && (forall m :: m in playTimes ==> HasFields(m, PLAY_TIME))
      && (forall n :: n in adIds ==> IsInt32(n))
    ensures Serialize(AD_PLAY, AdPlayOf(location, mode, needSync, playTimes, adIds)) ==
            Flatten([IntText([8], location), IntText([16], mode), BoolText([24], needSync),
                     ListText([34], SerializeAll(PLAY_TIME, playTimes)), IntsText([42], adIds)])
  {
    hide HasFields, Serialize, Written, SerializeAll, Varint, IntText, BoolText, BytesText, ListText, IntsText;
    TagBytes();
    IntWritten(AD_PLAY[0], location);
    IntWritten(AD_PLAY[1], mode);
    BoolWritten(AD_PLAY[2], needSync);
    MessagesWritten(AD_PLAY[3], playTimes);
    IntsWritten(AD_PLAY[4], adIds, |adIds|);
    WrittenAs(AD_PLAY, AdPlayOf(location, mode, needSync, playTimes, adIds),
      [IntText([8], location), IntText([16], mode), BoolText([24], needSync),
       ListText([34], SerializeAll(PLAY_TIME, playTimes)), IntsText([42], adIds)]);
  }

  // They are read back exactly if the strings are UTF-8.
  lemma AdPlayBack(location: int, mode: int, needSync: bool, playTimes: seq<Message>, adIds: seq<int>, m: Message)
    requires IsInt32(location) && IsInt32(mode) && (forall m :: m in playTimes ==> HasFields(m, PLAY_TIME))
      && (forall n :: n in adIds ==> IsInt32(n))
    requires m == AdPlayOf(location, mode, needSync, playTimes, adIds) && |Serialize(AD_PLAY, m)| <= INT_MAX
    ensures var r := Parse(AD_PLAY, Empty(AD_PLAY), Serialize(AD_PLAY, m));
            && (r.Some? <==> AdPlayIsText(location, mode, needSync, playTimes, adIds))
            && (r.Some? ==> AdPlayIs(location, mode, needSync, playTimes, adIds, r.value))
  {
    hide IsSchema, HasFields, Serialize, Parse, Empty, IsUtf8, SameMessage, AllText, AdPlayIs, AdPlayIsText;
    var r := Parse(AD_PLAY, Empty(AD_PLAY), Serialize(AD_PLAY, m));
    MessageBack(AD_PLAY, m) by { AllSchemas(); }
    AdPlayText(location, mode, needSync, playTimes, adIds, m);
    if r.Some? { AdPlaySame(location, mode, needSync, playTimes, adIds, r.value, m); }
  }

  lemma AdPlayText(location: int, mode: int, needSync: bool, playTimes: seq<Message>, adIds: seq<int>, m: Message)
    requires IsInt32(location) && IsInt32(mode) && (forall m :: m in playTimes ==> HasFields(m, PLAY_TIME))
      && (forall n :: n in adIds ==> IsInt32(n))
    requires m == AdPlayOf(location, mode, needSync, playTimes, adIds)
    ensures AllText(AD_PLAY, m) <==> AdPlayIsText(location, mode, needSync, playTimes, adIds)
  {
    hide IsUtf8, HasFields, HasKind, AllText;
    TextFields(AD_PLAY, m);
    assert IsText(AD_PLAY[0].kind, m.values[0]) <==> true;
    assert IsText(AD_PLAY[1].kind, m.values[1]) <==> true;
    assert IsText(AD_PLAY[2].kind, m.values[2]) <==> true;
    assert IsText(AD_PLAY[3].kind, m.values[3]) <==> (forall m :: m in playTimes ==> AllText(PLAY_TIME, m));
    assert IsText(AD_PLAY[4].kind, m.values[4]) <==> true;
  }

  lemma AdPlaySame(location: int, mode: int, needSync: bool, playTimes: seq<Message>, adIds: seq<int>, n: Message, m: Message)
    requires IsInt32(location) && IsInt32(mode) && (forall m :: m in playTimes ==> HasFields(m, PLAY_TIME))
      && (forall n :: n in adIds ==> IsInt32(n))
    requires m == AdPlayOf(location, mode, needSync, playTimes, adIds) && SameMessage(n, m)
    ensures AdPlayIs(location, mode, needSync, playTimes, adIds, n)
  {
    hide SameMessage;
    SameFields(n, m);
  }

  // AdPlayPolicy: a value for each field
  function AdPlayPolicyOf(id: int, version: seq<Byte>, dateTime: seq<Byte>, adPlays: seq<Message>): (m: Message)
    requires IsInt32(id) && (forall m :: m in adPlays ==> HasFields(m, AD_PLAY))
    ensures HasFields(m, AD_PLAY_POLICY)
  {
    Message([Int(id), Text(version), Text(dateTime), Messages(adPlays)])
  }

  // A message with these values; arrays may have any capacity.
  ghost predicate AdPlayPolicyIs(id: int, version: seq<Byte>, dateTime: seq<Byte>, adPlays: seq<Message>, n: Message) {
    && |n.values| == 4
    && n.values[0] == Int(id)
    && n.values[1] == Text(version)
    && n.values[2] == Text(dateTime)
    && n.values[3].Messages? && |n.values[3].messages| == |adPlays| && (forall j :: 0 <= j < |adPlays| ==> SameMessage(n.values[3].messages[j], adPlays[j]))
  }

  // The strings among them are UTF-8.
  ghost predicate AdPlayPolicyIsText(id: int, version: seq<Byte>, dateTime: seq<Byte>, adPlays: seq<Message>)
    requires IsInt32(id) && (forall m :: m in adPlays ==> HasFields(m, AD_PLAY))
  {
    IsUtf8(version) && IsUtf8(dateTime) && (forall m :: m in adPlays ==> AllText(AD_PLAY, m))
  }

  // The bytes that are written
  lemma AdPlayPolicyWritten(id: int, version: seq<Byte>, dateTime: seq<Byte>, adPlays: seq<Message>)
    requires IsInt32(id) && (forall m :: m in adPlays ==> HasFields(m, AD_PLAY))
    ensures Serialize(AD_PLAY_POLICY, AdPlayPolicyOf(id, version, dateTime, adPlays)) ==
            Flatten([IntText([8], id), BytesText([18], version), BytesText([26], dateTime),
                     ListText([34], SerializeAll(AD_PLAY, adPlays))])
  {
    hide HasFields, Serialize, Written, SerializeAll, Varint, IntText, BoolText, BytesText, ListText, IntsText;
    TagBytes();
    IntWritten(AD_PLAY_POLICY[0], id);
    BytesWritten(AD_PLAY_POLICY[1], version);
    BytesWritten(AD_PLAY_POLICY[2], dateTime);
    MessagesWritten(AD_PLAY_POLICY[3], adPlays);
    WrittenAs(AD_PLAY_POLICY, AdPlayPolicyOf(id, version, dateTime, adPlays),
      [IntText([8], id), BytesText([18], version), BytesText([26], dateTime),
       ListText([34], SerializeAll(AD_PLAY, adPlays))]);
  }

  // They are read back exactly if the strings are UTF-8.
  lemma AdPlayPolicyBack(id: int, version: seq<Byte>, dateTime: seq<Byte>, adPlays: seq<Message>, m: Message)
    requires IsInt32(id) && (forall m :: m in adPlays ==> HasFields(m, AD_PLAY))
    requires m == AdPlayPolicyOf(id, version, dateTime, adPlays) && |Serialize(AD_PLAY_POLICY, m)| <= INT_MAX
    ensures var r := Parse(AD_PLAY_POLICY, Empty(AD_PLAY_POLICY), Serialize(AD_PLAY_POLICY, m));
            && (r.Some? <==> AdPlayPolicyIsText(id, version, dateTime, adPlays))
            && (r.Some? ==> AdPlayPolicyIs(id, version, dateTime, adPlays, r.value))
  {
    hide IsSchema, HasFields, Serialize, Parse, Empty, IsUtf8, SameMessage, AllText, AdPlayPolicyIs, AdPlayPolicyIsText;
    var r := Parse(AD_PLAY_POLICY, Empty(AD_PLAY_POLICY), Serialize(AD_PLAY_POLICY, m));
    MessageBack(AD_PLAY_POLICY, m) by { AllSchemas(); }
    AdPlayPolicyText(id, version, dateTime, adPlays, m);
    if r.Some? { AdPlayPolicySame(id, version, dateTime, adPlays, r.value, m); }
  }

  lemma AdPlayPolicyText(id: int, version: seq<Byte>, dateTime: seq<Byte>, adPlays: seq<Message>, m: Message)
    requires IsInt32(id) && (forall m :: m in adPlays ==> HasFields(m, AD_PLAY))
    requires m == AdPlayPolicyOf(id, version, dateTime, adPlays)
    ensures AllText(AD_PLAY_POLICY, m) <==> AdPlayPolicyIsText(id, version, dateTime, adPlays)
  {
    hide IsUtf8, HasFields, HasKind, AllText;
    TextFields(AD_PLAY_POLICY, m);
    assert IsText(AD_PLAY_POLICY[0].kind, m.values[0]) <==> true;
    assert IsText(AD_PLAY_POLICY[1].kind, m.values[1]) <==> IsUtf8(version);
    assert IsText(AD_PLAY_POLICY[2].kind, m.values[2]) <==> IsUtf8(dateTime);
    assert IsText(AD_PLAY_POLICY[3].kind, m.values[3]) <==> (forall m :: m in adPlays ==> AllText(AD_PLAY, m));
  }

  lemma AdPlayPolicySame(id: int, version: seq<Byte>, dateTime: seq<Byte>, adPlays: seq<Message>, n: Message, m: Message)
    requires IsInt32(id) && (forall m :: m in adPlays ==> HasFields(m, AD_PLAY))
    requires m == AdPlayPolicyOf(id, version, dateTime, adPlays) && SameMessage(n, m)
    ensures AdPlayPolicyIs(id, version, dateTime, adPlays, n)
  {
    hide SameMessage;
    SameFields(n, m);
  }

  // Equal but for capacities: integers, flags, texts and lists of them are equal, arrays of integers have
  // the same elements, and sub-messages correspond one by one.
  lemma SameMeans(v: Value, w: Value)
    ensures v.Int? || v.Bool? || v.Text? || v.Texts? ==> (Same(v, w) <==> w == v)
    ensures v.Ints? ==> (Same(v, w) <==> w.Ints? && w.elements == v.elements)
    ensures v.Messages? ==> (Same(v, w) <==> && w.Messages? && |w.messages| == |v.messages|
                                             && forall i :: 0 <= i < |v.messages| ==> SameMessage(v.messages[i], w.messages[i]))
  {
  }

  lemma SameMessageMeans(m: Message, n: Message)
    ensures SameMessage(m, n) <==>
            |m.values| == |n.values| && forall i :: 0 <= i < |m.values| ==> Same(m.values[i], n.values[i])
  {
  }

  ghost predicate AllUtf8(list: seq<seq<Byte>>) { forall s :: s in list ==> IsUtf8(s) }

  ghost predicate TextsIn(fields: seq<Field>, m: Message, lo: nat, hi: nat)
    requires lo <= hi <= |fields| == |m.values| && forall i :: 0 <= i < |fields| ==> HasKind(m.values[i], fields[i].kind)
  {
    forall i :: lo <= i < hi ==> IsText(fields[i].kind, m.values[i])
  }

  lemma FourFives(fields: seq<Field>, m: Message)
    requires HasFields(m, fields) && |fields| == 20
    ensures |m.values| == 20 && forall i :: 0 <= i < |fields| ==> HasKind(m.values[i], fields[i].kind)
    ensures AllText(fields, m) <==>
            TextsIn(fields, m, 0, 5) && TextsIn(fields, m, 5, 10) && TextsIn(fields, m, 10, 15) && TextsIn(fields, m, 15, 20)
  {
    hide IsText, HasKind;
  }

  lemma TextFields(fields: seq<Field>, m: Message)
    requires HasFields(m, fields)
    ensures |m.values| == |fields| && forall i :: 0 <= i < |fields| ==> HasKind(m.values[i], fields[i].kind)
    ensures AllText(fields, m) <==> forall i :: 0 <= i < |fields| ==> IsText(fields[i].kind, m.values[i])
  {
  }

  lemma SameFields(n: Message, m: Message)
    requires SameMessage(n, m)
    ensures |n.values| == |m.values| && forall i :: 0 <= i < |m.values| ==> Same(n.values[i], m.values[i])
  {
  }
}
