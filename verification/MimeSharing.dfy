// Printing a tree in which a part may be in several places: a boundary that is added in the first one
// is there in the next.

module MimeSharing {
  import opened Results
  import opened MimeHeaders
  import opened MimeContentType
  import opened MimeParts
  import opened MimeInvention

  // All of a part but its headers, which are found by its identity
  datatype Shape<Id> = Shape(id: Id, kind: Kind, prologIsMissing: bool, body: string, epilog: string,
                             subparts: seq<Shape<Id>>, defaultType: string)

  type Store<Id> = map<Id, seq<Header>>

  function HeadersAt<Id(==)>(hs: Store<Id>, id: Id): seq<Header> { if id in hs then hs[id] else [] }

  function ValueOf<Id(==)>(s: Shape<Id>, hs: Store<Id>): Part
    decreases s, 1
  {
    Part(s.kind, HeadersAt(hs, s.id), s.prologIsMissing, s.body, s.epilog, ValuesOf(s.subparts, hs), s.defaultType)
  }

  function ValuesOf<Id(==)>(ss: seq<Shape<Id>>, hs: Store<Id>): (vs: seq<Part>)
    ensures |vs| == |ss|
    decreases ss, 0
  {
    if ss == [] then [] else [ValueOf(ss[0], hs)] + ValuesOf(ss[1..], hs)
  }

  ghost function Ids<Id>(s: Shape<Id>): set<Id>
    decreases s, 1
  {
    {s.id} + AllIds(s.subparts)
  }

  ghost function AllIds<Id>(ss: seq<Shape<Id>>): set<Id>
    decreases ss, 0
  {
    if ss == [] then {} else Ids(ss[0]) + AllIds(ss[1..])
  }

  // No part is in two places.
  ghost predicate Unshared<Id>(s: Shape<Id>)
    decreases s, 1
  {
    s.id !in AllIds(s.subparts) && EachUnshared(s.subparts)
  }

  ghost predicate EachUnshared<Id>(ss: seq<Shape<Id>>)
    decreases ss, 0
  {
    ss == [] || (Unshared(ss[0]) && Ids(ss[0]) !! AllIds(ss[1..]) && EachUnshared(ss[1..]))
  }

  // ---------- printing ----------

  datatype Output<Id> = Output(headers: Store<Id>, text: string, n: nat)

  datatype Outputs<Id> = Outputs(headers: Store<Id>, texts: seq<string>, n: nat)

  function StreamShared<Id(==)>(s: Shape<Id>, hs: Store<Id>, clock: nat -> int, n: nat): Option<Output<Id>>
    decreases s, 1
  {
    var own := HeadersAt(hs, s.id);
    match s.kind
    case SimplePart => Some(Output(hs, PrintHeaders(own) + s.body, n))
    case MessagePart =>
      if |s.subparts| != 1 then None
      else
        (match StreamShared(s.subparts[0], hs, clock, n)
         case None => None
         case Some(o) => Some(o.(text := PrintHeaders(own) + o.text)))
    case MultiPart =>
      match Boundary(ContentTypeHeader(own, s.defaultType))
      case Some(b) => SharedMultipart(s, hs, b, clock, n)
      case None =>
        var b := Invented(clock(n));
        match AppendPhrase(own, s.defaultType, b)
        case None => None
        case Some(completed) => SharedMultipart(s, hs[s.id := completed], b, clock, n + 1)
  }

  function SharedMultipart<Id(==)>(s: Shape<Id>, hs: Store<Id>, b: string, clock: nat -> int, n: nat): Option<Output<Id>>
    decreases s, 0
  {
    match SharedAll(s.subparts, hs, clock, n)
    case None => None
    case Some(all) =>
      Some(Output(all.headers, PrintHeaders(HeadersAt(hs, s.id)) + PrintMultipart(ValueOf(s, hs), all.texts, b), all.n))
  }

  function SharedAll<Id(==)>(ss: seq<Shape<Id>>, hs: Store<Id>, clock: nat -> int, n: nat): (r: Option<Outputs<Id>>)
    ensures r.Some? ==> |r.value.texts| == |ss|
    decreases ss, 0
  {
    if ss == [] then Some(Outputs(hs, [], n))
    else
      match StreamShared(ss[0], hs, clock, n)
      case None => None
      case Some(o) =>
        match SharedAll(ss[1..], o.headers, clock, o.n)
        case None => None
        case Some(all) => Some(all.(texts := [o.text] + all.texts))
  }

  // ---------- where no boundary is missing ----------

  lemma {:induction false} SharedPrinted<Id>(s: Shape<Id>, hs: Store<Id>, clock: nat -> int, n: nat)
    requires PrintMime(ValueOf(s, hs)).Some?
    ensures StreamShared(s, hs, clock, n) == Some(Output(hs, PrintMime(ValueOf(s, hs)).value, n))
    decreases s, 1
  {
    hide ContentTypeHeader, Boundary, PrintHeaders, PrintMultipart, AppendPhrase, Invented;
    match s.kind
    case SimplePart =>
    case MessagePart =>
      SharedPrinted(s.subparts[0], hs, clock, n);
    case MultiPart =>
      SharedAllPrinted(s.subparts, hs, clock, n);
  }

  lemma {:induction false} SharedAllPrinted<Id>(ss: seq<Shape<Id>>, hs: Store<Id>, clock: nat -> int, n: nat)
    requires PrintAll(ValuesOf(ss, hs)).Some?
    ensures SharedAll(ss, hs, clock, n) == Some(Outputs(hs, PrintAll(ValuesOf(ss, hs)).value, n))
    decreases ss, 0
  {
    hide StreamShared, PrintMime, ValueOf;
    if ss != [] {
      SharedPrinted(ss[0], hs, clock, n);
      SharedAllPrinted(ss[1..], hs, clock, n);
    }
  }

  // ---------- where no part is shared ----------

  // The headers of some parts are the same.
  ghost predicate Agree<Id>(hs: Store<Id>, gs: Store<Id>, ids: set<Id>) {
    forall id :: id in ids ==> HeadersAt(gs, id) == HeadersAt(hs, id)
  }

  lemma {:induction false} SameValue<Id>(s: Shape<Id>, hs: Store<Id>, gs: Store<Id>)
    requires Agree(hs, gs, Ids(s))
    ensures ValueOf(s, gs) == ValueOf(s, hs)
    decreases s, 1
  {
    SameValues(s.subparts, hs, gs);
  }

  lemma {:induction false} SameValues<Id>(ss: seq<Shape<Id>>, hs: Store<Id>, gs: Store<Id>)
    requires Agree(hs, gs, AllIds(ss))
    ensures ValuesOf(ss, gs) == ValuesOf(ss, hs)
    decreases ss, 0
  {
    hide HeadersAt;
    if ss != [] {
      SameValue(ss[0], hs, gs);
      SameValues(ss[1..], hs, gs);
    }
  }

  // Only headers of the tree change.
  lemma {:induction false} OthersKept<Id>(s: Shape<Id>, hs: Store<Id>, clock: nat -> int, n: nat, id: Id)
    requires StreamShared(s, hs, clock, n).Some? && id !in Ids(s)
    ensures HeadersAt(StreamShared(s, hs, clock, n).value.headers, id) == HeadersAt(hs, id)
    decreases s, 1
  {
    hide ContentTypeHeader, Boundary, PrintHeaders, PrintMultipart, AppendPhrase, Invented;
    var own := HeadersAt(hs, s.id);
    match s.kind
    case SimplePart =>
    case MessagePart =>
      assert AllIds(s.subparts) == Ids(s.subparts[0]) + AllIds(s.subparts[1..]);
      OthersKept(s.subparts[0], hs, clock, n, id);
    case MultiPart =>
      if Boundary(ContentTypeHeader(own, s.defaultType)).Some? {
        OthersAllKept(s.subparts, hs, clock, n, id);
      } else {
        var completed := AppendPhrase(own, s.defaultType, Invented(clock(n))).value;
        OthersAllKept(s.subparts, hs[s.id := completed], clock, n + 1, id);
      }
  }

  lemma {:induction false} OthersAllKept<Id>(ss: seq<Shape<Id>>, hs: Store<Id>, clock: nat -> int, n: nat, id: Id)
    requires SharedAll(ss, hs, clock, n).Some? && id !in AllIds(ss)
    ensures HeadersAt(SharedAll(ss, hs, clock, n).value.headers, id) == HeadersAt(hs, id)
    decreases ss, 0
  {
    hide StreamShared, Ids, HeadersAt;
    if ss != [] {
      OthersKept(ss[0], hs, clock, n, id);
      var o := StreamShared(ss[0], hs, clock, n).value;
      OthersAllKept(ss[1..], o.headers, clock, o.n, id);
    }
  }

  // What is printed, as for a tree without identities
  ghost predicate Corresponds<Id>(s: Shape<Id>, o: Option<Output<Id>>, p: Option<Printed>) {
    p == match o
         case None => None
         case Some(o) => Some(Printed(ValueOf(s, o.headers), o.text, o.n))
  }

  lemma {:induction false} UnsharedIs<Id>(s: Shape<Id>, hs: Store<Id>, clock: nat -> int, n: nat)
    requires Unshared(s)
    ensures Corresponds(s, StreamShared(s, hs, clock, n), Stream(ValueOf(s, hs), clock, n))
    decreases s, 2
  {
    hide ContentTypeHeader, Boundary, PrintHeaders, PrintMultipart, AppendPhrase, Invented, SharedMultipart, StreamMultipart;
    var own := HeadersAt(hs, s.id);
    match s.kind
    case SimplePart =>
    case MessagePart =>
      if |s.subparts| == 1 { UnsharedMessage(s, hs, clock, n); }
    case MultiPart =>
      if Boundary(ContentTypeHeader(own, s.defaultType)).Some? {
        UnsharedMultipart(s, hs, hs, Boundary(ContentTypeHeader(own, s.defaultType)).value, clock, n);
      } else {
        var b := Invented(clock(n));
        var completed := AppendPhrase(own, s.defaultType, b);
        if completed.Some? { UnsharedMultipart(s, hs, hs[s.id := completed.value], b, clock, n + 1); }
      }
  }

  lemma {:induction false} UnsharedMessage<Id>(s: Shape<Id>, hs: Store<Id>, clock: nat -> int, n: nat)
    requires Unshared(s) && s.kind == MessagePart && |s.subparts| == 1
    ensures Corresponds(s, StreamShared(s, hs, clock, n), Stream(ValueOf(s, hs), clock, n))
    decreases s, 1
  {
    hide PrintHeaders;
    var t := s.subparts[0];
    assert s.subparts == [t] && s.subparts[1..] == [];
    assert AllIds(s.subparts) == Ids(t) + {};
    UnsharedIs(t, hs, clock, n);
    var o := StreamShared(t, hs, clock, n);
    if o.Some? {
      OthersKept(t, hs, clock, n, s.id);
      assert ValuesOf(s.subparts, o.value.headers) == [ValueOf(t, o.value.headers)];
    }
  }

  // With the headers from which on it is printed
  lemma {:induction false} UnsharedMultipart<Id>(s: Shape<Id>, hs: Store<Id>, gs: Store<Id>, b: string, clock: nat -> int, n: nat)
    requires Unshared(s) && Agree(hs, gs, AllIds(s.subparts))
    ensures Corresponds(s, SharedMultipart(s, gs, b, clock, n), StreamMultipart(ValueOf(s, hs), HeadersAt(gs, s.id), b, clock, n))
    decreases s, 1
  {
    hide PrintHeaders, HeadersAt;
    SameValues(s.subparts, hs, gs);
    UnsharedAll(s.subparts, gs, clock, n);
    var all := SharedAll(s.subparts, gs, clock, n);
    if all.Some? { OthersAllKept(s.subparts, gs, clock, n, s.id); }
  }

  lemma {:induction false} UnsharedAll<Id>(ss: seq<Shape<Id>>, hs: Store<Id>, clock: nat -> int, n: nat)
    requires EachUnshared(ss)
    ensures var all := SharedAll(ss, hs, clock, n);
            StreamAll(ValuesOf(ss, hs), clock, n) ==
            if all.None? then None else Some((ValuesOf(ss, all.value.headers), all.value.texts, all.value.n))
    decreases ss, 0
  {
    hide StreamShared, Stream, ValueOf, Unshared, HeadersAt;
    if ss != [] {
      var rest := ss[1..];
      UnsharedIs(ss[0], hs, clock, n);
      var o := StreamShared(ss[0], hs, clock, n);
      if o.Some? {
        forall id | id in AllIds(rest) ensures HeadersAt(o.value.headers, id) == HeadersAt(hs, id) {
          OthersKept(ss[0], hs, clock, n, id);
        }
        SameValues(rest, hs, o.value.headers);
        UnsharedAll(rest, o.value.headers, clock, o.value.n);
        var all := SharedAll(rest, o.value.headers, clock, o.value.n);
        if all.Some? {
          forall id | id in Ids(ss[0]) ensures HeadersAt(all.value.headers, id) == HeadersAt(o.value.headers, id) {
            OthersAllKept(rest, o.value.headers, clock, o.value.n, id);
          }
          SameValue(ss[0], o.value.headers, all.value.headers);
        }
      }
    }
  }
}
