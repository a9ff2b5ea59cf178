// The part objects of the program: parsing builds a tree of them, printing walks it.

module MimeObjects {
  import opened Results
  import opened MimeText
  import opened MimeHeaders
  import opened MimeContentType
  import opened MimeMultipart
  import opened MimeParts
  import opened MimeInvention
  import opened MimeCompletion
  import opened MimeSharing
  import opened MimeSharedCompletion

  class OutStream {
    var text: string

    constructor ()
      ensures text == ""
    {
      text := "";
    }

    method Write(s: string)
      modifies this
      ensures text == old(text) + s
    {
      text := text + s;
    }
  }

  // std::clock, as a sequence of readings
  class Clock {
    const readings: nat -> int
    var n: nat

    constructor (readings: nat -> int)
      ensures this.readings == readings && n == 0
    {
      this.readings, n := readings, 0;
    }

    method Read() returns (t: int)
      modifies this
      ensures t == readings(old(n)) && n == old(n) + 1
    {
      t, n := readings(n), n + 1;
    }
  }

  class BasicMime {
    var kind: Kind
    var headers: seq<Header>
    var prologIsMissing: bool
    var body: string
    var epilog: string
    var subparts: seq<BasicMime>
    var defaultType: string
    ghost var repr: set<BasicMime>

    ghost predicate Valid()
      reads `subparts, `repr, repr`subparts, repr`repr
      decreases repr, 0
    {
      this in repr && AllValid(subparts, repr - {this})
    }

    // Objects whose trees lie within r
    static ghost predicate AllValid(ps: seq<BasicMime>, r: set<BasicMime>)
      reads r`subparts, r`repr
      decreases r, |ps|
    {
      ps == [] || (ps[0] in r && ps[0].repr <= r && ps[0].Valid() && AllValid(ps[1..], r))
    }

    // The part an object stands for
    ghost function Value(): Part
      requires Valid()
      reads this, repr
      decreases repr, 0
    {
      Part(kind, headers, prologIsMissing, body, epilog, Values(subparts, repr - {this}), defaultType)
    }

    static ghost function Values(ps: seq<BasicMime>, r: set<BasicMime>): (vs: seq<Part>)
      requires AllValid(ps, r)
      reads r
      ensures |vs| == |ps|
      decreases r, |ps|
    {
      if ps == [] then [] else [ps[0].Value()] + Values(ps[1..], r)
    }

    static lemma {:induction false} Widen(ps: seq<BasicMime>, r: set<BasicMime>, r2: set<BasicMime>)
      requires AllValid(ps, r) && r <= r2
      ensures AllValid(ps, r2) && Values(ps, r2) == Values(ps, r)
    {
      if ps != [] { Widen(ps[1..], r, r2); }
    }

    static lemma {:induction false} Snoc(ps: seq<BasicMime>, p: BasicMime, r: set<BasicMime>)
      requires AllValid(ps, r) && p in r && p.repr <= r && p.Valid()
      ensures AllValid(ps + [p], r) && Values(ps + [p], r) == Values(ps, r) + [p.Value()]
    {
      if ps == [] {
        assert ps + [p] == [p];
      } else {
        assert (ps + [p])[1..] == ps[1..] + [p];
        Snoc(ps[1..], p, r);
      }
    }

    // A part without a body or sub-parts; its kind comes from the headers.
    constructor (hs: seq<Header>, default: string, kind: Kind)
      ensures Valid() && Value() == Part(kind, hs, false, "", "", [], default)
      ensures repr == {this} && subparts == [] && this.kind == kind
    {
      this.kind, headers, prologIsMissing, body, epilog := kind, hs, false, "", "";
      subparts, defaultType, repr := [], default, {this};
    }

    // Whether a sub-part may be added: never to a simple part, only once to a message part.
    predicate CanAppend()
      reads this
    {
      kind == MultiPart || (kind == MessagePart && subparts == [])
    }

    method AppendPart(p: BasicMime) returns (ok: bool)
      requires Valid() && p.Valid() && this !in p.repr
      modifies `subparts, `repr
      ensures Valid() && kind == old(kind) && (ok <==> kind == MultiPart || (kind == MessagePart && old(subparts) == []))
      ensures repr == if ok then old(repr) + p.repr else old(repr)
      ensures Value() == if ok then old(Value()).(subparts := old(Value()).subparts + [p.Value()]) else old(Value())
    {
      ok := CanAppend();
      if ok {
        ghost var r := repr - {this};
        Widen(subparts, r, r + p.repr);
        Snoc(subparts, p, r + p.repr);
        subparts := subparts + [p];
        repr := repr + p.repr;
        assert repr - {this} == r + p.repr;
      }
    }

    // ---------- input ----------

    // Reads a part and everything under it; the exceptions of the program are errors.
    static method Parse(s: string, default: string) returns (r: Result<BasicMime, MimeError>)
      ensures ParseMime(s, default).Ok? ==>
                r.Ok? && fresh(r.value.repr) && r.value.Valid() && r.value.Value() == ParseMime(s, default).value
      ensures ParseMime(s, default).Err? ==> r == Err(ParseMime(s, default).error)
      decreases |s|, 1
    {
      hide ParseHeaders, ContentTypeHeader, ParseContentType, Boundary, ParseProlog, ParseMultipart, KindOf, SectionType, EqualIgnoringCase;
      var parsed := ParseHeaders(s);
      if parsed == None { return Err(BadHeaders); }
      var (hs, rest) := parsed.value;
      var header := ContentTypeHeader(hs, default);
      var contentType := ParseContentType(header);
      if contentType == None { return Err(BadContentType); }
      var ct := contentType.value;
      var p := new BasicMime(hs, default, KindOf(ct.kind, ct.subKind));
      match p.kind
      case SimplePart =>
        p.body := rest;
        r := Ok(p);
      case MessagePart =>
        var inner := Parse(rest, "text/plain");
        if inner.Err? { return inner; }
        var appended := p.AppendPart(inner.value);
        assert appended && [] + [inner.value.Value()] == [inner.value.Value()];
        r := Ok(p);
      case MultiPart =>
        var boundary := Boundary(header);
        if boundary == None { return Err(NoBoundary); }
        var error := p.ReadMultipartBody(rest, boundary.value, SectionType(ct), |s|);
        r := if error == None then Ok(p) else Err(error.value);
    }

    method ReadMultipartBody(s: string, boundary: string, default: string, ghost limit: nat) returns (error: Option<MimeError>)
      requires Valid() && kind == MultiPart && subparts == [] && repr == {this} && |s| < limit
      modifies this
      ensures fresh(repr - {this})
      ensures error == MultipartError(s, boundary, default, limit)
      ensures error == None ==>
                var prolog := ParseProlog(s, boundary).value;
                var (sections, bodyEpilog) := ParseMultipart(prolog.rest, boundary).value;
                && Valid()
                && Value() == Part(MultiPart, old(headers), prolog.isMissing, prolog.text, bodyEpilog,
                                   ParseAll(sections, default, limit).value, old(defaultType))
      decreases limit, 0, 1
    {
      hide ParseProlog, ParseMultipart, ParseAll;
      var prolog := ParseProlog(s, boundary);
      if prolog == None { return Some(BadProlog); }
      var split := ParseMultipart(prolog.value.rest, boundary);
      if split.Err? { return Some(BadSections(split.error)); }
      body, prologIsMissing := prolog.value.text, prolog.value.isMissing;
      error := AppendSections(split.value.0, default, limit);
      epilog := split.value.1;
    }

    // The first thing that goes wrong in the body of a multipart
    static ghost function MultipartError(s: string, b: string, default: string, limit: nat): Option<MimeError>
      requires |s| < limit
    {
      match ParseProlog(s, b)
      case None => Some(BadProlog)
      case Some(prolog) =>
        match ParseMultipart(prolog.rest, b)
        case Err(e) => Some(BadSections(e))
        case Ok((sections, _)) =>
          match ParseAll(sections, default, limit)
          case Err(e) => Some(e)
          case Ok(_) => None
    }

    method AppendSections(sections: seq<string>, default: string, ghost limit: nat) returns (error: Option<MimeError>)
      requires Valid() && kind == MultiPart && subparts == []
      requires forall t :: t in sections ==> |t| < limit
      modifies `subparts, `repr
      ensures fresh(repr - old(repr))
      ensures var all := ParseAll(sections, default, limit);
              error == if all.Err? then Some(all.error) else None
      ensures error == None ==> Valid() && Values(subparts, repr - {this}) == ParseAll(sections, default, limit).value
      decreases limit, 0, 0
    {
      hide ParseMime, ParseAll, After, AllValid, Values;
      ghost var added: seq<Part> := [];
      AllSections(sections, default, limit);
      var i := 0;
      while i < |sections|
        invariant i <= |sections| && fresh(repr - old(repr)) && Valid()
        invariant Values(subparts, repr - {this}) == added
        invariant ParseAll(sections, default, limit) == After(added, ParseAll(sections[i..], default, limit))
      {
        NextSection(added, sections, i, default, limit);
        var r := Parse(sections[i], default);
        if r.Err? { return Some(r.error); }
        var appended := AppendPart(r.value);
        added := added + [r.value.Value()];
        i := i + 1;
      }
      NoMoreSections(added, sections[i..], default, limit);
      error := None;
    }

    static ghost function After(added: seq<Part>, more: Result<seq<Part>, MimeError>): Result<seq<Part>, MimeError> {
      if more.Err? then more else Ok(added + more.value)
    }

    static lemma AllSections(sections: seq<string>, default: string, limit: nat)
      requires forall t :: t in sections ==> |t| < limit
      ensures After([], ParseAll(sections[0..], default, limit)) == ParseAll(sections, default, limit)
    {
      hide ParseAll;
      assert sections[0..] == sections;
      var all := ParseAll(sections, default, limit);
      if all.Ok? { assert [] + all.value == all.value; }
    }

    static lemma NoMoreSections(added: seq<Part>, sections: seq<string>, default: string, limit: nat)
      requires sections == []
      ensures After(added, ParseAll(sections, default, limit)) == Ok(added)
    {
      assert added + [] == added;
    }

    static lemma NextSection(added: seq<Part>, sections: seq<string>, i: nat, default: string, limit: nat)
      requires i < |sections| && forall t :: t in sections ==> |t| < limit
      ensures var one, more := ParseMime(sections[i], default), ParseAll(sections[i + 1..], default, limit);
              After(added, ParseAll(sections[i..], default, limit)) ==
              if one.Err? then Err(one.error) else After(added + [one.value], more)
    {
      hide ParseMime;
      assert sections[i..][0] == sections[i] && sections[i..][1..] == sections[i + 1..];
      var one, more := ParseMime(sections[i], default), ParseAll(sections[i + 1..], default, limit);
      if one.Ok? && more.Ok? {
        assert added + ([one.value] + more.value) == added + [one.value] + more.value;
      }
    }

    // ---------- output ----------

    method WriteHeaders(out: OutStream)
      modifies out
      ensures out.text == old(out.text) + PrintHeaders(headers)
    {
      hide PrintHeaderLines;
      var i := 0;
      assert headers[0..] == headers;
      while i < |headers|
        invariant i <= |headers|
        invariant out.text + PrintHeaderLines(headers[i..]) == old(out.text) + PrintHeaderLines(headers)
      {
        HeaderStep(out.text, headers, i);
        out.Write(headers[i].name);
        out.Write(":");
        out.Write(headers[i].value);
        out.Write(CRLF);
        i := i + 1;
      }
      HeadersEnd(old(out.text), headers, out.text);
      out.Write(CRLF);
    }

    static lemma HeaderStep(before: string, hs: seq<Header>, i: nat)
      requires i < |hs|
      ensures before + PrintHeaderLines(hs[i..]) == before + hs[i].name + ":" + hs[i].value + CRLF + PrintHeaderLines(hs[i + 1..])
    {
      assert hs[i..][0] == hs[i] && hs[i..][1..] == hs[i + 1..];
    }

    static lemma HeadersEnd(before: string, hs: seq<Header>, text: string)
      requires text + PrintHeaderLines(hs[|hs|..]) == before + PrintHeaderLines(hs)
      ensures text + CRLF == before + PrintHeaders(hs)
    {
      assert hs[|hs|..] == [] && text + "" == text;
      assert before + PrintHeaders(hs) == before + PrintHeaderLines(hs) + CRLF;
    }

    static method WriteBoundary(out: OutStream, boundary: string, isLast: bool, leadingCR: bool)
      modifies out
      ensures out.text == old(out.text) + BoundaryLine(boundary, isLast, leadingCR)
    {
      if leadingCR { out.Write(CRLF); }
      out.Write("--" + boundary);
      if isLast { out.Write("--"); }
      out.Write(CRLF);
    }

    // All of a part and those under it but the headers
    ghost function ShapeOf(): Shape<BasicMime>
      requires Valid()
      reads `kind, `prologIsMissing, `body, `epilog, `subparts, `defaultType, `repr
      reads repr`kind, repr`prologIsMissing, repr`body, repr`epilog, repr`subparts, repr`defaultType, repr`repr
      decreases repr, 0
    {
      Shape(this, kind, prologIsMissing, body, epilog, Shapes(subparts, repr - {this}), defaultType)
    }

    static ghost function Shapes(ps: seq<BasicMime>, r: set<BasicMime>): (ss: seq<Shape<BasicMime>>)
      requires AllValid(ps, r)
      reads r`kind, r`prologIsMissing, r`body, r`epilog, r`subparts, r`defaultType, r`repr
      ensures |ss| == |ps|
      decreases r, |ps|
    {
      if ps == [] then [] else [ps[0].ShapeOf()] + Shapes(ps[1..], r)
    }

    static ghost function HeadersIn(all: set<BasicMime>): Store<BasicMime>
      reads all`headers
    {
      map o | o in all :: o.headers
    }

    static lemma HeadersAre(all: set<BasicMime>)
      ensures forall o :: o in all ==> o in HeadersIn(all) && HeadersIn(all)[o] == o.headers
    {
    }

    static lemma {:induction false} ShapeAt(ps: seq<BasicMime>, r: set<BasicMime>, k: nat)
      requires AllValid(ps, r) && k < |ps|
      ensures ps[k] in r && ps[k].repr <= r && ps[k].Valid() && Shapes(ps, r)[k] == ps[k].ShapeOf()
    {
      if k > 0 { ShapeAt(ps[1..], r, k - 1); }
    }

    lemma ShapeIs()
      requires Valid()
      ensures this in repr && |ShapeOf().subparts| == |subparts|
      ensures ShapeOf() == Shape(this, kind, prologIsMissing, body, epilog, ShapeOf().subparts, defaultType)
      ensures forall k :: 0 <= k < |subparts| ==>
                && subparts[k] in repr && subparts[k].repr <= repr - {this} && subparts[k].Valid()
                && ShapeOf().subparts[k] == subparts[k].ShapeOf()
    {
      forall k | 0 <= k < |subparts|
        ensures subparts[k] in repr && subparts[k].repr <= repr - {this} && subparts[k].Valid()
        ensures ShapeOf().subparts[k] == subparts[k].ShapeOf()
      {
        ShapeAt(subparts, repr - {this}, k);
      }
    }

    // The part an object stands for is its shape with the headers.
    lemma {:induction false} ValueIs(all: set<BasicMime>)
      requires Valid() && repr <= all
      ensures Value() == ValueOf(ShapeOf(), HeadersIn(all))
      decreases repr, 0
    {
      ValuesAre(subparts, repr - {this}, all);
    }

    static lemma {:induction false} ValuesAre(ps: seq<BasicMime>, r: set<BasicMime>, all: set<BasicMime>)
      requires AllValid(ps, r) && r <= all
      ensures Values(ps, r) == ValuesOf(Shapes(ps, r), HeadersIn(all))
      decreases r, |ps|
    {
      hide HeadersIn;
      if ps != [] {
        ps[0].ValueIs(all);
        ValuesAre(ps[1..], r, all);
      }
    }

    static ghost function FactsOf(all: set<BasicMime>): Facts<BasicMime>
      reads all`kind, all`defaultType
    {
      map o | o in all :: (o.kind, o.defaultType)
    }

    lemma {:induction false} IsCoherent(all: set<BasicMime>)
      requires Valid() && repr <= all
      ensures Coherent(ShapeOf(), FactsOf(all))
      decreases repr, 0
    {
      AreCoherent(subparts, repr - {this}, all);
    }

    static lemma {:induction false} AreCoherent(ps: seq<BasicMime>, r: set<BasicMime>, all: set<BasicMime>)
      requires AllValid(ps, r) && r <= all
      ensures EachCoherent(Shapes(ps, r), FactsOf(all))
      decreases r, |ps|
    {
      hide FactsOf;
      if ps != [] {
        ps[0].IsCoherent(all);
        AreCoherent(ps[1..], r, all);
      }
    }

    // Adds a boundary to the Content-Type header, which is made first if there is none.
    method AppendPhraseToContentType(b: string) returns (ok: bool)
      modifies `headers
      ensures var hs := AppendPhrase(old(headers), defaultType, b);
              ok == hs.Some? && headers == if ok then hs.value else WithContentType(old(headers), defaultType)
    {
      hide ContentTypeHeader, ParseContentType, FindPhrase, AppendToFirst, HasContentType, BoundaryPhrase;
      if !HasContentType(headers) { headers := headers + [Header("Content-Type", defaultType)]; }
      var header := ContentTypeHeader(headers, defaultType);
      SameContentType(old(headers), defaultType);
      var contentType := ParseContentType(header);
      if contentType == None || FindPhrase(contentType.value.phrases, "boundary") != None { return false; }
      headers := AppendToFirst(headers, BoundaryPhrase(b));
      ok := true;
    }

    static lemma SameContentType(hs: seq<Header>, default: string)
      ensures ContentTypeHeader(WithContentType(hs, default), default) == ContentTypeHeader(hs, default)
    {
      HeaderAppended(hs, default, "");
      AppendedNothing(WithContentType(hs, default));
      assert ContentTypeHeader(hs, default) + "" == ContentTypeHeader(hs, default);
    }

    static lemma {:induction false} AppendedNothing(hs: seq<Header>)
      ensures AppendToFirst(hs, "") == hs
    {
      if hs != [] {
        AppendedNothing(hs[1..]);
        assert hs[0].value + "" == hs[0].value && hs == [hs[0]] + hs[1..];
      }
    }

    // The boundary, one from the clock if the header has none; false if the header is no content type.
    method FindOrInventBoundary(clock: Clock) returns (ok: bool, b: string)
      modifies clock, `headers
      ensures var found := Boundary(ContentTypeHeader(old(headers), defaultType));
              var hs := AppendPhrase(old(headers), defaultType, Invented(clock.readings(old(clock.n))));
              if found.Some? then ok && b == found.value && headers == old(headers) && clock.n == old(clock.n)
              else ok == hs.Some? && b == Invented(clock.readings(old(clock.n))) && clock.n == old(clock.n) + 1
                   && headers == if ok then hs.value else WithContentType(old(headers), defaultType)
    {
      var boundary := Boundary(ContentTypeHeader(headers, defaultType));
      if boundary == None {
        var t := clock.Read();
        b := Invented(t);
        ok := AppendPhraseToContentType(b);
      } else {
        ok, b := true, boundary.value;
      }
    }

    // What a part printed, or failed to, after some text
    static ghost predicate Came(s: Option<Output<BasicMime>>, ok: bool, before: string, hs: Store<BasicMime>, text: string, n: nat) {
      ok == s.Some? && (ok ==> hs == s.value.headers && text == before + s.value.text && n == s.value.n)
    }

    // operator<<: with the boundaries added, the part prints the same exactly if the grammar takes every
    // header that has got one to its end.
    method Print(out: OutStream, clock: Clock) returns (ok: bool)
      requires Valid()
      modifies out, clock, repr`headers
      ensures old(Unshared(ShapeOf()) || PrintMime(Value()).Some?) ==>
                var s := Stream(old(Value()), clock.readings, old(clock.n));
                && ok == s.Some?
                && (ok ==> Value() == s.value.part && out.text == old(out.text) + s.value.text && clock.n == s.value.n)
      ensures PrintMime(old(Value())).Some? ==> ok && forall o :: o in repr ==> o.headers == old(o.headers)
      ensures ok ==> old(out.text) <= out.text
                     && (PrintMime(Value()) == Some(out.text[|old(out.text)|..]) <==> AllTaken(old(Value())))
    {
      hide StreamShared, Stream, PrintMime, ValueOf, AllTaken, Valid, Value, ShapeOf, Unshared, Coherent, HeadersIn;
      ghost var s, hs, fs, n := ShapeOf(), HeadersIn(repr), FactsOf(repr), clock.n;
      HeadersAre(repr);
      ValueIs(repr);
      IsCoherent(repr);
      ok := StreamOut(out, clock, repr);
      ValueIs(repr);
      if Unshared(s) { UnsharedIs(s, hs, clock.readings, n); }
      if PrintMime(ValueOf(s, hs)).Some? {
        SharedPrinted(s, hs, clock.readings, n);
        StreamPrinted(ValueOf(s, hs), clock.readings, n);
        HeadersAre(repr);
      }
      if ok { SharedExactly(s, hs, clock.readings, n, fs); }
    }

    // Writes the part, adding the boundaries that are missing; false stands for the exception that
    // the program throws.  The tree lies within the given parts.
    method StreamOut(out: OutStream, clock: Clock, ghost all: set<BasicMime>) returns (ok: bool)
      requires Valid() && repr <= all
      modifies out, clock, repr`headers
      ensures var s := StreamShared(old(ShapeOf()), old(HeadersIn(all)), clock.readings, old(clock.n));
              Came(s, ok, old(out.text), HeadersIn(all), out.text, clock.n)
      decreases repr, 3
    {
      hide ContentTypeHeader, Boundary, PrintHeaders, AppendPhrase, Invented, SharedMultipart, Valid, ShapeOf;
      ShapeIs();
      if kind == SimplePart {
        WriteHeaders(out);
        out.Write(body);
        return true;
      } else if kind == MessagePart {
        if |subparts| != 1 { return false; }
        WriteHeaders(out);
        ok := subparts[0].StreamOut(out, clock, all);
      } else {
        ok := StreamMultipartOut(out, clock, all);
      }
    }

    method StreamMultipartOut(out: OutStream, clock: Clock, ghost all: set<BasicMime>) returns (ok: bool)
      requires Valid() && kind == MultiPart && repr <= all
      modifies out, clock, repr`headers
      ensures var s := StreamShared(old(ShapeOf()), old(HeadersIn(all)), clock.readings, old(clock.n));
              Came(s, ok, old(out.text), HeadersIn(all), out.text, clock.n)
      decreases repr, 2
    {
      hide ContentTypeHeader, Boundary, PrintHeaders, AppendPhrase, Invented, SharedMultipart, Valid, ShapeOf;
      ShapeIs();
      ghost var hs := HeadersIn(all);
      var b: string;
      ok, b := FindOrInventBoundary(clock);
      if ok {
        assert HeadersIn(all) == hs[this := headers];
        assert headers == hs[this] ==> hs[this := headers] == hs;
        ok := StreamSections(out, clock, b, all);
      }
    }

    // Printing from the headers on, with the boundary they have now
    method StreamSections(out: OutStream, clock: Clock, b: string, ghost all: set<BasicMime>) returns (ok: bool)
      requires Valid() && kind == MultiPart && repr <= all
      modifies out, clock, (repr - {this})`headers
      ensures var s := SharedMultipart(old(ShapeOf()), old(HeadersIn(all)), b, clock.readings, old(clock.n));
              Came(s, ok, old(out.text), HeadersIn(all), out.text, clock.n)
      decreases repr, 1
    {
      hide PrintHeaders, BoundaryLine, Written, SharedMultipart, Valid, ShapeOf;
      ShapeIs();
      MultipartIs(out.text, ShapeOf(), HeadersIn(all), b, clock.readings, clock.n);
      assert HeadersAt(HeadersIn(all), this) == headers;
      WriteHeaders(out);
      out.Write(body);
      ok := WriteSections(out, clock, b, all);
      if ok {
        WriteBoundary(out, b, true, true);
        out.Write(epilog);
      }
    }

    // Each sub-part after its separator line; the first line has no leading line end when the
    // prolog is missing.
    method WriteSections(out: OutStream, clock: Clock, boundary: string, ghost all: set<BasicMime>) returns (ok: bool)
      requires Valid() && repr <= all
      modifies out, clock, (repr - {this})`headers
      ensures var w := Written(old(out.text), old(ShapeOf()).subparts, old(HeadersIn(all)), clock.readings, old(clock.n),
                               boundary, |body| > 0 || !prologIsMissing);
              ok == w.Some? && (ok ==> w.value == Output(HeadersIn(all), out.text, clock.n))
      decreases repr, 0
    {
      hide BoundaryLine, SectionsText, Written, StreamShared, Valid, ShapeOf, HeadersIn;
      ShapeIs();
      ghost var ss, c := ShapeOf().subparts, clock.readings;
      var writeCR := |body| > 0 || !prologIsMissing;
      ghost var goal := Written(out.text, ss, HeadersIn(all), c, clock.n, boundary, writeCR);
      assert ss[0..] == ss;
      var i := 0;
      while i < |subparts|
        invariant i <= |subparts| == |ss| && Valid() && ShapeOf().subparts == ss
        invariant goal == Written(out.text, ss[i..], HeadersIn(all), c, clock.n, boundary, writeCR)
      {
        SectionsStep(out.text, ss, i, HeadersIn(all), c, clock.n, boundary, writeCR);
        ShapeIs();
        WriteBoundary(out, boundary, false, writeCR);
        var done := subparts[i].StreamOut(out, clock, all);
        if !done { return false; }
        writeCR := true;
        i := i + 1;
      }
      NoSections(out.text, ss[i..], HeadersIn(all), c, clock.n, boundary, writeCR);
      ok := true;
    }

    // The output once sections have been written after it
    static ghost function Written(before: string, ss: seq<Shape<BasicMime>>, hs: Store<BasicMime>, c: nat -> int, n: nat,
                                  b: string, leadingCR: bool): Option<Output<BasicMime>>
    {
      match SharedAll(ss, hs, c, n)
      case None => None
      case Some(all) => Some(Output(all.headers, before + SectionsText(all.texts, b, leadingCR), all.n))
    }

    static lemma SectionsStep(before: string, ss: seq<Shape<BasicMime>>, i: nat, hs: Store<BasicMime>, c: nat -> int, n: nat,
                              b: string, leadingCR: bool)
      requires i < |ss|
      ensures var one := StreamShared(ss[i], hs, c, n);
              Written(before, ss[i..], hs, c, n, b, leadingCR) ==
              if one.None? then None
              else Written(before + BoundaryLine(b, false, leadingCR) + one.value.text, ss[i + 1..], one.value.headers, c, one.value.n, b, true)
    {
      hide BoundaryLine, StreamShared;
      assert ss[i..][0] == ss[i] && ss[i..][1..] == ss[i + 1..];
      if SharedAll(ss[i..], hs, c, n).Some? {
        var one := StreamShared(ss[i], hs, c, n).value;
        var ts := SharedAll(ss[i + 1..], one.headers, c, one.n).value.texts;
        var line, more := BoundaryLine(b, false, leadingCR), SectionsText(ts, b, true);
        assert ([one.text] + ts)[1..] == ts;
        assert before + (line + one.text + more) == before + line + one.text + more;
      }
    }

    static lemma NoSections(before: string, ss: seq<Shape<BasicMime>>, hs: Store<BasicMime>, c: nat -> int, n: nat,
                            b: string, leadingCR: bool)
      requires ss == []
      ensures Written(before, ss, hs, c, n, b, leadingCR) == Some(Output(hs, before, n))
    {
      assert before + "" == before;
    }

    static function SectionsText(ts: seq<string>, b: string, leadingCR: bool): string {
      if ts == [] then "" else BoundaryLine(b, false, leadingCR) + ts[0] + SectionsText(ts[1..], b, true)
    }

    static lemma {:induction false} SectionsAre(ts: seq<string>, b: string, leadingCR: bool)
      requires ts != []
      ensures SectionsText(ts, b, leadingCR) == BoundaryLine(b, false, leadingCR) + JoinSections(ts, b)
    {
      if |ts| > 1 { SectionsAre(ts[1..], b, true); }
    }

    // A multipart written after other output
    static lemma MultipartIs(before: string, s: Shape<BasicMime>, hs: Store<BasicMime>, b: string, c: nat -> int, n: nat)
      ensures var own := PrintHeaders(HeadersAt(hs, s.id));
              var sections := Written(before + own + s.body, s.subparts, hs, c, n, b, |s.body| > 0 || !s.prologIsMissing);
              var o := SharedMultipart(s, hs, b, c, n);
              && (sections.Some? <==> o.Some?)
              && (o.Some? ==> sections.value.text + BoundaryLine(b, true, true) + s.epilog == before + o.value.text
                              && o.value.headers == sections.value.headers && o.value.n == sections.value.n)
    {
      hide BoundaryLine, PrintMultipart, SectionsText, SharedAll, PrintHeaders, HeadersAt;
      if SharedAll(s.subparts, hs, c, n).None? { return; }
      var ts, leadingCR := SharedAll(s.subparts, hs, c, n).value.texts, |s.body| > 0 || !s.prologIsMissing;
      MultipartPieces(ValueOf(s, hs), ts, b);
      Regroup(before, PrintHeaders(HeadersAt(hs, s.id)), s.body, SectionsText(ts, b, leadingCR), BoundaryLine(b, true, true), s.epilog);
    }

    static lemma MultipartPieces(p: Part, ts: seq<string>, b: string)
      ensures PrintMultipart(p, ts, b) ==
              p.body + SectionsText(ts, b, |p.body| > 0 || !p.prologIsMissing) + BoundaryLine(b, true, true) + p.epilog
    {
      hide BoundaryLine;
      if ts != [] { SectionsAre(ts, b, |p.body| > 0 || !p.prologIsMissing); }
    }

    static lemma Regroup(before: string, hs: string, prolog: string, sections: string, line: string, epilog: string)
      ensures before + hs + prolog + sections + line + epilog == before + (hs + (prolog + sections + line + epilog))
    {
    }
  }
}
