// Parts that have got boundaries: when they print the text that was printed, and when they are parsed
// back.

module MimeCompletion {
  import opened Results
  import opened MimeText
  import opened MimeHeaders
  import opened MimeContentType
  import opened MimeMultipart
  import opened MimeParts
  import opened MimeInvention

  // No header that gets a boundary has something after what the grammar takes.
  ghost predicate AllTaken(p: Part)
    decreases p, 1
  {
    match p.kind
    case SimplePart => true
    case MessagePart => EachTaken(p.subparts)
    case MultiPart =>
      var header := ContentTypeHeader(p.headers, p.defaultType);
      (Boundary(header).None? ==> TakenWhole(header)) && EachTaken(p.subparts)
  }

  ghost predicate EachTaken(ps: seq<Part>)
    decreases ps, 0
  {
    ps == [] || (AllTaken(ps[0]) && EachTaken(ps[1..]))
  }

  // The text is that of the completed part.
  lemma {:induction false} CompletedText(p: Part, clock: nat -> int, n: nat)
    requires Stream(p, clock, n).Some? && AllTaken(p)
    ensures PrintMime(Stream(p, clock, n).value.part) == Some(Stream(p, clock, n).value.text)
    decreases p, 1
  {
    hide ContentTypeHeader, Boundary, PrintHeaders, AppendToFirst, Invented, TakenWhole, ParseContentType, HasContentType;
    match p.kind
    case SimplePart =>
    case MessagePart =>
      CompletedText(p.subparts[0], clock, n);
    case MultiPart =>
      var header := ContentTypeHeader(p.headers, p.defaultType);
      if Boundary(header).Some? {
        CompletedTexts(p.subparts, clock, n);
      } else {
        CompletedTexts(p.subparts, clock, n + 1);
        BoundaryFound(header, clock(n));
        HeaderAppended(p.headers, p.defaultType, BoundaryPhrase(Invented(clock(n))));
      }
  }

  lemma {:induction false} CompletedTexts(ps: seq<Part>, clock: nat -> int, n: nat)
    requires StreamAll(ps, clock, n).Some? && EachTaken(ps)
    ensures PrintAll(StreamAll(ps, clock, n).value.0) == Some(StreamAll(ps, clock, n).value.1)
    decreases ps, 0
  {
    hide Stream, PrintMime, AllTaken;
    if ps != [] {
      var s := Stream(ps[0], clock, n).value;
      CompletedText(ps[0], clock, n);
      CompletedTexts(ps[1..], clock, s.n);
      var qs := StreamAll(ps, clock, n).value.0;
      assert qs[1..] == StreamAll(ps[1..], clock, s.n).value.0;
    }
  }

  // ---------- texts that part ways ----------

  // Neither is the beginning of the other.
  ghost predicate Diverge(a: string, b: string) {
    exists k :: 0 <= k < |a| && k < |b| && a[..k] == b[..k] && a[k] != b[k]
  }

  lemma DivergeBetween(before: string, a: string, b: string, x: string, y: string)
    requires Diverge(a, b)
    ensures Diverge(before + a + x, before + b + y)
  {
    var k :| 0 <= k < |a| && k < |b| && a[..k] == b[..k] && a[k] != b[k];
    var s, t := before + a + x, before + b + y;
    var i := |before| + k;
    assert s[..i] == before + a[..k] && t[..i] == before + b[..k];
    assert s[i] == a[k] && t[i] == b[k];
  }

  // Texts without CR, up to a CR
  lemma {:induction false} LinesDiverge(a: string, b: string)
    requires a != b && '\r' !in a && '\r' !in b
    ensures Diverge(a + CRLF, b + CRLF)
  {
    var s, t := a + CRLF, b + CRLF;
    if a == "" || b == "" || a[0] != b[0] {
      assert s[..0] == t[..0] && s[0] != t[0];
    } else {
      assert a == [a[0]] + a[1..] && b == [b[0]] + b[1..];
      LinesDiverge(a[1..], b[1..]);
      DivergeBetween([a[0]], a[1..] + CRLF, b[1..] + CRLF, "", "");
      assert s == [a[0]] + (a[1..] + CRLF) + "" && t == [a[0]] + (b[1..] + CRLF) + "";
    }
  }

  lemma BoundaryLinesDiverge(before: string, b: string, c: string, isLast: bool, leadingCR: bool, x: string, y: string)
    requires b != c && All(b, IsPrintable) && All(c, IsPrintable)
    ensures Diverge(before + BoundaryLine(b, isLast, leadingCR) + x, before + BoundaryLine(c, isLast, leadingCR) + y)
  {
    hide Diverge, BoundaryLine;
    var start, end := (if leadingCR then CRLF else "") + "--", if isLast then "--" else "";
    NoCR(b, end);
    NoCR(c, end);
    assert b == (b + end)[..|b|] && c == (c + end)[..|c|];
    LinesDiverge(b + end, c + end);
    DivergeBetween(before + start, b + end + CRLF, c + end + CRLF, x, y);
    LineAround(before, b, isLast, leadingCR, x);
    LineAround(before, c, isLast, leadingCR, y);
  }

  lemma NoCR(b: string, end: string)
    requires All(b, IsPrintable) && (end == "" || end == "--")
    ensures '\r' !in b + end
  {
  }

  lemma LineAround(before: string, b: string, isLast: bool, leadingCR: bool, x: string)
    ensures before + BoundaryLine(b, isLast, leadingCR) + x ==
            before + ((if leadingCR then CRLF else "") + "--") + (b + (if isLast then "--" else "") + CRLF) + x
  {
    var start, end := (if leadingCR then CRLF else "") + "--", if isLast then "--" else "";
    assert BoundaryLine(b, isLast, leadingCR) == start + (b + end + CRLF);
    Associate(before, start, b + end + CRLF, x);
  }

  lemma Associate(a: string, b: string, c: string, d: string)
    ensures a + (b + c) + d == a + b + c + d && a + (b + c + d) == a + b + (c + d)
  {
  }

  // The first two that are not equal diverge.
  ghost predicate FirstDiverge(ts: seq<string>, us: seq<string>) {
    ts != [] && us != [] && (Diverge(ts[0], us[0]) || (ts[0] == us[0] && FirstDiverge(ts[1..], us[1..])))
  }

  lemma {:induction false} SectionsDiverge(ts: seq<string>, us: seq<string>, b: string, x: string, y: string)
    requires FirstDiverge(ts, us) && |ts| == |us|
    ensures Diverge(JoinSections(ts, b) + x, JoinSections(us, b) + y)
  {
    hide Diverge, BoundaryLine;
    if |ts| == 1 {
      DivergeBetween("", ts[0], us[0], x, y);
      assert "" + ts[0] + x == JoinSections(ts, b) + x && "" + us[0] + y == JoinSections(us, b) + y;
    } else {
      var line := BoundaryLine(b, false, true);
      var more, others := JoinSections(ts[1..], b), JoinSections(us[1..], b);
      assert JoinSections(ts, b) + x == ts[0] + (line + more + x) && JoinSections(us, b) + y == us[0] + (line + others + y);
      if Diverge(ts[0], us[0]) {
        DivergeBetween("", ts[0], us[0], line + more + x, line + others + y);
        assert "" + ts[0] == ts[0] && "" + us[0] == us[0];
      } else {
        SectionsDiverge(ts[1..], us[1..], b, x, y);
        DivergeBetween(ts[0] + line, more + x, others + y, "", "");
        assert JoinSections(ts, b) + x == ts[0] + line + (more + x) + "";
        assert JoinSections(us, b) + y == ts[0] + line + (others + y) + "";
      }
    }
  }

  // Two multiparts with different boundaries
  lemma MultipartsDiverge(p: Part, q: Part, hs: string, ts: seq<string>, us: seq<string>, b: string, c: string)
    requires b != c && All(b, IsPrintable) && All(c, IsPrintable) && |ts| == |us|
    requires q.body == p.body && q.prologIsMissing == p.prologIsMissing
    ensures Diverge(hs + PrintMultipart(p, ts, b), hs + PrintMultipart(q, us, c))
  {
    hide Diverge, BoundaryLine, JoinSections;
    if ts == [] {
      BoundaryLinesDiverge(hs + p.body, b, c, true, true, p.epilog, q.epilog);
      assert hs + PrintMultipart(p, ts, b) == hs + p.body + BoundaryLine(b, true, true) + p.epilog;
      assert hs + PrintMultipart(q, us, c) == hs + p.body + BoundaryLine(c, true, true) + q.epilog;
    } else {
      var leadingCR := |p.body| > 0 || !p.prologIsMissing;
      var x, y := JoinSections(ts, b) + BoundaryLine(b, true, true) + p.epilog, JoinSections(us, c) + BoundaryLine(c, true, true) + q.epilog;
      BoundaryLinesDiverge(hs + p.body, b, c, false, leadingCR, x, y);
      assert hs + PrintMultipart(p, ts, b) == hs + p.body + BoundaryLine(b, false, leadingCR) + x;
      assert hs + PrintMultipart(q, us, c) == hs + p.body + BoundaryLine(c, false, leadingCR) + y;
    }
  }

  // Two multiparts with the same boundary and different sections
  lemma BodiesDiverge(p: Part, q: Part, hs: string, ts: seq<string>, us: seq<string>, b: string)
    requires FirstDiverge(ts, us) && |ts| == |us|
    requires q.body == p.body && q.prologIsMissing == p.prologIsMissing
    ensures Diverge(hs + PrintMultipart(p, ts, b), hs + PrintMultipart(q, us, b))
  {
    hide Diverge, BoundaryLine, JoinSections, PrintMultipart, PrintPrologLine, FirstDiverge;
    var x, y := BoundaryLine(b, true, true) + p.epilog, BoundaryLine(b, true, true) + q.epilog;
    assert ts != [] by { NotEmpty(ts, us); }
    SectionsDiverge(ts, us, b, x, y);
    DivergeBetween(hs + PrintPrologLine(p.prologIsMissing, p.body, b), JoinSections(ts, b) + x, JoinSections(us, b) + y, "", "");
    BodyIs(p, hs, ts, b);
    BodyIs(q, hs, us, b);
  }

  lemma NotEmpty(ts: seq<string>, us: seq<string>)
    requires FirstDiverge(ts, us)
    ensures ts != [] && us != []
  {
  }

  lemma BodyIs(p: Part, hs: string, ts: seq<string>, b: string)
    requires ts != []
    ensures hs + PrintMultipart(p, ts, b) ==
            hs + PrintPrologLine(p.prologIsMissing, p.body, b) + (JoinSections(ts, b) + (BoundaryLine(b, true, true) + p.epilog)) + ""
  {
    hide BoundaryLine, JoinSections, PrintPrologLine;
    var line, join, close := PrintPrologLine(p.prologIsMissing, p.body, b), JoinSections(ts, b), BoundaryLine(b, true, true);
    Associate(line, join, close, p.epilog);
    Associate(hs, line, join + (close + p.epilog), "");
  }

  // ---------- the exact condition ----------

  // If some header is not taken to its end, the completed part prints another text, or none.
  lemma {:induction false} OtherText(p: Part, clock: nat -> int, n: nat)
    requires Stream(p, clock, n).Some? && !AllTaken(p)
    ensures var s := Stream(p, clock, n).value; PrintMime(s.part).Some? ==> Diverge(s.text, PrintMime(s.part).value)
    decreases p, 1
  {
    hide ContentTypeHeader, Boundary, PrintHeaders, PrintMultipart, AppendPhrase, Invented, TakenWhole, Diverge, PrintAll;
    var s := Stream(p, clock, n).value;
    if PrintMime(s.part).None? { return; }
    match p.kind
    case MessagePart =>
      var inner := Stream(p.subparts[0], clock, n).value;
      assert p.subparts[1..] == [] && EachTaken(p.subparts[1..]);
      OtherText(p.subparts[0], clock, n);
      DivergeBetween(PrintHeaders(p.headers), inner.text, PrintMime(inner.part).value, "", "");
      assert s.text == PrintHeaders(p.headers) + inner.text + "";
      assert PrintMime(s.part).value == PrintHeaders(p.headers) + PrintMime(inner.part).value + "";
    case MultiPart =>
      var header := ContentTypeHeader(p.headers, p.defaultType);
      var m := if Boundary(header).Some? then n else n + 1;
      var b := if Boundary(header).Some? then Boundary(header).value else Invented(clock(n));
      var found := Boundary(ContentTypeHeader(s.part.headers, p.defaultType)).value;
      var ts, us := StreamAll(p.subparts, clock, m).value.1, PrintAll(s.part.subparts).value;
      if Boundary(header).None? { CompletedHeader(p.headers, p.defaultType, clock(n)); }
      if b != found {
        MultipartsDiverge(p, s.part, PrintHeaders(s.part.headers), ts, us, b, found);
      } else {
        OtherTexts(p.subparts, clock, m);
        BodiesDiverge(p, s.part, PrintHeaders(s.part.headers), ts, us, b);
      }
  }

  lemma {:induction false} OtherTexts(ps: seq<Part>, clock: nat -> int, n: nat)
    requires StreamAll(ps, clock, n).Some? && !EachTaken(ps)
    ensures var (qs, ts, _) := StreamAll(ps, clock, n).value; PrintAll(qs).Some? ==> FirstDiverge(ts, PrintAll(qs).value)
    decreases ps, 0
  {
    hide Stream, PrintMime, AllTaken, Diverge;
    var s := Stream(ps[0], clock, n).value;
    var qs := StreamAll(ps, clock, n).value.0;
    assert qs[1..] == StreamAll(ps[1..], clock, s.n).value.0;
    if AllTaken(ps[0]) {
      CompletedText(ps[0], clock, n);
      OtherTexts(ps[1..], clock, s.n);
    } else {
      OtherText(ps[0], clock, n);
    }
  }

  // The header of a multipart that has got a boundary
  lemma CompletedHeader(hs: seq<Header>, default: string, clock: int)
    requires AppendPhrase(hs, default, Invented(clock)).Some?
    ensures var completed := AppendPhrase(hs, default, Invented(clock)).value;
            Boundary(ContentTypeHeader(completed, default)) == Some(Invented(clock)) <==> TakenWhole(ContentTypeHeader(hs, default))
  {
    hide ContentTypeHeader, Boundary, ParseContentType, HasContentType, AppendToFirst, Invented, TakenWhole, BoundaryPhrase;
    HeaderAppended(hs, default, BoundaryPhrase(Invented(clock)));
    BoundaryFound(ContentTypeHeader(hs, default), clock);
  }

  // A part with its boundaries added prints the text that was printed exactly if the grammar takes
  // every header that has got one to its end.
  lemma CompletedExactly(p: Part, clock: nat -> int, n: nat)
    requires Stream(p, clock, n).Some?
    ensures var s := Stream(p, clock, n).value; PrintMime(s.part) == Some(s.text) <==> AllTaken(p)
  {
    hide Stream, PrintMime, AllTaken;
    if AllTaken(p) { CompletedText(p, clock, n); } else { OtherText(p, clock, n); }
  }

  // The clock is read for every boundary that is added, and only then.
  lemma {:induction false} ClockRead(p: Part, clock: nat -> int, n: nat)
    requires Stream(p, clock, n).Some?
    ensures var s := Stream(p, clock, n).value; s.n >= n && (s.n == n ==> PrintMime(p) == Some(s.text))
    decreases p, 1
  {
    hide ContentTypeHeader, Boundary, PrintHeaders, PrintMultipart, AppendPhrase, Invented;
    match p.kind
    case SimplePart =>
    case MessagePart =>
      ClockRead(p.subparts[0], clock, n);
    case MultiPart =>
      ClockReadAll(p.subparts, clock, if Boundary(ContentTypeHeader(p.headers, p.defaultType)).Some? then n else n + 1);
  }

  lemma {:induction false} ClockReadAll(ps: seq<Part>, clock: nat -> int, n: nat)
    requires StreamAll(ps, clock, n).Some?
    ensures var (_, ts, m) := StreamAll(ps, clock, n).value; m >= n && (m == n ==> PrintAll(ps) == Some(ts))
    decreases ps, 0
  {
    hide Stream, PrintMime;
    if ps != [] {
      ClockRead(ps[0], clock, n);
      ClockReadAll(ps[1..], clock, Stream(ps[0], clock, n).value.n);
    }
  }

  // That is also when it is printed the same way again without a look at the clock; and it is parsed
  // back exactly if, besides, it is well-formed.
  lemma CompletedRoundTrip(p: Part, clock: nat -> int, n: nat, default: string)
    requires Stream(p, clock, n).Some?
    ensures var s := Stream(p, clock, n).value;
            ParseMime(s.text, default) == Ok(s.part) <==> AllTaken(p) && WellFormed(s.part, default)
    ensures var s := Stream(p, clock, n).value;
            forall later: nat -> int, m: nat :: Stream(s.part, later, m) == Some(Printed(s.part, s.text, m)) <==> AllTaken(p)
  {
    hide Stream, ParseMime, PrintMime, WellFormed, AllTaken;
    var s := Stream(p, clock, n).value;
    CompletedExactly(p, clock, n);
    if WellFormed(s.part, default) { PrintParse(s.part, default); }
    if ParseMime(s.text, default) == Ok(s.part) { ParsePrint(s.text, default); }
    forall later: nat -> int, m: nat
      ensures Stream(s.part, later, m) == Some(Printed(s.part, s.text, m)) <==> AllTaken(p)
    {
      if AllTaken(p) { StreamPrinted(s.part, later, m); }
      if Stream(s.part, later, m) == Some(Printed(s.part, s.text, m)) { ClockRead(s.part, later, m); }
    }
  }

  // ---------- a header that is not taken to its end ----------

  const STRAY_TYPE: string := "multipart/mixed x"

  function StrayPart(v: string): Part {
    Part(MultiPart, [Header("Content-Type", v)], true, "", "", [X_PART], "text/plain")
  }

  // No boundary is found after what the grammar takes of this header.
  lemma StrayRead(rest: string)
    ensures var v := STRAY_TYPE + rest;
            ParseContentType(v) == Some(ContentType("multipart", "mixed", [])) && Boundary(v).None? && !TakenWhole(v)
  {
    hide Run, IsToken;
    var v := STRAY_TYPE + rest;
    var after := " x" + rest;
    var sub := "mixed" + after;
    assert v == "multipart" + ("/" + sub) && v[0..] == v;
    SmallLetters("multipart");
    SmallLetters("mixed");
    NoBlanks(v);
    TokenRun("multipart", "/" + sub);
    TokenRun("mixed", after);
    assert v[|"multipart"| + 1..] == sub;
    assert after[0] == ' ' && ParsePhrase(after).None?;
  }

  // What is printed for it, and the header it has then
  lemma StrayPrinted(v: string, clock: nat -> int, n: nat)
    requires STRAY_TYPE <= v && All(v, IsText)
    ensures var s := Stream(StrayPart(v), clock, n);
            var w := v + BoundaryPhrase(Invented(clock(n)));
            && s.Some? && s.value.part == StrayPart(w) && s.value.n == n + 1 && STRAY_TYPE <= w && All(w, IsText)
            && ParseHeaders(s.value.text).Some? && ParseHeaders(s.value.text).value.0 == [Header("Content-Type", w)]
            && ParseMime(s.value.text, "text/plain") == Err(NoBoundary)
  {
    hide Boundary, ParseContentType, TakenWhole, Invented, KindOf, SectionType, All, PrintHeaders, PrintMultipart;
    hide ParseHeaders, IsValue, IsName, EqualIgnoringCase, AppendPhrase, ContentTypeHeader, Stream, StreamAll;
    var b := Invented(clock(n));
    var w := v + BoundaryPhrase(b);
    var hs := [Header("Content-Type", w)];
    assert v == STRAY_TYPE + v[|STRAY_TYPE|..] && w == STRAY_TYPE + w[|STRAY_TYPE|..];
    StrayRead(v[|STRAY_TYPE|..]);
    StrayRead(w[|STRAY_TYPE|..]);
    MixedKind();
    MixedName();
    PhraseText(v, clock(n));
    PlainValue(w);
    StrayHeaders(v, b);
    StreamX(clock, n + 1);
    var p := StrayPart(v);
    StreamOne(p, hs, clock, n);
    HeadersRead(hs, PrintMultipart(p, ["\r\nx"], b));
  }

  lemma PhraseText(v: string, clock: int)
    requires All(v, IsText)
    ensures All(v + BoundaryPhrase(Invented(clock)), IsText)
  {
    hide Invented;
    assert forall c :: IsQuotable(c) ==> IsText(c);
  }

  lemma StrayHeaders(v: string, b: string)
    requires ParseContentType(v).Some? && Boundary(v).None?
    ensures var hs := [Header("Content-Type", v)];
            && ContentTypeHeader(hs, "text/plain") == v
            && AppendPhrase(hs, "text/plain", b) == Some([Header("Content-Type", v + BoundaryPhrase(b))])
            && ContentTypeHeader([Header("Content-Type", v + BoundaryPhrase(b))], "text/plain") == v + BoundaryPhrase(b)
  {
    hide ParseContentType, Boundary, EqualIgnoringCase;
    MixedName();
    var h := Header("Content-Type", v);
    var hs := [h];
    assert h in hs && hs[1..] == [];
    var w := Header("Content-Type", v + BoundaryPhrase(b));
    assert AppendToFirst(hs, BoundaryPhrase(b)) == [w] + hs[1..] == [w];
  }

  lemma StreamX(clock: nat -> int, n: nat)
    ensures StreamAll([X_PART], clock, n) == Some(([X_PART], ["\r\nx"], n))
  {
    hide WellFormed, IsSection, Stream, PrintMime, StreamAll;
    XPart();
    var xs := [X_PART];
    assert xs[1..] == [];
    assert PrintAll(xs[1..]) == Some([]);
    var ts: seq<string> := ["\r\nx"];
    assert ts + [] == ts && PrintAll(xs) == Some(ts + []);
    StreamAllPrinted(xs, clock, n);
  }

  // A multipart whose boundary is missing
  lemma StreamOne(p: Part, hs: seq<Header>, clock: nat -> int, n: nat)
    requires p.kind == MultiPart && Boundary(ContentTypeHeader(p.headers, p.defaultType)).None?
    requires AppendPhrase(p.headers, p.defaultType, Invented(clock(n))) == Some(hs) && StreamAll(p.subparts, clock, n + 1).Some?
    ensures var (qs, ts, m) := StreamAll(p.subparts, clock, n + 1).value;
            Stream(p, clock, n) ==
            Some(Printed(p.(headers := hs, subparts := qs), PrintHeaders(hs) + PrintMultipart(p, ts, Invented(clock(n))), m))
  {
  }

  // What is printed is rejected, and printing again adds another boundary.
  lemma StrayRejected(clock: nat -> int, n: nat)
    ensures !AllTaken(StrayPart(STRAY_TYPE)) && Stream(StrayPart(STRAY_TYPE), clock, n).Some?
    ensures var s := Stream(StrayPart(STRAY_TYPE), clock, n).value;
            && ParseMime(s.text, "text/plain") == Err(NoBoundary)
            && Stream(s.part, clock, s.n).Some? && Stream(s.part, clock, s.n).value.text != s.text
  {
    hide Stream, ParseMime, ParseHeaders, TakenWhole, Boundary, ParseContentType, Invented;
    assert STRAY_TYPE + "" == STRAY_TYPE;
    StrayRead("");
    MixedName();
    StrayPrinted(STRAY_TYPE, clock, n);
    var w := STRAY_TYPE + BoundaryPhrase(Invented(clock(n)));
    StrayPrinted(w, clock, n + 1);
    assert |w + BoundaryPhrase(Invented(clock(n + 1)))| > |w|;
  }
}
