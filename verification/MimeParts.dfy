// MIME parts as values: the recursive parser, the printer, and the two round trips.

module MimeParts {
  import opened Results
  import opened MimeText
  import opened MimeHeaders
  import opened MimeContentType
  import opened MimeMultipart

  datatype Kind = SimplePart | MultiPart | MessagePart

  // body is the prolog of a multipart; epilog and subparts are for the other kinds only.
  datatype Part = Part(kind: Kind, headers: seq<Header>, prologIsMissing: bool, body: string, epilog: string,
                       subparts: seq<Part>, defaultType: string)

  datatype MimeError = BadHeaders | BadContentType | NoBoundary | BadProlog | BadSections(error: SectionsError)

  // Of the types with message in front, all but delivery-status hold another message.
  function KindOf(kind: string, subKind: string): Kind {
    if EqualIgnoringCase(kind, "multipart") then MultiPart
    else if EqualIgnoringCase(kind, "message") && !EqualIgnoringCase(subKind, "delivery-status") then MessagePart
    else SimplePart
  }

  // The Content-Type header, or the default if there is none
  function ContentTypeHeader(hs: seq<Header>, default: string): string {
    if hs == [] then default
    else if EqualIgnoringCase(hs[0].name, "Content-Type") then hs[0].value
    else ContentTypeHeader(hs[1..], default)
  }

  // The default type of the sections of a multipart
  function SectionType(ct: ContentType): string {
    if EqualIgnoringCase(ct.kind + "/" + ct.subKind, "multipart/digest") then "message/rfc822" else "text/plain"
  }

  // ---------- parsing ----------

  function ParseMime(s: string, default: string): Result<Part, MimeError>
    decreases |s|, 1, 0
  {
    match ParseHeaders(s)
    case None => Err(BadHeaders)
    case Some((hs, rest)) =>
      var header := ContentTypeHeader(hs, default);
      match ParseContentType(header)
      case None => Err(BadContentType)
      case Some(ct) =>
        match KindOf(ct.kind, ct.subKind)
        case SimplePart => Ok(Part(SimplePart, hs, false, rest, "", [], default))
        case MessagePart =>
          (match ParseMime(rest, "text/plain")
           case Ok(p) => Ok(Part(MessagePart, hs, false, "", "", [p], default))
           case Err(e) => Err(e))
        case MultiPart =>
          match Boundary(header)
          case None => Err(NoBoundary)
          case Some(b) =>
            match ParseProlog(rest, b)
            case None => Err(BadProlog)
            case Some(prolog) =>
              match ParseMultipart(prolog.rest, b)
              case Err(e) => Err(BadSections(e))
              case Ok((sections, epilog)) =>
                match ParseAll(sections, SectionType(ct), |s|)
                case Err(e) => Err(e)
                case Ok(ps) => Ok(Part(MultiPart, hs, prolog.isMissing, prolog.text, epilog, ps, default))
  }

  function ParseAll(sections: seq<string>, default: string, limit: nat): Result<seq<Part>, MimeError>
    requires forall t :: t in sections ==> |t| < limit
    decreases limit, 0, |sections|
  {
    if sections == [] then Ok([])
    else
      match ParseMime(sections[0], default)
      case Err(e) => Err(e)
      case Ok(p) =>
        match ParseAll(sections[1..], default, limit)
        case Err(e) => Err(e)
        case Ok(ps) => Ok([p] + ps)
  }

  // ---------- printing ----------

  // None stands for the program's exception on a message part without exactly one sub-part.  Here it
  // is also what becomes of a multipart whose header names no boundary: see MimeInvention for those.
  function PrintMime(p: Part): Option<string>
    decreases p, 1
  {
    match p.kind
    case SimplePart => Some(PrintHeaders(p.headers) + p.body)
    case MessagePart =>
      if |p.subparts| != 1 then None
      else
        (match PrintMime(p.subparts[0])
         case None => None
         case Some(t) => Some(PrintHeaders(p.headers) + t))
    case MultiPart =>
      match Boundary(ContentTypeHeader(p.headers, p.defaultType))
      case None => None
      case Some(b) =>
        match PrintAll(p.subparts)
        case None => None
        case Some(ts) => Some(PrintHeaders(p.headers) + PrintMultipart(p, ts, b))
  }

  function PrintAll(ps: seq<Part>): (r: Option<seq<string>>)
    ensures r.Some? ==> |r.value| == |ps|
    decreases ps, 0
  {
    if ps == [] then Some([])
    else
      match (PrintMime(ps[0]), PrintAll(ps[1..]))
      case (Some(t), Some(ts)) => Some([t] + ts)
      case _ => None
  }

  // The body of a multipart whose sub-parts print as ts
  function PrintMultipart(p: Part, ts: seq<string>, b: string): string {
    (if ts == [] then p.body else PrintPrologLine(p.prologIsMissing, p.body, b) + JoinSections(ts, b))
    + BoundaryLine(b, true, true) + p.epilog
  }

  // ---------- the language ----------

  // What the parser can return for a default type
  ghost predicate WellFormed(p: Part, default: string)
    decreases p, 1
  {
    && (forall h :: h in p.headers ==> IsHeader(h)) && p.defaultType == default
    && var header := ContentTypeHeader(p.headers, default);
    && var ct := ParseContentType(header);
    && ct.Some? && p.kind == KindOf(ct.value.kind, ct.value.subKind)
    && match p.kind
       case SimplePart => p.subparts == [] && !p.prologIsMissing && p.epilog == ""
       case MessagePart =>
         |p.subparts| == 1 && !p.prologIsMissing && p.body == "" && p.epilog == "" && WellFormed(p.subparts[0], "text/plain")
       case MultiPart =>
         && Boundary(header).Some? && p.subparts != []
         && IsProlog(p.prologIsMissing, p.body, Boundary(header).value)
         && AllWellFormed(p.subparts, SectionType(ct.value), Boundary(header).value)
  }

  // Sections: well-formed, and printed without the separator in them
  ghost predicate AllWellFormed(ps: seq<Part>, default: string, b: string)
    decreases ps, 0
  {
    ps == [] || (&& WellFormed(ps[0], default) && PrintMime(ps[0]).Some? && IsSection(PrintMime(ps[0]).value, b)
                 && AllWellFormed(ps[1..], default, b))
  }

  // ---------- parse, then print ----------

  // Printing what was parsed gives the input back, byte for byte.
  lemma {:induction false} ParsePrint(s: string, default: string)
    requires ParseMime(s, default).Ok?
    ensures PrintMime(ParseMime(s, default).value) == Some(s) && WellFormed(ParseMime(s, default).value, default)
    decreases |s|, 1, 0
  {
    hide ParseHeaders, ContentTypeHeader, ParseContentType, Boundary, ParseProlog, ParseMultipart, PrintHeaders, JoinSections;
    hide IsProlog, IsSection, IsHeader, KindOf, EqualIgnoringCase, SectionType, PrintPrologLine, BoundaryLine;
    var (hs, rest) := ParseHeaders(s).value;
    HeadersParsed(s);
    var header := ContentTypeHeader(hs, default);
    var ct := ParseContentType(header).value;
    var p := ParseMime(s, default).value;
    match KindOf(ct.kind, ct.subKind)
    case SimplePart =>
    case MessagePart =>
      ParsePrint(rest, "text/plain");
    case MultiPart =>
      var b := Boundary(header).value;
      var prolog := ParseProlog(rest, b).value;
      var (sections, epilog) := ParseMultipart(prolog.rest, b).value;
      PrologParsed(rest, b);
      MultipartParsed(prolog.rest, b);
      ParsePrintAll(sections, SectionType(ct), |s|, b);
      MultipartText(p, sections, b);
  }

  lemma MultipartText(p: Part, ts: seq<string>, b: string)
    requires ts != []
    ensures PrintMultipart(p, ts, b) ==
            PrintPrologLine(p.prologIsMissing, p.body, b) + (JoinSections(ts, b) + BoundaryLine(b, true, true) + p.epilog)
  {
  }

  lemma {:induction false} ParsePrintAll(sections: seq<string>, default: string, limit: nat, b: string)
    requires forall t :: t in sections ==> |t| < limit && IsSection(t, b)
    requires ParseAll(sections, default, limit).Ok?
    ensures var ps := ParseAll(sections, default, limit).value;
            |ps| == |sections| && PrintAll(ps) == Some(sections) && AllWellFormed(ps, default, b)
    decreases limit, 0, |sections|
  {
    hide ParseHeaders, ContentTypeHeader, ParseContentType, Boundary, ParseProlog, ParseMultipart, PrintHeaders, JoinSections;
    hide IsProlog, IsSection, IsHeader, KindOf, EqualIgnoringCase, SectionType, PrintPrologLine, BoundaryLine;
    if sections != [] {
      ParsePrint(sections[0], default);
      ParsePrintAll(sections[1..], default, limit, b);
      var ps := ParseAll(sections, default, limit).value;
      assert ps[1..] == ParseAll(sections[1..], default, limit).value;
      assert [sections[0]] + sections[1..] == sections;
    }
  }

  // ---------- print, then parse ----------

  // Parsing what a well-formed part prints gives the part back.
  lemma {:induction false} PrintParse(p: Part, default: string)
    requires WellFormed(p, default)
    ensures PrintMime(p).Some? && ParseMime(PrintMime(p).value, default) == Ok(p)
    decreases p, 1
  {
    hide ParseHeaders, ContentTypeHeader, ParseContentType, Boundary, ParseProlog, ParseMultipart, PrintHeaders, JoinSections;
    hide IsProlog, IsSection, IsHeader, KindOf, EqualIgnoringCase, SectionType, PrintPrologLine, BoundaryLine;
    var header := ContentTypeHeader(p.headers, default);
    var ct := ParseContentType(header).value;
    match p.kind
    case SimplePart =>
      HeadersRead(p.headers, p.body);
    case MessagePart =>
      assert p.subparts == [p.subparts[0]];
      PrintParse(p.subparts[0], "text/plain");
      HeadersRead(p.headers, PrintMime(p.subparts[0]).value);
    case MultiPart =>
      var b := Boundary(header).value;
      PrintParseAll(p.subparts, SectionType(ct), b);
      var ts := PrintAll(p.subparts).value;
      var body := PrintMultipart(p, ts, b);
      HeadersRead(p.headers, body);
      var rest := JoinSections(ts, b) + BoundaryLine(b, true, true) + p.epilog;
      MultipartText(p, ts, b);
      PrologRead(p.prologIsMissing, p.body, b, rest);
      MultipartRead(ts, b, p.epilog);
  }

  lemma {:induction false} PrintParseAll(ps: seq<Part>, default: string, b: string)
    requires AllWellFormed(ps, default, b)
    ensures PrintAll(ps).Some? && forall t :: t in PrintAll(ps).value ==> IsSection(t, b)
    ensures forall limit: nat :: (forall t :: t in PrintAll(ps).value ==> |t| < limit) ==> ParseAll(PrintAll(ps).value, default, limit) == Ok(ps)
    decreases ps, 0
  {
    hide ParseHeaders, ContentTypeHeader, ParseContentType, Boundary, ParseProlog, ParseMultipart, PrintHeaders, JoinSections;
    hide IsProlog, IsSection, IsHeader, KindOf, EqualIgnoringCase, SectionType, PrintPrologLine, BoundaryLine;
    if ps != [] {
      PrintParse(ps[0], default);
      PrintParseAll(ps[1..], default, b);
      var ts := PrintAll(ps).value;
      assert ts[1..] == PrintAll(ps[1..]).value;
      assert [ps[0]] + ps[1..] == ps;
    }
  }

  // Where no boundary is missing, the parts that survive printing and parsing are exactly the
  // well-formed ones.
  lemma RoundTripExactly(p: Part, default: string)
    ensures PrintMime(p).Some? && ParseMime(PrintMime(p).value, default) == Ok(p) <==> WellFormed(p, default)
  {
    if WellFormed(p, default) { PrintParse(p, default); }
    if PrintMime(p).Some? && ParseMime(PrintMime(p).value, default) == Ok(p) { ParsePrint(PrintMime(p).value, default); }
  }

  // A multipart whose prolog is empty but not flagged missing prints a line end that the parser
  // does not take back, whatever its sections are.
  lemma EmptyPrologRejected(p: Part, default: string)
    requires p.kind == MultiPart && p.body == "" && !p.prologIsMissing && p.subparts != [] && PrintMime(p).Some?
    requires (forall h :: h in p.headers ==> IsHeader(h)) && p.defaultType == default
    requires var ct := ParseContentType(ContentTypeHeader(p.headers, default));
             ct.Some? && KindOf(ct.value.kind, ct.value.subKind) == MultiPart
    ensures ParseMime(PrintMime(p).value, default) == Err(BadProlog)
  {
    hide ParseHeaders, ParseContentType, Boundary, ParseMultipart, PrintHeaders, JoinSections, IsHeader, KindOf;
    var b := Boundary(ContentTypeHeader(p.headers, default)).value;
    var ts := PrintAll(p.subparts).value;
    var rest := JoinSections(ts, b) + BoundaryLine(b, true, true) + p.epilog;
    var body := PrintMultipart(p, ts, b);
    MultipartText(p, ts, b);
    assert body == PrologLine(b) + rest;
    HeadersRead(p.headers, body);
    assert body[0] == '\r' && BareLine(b)[0] == '-';
    assert OccursAt(body, PrologLine(b), 0) by { assert body[0..|PrologLine(b)|] == PrologLine(b); }
    FindIs(body, PrologLine(b), 0);
  }

  // A multipart as the constructor and one append_part make it, with a part that holds an "x"
  const X_PART: Part := Part(SimplePart, [], false, "x", "", [], "text/plain")

  const MIXED: ContentType := ContentType("multipart", "mixed", [Phrase("boundary", "b")])

  const BUILT: Part :=
    Part(MultiPart, [Header("Content-Type", PrintContentType(MIXED))], false, "", "", [X_PART], "text/plain")

  // It prints a text that the parser rejects; with the prolog flagged missing it is well-formed.
  lemma BuiltRejected()
    ensures PrintMime(BUILT).Some? && ParseMime(PrintMime(BUILT).value, "text/plain") == Err(BadProlog)
    ensures WellFormed(BUILT.(prologIsMissing := true), "text/plain")
  {
    hide ParseContentType, PrintContentType, Boundary, PrintHeaders, JoinSections, IsHeader, ParseMime, KindOf, EqualIgnoringCase, IsSection;
    MixedText();
    MixedRead();
    MixedHeader();
    MixedKind();
    XPart();
    var xs := [X_PART];
    assert xs[1..] == [];
    assert PrintAll(xs[1..]) == Some([]) && PrintAll(xs).Some?;
    assert AllWellFormed(xs[1..], "text/plain", "b") && AllWellFormed(xs, "text/plain", "b");
    EmptyPrologRejected(BUILT, "text/plain");
  }

  lemma MixedText()
    ensures PrintContentType(MIXED) == "multipart/mixed; boundary=\"b\""
  {
    assert MIXED.phrases[1..] == [];
    assert PrintPhrases(MIXED.phrases) == "; boundary=\"b\"";
  }

  lemma MixedRead()
    ensures ParseContentType(PrintContentType(MIXED)) == Some(MIXED) && Boundary(PrintContentType(MIXED)) == Some("b")
  {
    hide ParseContentType, PrintContentType, IsToken, All;
    SmallLetters("multipart");
    SmallLetters("mixed");
    SmallLetters("boundary");
    SmallLetters("b");
    ContentTypeRead(MIXED);
    assert EqualIgnoringCase("boundary", "boundary");
  }

  lemma SmallLetters(s: string)
    requires s != "" && forall i :: 0 <= i < |s| ==> 'a' <= s[i] <= 'z'
    ensures IsToken(s) && All(s, IsQuotable)
  {
  }

  lemma MixedHeader()
    ensures IsHeader(BUILT.headers[0]) && ContentTypeHeader(BUILT.headers, "text/plain") == PrintContentType(MIXED)
  {
    hide PrintContentType, IsName, IsValue, All, EqualIgnoringCase;
    MixedText();
    MixedName();
    PlainText("multipart/mixed; boundary=\"b\"");
    PlainValue(PrintContentType(MIXED));
  }

  lemma MixedName()
    ensures IsName("Content-Type") && EqualIgnoringCase("Content-Type", "Content-Type")
  {
    assert "Content-Type"[1..] == "ontent-Type";
  }

  lemma PlainText(v: string)
    requires forall i :: 0 <= i < |v| ==> ' ' <= v[i] <= '~'
    ensures All(v, IsText)
  {
  }

  lemma PlainValue(v: string)
    requires All(v, IsText)
    ensures IsValue(v)
  {
    assert IsFolded(v, v, []) by { assert v + JoinContinuations([]) == v; }
  }

  lemma MixedKind()
    ensures KindOf("multipart", "mixed") == MultiPart && SectionType(MIXED) == "text/plain"
  {
    assert |"multipart/mixed"| != |"multipart/digest"|;
  }

  lemma XPart()
    ensures WellFormed(X_PART, "text/plain") && PrintMime(X_PART) == Some("\r\nx")
    ensures IsSection("\r\nx", "b")
  {
    hide ParseContentType, EqualIgnoringCase;
    var plain := ContentType("text", "plain", []);
    PlainRead(plain);
    assert ContentTypeHeader([], "text/plain") == "text/plain";
    assert PrintHeaders([]) == CRLF && CRLF + "x" == "\r\nx";
    assert |Separator("b")| == 5;
  }

  lemma PlainRead(plain: ContentType)
    requires plain == ContentType("text", "plain", [])
    ensures ParseContentType("text/plain") == Some(plain) && KindOf("text", "plain") == SimplePart
  {
    hide ParseContentType, IsToken, All;
    SmallLetters("text");
    SmallLetters("plain");
    ContentTypeRead(plain);
    assert PrintContentType(plain) == "text/plain";
    assert |"text"| != |"multipart"| && |"text"| != |"message"|;
  }
}
