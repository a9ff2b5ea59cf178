// A letter, from its characters to its parts: a digest of a message and a text, with a folded header,
// a prolog and an epilog.

module MimeLetter {
  import opened Results
  import opened MimeText
  import opened MimeHeaders
  import opened MimeContentType
  import opened MimeMultipart
  import opened MimeParts
  import opened MimeSpelling
  import opened MimeLaws

  const HEAD: string := "Content-Type:" + " multipart/digest;\r\n boundary=\"b\"" + "\r\n\r\n"

  const BODY: string :=
    "prolog\r\n--b\r\n" +
    "\r\n\r\nhi" + "\r\n--b\r\n" +
    "CONTENT-TYPE: text/plain\r\n\r\nbye" + "\r\n--b--\r\n" + "epilog"

  const DIGEST: string := " multipart/digest;\r\n boundary=\"b\""

  // The first section has no headers: it is a message, as sections of a digest are, which holds a text
  // without headers.
  const HI: Part := Part(SimplePart, [], false, "hi", "", [], "text/plain")
  const FIRST: Part := Part(MessagePart, [], false, "", "", [HI], "message/rfc822")
  const SECOND: Part := Part(SimplePart, [Header("CONTENT-TYPE", " text/plain")], false, "bye", "", [], "message/rfc822")
  const WHOLE: Part :=
    Part(MultiPart, [Header("Content-Type", DIGEST)], false, "prolog", "epilog", [FIRST, SECOND], "text/plain")

  lemma LetterRead()
    ensures ParseMime(HEAD + BODY, "text/plain") == Ok(WHOLE)
  {
    hide WellFormed, ParseMime, PrintMime;
    WholeRight();
    WholeText();
    PrintParse(WHOLE, "text/plain");
  }

  // ---------- the headers ----------

  lemma DigestType()
    ensures ParseContentType(DIGEST) == Some(ContentType("multipart", "digest", [Phrase("boundary", "b")]))
    ensures Boundary(DIGEST) == Some("b")
  {
    hide TokenText, TextWithout, Boundary, ParseContentType;
    Word("multipart");
    Word("digest");
    Word("b");
    FoldedType(" ", "multipart", "digest", "b");
    DigestText();
  }

  lemma DigestText()
    ensures " " + "multipart" + "/" + "digest" + ";\r\n boundary=\"" + "b" + "\"" == DIGEST
  {
  }

  lemma Word(s: string)
    requires s != "" && forall i :: 0 <= i < |s| ==> 'a' <= s[i] <= 'z' || s[i] in "0123456789"
    ensures TokenText(s) && TextWithout(s, '"')
  {
    hide TokenText, TextWithout;
    Tokens(s);
    Texts(s);
  }

  // A type and subtype, with or without a blank in front
  lemma PlainType(blanks: string, kind: string, sub: string)
    requires (forall i :: 0 <= i < |blanks| ==> blanks[i] == ' ') && TokenText(kind) && TokenText(sub)
    ensures ParseContentType(blanks + kind + "/" + sub) == Some(ContentType(kind, sub, []))
  {
    hide TokenText;
    var s := blanks + (kind + ("/" + (sub + "")));
    assert TypeParts(s, ContentType(kind, sub, []), blanks, "");
    SpelledRead(s, ContentType(kind, sub, []));
    PlainTypeText(blanks, kind, sub);
  }

  lemma PlainTypeText(blanks: string, kind: string, sub: string)
    ensures blanks + (kind + ("/" + (sub + ""))) == blanks + kind + "/" + sub
  {
    assert sub + "" == sub;
    assert kind + ("/" + sub) == kind + "/" + sub;
    assert blanks + (kind + "/" + sub) == blanks + kind + "/" + sub;
  }

  lemma TextType()
    ensures ParseContentType("text/plain") == ParseContentType(" text/plain") == Some(ContentType("text", "plain", []))
  {
    hide ParseContentType, TokenText;
    Word("text");
    Word("plain");
    PlainType("", "text", "plain");
    PlainType(" ", "text", "plain");
    TypeTexts();
  }

  lemma TypeTexts()
    ensures "" + "text" + "/" + "plain" == "text/plain" && " " + "text" + "/" + "plain" == " text/plain"
    ensures "" + "message" + "/" + "rfc822" == "message/rfc822"
  {
  }

  lemma MessageType()
    ensures ParseContentType("message/rfc822") == Some(ContentType("message", "rfc822", []))
  {
    hide ParseContentType, TokenText;
    Word("message");
    Word("rfc822");
    PlainType("", "message", "rfc822");
    TypeTexts();
  }

  lemma Names()
    ensures AnyCase("CONTENT-TYPE", "Content-Type") && AnyCase("Content-Type", "Content-Type")
    ensures IsName("CONTENT-TYPE") && IsName("Content-Type")
  {
    hide AnyCase;
    MixedName();
    IgnoringCase("CONTENT-TYPE", "Content-Type");
    IgnoringCase("Content-Type", "Content-Type");
    assert "CONTENT-TYPE"[1..] == "ONTENT-TYPE";
  }

  lemma DigestHeader()
    ensures IsHeader(Header("Content-Type", DIGEST))
  {
    hide IsName, IsContinuation, All;
    Names();
    PlainText(" multipart/digest;");
    DigestFold();
    var fold := " boundary=\"b\"";
    assert JoinContinuations([fold]) == "\r\n" + fold + JoinContinuations([fold][1..]) == "\r\n" + fold;
    assert DIGEST == " multipart/digest;" + ("\r\n" + fold);
    assert IsFolded(DIGEST, " multipart/digest;", [fold]);
  }

  lemma DigestFold()
    ensures IsContinuation(" boundary=\"b\"")
  {
    var fold := " boundary=\"b\"";
    PlainText(fold);
    assert fold[1] == 'b';
  }

  lemma SecondHeader()
    ensures IsHeader(Header("CONTENT-TYPE", " text/plain"))
  {
    hide IsName, IsValue, All;
    Names();
    PlainText(" text/plain");
    PlainValue(" text/plain");
  }

  lemma TypeKinds()
    ensures KindOf("text", "plain") == SimplePart && KindOf("message", "rfc822") == MessagePart && KindOf("multipart", "digest") == MultiPart
    ensures SectionType(ContentType("multipart", "digest", [Phrase("boundary", "b")])) == "message/rfc822"
  {
    hide SameLetter, KindOf, SectionType;
    Alike("multipart");
    Alike("message");
    Alike("multipart/digest");
    assert |"text"| != |"multipart"| && |"text"| != |"message"| && |"rfc822"| != |"delivery-status"|;
    Kinds("text", "plain");
    Kinds("message", "rfc822");
    Kinds("multipart", "digest");
    SectionTypes(ContentType("multipart", "digest", [Phrase("boundary", "b")]));
    assert "multipart" + "/" + "digest" == "multipart/digest";
  }

  lemma Alike(s: string)
    ensures AnyCase(s, s)
  {
  }

  // ---------- the sections ----------

  lemma SimpleRight(p: Part, ct: ContentType)
    requires p.kind == SimplePart && p.subparts == [] && !p.prologIsMissing && p.epilog == "" && forall h :: h in p.headers ==> IsHeader(h)
    requires ParseContentType(ContentTypeHeader(p.headers, p.defaultType)) == Some(ct) && KindOf(ct.kind, ct.subKind) == SimplePart
    ensures WellFormed(p, p.defaultType) && PrintMime(p) == Some(PrintHeaders(p.headers) + p.body)
  {
    hide ParseContentType, ContentTypeHeader, KindOf, IsHeader, PrintHeaders;
  }

  lemma MessageRight(p: Part, inner: Part, t: string, ct: ContentType)
    requires p == Part(MessagePart, [], false, "", "", [inner], p.defaultType)
    requires ParseContentType(p.defaultType) == Some(ct) && KindOf(ct.kind, ct.subKind) == MessagePart
    requires WellFormed(inner, "text/plain") && PrintMime(inner) == Some(t)
    ensures WellFormed(p, p.defaultType) && PrintMime(p) == Some("\r\n" + t)
  {
    hide ParseContentType, KindOf, IsHeader;
    assert PrintHeaders([]) == "\r\n";
  }

  lemma HiRight()
    ensures WellFormed(HI, "text/plain") && PrintMime(HI) == Some("\r\nhi")
  {
    hide ParseContentType, KindOf, WellFormed, PrintMime;
    TextType();
    TypeKinds();
    SimpleRight(HI, ContentType("text", "plain", []));
    assert PrintHeaders([]) == "\r\n" && "\r\n" + "hi" == "\r\nhi";
  }

  lemma FirstRight()
    ensures WellFormed(FIRST, "message/rfc822") && PrintMime(FIRST) == Some("\r\n\r\nhi")
  {
    hide ParseContentType, KindOf, WellFormed, PrintMime;
    HiRight();
    MessageType();
    TypeKinds();
    MessageRight(FIRST, HI, "\r\nhi", ContentType("message", "rfc822", []));
    assert "\r\n" + "\r\nhi" == "\r\n\r\nhi";
  }

  lemma SecondRight()
    ensures WellFormed(SECOND, "message/rfc822") && PrintMime(SECOND) == Some("CONTENT-TYPE: text/plain\r\n\r\nbye")
  {
    hide ParseContentType, KindOf, IsHeader, AnyCase, ContentTypeHeader, PrintHeaders, WellFormed, PrintMime;
    SecondHeader();
    Names();
    TypeHeader(SECOND.headers, "message/rfc822", 0);
    TextType();
    TypeKinds();
    SimpleRight(SECOND, ContentType("text", "plain", []));
    SecondPrinted();
  }

  lemma SecondPrinted()
    ensures PrintHeaders(SECOND.headers) + "bye" == "CONTENT-TYPE: text/plain\r\n\r\nbye"
  {
    hide PrintHeaders;
    var h := Header("CONTENT-TYPE", " text/plain");
    HeadersPrinted([], h);
    assert [h] + [] == [h];
  }

  lemma NoSeparator(s: string)
    requires s != "" && forall i :: 0 <= i < |s| - 1 ==> s[i] != '-' || s[i + 1] != '-'
    ensures IsSection(s, "b")
  {
    forall i: nat ensures OccursAt(s, Separator("b"), i) ==> i + 3 < |s| && s[i + 2] == s[i + 3] == '-' {
      OccursFrom(s, Separator("b"), i);
    }
  }

  lemma OccursFrom(s: string, d: string, i: nat)
    ensures OccursAt(s, d, i) ==> i + |d| <= |s| && forall j :: 0 <= j < |d| ==> s[i + j] == d[j]
  {
    if OccursAt(s, d, i) {
      forall j | 0 <= j < |d| ensures s[i + j] == d[j] { assert s[i + j] == s[i..i + |d|][j]; }
    }
  }

  const FIRST_TEXT: string := "\r\n\r\nhi"
  const SECOND_TEXT: string := "CONTENT-TYPE: text/plain\r\n\r\nbye"

  lemma SectionsRight()
    ensures AllWellFormed([FIRST, SECOND], "message/rfc822", "b")
    ensures PrintAll([FIRST, SECOND]) == Some([FIRST_TEXT, SECOND_TEXT])
  {
    hide WellFormed, PrintMime, IsSection;
    FirstRight();
    SecondRight();
    NoSeparator(FIRST_TEXT);
    NoSeparator(SECOND_TEXT);
    hide FIRST_TEXT, SECOND_TEXT;
    NextSection(SECOND, [], SECOND_TEXT, []);
    NextSection(FIRST, [SECOND], FIRST_TEXT, [SECOND_TEXT]);
  }

  lemma NextSection(p: Part, ps: seq<Part>, t: string, ts: seq<string>)
    requires WellFormed(p, "message/rfc822") && PrintMime(p) == Some(t) && IsSection(t, "b")
    requires AllWellFormed(ps, "message/rfc822", "b") && PrintAll(ps) == Some(ts)
    ensures AllWellFormed([p] + ps, "message/rfc822", "b") && PrintAll([p] + ps) == Some([t] + ts)
    ensures ps == [] ==> [p] + ps == [p] && [t] + ts == [t]
    ensures |ps| == 1 ==> [p] + ps == [p, ps[0]] && [t] + ts == [t, ts[0]]
  {
    hide WellFormed, PrintMime, IsSection;
    assert ([p] + ps)[1..] == ps;
  }

  // ---------- the whole ----------

  lemma PrologRight()
    ensures IsProlog(false, "prolog", "b")
  {
    var s := CRLF + "prolog" + CRLF;
    assert s == "\r\nprolog\r\n";
    forall i: nat ensures OccursAt(s, PrologLine("b"), i) ==> i + 2 < |s| && s[i + 2] == '-' {
      OccursFrom(s, PrologLine("b"), i);
    }
  }

  lemma WholeRight()
    ensures WellFormed(WHOLE, "text/plain")
  {
    hide ParseContentType, KindOf, IsHeader, AnyCase, ContentTypeHeader, Boundary, AllWellFormed, IsProlog, SectionType;
    DigestHeader();
    Names();
    TypeHeader([Header("Content-Type", DIGEST)], "text/plain", 0);
    DigestType();
    TypeKinds();
    PrologRight();
    SectionsRight();
  }

  lemma WholeText()
    ensures PrintMime(WHOLE) == Some(HEAD + BODY)
  {
    hide HEAD, BODY, PrintMime, PrintMultipart, PrintHeaders;
    WholePieces();
    HeadPrinted();
    BodyPrinted();
  }

  lemma WholePieces()
    ensures PrintMime(WHOLE) == Some(PrintHeaders(WHOLE.headers) + PrintMultipart(WHOLE, [FIRST_TEXT, SECOND_TEXT], "b"))
  {
    hide AnyCase, ContentTypeHeader, Boundary, PrintAll, PrintHeaders, PrintMultipart, FIRST_TEXT, SECOND_TEXT, PrintMime;
    Names();
    TypeHeader(WHOLE.headers, "text/plain", 0);
    DigestType();
    SectionsRight();
    MultipartPrinted(WHOLE, [FIRST_TEXT, SECOND_TEXT], "b");
  }

  lemma MultipartPrinted(p: Part, ts: seq<string>, b: string)
    requires p.kind == MultiPart && Boundary(ContentTypeHeader(p.headers, p.defaultType)) == Some(b) && PrintAll(p.subparts) == Some(ts)
    ensures PrintMime(p) == Some(PrintHeaders(p.headers) + PrintMultipart(p, ts, b))
  {
    hide ContentTypeHeader, Boundary, PrintAll, PrintHeaders, PrintMultipart;
  }

  lemma HeadPrinted()
    ensures PrintHeaders(WHOLE.headers) == HEAD
  {
    hide PrintHeaders;
    var h := Header("Content-Type", DIGEST);
    HeadersPrinted([], h);
    assert [h] + [] == [h];
    HeadText();
  }

  lemma BodyPrinted()
    ensures PrintMultipart(WHOLE, [FIRST_TEXT, SECOND_TEXT], "b") == BODY
  {
    hide PrintMultipart, JoinSections;
    MultipartIs(WHOLE, [FIRST_TEXT, SECOND_TEXT], "b");
    BodySections();
    BodyText(FIRST_TEXT, SECOND_TEXT);
  }

  lemma BodySections()
    ensures JoinSections([FIRST_TEXT, SECOND_TEXT], "b") == FIRST_TEXT + "\r\n--b\r\n" + SECOND_TEXT
  {
    hide JoinSections, FIRST_TEXT, SECOND_TEXT;
    SectionsJoined([SECOND_TEXT], FIRST_TEXT, "b");
    SectionsJoined([], SECOND_TEXT, "b");
    assert [FIRST_TEXT] + [SECOND_TEXT] == [FIRST_TEXT, SECOND_TEXT];
    assert FIRST_TEXT + "\r\n--" + "b" + "\r\n" == FIRST_TEXT + "\r\n--b\r\n";
  }

  lemma HeadText()
    ensures "Content-Type" + ":" + DIGEST + "\r\n" + "\r\n" == HEAD
  {
    assert "Content-Type" + ":" == "Content-Type:";
    assert "Content-Type:" + DIGEST + "\r\n" + "\r\n" == "Content-Type:" + DIGEST + "\r\n\r\n";
  }

  lemma BodyText(s: string, t: string)
    ensures "prolog" + "\r\n" + "--" + "b" + "\r\n" + (s + "\r\n--b\r\n" + t) + "\r\n--" + "b" + "--\r\n" + "epilog"
            == "prolog\r\n--b\r\n" + s + "\r\n--b\r\n" + t + "\r\n--b--\r\n" + "epilog"
  {
    var start := "prolog\r\n--b\r\n";
    assert "prolog" + "\r\n" + "--" + "b" + "\r\n" == start;
    assert start + (s + "\r\n--b\r\n" + t) == start + s + "\r\n--b\r\n" + t;
    var more := start + s + "\r\n--b\r\n" + t;
    assert more + "\r\n--" + "b" + "--\r\n" == more + "\r\n--b--\r\n";
  }
}
