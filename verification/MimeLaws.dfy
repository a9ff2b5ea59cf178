// What the pieces of a MIME text are, with the characters written out.

module MimeLaws {
  import opened Results
  import opened Characters
  import opened MimeText
  import opened MimeHeaders
  import opened MimeContentType
  import opened MimeMultipart
  import opened MimeParts
  import opened MimeInvention

  // ---------- headers ----------

  // Letters, digits, and three signs
  predicate NameChar(c: char) { Letter(c) || OneOf(c, DIGITS) || c == '_' || c == '-' || c == '\\' }

  predicate NameText(n: string) { n != "" && Letter(n[0]) && forall i :: 0 < i < |n| ==> NameChar(n[i]) }

  predicate TabOrPrintable(s: string) { forall i :: 0 <= i < |s| ==> s[i] == '\t' || Printable(s[i]) }

  // It starts with a blank or a tab, and holds something else.
  predicate FoldText(l: string) {
    TabOrPrintable(l) && l != "" && (l[0] == ' ' || l[0] == '\t') && exists i :: 0 <= i < |l| && l[i] != ' ' && l[i] != '\t'
  }

  function Folds(lines: seq<string>): string { if lines == [] then "" else "\r\n" + lines[0] + Folds(lines[1..]) }

  ghost predicate ValueText(v: string) { exists first, lines :: ValueFolds(v, first, lines) }

  ghost predicate ValueFolds(v: string, first: string, lines: seq<string>) {
    TabOrPrintable(first) && (forall l :: l in lines ==> FoldText(l)) && v == first + Folds(lines)
  }

  lemma TextChars(s: string)
    ensures All(s, IsText) <==> TabOrPrintable(s)
  {
    hide Printable;
    forall i | 0 <= i < |s| ensures IsText(s[i]) <==> s[i] == '\t' || Printable(s[i]) { Printables(s[i]); }
  }

  lemma FoldIs(l: string)
    ensures IsContinuation(l) <==> FoldText(l)
  {
    hide All, TabOrPrintable;
    TextChars(l);
  }

  lemma {:induction false} FoldsAre(lines: seq<string>)
    ensures Folds(lines) == JoinContinuations(lines)
  {
    if lines != [] { FoldsAre(lines[1..]); }
  }

  lemma NameIs(n: string)
    ensures IsName(n) <==> NameText(n)
  {
    hide OneOf, Letter;
    forall i | 0 <= i < |n|
      ensures (IsAlpha(n[i]) <==> Letter(n[i])) && (IsTokenChar(n[i]) <==> NameChar(n[i]))
    {
      Printables(n[i]);
      DigitChars(n[i]);
    }
    assert forall i :: 0 < i < |n| ==> n[i] == n[1..][i - 1];
  }

  // The headers of the grammar
  lemma HeaderIs(h: Header)
    ensures IsHeader(h) <==> NameText(h.name) && ValueText(h.value)
  {
    hide NameText, IsName, FoldText, IsContinuation, TabOrPrintable, All;
    NameIs(h.name);
    if first, lines :| IsFolded(h.value, first, lines) {
      ValueIs(h.value, first, lines);
    }
    if first, lines :| ValueFolds(h.value, first, lines) {
      ValueIs(h.value, first, lines);
    }
  }

  lemma ValueIs(v: string, first: string, lines: seq<string>)
    ensures IsFolded(v, first, lines) <==> ValueFolds(v, first, lines)
  {
    hide FoldText, IsContinuation, TabOrPrintable, All;
    TextChars(first);
    FoldsAre(lines);
    forall l | l in lines ensures IsContinuation(l) <==> FoldText(l) { FoldIs(l); }
  }

  // Name, colon, value and line end for each, and an empty line
  lemma {:induction false} HeadersPrinted(hs: seq<Header>, h: Header)
    ensures PrintHeaders([]) == "\r\n"
    ensures PrintHeaders([h] + hs) == h.name + ":" + h.value + "\r\n" + PrintHeaders(hs)
  {
    assert ([h] + hs)[1..] == hs;
  }

  // ---------- comparison, kinds and types ----------

  predicate SameLetter(a: char, b: char) { a == b || exists k :: 0 <= k < 26 && CasePair(a, b, k) }

  predicate CasePair(a: char, b: char, k: nat)
    requires k < 26
  {
    (a == SMALL[k] && b == CAPITALS[k]) || (a == CAPITALS[k] && b == SMALL[k])
  }

  // The same text but for the case of letters
  predicate AnyCase(a: string, b: string) { |a| == |b| && forall i :: 0 <= i < |a| ==> SameLetter(a[i], b[i]) }

  lemma LetterCase(a: char, b: char)
    ensures Lower(a) == Lower(b) <==> SameLetter(a, b)
  {
    hide CasePair;
    forall k: nat | k < 26 && CasePair(a, b, k) ensures Lower(a) == Lower(b) { PairAt(a, b, k); }
    if Lower(a) == Lower(b) && a != b {
      var k := Lower(a) as int - 'a' as int;
      PairAt(a, b, k);
    }
  }

  lemma PairAt(a: char, b: char, k: nat)
    requires k < 26
    ensures CasePair(a, b, k) <==> a != b && Lower(a) == Lower(b) && Lower(a) as int == 'a' as int + k
  {
    CaseAt(k);
    hide SMALL, CAPITALS;
  }

  lemma CaseAt(k: nat)
    requires k < 26
    ensures SMALL[k] as int == 'a' as int + k && CAPITALS[k] as int == 'A' as int + k
  {
  }

  lemma IgnoringCase(a: string, b: string)
    ensures EqualIgnoringCase(a, b) <==> AnyCase(a, b)
  {
    hide Lower, SameLetter;
    if |a| == |b| {
      forall i | 0 <= i < |a| ensures Lower(a[i]) == Lower(b[i]) <==> SameLetter(a[i], b[i]) { LetterCase(a[i], b[i]); }
    }
  }

  // Multiparts and messages, and what is simple
  lemma Kinds(kind: string, sub: string)
    ensures KindOf(kind, sub) == MultiPart <==> AnyCase(kind, "multipart")
    ensures KindOf(kind, sub) == MessagePart <==> AnyCase(kind, "message") && !AnyCase(sub, "delivery-status")
  {
    hide EqualIgnoringCase, AnyCase;
    IgnoringCase(kind, "multipart");
    IgnoringCase(kind, "message");
    IgnoringCase(sub, "delivery-status");
    Lengths(kind);
  }

  lemma Lengths(kind: string)
    ensures !(AnyCase(kind, "multipart") && AnyCase(kind, "message"))
  {
    assert |"multipart"| != |"message"|;
  }

  // The sections of a digest are messages by default, others plain text.
  lemma SectionTypes(ct: ContentType)
    ensures SectionType(ct) == if AnyCase(ct.kind + "/" + ct.subKind, "multipart/digest") then "message/rfc822" else "text/plain"
  {
    hide EqualIgnoringCase, AnyCase;
    IgnoringCase(ct.kind + "/" + ct.subKind, "multipart/digest");
  }

  // The first header of that name counts, whatever the case of its letters.
  lemma {:induction false} TypeHeader(hs: seq<Header>, default: string, i: nat)
    requires i <= |hs| && forall j :: 0 <= j < i ==> !AnyCase(hs[j].name, "Content-Type")
    ensures i == |hs| ==> ContentTypeHeader(hs, default) == default
    ensures i < |hs| && AnyCase(hs[i].name, "Content-Type") ==> ContentTypeHeader(hs, default) == hs[i].value
  {
    hide EqualIgnoringCase, AnyCase;
    if hs != [] {
      IgnoringCase(hs[0].name, "Content-Type");
      if i > 0 { TypeHeader(hs[1..], default, i - 1); }
    }
  }

  // The first phrase of that name counts, whatever the case of its letters.
  lemma {:induction false} PhraseFound(ps: seq<Phrase>, key: string, i: nat)
    requires i <= |ps| && forall j :: 0 <= j < i ==> !AnyCase(ps[j].key, key)
    ensures i == |ps| ==> FindPhrase(ps, key) == None
    ensures i < |ps| && AnyCase(ps[i].key, key) ==> FindPhrase(ps, key) == Some(ps[i].value)
  {
    hide EqualIgnoringCase, AnyCase;
    if ps != [] {
      IgnoringCase(ps[0].key, key);
      if i > 0 { PhraseFound(ps[1..], key, i - 1); }
    }
  }

  lemma BoundaryIs(header: string, ct: ContentType, i: nat)
    requires ParseContentType(header) == Some(ct) && i <= |ct.phrases|
    requires forall j :: 0 <= j < i ==> !AnyCase(ct.phrases[j].key, "boundary")
    ensures i == |ct.phrases| ==> Boundary(header) == None
    ensures i < |ct.phrases| && AnyCase(ct.phrases[i].key, "boundary") ==> Boundary(header) == Some(ct.phrases[i].value)
  {
    hide ParseContentType, AnyCase;
    PhraseFound(ct.phrases, "boundary", i);
  }

  // ---------- a boundary that is added ----------

  // The clock in decimal digits, eight characters of them at least
  lemma InventedIs(clock: int) returns (digits: string)
    ensures Invented(clock) == "------=_NextPart-Proposed.Boost.Mime." + (if clock < 0 then "-" + digits else digits)
    ensures forall i :: 0 <= i < |digits| ==> '0' <= digits[i] <= '9'
    ensures ValueOf(digits) == if clock < 0 then -clock else clock
    ensures var width := if clock < 0 then 7 else 8; |digits| >= width && (|digits| > width ==> digits[0] != '0')
  {
    digits := if clock < 0 then Decimal(-clock, 7) else Decimal(clock, 8);
    DecimalIs(if clock < 0 then -clock else clock, if clock < 0 then 7 else 8);
  }

  // It is added to the header that counts, or else to the default type in a new header at the end.
  lemma {:induction false} HeaderCompleted(hs: seq<Header>, default: string, b: string, i: nat)
    requires i <= |hs| && forall j :: 0 <= j < i ==> !AnyCase(hs[j].name, "Content-Type")
    requires (i < |hs| ==> AnyCase(hs[i].name, "Content-Type")) && AppendPhrase(hs, default, b).Some?
    ensures var phrase := "; boundary=\"" + b + "\"";
            AppendPhrase(hs, default, b).value ==
            if i < |hs| then hs[i := Header(hs[i].name, hs[i].value + phrase)]
            else hs + [Header("Content-Type", default + phrase)]
  {
    hide EqualIgnoringCase, AnyCase, ContentTypeHeader, ParseContentType, Boundary;
    forall h | h in hs ensures EqualIgnoringCase(h.name, "Content-Type") <==> AnyCase(h.name, "Content-Type") {
      IgnoringCase(h.name, "Content-Type");
    }
    MixedName();
    assert i < |hs| ==> hs[i] in hs;
    var phrase := BoundaryPhrase(b);
    if i < |hs| {
      AppendedAt(hs, phrase, i);
    } else {
      AppendedAt(hs + [Header("Content-Type", default)], phrase, i);
    }
  }

  lemma {:induction false} AppendedAt(hs: seq<Header>, text: string, i: nat)
    requires i < |hs| && EqualIgnoringCase(hs[i].name, "Content-Type")
    requires forall j :: 0 <= j < i ==> !EqualIgnoringCase(hs[j].name, "Content-Type")
    ensures AppendToFirst(hs, text) == hs[i := Header(hs[i].name, hs[i].value + text)]
  {
    hide EqualIgnoringCase;
    if i > 0 { AppendedAt(hs[1..], text, i - 1); }
  }

  // A multipart without a boundary takes the next reading of the clock before its sub-parts take theirs.
  lemma OuterFirst(p: Part, clock: nat -> int, n: nat)
    requires p.kind == MultiPart && Boundary(ContentTypeHeader(p.headers, p.defaultType)).None? && Stream(p, clock, n).Some?
    ensures var hs, all := AppendPhrase(p.headers, p.defaultType, Invented(clock(n))), StreamAll(p.subparts, clock, n + 1);
            && hs.Some? && all.Some? && Stream(p, clock, n).value.n == all.value.2
            && PrintHeaders(hs.value) <= Stream(p, clock, n).value.text
            && Stream(p, clock, n).value.part == p.(headers := hs.value, subparts := all.value.0)
  {
    hide Boundary, ContentTypeHeader, AppendPhrase, Invented, StreamAll, PrintHeaders, PrintMultipart;
  }

  // ---------- the language ----------

  // What is accepted is the texts of well-formed parts.
  lemma AcceptedExactly(s: string, default: string)
    ensures ParseMime(s, default).Ok? <==> exists p :: WellFormed(p, default) && PrintMime(p) == Some(s)
  {
    hide ParseMime, PrintMime, WellFormed;
    if ParseMime(s, default).Ok? { ParsePrint(s, default); }
    if p :| WellFormed(p, default) && PrintMime(p) == Some(s) { PrintParse(p, default); }
  }

  // Without a header that is a content type, or an empty line after the headers, nothing is read further.
  lemma Refused(hs: seq<Header>, rest: string, default: string)
    requires forall h :: h in hs ==> IsHeader(h)
    ensures var s, header := PrintHeaders(hs) + rest, ContentTypeHeader(hs, default);
            && (ParseContentType(header).None? ==> ParseMime(s, default) == Err(BadContentType))
            && (ParseContentType(header).Some? && AnyCase(ParseContentType(header).value.kind, "multipart") && Boundary(header).None?
                ==> ParseMime(s, default) == Err(NoBoundary))
  {
    hide AnyCase, Boundary, ParseContentType, ParseHeaders, ContentTypeHeader;
    HeadersRead(hs, rest);
    if ParseContentType(ContentTypeHeader(hs, default)).Some? {
      var ct := ParseContentType(ContentTypeHeader(hs, default)).value;
      Kinds(ct.kind, ct.subKind);
    }
  }

  lemma NoHeaders(s: string, default: string)
    ensures (exists hs, rest :: IsStart(hs, rest, s)) || ParseMime(s, default) == Err(BadHeaders)
  {
    hide ParseHeaders, IsHeader, PrintHeaders;
    if ParseHeaders(s).Some? {
      HeadersParsed(s);
      assert IsStart(ParseHeaders(s).value.0, ParseHeaders(s).value.1, s);
    }
  }

  ghost predicate IsStart(hs: seq<Header>, rest: string, s: string) { (forall h :: h in hs ==> IsHeader(h)) && s == PrintHeaders(hs) + rest }

  // Without a separator line nothing of the body is read; with one, there must be text between it and the
  // next separator, and a separator after that.
  lemma BodyRefused(hs: seq<Header>, rest: string, default: string, b: string, more: string)
    requires forall h :: h in hs ==> IsHeader(h)
    requires var ct := ParseContentType(ContentTypeHeader(hs, default)); ct.Some? && AnyCase(ct.value.kind, "multipart")
    requires Boundary(ContentTypeHeader(hs, default)) == Some(b)
    ensures !("--" + b + "\r\n" <= rest) && !Occurs(rest, "\r\n--" + b + "\r\n") ==>
              ParseMime(PrintHeaders(hs) + rest, default) == Err(BadProlog)
    ensures rest == "--" + b + "\r\n" + more && "\r\n--" + b <= more ==>
              ParseMime(PrintHeaders(hs) + rest, default) == Err(BadSections(EmptySection))
    ensures rest == "--" + b + "\r\n" + more && more != "" && !Occurs(more, "\r\n--" + b) ==>
              ParseMime(PrintHeaders(hs) + rest, default) == Err(BadSections(NoTerminator))
  {
    hide AnyCase, Boundary, ParseContentType, ParseHeaders, ContentTypeHeader, IsHeader, PrintHeaders, Occurs, Find, ParseProlog, ParseMultipart;
    HeadersRead(hs, rest);
    var ct := ParseContentType(ContentTypeHeader(hs, default)).value;
    Kinds(ct.kind, ct.subKind);
    assert CRLF + "--" + b == "\r\n--" + b && "\r\n--" + b + "\r\n" == CRLF + ("--" + b + "\r\n");
    NoProlog(rest, b);
    if rest == "--" + b + "\r\n" + more {
      assert rest[|BareLine(b)|..] == more;
      SectionsRefused(more, b);
    }
  }

  lemma NoProlog(s: string, b: string)
    ensures !(BareLine(b) <= s) && !Occurs(s, PrologLine(b)) ==> ParseProlog(s, b) == None
    ensures BareLine(b) <= s ==> ParseProlog(s, b) == Some(Prolog(true, "", s[|BareLine(b)|..]))
  {
    if !Occurs(s, PrologLine(b)) { assert Find(s, PrologLine(b)) == |s|; }
  }

  lemma SectionsRefused(s: string, b: string)
    ensures Separator(b) <= s ==> ParseMultipart(s, b) == Err(EmptySection)
    ensures s != "" && !Occurs(s, Separator(b)) ==> ParseMultipart(s, b) == Err(NoTerminator)
  {
    if Separator(b) <= s { FindIs(s, Separator(b), 0); }
    if !Occurs(s, Separator(b)) { assert Find(s, Separator(b)) == |s|; }
  }

  // ---------- lines ----------

  lemma Lines(b: string)
    ensures BoundaryLine(b, false, false) == "--" + b + "\r\n"
    ensures BoundaryLine(b, false, true) == "\r\n--" + b + "\r\n"
    ensures BoundaryLine(b, true, true) == "\r\n--" + b + "--\r\n"
  {
    assert "\r\n" + "--" == "\r\n--";
  }

  // Sections with a line between each and the next
  lemma {:induction false} SectionsJoined(ps: seq<string>, p: string, b: string)
    ensures JoinSections([p], b) == p
    ensures ps != [] ==> JoinSections([p] + ps, b) == p + "\r\n--" + b + "\r\n" + JoinSections(ps, b)
  {
    hide BoundaryLine;
    Lines(b);
    var all := [p] + ps;
    assert all[1..] == ps;
    if ps != [] {
      assert p + ("\r\n--" + b + "\r\n") == p + "\r\n--" + b + "\r\n";
    }
  }

  // The text of a multipart: a line end before the first separator line unless there is no prolog
  lemma MultipartIs(p: Part, ts: seq<string>, b: string)
    ensures PrintMultipart(p, [], b) == p.body + "\r\n--" + b + "--\r\n" + p.epilog
    ensures ts != [] ==>
              PrintMultipart(p, ts, b) ==
              p.body + (if p.body == "" && p.prologIsMissing then "" else "\r\n") + "--" + b + "\r\n"
              + JoinSections(ts, b) + "\r\n--" + b + "--\r\n" + p.epilog
  {
    hide JoinSections;
    var lineEnd := if p.body == "" && p.prologIsMissing then "" else "\r\n";
    Lines(b);
    Lined(p.body, lineEnd, b);
    Lined(p.body, "", b);
    Lined(p.body + lineEnd + "--" + b + "\r\n" + JoinSections(ts, b), "", b);
    assert BoundaryLine(b, false, |p.body| > 0 || !p.prologIsMissing) == lineEnd + "--" + b + "\r\n";
  }

  lemma Lined(a: string, lineEnd: string, b: string)
    ensures a + (lineEnd + "--" + b + "\r\n") == a + lineEnd + "--" + b + "\r\n"
    ensures a + ("\r\n--" + b + "--\r\n") == a + "\r\n--" + b + "--\r\n"
  {
  }

  // ---------- decimal numbers ----------

  function ValueOf(s: string): nat
    requires forall i :: 0 <= i < |s| ==> '0' <= s[i] <= '9'
  {
    if s == "" then 0 else 10 * ValueOf(s[..|s| - 1]) + (s[|s| - 1] as int - '0' as int)
  }

  lemma OneMoreDigit(s: string, c: char)
    requires (forall i :: 0 <= i < |s| ==> '0' <= s[i] <= '9') && '0' <= c <= '9'
    ensures ValueOf(s + [c]) == 10 * ValueOf(s) + (c as int - '0' as int)
  {
    assert (s + [c])[..|s|] == s;
  }

  // The digits are those of the number, with zeros in front only up to the width.
  lemma {:induction false} DecimalIs(n: nat, width: nat)
    ensures var s := Decimal(n, width);
            ValueOf(s) == n && |s| >= width && (|s| > width && |s| > 1 ==> s[0] != '0')
    decreases n + width
  {
    hide ValueOf;
    DigitIs(n % 10);
    if n < 10 && width <= 1 {
      OneMoreDigit("", Digit(n));
      assert "" + [Digit(n)] == [Digit(n)];
      NoDigits();
    } else {
      var m := if width == 0 then 0 else width - 1;
      DecimalIs(n / 10, m);
      OneMoreDigit(Decimal(n / 10, m), Digit(n % 10));
      if |Decimal(n / 10, m)| == 1 && n / 10 > 0 { NotZero(n / 10, m); }
    }
  }

  lemma NoDigits()
    ensures ValueOf("") == 0
  {
  }

  lemma DigitIs(n: nat)
    requires n < 10
    ensures Digit(n) as int == '0' as int + n
  {
  }

  lemma NotZero(n: nat, width: nat)
    requires |Decimal(n, width)| == 1 && n > 0
    ensures Decimal(n, width)[0] != '0'
  {
  }
}
