// Printing a multipart whose Content-Type names no boundary: one is made from the clock and added to
// the header.

module MimeInvention {
  import opened Results
  import opened MimeText
  import opened MimeHeaders
  import opened MimeContentType
  import opened MimeParts

  // ---------- the boundary ----------

  // Decimal digits, with zeros in front up to the width
  function Decimal(n: nat, width: nat): (s: string)
    ensures s != "" && forall i :: 0 <= i < |s| ==> '0' <= s[i] <= '9'
    decreases n + width
  {
    if n < 10 && width <= 1 then [Digit(n)] else Decimal(n / 10, if width == 0 then 0 else width - 1) + [Digit(n % 10)]
  }

  function Digit(n: nat): (c: char)
    requires n < 10
    ensures '0' <= c <= '9'
  {
    "0123456789"[n]
  }

  const NEXT_PART: string := "------=_NextPart-Proposed.Boost.Mime."

  lemma NextPart()
    ensures All(NEXT_PART, IsQuotable) && ')' !in NEXT_PART
  {
  }

  function Invented(clock: int): (b: string)
    ensures b != "" && All(b, IsQuotable)
  {
    NextPart();
    NEXT_PART + (if clock >= 0 then Decimal(clock, 8) else "-" + Decimal(-clock, 7))
  }

  // ---------- the header ----------

  function BoundaryPhrase(b: string): string { "; boundary=\"" + b + "\"" }

  predicate HasContentType(hs: seq<Header>) { exists h :: h in hs && EqualIgnoringCase(h.name, "Content-Type") }

  function AppendToFirst(hs: seq<Header>, text: string): (r: seq<Header>)
    ensures |r| == |hs|
  {
    if hs == [] then []
    else if EqualIgnoringCase(hs[0].name, "Content-Type") then [Header(hs[0].name, hs[0].value + text)] + hs[1..]
    else [hs[0]] + AppendToFirst(hs[1..], text)
  }

  // The headers, with one of the default type if there is none
  function WithContentType(hs: seq<Header>, default: string): seq<Header> {
    if HasContentType(hs) then hs else hs + [Header("Content-Type", default)]
  }

  // Fails if the header is not a content type, or names a boundary already.
  function AppendPhrase(hs: seq<Header>, default: string, b: string): Option<seq<Header>> {
    var header := ContentTypeHeader(hs, default);
    if ParseContentType(header).None? || Boundary(header).Some? then None
    else Some(AppendToFirst(WithContentType(hs, default), BoundaryPhrase(b)))
  }

  // ---------- printing ----------

  // The part with its boundaries added, its text, and how often the clock has been read
  datatype Printed = Printed(part: Part, text: string, n: nat)

  function Stream(p: Part, clock: nat -> int, n: nat): Option<Printed>
    decreases p, 1
  {
    match p.kind
    case SimplePart => Some(Printed(p, PrintHeaders(p.headers) + p.body, n))
    case MessagePart =>
      if |p.subparts| != 1 then None
      else
        (match Stream(p.subparts[0], clock, n)
         case None => None
         case Some(s) => Some(Printed(p.(subparts := [s.part]), PrintHeaders(p.headers) + s.text, s.n)))
    case MultiPart =>
      match Boundary(ContentTypeHeader(p.headers, p.defaultType))
      case Some(b) => StreamMultipart(p, p.headers, b, clock, n)
      case None =>
        var b := Invented(clock(n));
        match AppendPhrase(p.headers, p.defaultType, b)
        case None => None
        case Some(hs) => StreamMultipart(p, hs, b, clock, n + 1)
  }

  function StreamMultipart(p: Part, hs: seq<Header>, b: string, clock: nat -> int, n: nat): Option<Printed>
    decreases p, 0
  {
    match StreamAll(p.subparts, clock, n)
    case None => None
    case Some((qs, ts, m)) => Some(Printed(p.(headers := hs, subparts := qs), PrintHeaders(hs) + PrintMultipart(p, ts, b), m))
  }

  function StreamAll(ps: seq<Part>, clock: nat -> int, n: nat): (r: Option<(seq<Part>, seq<string>, nat)>)
    ensures r.Some? ==> |r.value.0| == |r.value.1| == |ps|
    decreases ps, 0
  {
    if ps == [] then Some(([], [], n))
    else
      match Stream(ps[0], clock, n)
      case None => None
      case Some(s) =>
        match StreamAll(ps[1..], clock, s.n)
        case None => None
        case Some((qs, ts, m)) => Some(([s.part] + qs, [s.text] + ts, m))
  }

  // Where no boundary is missing, nothing is invented.
  lemma {:induction false} StreamPrinted(p: Part, clock: nat -> int, n: nat)
    requires PrintMime(p).Some?
    ensures Stream(p, clock, n) == Some(Printed(p, PrintMime(p).value, n))
    decreases p, 1
  {
    hide ContentTypeHeader, Boundary, PrintHeaders, PrintMultipart, AppendPhrase, Invented;
    match p.kind
    case SimplePart =>
    case MessagePart =>
      StreamPrinted(p.subparts[0], clock, n);
      assert p.subparts == [p.subparts[0]];
    case MultiPart =>
      StreamAllPrinted(p.subparts, clock, n);
  }

  lemma {:induction false} StreamAllPrinted(ps: seq<Part>, clock: nat -> int, n: nat)
    requires PrintAll(ps).Some?
    ensures StreamAll(ps, clock, n) == Some((ps, PrintAll(ps).value, n))
    decreases ps, 0
  {
    hide Stream, PrintMime;
    if ps != [] {
      StreamPrinted(ps[0], clock, n);
      StreamAllPrinted(ps[1..], clock, n);
      assert [ps[0]] + ps[1..] == ps;
    }
  }

  // Boundaries invented or not, the parts that survive printing and parsing are the well-formed ones.
  lemma StreamRoundTrip(p: Part, clock: nat -> int, n: nat, default: string)
    ensures Stream(p, clock, n).Some? && ParseMime(Stream(p, clock, n).value.text, default) == Ok(p) <==> WellFormed(p, default)
  {
    hide Stream, ParseMime, PrintMime, WellFormed;
    if WellFormed(p, default) {
      PrintParse(p, default);
      StreamPrinted(p, clock, n);
    }
    if Stream(p, clock, n).Some? && ParseMime(Stream(p, clock, n).value.text, default) == Ok(p) {
      ParsePrint(Stream(p, clock, n).value.text, default);
    }
  }

  // ---------- a phrase after a content type ----------

  // What the grammar leaves of a list of phrases
  function PhrasesRest(s: string): string
    decreases |s|
  {
    match ParsePhrase(s)
    case Some((_, rest)) => PhrasesRest(rest)
    case None => s
  }

  // A token and what follows it
  function TokenAndRest(s: string): (string, string) { var n := Run(s, IsCtTokenChar); (s[..n], s[n..]) }

  // Type, subtype, and what follows them
  function TypeAndRest(header: string): Option<(string, string, string)> {
    var (kind, a) := TokenAndRest(header[Run(header, IsSpace)..]);
    if kind == "" || a == "" || a[0] != '/' then None
    else
      var (subKind, rest) := TokenAndRest(a[1..]);
      if subKind == "" then None else Some((kind, subKind, rest))
  }

  lemma ContentTypeIs(header: string)
    ensures ParseContentType(header) ==
            match TypeAndRest(header)
            case None => None
            case Some((kind, subKind, rest)) => Some(ContentType(kind, subKind, ParsePhrases(rest)))
  {
    hide Run, ParsePhrases;
  }

  // The header fits the grammar to its end.
  predicate TakenWhole(header: string) {
    TypeAndRest(header).Some? && PhrasesRest(TypeAndRest(header).value.2) == ""
  }

  // Text that can follow a phrase without changing how it is read
  predicate Follows(u: string) { u != "" && u[0] == ';' && ')' !in u }

  lemma RunThen(s: string, u: string, p: char -> bool)
    requires Run(s, p) < |s| || u == "" || !p(u[0])
    ensures Run(s + u, p) == Run(s, p)
  {
    RunIs(s + u, p, Run(s, p));
  }

  lemma Unclosed(s: string, u: string)
    requires Follows(u) && s != "" && Run(s[1..], IsCommentChar) == |s| - 1
    ensures var m := Run((s + u)[1..], IsCommentChar); m + 1 < |s + u| ==> (s + u)[m + 1] != ')'
  {
    var t := s + u;
    var m := Run(t[1..], IsCommentChar);
    assert t[1..] == s[1..] + u;
    if m + 1 < |t| {
      assert m >= |s| - 1;
      assert t[m + 1] == u[m + 1 - |s|];
    }
  }

  lemma SpaceThen(s: string, u: string)
    requires Follows(u)
    ensures SpaceLength(s + u) == SpaceLength(s)
  {
    var t := s + u;
    if s == "" {
      assert t == u;
    } else {
      assert t[1..] == s[1..] + u;
      if s[0] == '(' {
        var n := Run(s[1..], IsCommentChar);
        if n < |s| - 1 {
          RunThen(s[1..], u, IsCommentChar);
          assert t[n + 1] == s[n + 1];
        } else {
          Unclosed(s, u);
        }
      }
    }
  }

  lemma {:induction false} SpacesThen(s: string, u: string)
    requires Follows(u)
    ensures SpacesLength(s + u) == SpacesLength(s)
    decreases |s|
  {
    hide SpaceLength;
    SpaceThen(s, u);
    var n := SpaceLength(s);
    if n > 0 {
      assert (s + u)[n..] == s[n..] + u;
      SpacesThen(s[n..], u);
    }
  }

  lemma QuotedThen(w: string, u: string)
    requires Run(w, IsQuotable) < |w|
    ensures var n := Run(w, IsQuotable);
            Run(w + u, IsQuotable) == n && (w + u)[..n] == w[..n] && (w + u)[n] == w[n] && (w + u)[n + 1..] == w[n + 1..] + u
  {
    hide Run;
    RunThen(w, u, IsQuotable);
  }

  lemma ValueThen(s: string, u: string)
    requires Follows(u) && ParsePhraseValue(s).Some?
    ensures ParsePhraseValue(s + u) == Some((ParsePhraseValue(s).value.0, ParsePhraseValue(s).value.1 + u))
  {
    hide Run, Follows, TokenAndRest;
    ValueIs(s);
    ValueIs(s + u);
    TokenThen(s, u);
    if TokenAndRest(s).0 == "" {
      assert (s + u)[0] == s[0] && (s + u)[1..] == s[1..] + u;
      QuotedThen(s[1..], u);
    }
  }

  lemma ValueIs(s: string)
    ensures ParsePhraseValue(s) ==
            var (token, rest) := TokenAndRest(s);
            if token != "" then Some((token, rest))
            else if s != "" && s[0] == '"' then
              var w := s[1..];
              var n := Run(w, IsQuotable);
              if 0 < n < |w| && w[n] == '"' then Some((w[..n], w[n + 1..])) else None
            else None
  {
    hide Run;
    if s != "" {
      var w := s[1..];
      var n := Run(w, IsQuotable);
      assert n < |w| ==> s[n + 1] == w[n] && s[n + 2..] == w[n + 1..];
    }
  }

  lemma PhraseThen(s: string, u: string)
    requires Follows(u) && ParsePhrase(s).Some?
    ensures ParsePhrase(s + u) == Some((ParsePhrase(s).value.0, ParsePhrase(s).value.1 + u))
  {
    hide Run, SpacesLength, ParsePhraseValue;
    var t := s + u;
    assert t[1..] == s[1..] + u;
    SpacesThen(s[1..], u);
    var spaces := SpacesLength(s[1..]);
    var a := s[1 + spaces..];
    assert t[1 + spaces..] == a + u;
    var n := Run(a, IsCtTokenChar);
    RunThen(a, u, IsCtTokenChar);
    assert (a + u)[..n] == a[..n] && (a + u)[n + 1..] == a[n + 1..] + u;
    ValueThen(a[n + 1..], u);
    var rest := ParsePhraseValue(a[n + 1..]).value.1;
    SpacesThen(rest, u);
    assert (rest + u)[SpacesLength(rest)..] == rest[SpacesLength(rest)..] + u;
  }

  lemma TokenThen(s: string, u: string)
    requires Follows(u)
    ensures TokenAndRest(s + u) == (TokenAndRest(s).0, TokenAndRest(s).1 + u)
  {
    hide Run;
    assert !IsCtTokenChar(';');
    RunThen(s, u, IsCtTokenChar);
    var n := Run(s, IsCtTokenChar);
    assert (s + u)[..n] == s[..n] && (s + u)[n..] == s[n..] + u;
  }

  lemma BlanksThen(s: string, u: string)
    requires Follows(u)
    ensures (s + u)[Run(s + u, IsSpace)..] == s[Run(s, IsSpace)..] + u
  {
    hide Run;
    RunThen(s, u, IsSpace);
  }

  lemma {:induction false} FindInSecond(ps: seq<Phrase>, qs: seq<Phrase>, key: string)
    requires FindPhrase(ps, key).None?
    ensures FindPhrase(ps + qs, key) == FindPhrase(qs, key)
  {
    if ps == [] {
      assert ps + qs == qs;
    } else {
      assert (ps + qs)[1..] == ps[1..] + qs;
      FindInSecond(ps[1..], qs, key);
    }
  }

  // ---------- what is left of a header, and a boundary after it ----------

  lemma {:induction false} PhrasesAfterRest(s: string, u: string)
    requires Follows(u)
    ensures ParsePhrases(s + u) == ParsePhrases(s) + ParsePhrases(PhrasesRest(s) + u)
    ensures ParsePhrase(PhrasesRest(s)).None?
    decreases |s|
  {
    hide ParsePhrase;
    if ParsePhrase(s).Some? {
      var (p, rest) := ParsePhrase(s).value;
      PhraseThen(s, u);
      PhrasesAfterRest(rest, u);
      var more := ParsePhrases(PhrasesRest(s) + u);
      assert [p] + (ParsePhrases(rest) + more) == [p] + ParsePhrases(rest) + more;
    } else {
      assert ParsePhrases(s) + ParsePhrases(s + u) == ParsePhrases(s + u);
    }
  }

  const BOUNDARY_IS: string := "; boundary="

  // An open quote takes in all up to the quote before the boundary.
  lemma QuoteTakes(w: string, b: string)
    requires All(w, IsQuotable)
    ensures ParsePhraseValue("\"" + w + BoundaryPhrase(b)) == Some((w + BOUNDARY_IS, b + "\""))
  {
    hide Run;
    var s := "\"" + w + BoundaryPhrase(b);
    var value := w + BOUNDARY_IS;
    assert s == "\"" + (value + ("\"" + (b + "\"")));
    RunIs(s, IsCtTokenChar, 0);
    assert s[1..] == value + ("\"" + (b + "\""));
    RunIs(s[1..], IsQuotable, |value|);
    assert s[1..][..|value|] == value && s[|value| + 1] == '"' && s[|value| + 2..] == b + "\"";
  }

  // A value that cannot be read is read with the boundary behind it only if it is an open quote.
  lemma OpenQuote(s: string, b: string)
    requires ParsePhraseValue(s).None? && Follows(BoundaryPhrase(b))
    ensures var r := ParsePhraseValue(s + BoundaryPhrase(b));
            r.Some? ==> (exists w :: r.value.0 == w + BOUNDARY_IS) && r.value.1 == b + "\""
  {
    hide Run, BoundaryPhrase;
    var u := BoundaryPhrase(b);
    assert !IsCtTokenChar(';');
    RunThen(s, u, IsCtTokenChar);
    if s == "" {
      assert s + u == u;
    } else if s[0] == '"' {
      var w := s[1..];
      assert (s + u)[1..] == w + u;
      if Run(w, IsQuotable) < |w| {
        RunThen(w, u, IsQuotable);
        assert (s + u)[Run(w, IsQuotable) + 1] == s[Run(w, IsQuotable) + 1];
      } else {
        assert s + u == "\"" + w + u;
        QuoteTakes(w, b);
      }
    }
  }

  // The same for a phrase
  lemma OpenPhrase(r: string, b: string)
    requires r != "" && ParsePhrase(r).None? && Follows(BoundaryPhrase(b)) && (b != "" ==> b[0] == '-')
    ensures var q := ParsePhrase(r + BoundaryPhrase(b));
            q.Some? ==> (exists w :: q.value.0.value == w + BOUNDARY_IS) && q.value.1 == b + "\""
  {
    hide Run, SpacesLength, ParsePhraseValue, BoundaryPhrase;
    var u := BoundaryPhrase(b);
    var t := r + u;
    if r[0] == ';' {
      assert t[1..] == r[1..] + u;
      SpacesThen(r[1..], u);
      var spaces := SpacesLength(r[1..]);
      var a := r[1 + spaces..];
      assert t[1 + spaces..] == a + u;
      RunThen(a, u, IsCtTokenChar) by { assert !IsCtTokenChar(';'); }
      var n := Run(a, IsCtTokenChar);
      if spaces > 0 && 0 < n < |a| && a[n] == '=' {
        assert (a + u)[n + 1..] == a[n + 1..] + u;
        OpenQuote(a[n + 1..], b);
        NoSpacesInside(b);
        assert (b + "\"")[0..] == b + "\"";
      }
    }
  }

  lemma NoSpacesInside(b: string)
    requires b != "" ==> b[0] == '-'
    ensures SpacesLength(b + "\"") == 0
  {
  }

  // No invented boundary ends like a value that an open quote makes.
  lemma NotInvented(w: string, clock: int)
    ensures w + BOUNDARY_IS != Invented(clock)
  {
    var b := Invented(clock);
    assert '0' <= b[|b| - 1] <= '9';
    assert (w + BOUNDARY_IS)[|w + BOUNDARY_IS| - 1] == '=';
  }

  // Behind text that is left of a header, an invented boundary is not found.
  lemma NotFoundBehind(r: string, clock: int)
    requires r != "" && ParsePhrase(r).None?
    ensures FindPhrase(ParsePhrases(r + BoundaryPhrase(Invented(clock))), "boundary") != Some(Invented(clock))
  {
    hide ParsePhrase, BoundaryPhrase, Invented, EqualIgnoringCase;
    var b := Invented(clock);
    NoParenthesis(clock);
    StartsWithDash(clock);
    OpenPhrase(r, b);
    var q := ParsePhrase(r + BoundaryPhrase(b));
    if q.Some? {
      var w :| q.value.0.value == w + BOUNDARY_IS;
      NotInvented(w, clock);
      NoPhraseAtDash(b);
      assert ParsePhrases(r + BoundaryPhrase(b)) == [q.value.0] + [];
    }
  }

  lemma StartsWithDash(clock: int)
    ensures Invented(clock)[0] == '-'
  {
  }

  lemma NoPhraseAtDash(b: string)
    requires b != "" && b[0] == '-'
    ensures ParsePhrases(b + "\"") == []
  {
  }

  lemma TypeThen(header: string, u: string)
    requires Follows(u) && TypeAndRest(header).Some?
    ensures var (kind, subKind, rest) := TypeAndRest(header).value; TypeAndRest(header + u) == Some((kind, subKind, rest + u))
  {
    hide Run, Follows, TokenAndRest;
    BlanksThen(header, u);
    var s := header[Run(header, IsSpace)..];
    TokenThen(s, u);
    var a := TokenAndRest(s).1;
    assert (a + u)[1..] == a[1..] + u;
    TokenThen(a[1..], u);
  }

  // An invented boundary is the one found in the header again exactly if the grammar takes the header
  // to its end.
  lemma BoundaryFound(header: string, clock: int)
    requires ParseContentType(header).Some? && Boundary(header).None?
    ensures Boundary(header + BoundaryPhrase(Invented(clock))) == Some(Invented(clock)) <==> TakenWhole(header)
  {
    hide ParseContentType, TypeAndRest, ParsePhrase, ParsePhrases, PhrasesRest, Invented, BoundaryPhrase, EqualIgnoringCase;
    var b := Invented(clock);
    var u := BoundaryPhrase(b);
    NoParenthesis(clock);
    ContentTypeIs(header);
    ContentTypeIs(header + u);
    TypeThen(header, u);
    var r := TypeAndRest(header).value.2;
    PhrasesAfterRest(r, u);
    FindInSecond(ParsePhrases(r), ParsePhrases(PhrasesRest(r) + u), "boundary");
    if TakenWhole(header) {
      assert PhrasesRest(r) + u == u;
      OnePhrase(b);
    } else {
      NotFoundBehind(PhrasesRest(r), clock);
    }
  }

  lemma OnePhrase(b: string)
    requires b != "" && All(b, IsQuotable)
    ensures ParsePhrases(BoundaryPhrase(b)) == [Phrase("boundary", b)] && EqualIgnoringCase("boundary", "boundary")
  {
    hide ParsePhrases;
    var phrase := Phrase("boundary", b);
    assert PrintPhrases([phrase]) == BoundaryPhrase(b) + PrintPhrases([phrase][1..]) == BoundaryPhrase(b);
    SmallLetters("boundary");
    PhrasesRead([phrase]);
  }

  lemma NoParenthesis(clock: int)
    ensures Follows(BoundaryPhrase(Invented(clock)))
  {
    assert ')' !in NEXT_PART;
    assert ')' !in "; boundary=\"";
  }

  lemma {:induction false} HeaderAppended(hs: seq<Header>, default: string, text: string)
    ensures HasContentType(hs) ==> ContentTypeHeader(AppendToFirst(hs, text), default) == ContentTypeHeader(hs, default) + text
    ensures !HasContentType(hs) ==>
              && ContentTypeHeader(hs, default) == default
              && ContentTypeHeader(AppendToFirst(hs + [Header("Content-Type", default)], text), default) == default + text
  {
    hide EqualIgnoringCase;
    if hs == [] {
      MixedName();
      assert hs + [Header("Content-Type", default)] == [Header("Content-Type", default)];
    } else {
      HeaderAppended(hs[1..], default, text);
      assert (hs + [Header("Content-Type", default)])[1..] == hs[1..] + [Header("Content-Type", default)];
      assert hs[0] in hs;
      assert HasContentType(hs) <==> EqualIgnoringCase(hs[0].name, "Content-Type") || HasContentType(hs[1..]);
    }
  }
}
