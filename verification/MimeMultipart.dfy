// The body of a multipart: a prolog, sections between separators, and an epilog.

module MimeMultipart {
  import opened Results
  import opened MimeText
  import opened MimeContentType

  // What bounds a section: a line end and the marked boundary
  function Separator(b: string): (d: string)
    ensures d != ""
  {
    CRLF + "--" + b
  }

  // The first separator when there is no prolog
  function BareLine(b: string): string { "--" + b + CRLF }

  // The separator line that ends the prolog
  function PrologLine(b: string): string { CRLF + BareLine(b) }

  function Terminator(b: string): string { Separator(b) + "--" + CRLF }

  datatype Prolog = Prolog(isMissing: bool, text: string, rest: string)

  // Either the bare first separator, or some text and a separator line
  function ParseProlog(s: string, b: string): (r: Option<Prolog>)
    ensures r.Some? ==> |r.value.rest| < |s|
  {
    if BareLine(b) <= s then Some(Prolog(true, "", s[|BareLine(b)|..]))
    else
      var n := Find(s, PrologLine(b));
      if n == 0 || n == |s| then None
      else Some(Prolog(false, s[..n], s[n + |PrologLine(b)|..]))
  }

  // A list of non-empty sections.  Another one follows only if a separator line does and it is
  // not empty either; the result holds what is left.
  function ParseSections(s: string, b: string): (r: Option<(seq<string>, string)>)
    ensures r.Some? ==> |r.value.1| < |s| && forall p :: p in r.value.0 ==> |p| <= |s|
    decreases |s|
  {
    var n, line := Find(s, Separator(b)), Separator(b) + CRLF;
    if n == 0 then None
    else if line <= s[n..] then
      match ParseSections(s[n + |line|..], b)
      case Some((more, rest)) => Some(([s[..n]] + more, rest))
      case None => Some(([s[..n]], s[n..]))
    else Some(([s[..n]], s[n..]))
  }

  datatype SectionsError = EmptySection | NoTerminator

  // The sections and the epilog
  function ParseMultipart(s: string, b: string): (r: Result<(seq<string>, string), SectionsError>)
    ensures r.Ok? ==> |r.value.0| > 0 && forall p :: p in r.value.0 ==> |p| <= |s|
  {
    match ParseSections(s, b)
    case None => Err(EmptySection)
    case Some((ps, rest)) =>
      SectionsFound(s, b);
      if Terminator(b) <= rest then Ok((ps, rest[|Terminator(b)|..])) else Err(NoTerminator)
  }

  lemma SectionsFound(s: string, b: string)
    ensures ParseSections(s, b).Some? ==> |ParseSections(s, b).value.0| > 0
  {
  }

  // ---------- printing ----------

  // A separator line; without the leading line end for a missing prolog
  function BoundaryLine(b: string, isLast: bool, leadingCR: bool): string {
    (if leadingCR then CRLF else "") + "--" + b + (if isLast then "--" else "") + CRLF
  }

  // The sections with a separator line between each and the next
  function JoinSections(ps: seq<string>, b: string): string
  {
    if ps == [] then "" else if |ps| == 1 then ps[0] else ps[0] + BoundaryLine(b, false, true) + JoinSections(ps[1..], b)
  }

  function PrintPrologLine(isMissing: bool, prolog: string, b: string): string {
    prolog + BoundaryLine(b, false, |prolog| > 0 || !isMissing)
  }

  // ---------- the language ----------

  predicate IsBoundary(b: string) { b != "" && All(b, IsPrintable) }

  // A section: not empty, and without a separator
  ghost predicate IsSection(p: string, b: string) { p != "" && !Occurs(p, Separator(b)) }

  // A prolog that is missing, or has text in which no separator line can be read even when the
  // line ends around it are counted in
  ghost predicate IsProlog(isMissing: bool, prolog: string, b: string) {
    if isMissing then prolog == "" else prolog != "" && !Occurs(CRLF + prolog + CRLF, PrologLine(b))
  }

  lemma OneCR(b: string)
    requires IsBoundary(b)
    ensures IsDelimiter(Separator(b))
  {
    forall j | 0 < j < |Separator(b)| ensures Separator(b)[j] != '\r' {
      if j >= 4 { assert Separator(b)[j] == b[j - 4]; }
    }
  }

  // ---------- sections ----------

  ghost predicate SectionsRight(s: string, b: string, r: (seq<string>, string)) {
    s == JoinSections(r.0, b) + r.1 && r.0 != [] && forall p :: p in r.0 ==> IsSection(p, b)
  }

  lemma {:induction false} SectionsParsed(s: string, b: string)
    requires IsBoundary(b) && ParseSections(s, b).Some?
    ensures SectionsRight(s, b, ParseSections(s, b).value)
    decreases |s|
  {
    hide Find, SectionsRight, IsSection, ParseSections, Separator;
    var line := Separator(b) + CRLF;
    var n := Find(s, Separator(b));
    SectionsUnfold(s, b);
    FoundSection(s, b);
    if line <= s[n..] && ParseSections(s[n + |line|..], b).Some? {
      var t := s[n + |line|..];
      SectionsParsed(t, b);
      FirstSection(s, line, n);
      MoreRight(s[..n], ParseSections(t, b).value.0, b, ParseSections(t, b).value.1, t);
    } else {
      OneRight(s[..n], b, s[n..]);
      assert s == s[..n] + s[n..];
    }
  }

  lemma SectionsUnfold(s: string, b: string)
    requires ParseSections(s, b).Some?
    ensures var n, line := Find(s, Separator(b)), Separator(b) + CRLF;
            && 0 < n <= |s|
            && ParseSections(s, b).value ==
               if line <= s[n..] && ParseSections(s[n + |line|..], b).Some?
               then ([s[..n]] + ParseSections(s[n + |line|..], b).value.0, ParseSections(s[n + |line|..], b).value.1)
               else ([s[..n]], s[n..])
  {
    hide Find, Separator, ParseSections;
    SectionsSome(s, b);
    var n, line := Find(s, Separator(b)), Separator(b) + CRLF;
    if line <= s[n..] && ParseSections(s[n + |line|..], b).Some? { UnfoldMore(s, b); } else { UnfoldLast(s, b); }
  }

  lemma UnfoldMore(s: string, b: string)
    requires Find(s, Separator(b)) > 0
    requires var n, line := Find(s, Separator(b)), Separator(b) + CRLF; line <= s[n..] && ParseSections(s[n + |line|..], b).Some?
    ensures var n, line := Find(s, Separator(b)), Separator(b) + CRLF;
            ParseSections(s, b) ==
            Some(([s[..n]] + ParseSections(s[n + |line|..], b).value.0, ParseSections(s[n + |line|..], b).value.1))
  {
    hide Find, Separator;
  }

  lemma UnfoldLast(s: string, b: string)
    requires Find(s, Separator(b)) > 0
    requires var n, line := Find(s, Separator(b)), Separator(b) + CRLF; line <= s[n..] ==> ParseSections(s[n + |line|..], b).None?
    ensures var n := Find(s, Separator(b)); ParseSections(s, b) == Some(([s[..n]], s[n..]))
  {
    hide Find, Separator, ParseSections;
    if Separator(b) + CRLF <= s[Find(s, Separator(b))..] { UnfoldStop(s, b); } else { UnfoldEnd(s, b); }
  }

  lemma UnfoldStop(s: string, b: string)
    requires Find(s, Separator(b)) > 0
    requires var n, line := Find(s, Separator(b)), Separator(b) + CRLF; line <= s[n..] && ParseSections(s[n + |line|..], b).None?
    ensures var n := Find(s, Separator(b)); ParseSections(s, b) == Some(([s[..n]], s[n..]))
  {
    hide Find, Separator;
  }

  lemma UnfoldEnd(s: string, b: string)
    requires Find(s, Separator(b)) > 0 && !(Separator(b) + CRLF <= s[Find(s, Separator(b))..])
    ensures var n := Find(s, Separator(b)); ParseSections(s, b) == Some(([s[..n]], s[n..]))
  {
    hide Find, Separator;
  }

  lemma OneRight(p: string, b: string, rest: string)
    requires IsSection(p, b)
    ensures SectionsRight(p + rest, b, ([p], rest))
  {
    JoinOne(p, b);
  }

  lemma MoreRight(p: string, more: seq<string>, b: string, rest: string, t: string)
    requires IsSection(p, b) && SectionsRight(t, b, (more, rest))
    ensures SectionsRight(p + (Separator(b) + CRLF + t), b, ([p] + more, rest))
  {
    JoinMore(p, more, b, rest);
  }

  lemma JoinOne(p: string, b: string)
    ensures JoinSections([p], b) == p
  {
  }

  lemma FirstSection(s: string, line: string, n: nat)
    requires n <= |s| && line <= s[n..]
    ensures s == s[..n] + (line + s[n + |line|..])
  {
    assert s[n..] == line + s[n..][|line|..];
  }

  lemma JoinMore(p: string, more: seq<string>, b: string, rest: string)
    requires more != []
    ensures JoinSections([p] + more, b) + rest == p + (Separator(b) + CRLF + (JoinSections(more, b) + rest))
  {
    assert ([p] + more)[1..] == more;
    assert BoundaryLine(b, false, true) == Separator(b) + CRLF;
  }

  lemma FoundSection(s: string, b: string)
    requires Find(s, Separator(b)) > 0
    ensures IsSection(s[..Find(s, Separator(b))], b)
  {
    var d := Separator(b);
    var n := Find(s, d);
    forall i: nat ensures !OccursAt(s[..n], d, i) {
      OccursLeft(s[..n], s[n..], d, i);
      assert s == s[..n] + s[n..];
      assert OccursAt(s[..n], d, i) ==> i < n;
    }
  }

  lemma {:induction false} SectionsRead(ps: seq<string>, b: string, epilog: string)
    requires IsBoundary(b) && ps != [] && forall p :: p in ps ==> IsSection(p, b)
    ensures ParseSections(JoinSections(ps, b) + (Terminator(b) + epilog), b) == Some((ps, Terminator(b) + epilog))
  {
    var end := Terminator(b) + epilog;
    assert IsSection(ps[0], b);
    if |ps| == 1 {
      assert ps == [ps[0]];
      LastSectionRead(ps[0], b, epilog);
    } else {
      var t := JoinSections(ps[1..], b) + end;
      assert [ps[0]] + ps[1..] == ps;
      JoinMore(ps[0], ps[1..], b, end);
      SectionsRead(ps[1..], b, epilog);
      MoreSectionsRead(ps[0], b, t);
    }
  }

  lemma LastSectionRead(p: string, b: string, epilog: string)
    requires IsBoundary(b) && IsSection(p, b)
    ensures ParseSections(p + (Terminator(b) + epilog), b) == Some(([p], Terminator(b) + epilog))
  {
    hide Find, Occurs;
    var d, end := Separator(b), Terminator(b) + epilog;
    OneCR(b);
    var after := "--" + CRLF + epilog;
    assert end == d + after && p + end == p + d + after;
    FindAfter(p, d, after);
    assert (p + end)[|p|..] == end && (p + end)[..|p|] == p;
    assert end[|d|] == '-' && (d + CRLF)[|d|] == '\r';
  }

  lemma MoreSectionsRead(p: string, b: string, t: string)
    requires IsBoundary(b) && IsSection(p, b) && ParseSections(t, b).Some?
    ensures var (more, rest) := ParseSections(t, b).value;
            ParseSections(p + (Separator(b) + CRLF + t), b) == Some(([p] + more, rest))
  {
    var d := Separator(b);
    var s := p + (d + CRLF + t);
    hide Find, Occurs, Separator, ParseSections;
    OneCR(b);
    Cut(p, d + CRLF, t);
    assert s == p + d + (CRLF + t);
    FindAfter(p, d, CRLF + t);
    SectionsAgain(s, b, |p|);
  }

  // A separator line after the first section
  lemma SectionsAgain(s: string, b: string, n: nat)
    requires 0 < n <= |s| && n == Find(s, Separator(b)) && Separator(b) + CRLF <= s[n..]
    requires ParseSections(s[n + |Separator(b) + CRLF|..], b).Some?
    ensures var more := ParseSections(s[n + |Separator(b) + CRLF|..], b).value;
            ParseSections(s, b) == Some(([s[..n]] + more.0, more.1))
  {
    hide Find, Separator, ParseSections;
    SectionsSome(s, b);
    SectionsUnfold(s, b);
  }

  lemma SectionsSome(s: string, b: string)
    ensures ParseSections(s, b).Some? <==> Find(s, Separator(b)) > 0
  {
    hide Find, Separator;
  }

  lemma MultipartParsed(s: string, b: string)
    requires IsBoundary(b) && ParseMultipart(s, b).Ok?
    ensures var (ps, epilog) := ParseMultipart(s, b).value;
            s == JoinSections(ps, b) + BoundaryLine(b, true, true) + epilog && ps != [] && forall p :: p in ps ==> IsSection(p, b)
  {
    hide JoinSections;
    SectionsParsed(s, b);
    var (ps, rest) := ParseSections(s, b).value;
    assert rest == Terminator(b) + rest[|Terminator(b)|..];
    assert BoundaryLine(b, true, true) == Terminator(b);
  }

  lemma MultipartRead(ps: seq<string>, b: string, epilog: string)
    requires IsBoundary(b) && ps != [] && forall p :: p in ps ==> IsSection(p, b)
    ensures ParseMultipart(JoinSections(ps, b) + BoundaryLine(b, true, true) + epilog, b) == Ok((ps, epilog))
  {
    hide JoinSections, ParseSections, IsSection;
    SectionsRead(ps, b, epilog);
    assert JoinSections(ps, b) + Terminator(b) + epilog == JoinSections(ps, b) + (Terminator(b) + epilog);
    assert BoundaryLine(b, true, true) == Terminator(b);
    assert (Terminator(b) + epilog)[|Terminator(b)|..] == epilog;
  }

  // ---------- the prolog ----------

  // The text around the first occurrence
  lemma FoundAt(s: string, d: string)
    requires d != "" && Find(s, d) < |s|
    ensures var n := Find(s, d); n + |d| <= |s| && s == s[..n] + d + s[n + |d|..]
  {
    hide Find;
    var n := Find(s, d);
    assert OccursAt(s, d, n);
    Cuts(s, n, n + |d|);
  }

  lemma Cuts(s: string, i: nat, j: nat)
    requires i <= j <= |s|
    ensures s == s[..i] + s[i..j] + s[j..]
  {
  }

  lemma PrologParsed(s: string, b: string)
    requires IsBoundary(b) && ParseProlog(s, b).Some?
    ensures var p := ParseProlog(s, b).value;
            s == PrintPrologLine(p.isMissing, p.text, b) + p.rest && IsProlog(p.isMissing, p.text, b)
  {
    hide Occurs, OccursAt;
    var p := ParseProlog(s, b).value;
    if !p.isMissing {
      var d := PrologLine(b);
      FoundAt(s, d);
      assert PrintPrologLine(false, p.text, b) == p.text + d;
      PrologOccurrences(p.text, b, p.rest);
    }
  }

  lemma PrologRead(isMissing: bool, prolog: string, b: string, rest: string)
    requires IsBoundary(b) && IsProlog(isMissing, prolog, b)
    ensures ParseProlog(PrintPrologLine(isMissing, prolog, b) + rest, b) == Some(Prolog(isMissing, prolog, rest))
  {
    hide Find, Occurs;
    if isMissing {
      assert PrintPrologLine(true, prolog, b) == BareLine(b);
      assert (BareLine(b) + rest)[|BareLine(b)|..] == rest;
    } else {
      var s := prolog + PrologLine(b) + rest;
      PrologOccurrences(prolog, b, rest);
      assert PrintPrologLine(false, prolog, b) == prolog + PrologLine(b);
      assert s[..|prolog|] == prolog && s[|prolog| + |PrologLine(b)|..] == rest;
    }
  }

  // A separator line has two CRs: at its start, and two characters before its end.
  lemma TwoCRs(b: string)
    requires IsBoundary(b)
    ensures var d := PrologLine(b); forall j :: 0 < j < |d| && d[j] == '\r' ==> j == |d| - 2
    ensures |PrologLine(b)| > 2 && PrologLine(b)[0] == '\r' && PrologLine(b)[2..] == BareLine(b)
  {
    var d := PrologLine(b);
    assert forall j :: 4 <= j < |d| - 2 ==> d[j] == b[j - 4];
  }

  // An occurrence that begins in the text ends, at the latest, with the line end after it.
  lemma EndsInText(text: string, b: string, rest: string, i: nat)
    requires IsBoundary(b) && i < |text| && OccursAt(text + PrologLine(b) + rest, PrologLine(b), i)
    ensures OccursAt(text + CRLF, PrologLine(b), i)
  {
    var d, s := PrologLine(b), text + PrologLine(b) + rest;
    TwoCRs(b);
    assert s[|text|] == '\r';
    assert s == (text + CRLF) + (BareLine(b) + rest);
    OccursLeft(text + CRLF, BareLine(b) + rest, d, i);
  }

  lemma BareInText(text: string, b: string, rest: string)
    requires IsBoundary(b)
    ensures BareLine(b) <= text + PrologLine(b) + rest <==> BareLine(b) <= text + CRLF
  {
    var d, s := BareLine(b), text + PrologLine(b) + rest;
    TwoCRs(b);
    assert s == (text + CRLF) + (BareLine(b) + rest);
    assert forall j :: 0 <= j < |d| && d[j] == '\r' ==> PrologLine(b)[j + 2] == '\r';
    assert d <= s && |d| > |text| ==> d[|text|] == s[|text|];
  }

  lemma WithLineEnd(v: string, b: string, i: nat)
    ensures OccursAt(v, PrologLine(b), i) <==> OccursAt(CRLF + v, PrologLine(b), i + 2)
  {
    if i + |PrologLine(b)| <= |v| { assert v[i..i + |PrologLine(b)|] == (CRLF + v)[i + 2..i + 2 + |PrologLine(b)|]; }
  }

  lemma AtLineEnd(v: string, b: string)
    ensures OccursAt(CRLF + v, PrologLine(b), 0) <==> BareLine(b) <= v
  {
    var u, d := CRLF + v, PrologLine(b);
    assert d == CRLF + BareLine(b);
    if BareLine(b) <= v { assert v[..|BareLine(b)|] == BareLine(b); assert u[0..|d|] == CRLF + v[..|BareLine(b)|]; }
    if OccursAt(u, d, 0) { assert v[..|BareLine(b)|] == u[0..|d|][2..]; }
  }

  // The line ends around a text let a bare line at its start count as a separator line.
  lemma LineEndsAround(text: string, b: string)
    requires IsBoundary(b)
    ensures Occurs(CRLF + text + CRLF, PrologLine(b)) <==> BareLine(b) <= text + CRLF || Occurs(text + CRLF, PrologLine(b))
  {
    hide BareLine, PrologLine;
    var d, u, v := PrologLine(b), CRLF + text + CRLF, text + CRLF;
    TwoCRs(b);
    assert u == CRLF + v;
    AtLineEnd(v, b);
    if i: nat :| OccursAt(u, d, i) && i != 0 {
      assert u[i..i + |d|][0] == u[i];
      WithLineEnd(v, b, i - 2);
    }
    if i: nat :| OccursAt(v, d, i) { WithLineEnd(v, b, i); }
  }

  // When a text is followed by a separator line, that line is the first one to be read there
  // exactly if none can be read in the text with line ends around it.
  lemma PrologOccurrences(text: string, b: string, rest: string)
    requires IsBoundary(b) && text != ""
    ensures var s := text + PrologLine(b) + rest;
            !Occurs(CRLF + text + CRLF, PrologLine(b)) <==> !(BareLine(b) <= s) && Find(s, PrologLine(b)) == |text|
  {
    var d, s := PrologLine(b), text + PrologLine(b) + rest;
    LineEndsAround(text, b);
    BareInText(text, b, rest);
    assert s[|text|..|text| + |d|] == d;
    if !Occurs(text + CRLF, d) {
      forall i: nat | i < |text| ensures !OccursAt(s, d, i) {
        if OccursAt(s, d, i) { EndsInText(text, b, rest, i); }
      }
      FindIs(s, d, |text|);
    } else {
      var i: nat :| OccursAt(text + CRLF, d, i);
      assert s == (text + CRLF) + (BareLine(b) + rest);
      OccursLeft(text + CRLF, BareLine(b) + rest, d, i);
    }
  }
}
