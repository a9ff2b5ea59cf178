// The Content-Type grammar: "type/subtype" and a list of ";name=value" phrases.

module MimeContentType {
  import opened Results
  import opened MimeText
  import opened MimeHeaders

  datatype Phrase = Phrase(key: string, value: string)

  datatype ContentType = ContentType(kind: string, subKind: string, phrases: seq<Phrase>)

  predicate IsPrintable(c: char) { ' ' <= c <= '~' }

  predicate IsSpace(c: char) { c == ' ' }

  predicate IsCtTokenChar(c: char) { IsPrintable(c) && c !in " ()<>@,;:\\\"/[]?=" }

  predicate IsQuotable(c: char) { IsPrintable(c) && c != '"' }

  predicate IsCommentChar(c: char) { IsPrintable(c) && c != ')' }

  function Lower(c: char): char { if 'A' <= c <= 'Z' then c - 'A' + 'a' else c }

  // Comparison that ignores the case of letters
  predicate EqualIgnoringCase(a: string, b: string) {
    |a| == |b| && forall i :: 0 <= i < |a| ==> Lower(a[i]) == Lower(b[i])
  }

  // One piece of white space: a blank, a line end or a comment; 0 if there is none
  function SpaceLength(s: string): (n: nat)
    ensures n <= |s|
  {
    if s == "" then 0
    else if IsBlank(s[0]) then 1
    else if CRLF <= s then 2
    else if s[0] == '(' then
      var n := Run(s[1..], IsCommentChar);
      if n > 0 && n + 1 < |s| && s[n + 1] == ')' then n + 2 else 0
    else 0
  }

  function SpacesLength(s: string): (n: nat)
    ensures n <= |s|
    decreases |s|
  {
    var n := SpaceLength(s);
    if n == 0 then 0 else n + SpacesLength(s[n..])
  }

  // A token, or text between quotes
  function ParsePhraseValue(s: string): (r: Option<(string, string)>)
    ensures r.Some? ==> |r.value.1| < |s| && r.value.0 != "" && All(r.value.0, IsPrintable)
  {
    var t := Run(s, IsCtTokenChar);
    if t > 0 then Some((s[..t], s[t..]))
    else if s != "" && s[0] == '"' then
      var n := Run(s[1..], IsQuotable);
      if n > 0 && n + 1 < |s| && s[n + 1] == '"' then Some((s[1..][..n], s[n + 2..])) else None
    else None
  }

  function ParsePhrase(s: string): (r: Option<(Phrase, string)>)
    ensures r.Some? ==> |r.value.1| < |s| && r.value.0.value != "" && All(r.value.0.value, IsPrintable)
  {
    if s == "" || s[0] != ';' then None
    else
      var spaces := SpacesLength(s[1..]);
      var a := s[1 + spaces..];
      var n := Run(a, IsCtTokenChar);
      if spaces == 0 || n == 0 || n == |a| || a[n] != '=' then None
      else
        match ParsePhraseValue(a[n + 1..])
        case None => None
        case Some((v, rest)) => Some((Phrase(a[..n], v), rest[SpacesLength(rest)..]))
  }

  function ParsePhrases(s: string): (ps: seq<Phrase>)
    ensures forall p :: p in ps ==> p.value != "" && All(p.value, IsPrintable)
    decreases |s|
  {
    match ParsePhrase(s)
    case Some((p, rest)) => [p] + ParsePhrases(rest)
    case None => []
  }

  // What follows the part of the header that fits the grammar is ignored.
  function ParseContentType(header: string): (r: Option<ContentType>)
    ensures r.Some? ==> forall p :: p in r.value.phrases ==> p.value != "" && All(p.value, IsPrintable)
  {
    var s := header[Run(header, IsSpace)..];
    var n := Run(s, IsCtTokenChar);
    if n == 0 || n == |s| || s[n] != '/' then None
    else
      var m := Run(s[n + 1..], IsCtTokenChar);
      if m == 0 then None
      else Some(ContentType(s[..n], s[n + 1..][..m], ParsePhrases(s[n + 1..][m..])))
  }

  // The value of the first phrase with the given key
  function FindPhrase(ps: seq<Phrase>, key: string): (r: Option<string>)
    ensures r.Some? ==> exists p :: p in ps && p.value == r.value
  {
    if ps == [] then None
    else if EqualIgnoringCase(ps[0].key, key) then Some(ps[0].value)
    else FindPhrase(ps[1..], key)
  }

  // A boundary is never empty and holds printable characters only, so no CR.
  function Boundary(header: string): (r: Option<string>)
    ensures r.Some? ==> r.value != "" && All(r.value, IsPrintable)
  {
    match ParseContentType(header)
    case None => None
    case Some(ct) => FindPhrase(ct.phrases, "boundary")
  }

  // ---------- content types as they are usually written ----------

  predicate IsToken(s: string) { s != "" && All(s, IsCtTokenChar) }

  // Tokens, and values that can stand between quotes
  predicate IsContentType(ct: ContentType) {
    IsToken(ct.kind) && IsToken(ct.subKind) && forall p :: p in ct.phrases ==> IsPhrase(p)
  }

  predicate IsPhrase(p: Phrase) { IsToken(p.key) && p.value != "" && All(p.value, IsQuotable) }

  function PrintPhrases(ps: seq<Phrase>): string {
    if ps == [] then "" else "; " + ps[0].key + "=\"" + ps[0].value + "\"" + PrintPhrases(ps[1..])
  }

  function PrintContentType(ct: ContentType): string { ct.kind + "/" + ct.subKind + PrintPhrases(ct.phrases) }

  lemma TokenRun(token: string, rest: string)
    requires All(token, IsCtTokenChar) && (rest != "" ==> !IsCtTokenChar(rest[0]))
    ensures Run(token + rest, IsCtTokenChar) == |token| && (token + rest)[..|token|] == token && (token + rest)[|token|..] == rest
  {
    RunIs(token + rest, IsCtTokenChar, |token|);
  }

  lemma NoSpaces(s: string)
    requires s == "" || IsCtTokenChar(s[0]) || s[0] == ';'
    ensures SpacesLength(s) == 0
  {
  }

  lemma QuotedRead(value: string, rest: string)
    requires value != "" && All(value, IsQuotable)
    ensures ParsePhraseValue("\"" + value + "\"" + rest) == Some((value, rest))
  {
    var s := "\"" + value + "\"" + rest;
    assert s[0] == '"' && !IsCtTokenChar('"');
    RunIs(s, IsCtTokenChar, 0);
    assert s[1..] == value + ("\"" + rest);
    RunIs(s[1..], IsQuotable, |value|);
    assert s[1..][..|value|] == value && s[|value| + 1] == '"' && s[|value| + 2..] == rest;
  }

  lemma PhraseRead(p: Phrase, rest: string)
    requires IsPhrase(p) && (rest == "" || rest[0] == ';')
    ensures ParsePhrase("; " + p.key + "=\"" + p.value + "\"" + rest) == Some((p, rest))
  {
    hide Run, All, SpacesLength, ParsePhraseValue;
    var quoted := "\"" + p.value + "\"" + rest;
    var a := p.key + ("=" + quoted);
    var s := "; " + p.key + "=\"" + p.value + "\"" + rest;
    assert s == "; " + a && s[1..] == " " + a;
    OneSpace(a) by { FirstOfToken(p.key, a); }
    assert s[2..] == a;
    TokenRun(p.key, "=" + quoted);
    assert a[|p.key|] == '=' && a[|p.key| + 1..] == quoted;
    QuotedRead(p.value, rest);
    NoSpaces(rest);
    assert rest[0..] == rest;
  }

  lemma FirstOfToken(token: string, s: string)
    requires IsToken(token) && token <= s
    ensures s != "" && IsCtTokenChar(s[0])
  {
  }

  lemma OneSpace(a: string)
    requires a != "" && IsCtTokenChar(a[0])
    ensures SpacesLength(" " + a) == 1
  {
    assert (" " + a)[1..] == a;
    NoSpaces(a);
  }

  lemma {:induction false} PhrasesRead(ps: seq<Phrase>)
    requires forall p :: p in ps ==> IsPhrase(p)
    ensures ParsePhrases(PrintPhrases(ps)) == ps
  {
    hide ParsePhrase, IsPhrase;
    if ps == [] {
      NoPhrase();
    } else {
      assert ps[0] in ps && [ps[0]] + ps[1..] == ps;
      PhraseRead(ps[0], PrintPhrases(ps[1..]));
      PhrasesRead(ps[1..]);
    }
  }

  lemma NoPhrase()
    ensures ParsePhrase("") == None
  {
  }

  // A content type with quoted values parses as what it says.
  lemma ContentTypeRead(ct: ContentType)
    requires IsContentType(ct)
    ensures ParseContentType(PrintContentType(ct)) == Some(ct)
  {
    hide Run, All, ParsePhrases;
    var phrases := PrintPhrases(ct.phrases);
    var sub := ct.subKind + phrases;
    var s := ct.kind + ("/" + sub);
    assert PrintContentType(ct) == s;
    FirstOfToken(ct.kind, s);
    NoBlanks(s);
    assert s[0..] == s;
    TokenRun(ct.kind, "/" + sub);
    assert s[|ct.kind| + 1..] == sub;
    TokenRun(ct.subKind, phrases);
    PhrasesRead(ct.phrases);
  }

  lemma NoBlanks(s: string)
    requires s != "" && s[0] != ' '
    ensures Run(s, IsSpace) == 0
  {
  }
}
