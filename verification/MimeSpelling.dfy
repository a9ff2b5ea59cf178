// The ways to write a Content-Type, character by character: sections 5.1 of RFC 2045 and RFC 2046, as the
// grammar of the program has them.

module MimeSpelling {
  import opened Results
  import opened Characters
  import opened MimeText
  import opened MimeContentType
  import opened MimeInvention
  import opened MimeParts

  // ---------- the characters ----------

  const SPECIALS: string := " ()<>@,;:\\\"/[]?="

  predicate TokenText(s: string) { s != "" && forall i :: 0 <= i < |s| ==> Printable(s[i]) && !OneOf(s[i], SPECIALS) }

  // Printable characters but one
  predicate TextWithout(s: string, c: char) { s != "" && forall i :: 0 <= i < |s| ==> Printable(s[i]) && s[i] != c }

  lemma TokenChars(c: char)
    ensures IsCtTokenChar(c) <==> Printable(c) && !OneOf(c, SPECIALS)
  {
    hide Printable, OneOf;
    Printables(c);
    SpecialChars(c);
  }

  lemma SpecialChars(c: char)
    ensures OneOf(c, SPECIALS) <==> c in " ()<>@,;:\\\"/[]?="
  {
    if c in SPECIALS { var k :| 0 <= k < |SPECIALS| && SPECIALS[k] == c; }
  }

  lemma Tokens(s: string)
    ensures TokenText(s) <==> IsToken(s)
  {
    hide Printable, OneOf, IsCtTokenChar;
    forall i | 0 <= i < |s| ensures IsCtTokenChar(s[i]) <==> Printable(s[i]) && !OneOf(s[i], SPECIALS) { TokenChars(s[i]); }
  }

  lemma Texts(s: string)
    ensures TextWithout(s, '"') <==> s != "" && All(s, IsQuotable)
    ensures TextWithout(s, ')') <==> s != "" && All(s, IsCommentChar)
  {
    hide Printable;
    forall i | 0 <= i < |s| ensures IsPrintable(s[i]) <==> Printable(s[i]) { Printables(s[i]); }
  }

  // ---------- the spellings ----------

  // A blank, a tab, a line end, or a comment in parentheses
  ghost predicate SpaceSpelled(s: string) {
    s == " " || s == "\t" || s == "\r\n" || exists c :: TextWithout(c, ')') && s == "(" + c + ")"
  }

  ghost predicate SpacesSpelled(s: string)
    decreases |s|
  {
    s == "" || exists n :: 0 < n <= |s| && SpaceSpelled(s[..n]) && SpacesSpelled(s[n..])
  }

  // A token, or text between quotes
  ghost predicate ValueSpelled(s: string, v: string) {
    (TokenText(v) && s == v) || (TextWithout(v, '"') && s == "\"" + v + "\"")
  }

  ghost predicate PhraseSpelled(s: string, p: Phrase) {
    exists spaces, value, more :: PhraseParts(s, p, spaces, value, more)
  }

  ghost predicate PhraseParts(s: string, p: Phrase, spaces: string, value: string, more: string) {
    && spaces != "" && SpacesSpelled(spaces) && TokenText(p.key) && ValueSpelled(value, p.value) && SpacesSpelled(more)
    && s == ";" + (spaces + (p.key + ("=" + (value + more))))
  }

  ghost predicate PhrasesSpelled(s: string, ps: seq<Phrase>)
    decreases |ps|
  {
    if ps == [] then s == "" else exists n :: 0 <= n <= |s| && PhraseSpelled(s[..n], ps[0]) && PhrasesSpelled(s[n..], ps[1..])
  }

  ghost predicate TypeSpelled(s: string, ct: ContentType) {
    exists blanks, phrases :: TypeParts(s, ct, blanks, phrases)
  }

  ghost predicate TypeParts(s: string, ct: ContentType, blanks: string, phrases: string) {
    && (forall i :: 0 <= i < |blanks| ==> blanks[i] == ' ')
    && TokenText(ct.kind) && TokenText(ct.subKind) && PhrasesSpelled(phrases, ct.phrases)
    && s == blanks + (ct.kind + ("/" + (ct.subKind + phrases)))
  }

  // ---------- what is spelled is read ----------

  lemma SpaceRead(s: string, t: string)
    requires SpaceSpelled(s)
    ensures SpaceLength(s + t) == |s| > 0 && !IsCtTokenChar(s[0]) && s[0] != ';'
  {
    var u := s + t;
    if s == " " || s == "\t" {
    } else if s == "\r\n" {
      assert CRLF <= u;
    } else {
      var c :| TextWithout(c, ')') && s == "(" + c + ")";
      Texts(c);
      assert u[1..] == c + (")" + t);
      RunIs(u[1..], IsCommentChar, |c|);
    }
  }

  // Where no more white space begins
  predicate Stops(t: string) { t == "" || IsCtTokenChar(t[0]) || t[0] == ';' }

  lemma {:induction false} SpacesRead(s: string, t: string)
    requires SpacesSpelled(s) && Stops(t)
    ensures SpacesLength(s + t) == |s| && (s != "" ==> !IsCtTokenChar(s[0]) && s[0] != ';')
    decreases |s|
  {
    hide SpaceSpelled, SpaceLength, IsCtTokenChar;
    if s == "" {
      assert s + t == t;
      NoSpaces(t);
    } else {
      var n :| 0 < n <= |s| && SpaceSpelled(s[..n]) && SpacesSpelled(s[n..]);
      assert s + t == s[..n] + (s[n..] + t) && (s + t)[n..] == s[n..] + t;
      SpaceRead(s[..n], s[n..] + t);
      SpacesRead(s[n..], t);
    }
  }

  lemma ValueRead(s: string, v: string, t: string)
    requires ValueSpelled(s, v) && (t == "" || !IsCtTokenChar(t[0]))
    ensures ParsePhraseValue(s + t) == Some((v, t))
  {
    hide Run, IsCtTokenChar;
    if TokenText(v) && s == v {
      Tokens(v);
      TokenRun(v, t);
    } else {
      Texts(v);
      QuotedRead(v, t);
      assert s + t == "\"" + v + "\"" + t;
    }
  }

  lemma PhraseIs(spaces: string, key: string, body: string)
    requires spaces != "" && IsToken(key) && SpacesLength(spaces + (key + ("=" + body))) == |spaces|
    ensures var r := ParsePhraseValue(body);
            ParsePhrase(";" + (spaces + (key + ("=" + body)))) ==
            if r.None? then None else Some((Phrase(key, r.value.0), r.value.1[SpacesLength(r.value.1)..]))
  {
    KeyThen(key, body);
    PhraseWith(spaces, key + ("=" + body), key, body);
  }

  lemma KeyThen(key: string, body: string)
    requires IsToken(key)
    ensures var a := key + ("=" + body);
            Run(a, IsCtTokenChar) == |key| > 0 && a[..|key|] == key && a[|key|] == '=' && a[|key| + 1..] == body
  {
    TokenEnds(key, "=" + body);
    assert ("=" + body)[1..] == body;
  }

  lemma PhraseWith(spaces: string, a: string, key: string, body: string)
    requires spaces != "" && SpacesLength(spaces + a) == |spaces| && |key| < |a|
    requires Run(a, IsCtTokenChar) == |key| > 0 && a[..|key|] == key && a[|key|] == '=' && a[|key| + 1..] == body
    ensures var r := ParsePhraseValue(body);
            ParsePhrase(";" + (spaces + a)) == if r.None? then None else Some((Phrase(key, r.value.0), r.value.1[SpacesLength(r.value.1)..]))
  {
    hide Run, SpacesLength, ParsePhrase, ParsePhraseValue;
    Behind(";", spaces, a);
    PhraseUnfold(";" + (spaces + a), |spaces|, |key|);
  }

  lemma Behind(a: string, b: string, c: string)
    ensures var s := a + (b + c); s[|a|..] == b + c && s[|a| + |b|..] == c && a <= s
  {
  }

  lemma PhraseUnfold(s: string, k: nat, n: nat)
    requires s != "" && s[0] == ';' && 0 < k == SpacesLength(s[1..]) && k < |s|
    requires var a := s[1 + k..]; 0 < n == Run(a, IsCtTokenChar) && n < |a| && a[n] == '='
    ensures var a := s[1 + k..];
            var r := ParsePhraseValue(a[n + 1..]);
            ParsePhrase(s) == if r.None? then None else Some((Phrase(a[..n], r.value.0), r.value.1[SpacesLength(r.value.1)..]))
  {
    hide Run, SpacesLength, ParsePhraseValue, IsCtTokenChar;
  }

  lemma PhraseRead(s: string, p: Phrase, t: string)
    requires PhraseSpelled(s, p) && (t == "" || t[0] == ';')
    ensures ParsePhrase(s + t) == Some((p, t)) && s != "" && s[0] == ';'
  {
    hide Run, SpacesLength, ParsePhrase, ParsePhraseValue, IsCtTokenChar, ValueSpelled, SpacesSpelled, TokenText, IsToken;
    var spaces, value, more :| PhraseParts(s, p, spaces, value, more);
    var body := value + (more + t);
    Tokens(p.key);
    FirstOfToken(p.key, p.key + ("=" + body));
    SpacesRead(spaces, p.key + ("=" + body));
    SemicolonStops(t);
    SpacesRead(more, t);
    ValueRead(value, p.value, more + t);
    PhraseIs(spaces, p.key, body);
    Nested(spaces, p.key, value, more, t);
    assert (more + t)[|more|..] == t;
  }

  lemma Nested(spaces: string, key: string, value: string, more: string, t: string)
    ensures ";" + (spaces + (key + ("=" + (value + more)))) + t == ";" + (spaces + (key + ("=" + (value + (more + t)))))
  {
    assert value + more + t == value + (more + t);
    assert "=" + (value + more) + t == "=" + (value + (more + t));
    assert key + ("=" + (value + more)) + t == key + ("=" + (value + (more + t)));
    assert spaces + (key + ("=" + (value + more))) + t == spaces + (key + ("=" + (value + (more + t))));
  }

  lemma SemicolonStops(t: string)
    requires t == "" || t[0] == ';'
    ensures Stops(t) && (t == "" || !IsCtTokenChar(t[0]))
  {
  }

  lemma TokenEnds(token: string, rest: string)
    requires IsToken(token) && rest != "" && (rest[0] == '=' || rest[0] == '/')
    ensures var s := token + rest;
            Run(s, IsCtTokenChar) == |token| > 0 && s[..|token|] == token && s[|token|] == rest[0] && s[|token| + 1..] == rest[1..]
  {
    TokenRun(token, rest);
  }

  lemma {:induction false} PhrasesRead(s: string, ps: seq<Phrase>)
    requires PhrasesSpelled(s, ps)
    ensures ParsePhrases(s) == ps && (s != "" ==> s[0] == ';')
    decreases |ps|
  {
    hide PhraseSpelled, ParsePhrase;
    if ps == [] {
      NoPhrase();
    } else {
      var n :| 0 <= n <= |s| && PhraseSpelled(s[..n], ps[0]) && PhrasesSpelled(s[n..], ps[1..]);
      PhrasesRead(s[n..], ps[1..]);
      PhraseRead(s[..n], ps[0], s[n..]);
      assert s == s[..n] + s[n..] && ps == [ps[0]] + ps[1..];
    }
  }

  // Every spelling of a content type is read as what it spells.
  lemma SpelledRead(s: string, ct: ContentType)
    requires TypeSpelled(s, ct)
    ensures ParseContentType(s) == Some(ct)
  {
    hide Run, ParsePhrases, IsCtTokenChar, PhrasesSpelled, TokenText, IsToken;
    var blanks, phrases :| TypeParts(s, ct, blanks, phrases);
    var rest := ct.subKind + phrases;
    var a := ct.kind + ("/" + rest);
    Tokens(ct.kind);
    Tokens(ct.subKind);
    FirstOfToken(ct.kind, a);
    BlanksRead(blanks, a);
    TokenEnds(ct.kind, "/" + rest);
    PhrasesRead(phrases, ct.phrases);
    SubTypeRead(ct.subKind, phrases);
  }

  lemma BlanksRead(blanks: string, a: string)
    requires (forall i :: 0 <= i < |blanks| ==> blanks[i] == ' ') && a != "" && IsCtTokenChar(a[0])
    ensures (blanks + a)[Run(blanks + a, IsSpace)..] == a
  {
    RunIs(blanks + a, IsSpace, |blanks|);
  }

  lemma SubTypeRead(sub: string, phrases: string)
    requires IsToken(sub) && (phrases != "" ==> phrases[0] == ';')
    ensures var a := sub + phrases; Run(a, IsCtTokenChar) == |sub| > 0 && a[..|sub|] == sub && a[|sub|..] == phrases
  {
    TokenRun(sub, phrases);
  }

  // ---------- what is read is spelled ----------

  lemma SpaceFound(s: string)
    requires SpaceLength(s) > 0
    ensures SpaceSpelled(s[..SpaceLength(s)])
  {
    var n := SpaceLength(s);
    if s[0] == '(' {
      var c := s[1..n - 1];
      Texts(c);
      assert c == s[1..][..n - 2] && s[..n] == "(" + c + ")";
    } else if CRLF <= s {
      assert s[..2] == CRLF;
    }
  }

  lemma {:induction false} SpacesFound(s: string)
    ensures SpacesSpelled(s[..SpacesLength(s)])
    decreases |s|
  {
    hide SpaceSpelled, SpaceLength;
    var n, m := SpaceLength(s), SpacesLength(s);
    if n > 0 {
      SpaceFound(s);
      SpacesFound(s[n..]);
      assert s[..m][..n] == s[..n] && s[..m][n..] == s[n..][..m - n];
    }
  }

  lemma ValueFound(s: string)
    requires ParsePhraseValue(s).Some?
    ensures var (v, rest) := ParsePhraseValue(s).value;
            |rest| <= |s| && ValueSpelled(s[..|s| - |rest|], v) && s[|s| - |rest|..] == rest
  {
    hide IsCtTokenChar;
    var n := Run(s, IsCtTokenChar);
    if n > 0 {
      Tokens(s[..n]);
    } else {
      var m := Run(s[1..], IsQuotable);
      Texts(s[1..][..m]);
      assert s[..m + 2] == "\"" + s[1..][..m] + "\"";
    }
  }

  lemma PhraseFound(s: string)
    requires ParsePhrase(s).Some?
    ensures var (p, rest) := ParsePhrase(s).value;
            |rest| < |s| && PhraseSpelled(s[..|s| - |rest|], p) && s[|s| - |rest|..] == rest
  {
    hide ParsePhrase, ValueSpelled, SpacesSpelled, TokenText;
    var (p, rest) := ParsePhrase(s).value;
    var spaces, value, more := PhrasePieces(s);
    var t := ";" + (spaces + (p.key + ("=" + (value + more))));
    Nested(spaces, p.key, value, more, rest);
    Front(t, rest);
    assert PhraseParts(t, p, spaces, value, more);
  }

  lemma PhrasePieces(s: string) returns (spaces: string, value: string, more: string)
    requires ParsePhrase(s).Some?
    ensures var (p, rest) := ParsePhrase(s).value;
            && spaces != "" && SpacesSpelled(spaces) && TokenText(p.key) && ValueSpelled(value, p.value) && SpacesSpelled(more)
            && s == ";" + (spaces + (p.key + ("=" + (value + (more + rest)))))
  {
    hide Run, SpacesLength, ParsePhraseValue, IsCtTokenChar, ValueSpelled, SpacesSpelled, TokenText, IsToken, ParsePhrase, All;
    PhraseTaken(s);
    var n := SpacesLength(s[1..]);
    var a := s[1 + n..];
    var k := Run(a, IsCtTokenChar);
    spaces := s[1..][..n];
    SpacesFound(s[1..]);
    TokenFound(a);
    var after: string;
    value, after, more := BodyPieces(a[k + 1..]);
    BodyJoined(s, n, k, value + (more + after[|more|..]));
  }

  lemma BodyPieces(b: string) returns (value: string, after: string, more: string)
    requires ParsePhraseValue(b).Some?
    ensures after == ParsePhraseValue(b).value.1 && ValueSpelled(value, ParsePhraseValue(b).value.0)
    ensures SpacesSpelled(more) && more == after[..SpacesLength(after)] && b == value + (more + after[SpacesLength(after)..])
  {
    hide SpacesLength, ParsePhraseValue, ValueSpelled, SpacesSpelled, All;
    after := ParsePhraseValue(b).value.1;
    ValueFound(b);
    SpacesFound(after);
    value, more := b[..|b| - |after|], after[..SpacesLength(after)];
    assert b == value + after && after == more + after[SpacesLength(after)..];
  }

  lemma BodyJoined(s: string, n: nat, k: nat, b: string)
    requires 1 + n + k < |s| && s[0] == ';' && s[1 + n + k] == '=' && b == s[1 + n..][k + 1..]
    ensures s == ";" + (s[1..][..n] + (s[1 + n..][..k] + ("=" + b)))
  {
    var a := s[1 + n..];
    assert a == a[..k] + ("=" + b);
    assert s == ";" + (s[1..][..n] + a);
  }

  // The pieces at their places
  lemma PhraseTaken(s: string)
    requires ParsePhrase(s).Some?
    ensures s != "" && s[0] == ';' && SpacesLength(s[1..]) > 0
    ensures var a := s[1 + SpacesLength(s[1..])..];
            var k := Run(a, IsCtTokenChar);
            && 0 < k < |a| && a[k] == '=' && ParsePhraseValue(a[k + 1..]).Some?
            && var (v, after) := ParsePhraseValue(a[k + 1..]).value;
               ParsePhrase(s).value == (Phrase(a[..k], v), after[SpacesLength(after)..])
  {
    hide Run, SpacesLength, ParsePhraseValue, IsCtTokenChar;
  }

  lemma Front(t: string, rest: string)
    ensures (t + rest)[..|t + rest| - |rest|] == t && (t + rest)[|t + rest| - |rest|..] == rest
  {
  }

  lemma TokenFound(a: string)
    requires Run(a, IsCtTokenChar) > 0
    ensures TokenText(a[..Run(a, IsCtTokenChar)])
  {
    Tokens(a[..Run(a, IsCtTokenChar)]);
  }

  lemma {:induction false} PhrasesFound(s: string)
    ensures |PhrasesRest(s)| <= |s| && PhrasesSpelled(s[..|s| - |PhrasesRest(s)|], ParsePhrases(s))
    ensures s[|s| - |PhrasesRest(s)|..] == PhrasesRest(s) && ParsePhrase(PhrasesRest(s)).None?
    decreases |s|
  {
    hide ParsePhrase, PhraseSpelled;
    if ParsePhrase(s).Some? {
      var (p, rest) := ParsePhrase(s).value;
      PhraseFound(s);
      PhrasesFound(rest);
      var n, m := |s| - |rest|, |s| - |PhrasesRest(s)|;
      var ps := ParsePhrases(s);
      assert ps == [p] + ParsePhrases(rest) && ps[1..] == ParsePhrases(rest);
      assert s[..m][..n] == s[..n] && s[..m][n..] == rest[..m - n];
    }
  }

  // Whatever is read is spelled at the start of the header, and no further phrase follows it.
  lemma ReadSpelled(s: string)
    requires ParseContentType(s).Some?
    ensures exists n :: 0 <= n <= |s| && TypeSpelled(s[..n], ParseContentType(s).value) && ParsePhrase(s[n..]).None?
  {
    hide ParsePhrase, ParsePhrases, PhrasesRest, PhrasesSpelled, TokenText, TypeAndRest;
    ContentTypeIs(s);
    var ct := ParseContentType(s).value;
    var rest := TypeAndRest(s).value.2;
    var blanks := TypeFound(s);
    PhrasesFound(rest);
    var left := PhrasesRest(rest);
    var phrases := rest[..|rest| - |left|];
    var t := blanks + (ct.kind + ("/" + (ct.subKind + phrases)));
    assert rest == phrases + left;
    TypeNested(blanks, ct.kind, ct.subKind, phrases, left);
    assert s[..|t|] == t && s[|t|..] == left;
    assert TypeParts(t, ct, blanks, phrases);
  }

  lemma TypeNested(blanks: string, kind: string, sub: string, phrases: string, left: string)
    ensures blanks + (kind + ("/" + (sub + (phrases + left)))) == blanks + (kind + ("/" + (sub + phrases))) + left
  {
    assert sub + (phrases + left) == sub + phrases + left;
    assert "/" + (sub + (phrases + left)) == "/" + (sub + phrases) + left;
    assert kind + ("/" + (sub + (phrases + left))) == kind + ("/" + (sub + phrases)) + left;
  }

  lemma TypeFound(s: string) returns (blanks: string)
    requires TypeAndRest(s).Some?
    ensures var (kind, sub, rest) := TypeAndRest(s).value;
            && TokenText(kind) && TokenText(sub) && s == blanks + (kind + ("/" + (sub + rest)))
            && forall i :: 0 <= i < |blanks| ==> blanks[i] == ' '
  {
    hide TokenText, TokenAndRest, IsCtTokenChar;
    var (kind, sub, rest) := TypeAndRest(s).value;
    var k := Run(s, IsSpace);
    blanks := s[..k];
    var a := TokenAndRest(s[k..]).1;
    TokenTaken(s[k..]);
    TokenTaken(a[1..]);
    assert a == "/" + (sub + rest) && s == blanks + s[k..];
  }

  lemma TokenTaken(s: string)
    ensures var (token, rest) := TokenAndRest(s); s == token + rest && (token != "" ==> TokenText(token))
  {
    hide TokenText, IsCtTokenChar;
    if Run(s, IsCtTokenChar) > 0 { TokenFound(s); }
  }

  // A folded header, as it is usually written
  lemma FoldedType(blanks: string, kind: string, sub: string, b: string)
    requires (forall i :: 0 <= i < |blanks| ==> blanks[i] == ' ') && TokenText(kind) && TokenText(sub) && TextWithout(b, '"')
    ensures var s := blanks + kind + "/" + sub + ";\r\n boundary=\"" + b + "\"";
            ParseContentType(s) == Some(ContentType(kind, sub, [Phrase("boundary", b)])) && Boundary(s) == Some(b)
  {
    hide TokenText, TextWithout, PhrasesSpelled, ParseContentType, PhraseSpelled, SpacesSpelled, ValueSpelled;
    var p := Phrase("boundary", b);
    var value := "\"" + b + "\"";
    var s := ";" + ("\r\n " + ("boundary" + ("=" + (value + ""))));
    LineAndBlank();
    BoundaryToken();
    QuotedSpelled(b);
    assert PhraseParts(s, p, "\r\n ", value, "");
    OnePhraseSpelled(s, p);
    var ct := ContentType(kind, sub, [p]);
    var whole := blanks + (kind + ("/" + (sub + s)));
    assert TypeParts(whole, ct, blanks, s);
    SpelledRead(whole, ct);
    FoldedText(blanks, kind, sub, b);
    assert FindPhrase([p], "boundary") == Some(b);
  }

  lemma FoldedBoundary(kind: string, sub: string, b: string)
    requires TokenText(kind) && TokenText(sub) && TextWithout(b, '"')
    ensures Boundary(kind + "/" + sub + ";\r\n boundary=\"" + b + "\"") == Some(b)
  {
    hide TokenText, TextWithout, Boundary;
    FoldedType("", kind, sub, b);
    assert "" + kind == kind;
  }

  lemma FoldedText(blanks: string, kind: string, sub: string, b: string)
    ensures blanks + (kind + ("/" + (sub + (";" + ("\r\n " + ("boundary" + ("=" + ("\"" + b + "\"" + "")))))))) ==
            blanks + kind + "/" + sub + ";\r\n boundary=\"" + b + "\""
  {
    var start := ";\r\n boundary=\"";
    assert ";" + ("\r\n " + ("boundary" + ("=" + ("\"" + b + "\"" + "")))) == start + b + "\"";
    assert sub + (start + b + "\"") == sub + start + b + "\"";
    assert "/" + (sub + start + b + "\"") == "/" + sub + start + b + "\"";
    assert kind + ("/" + sub + start + b + "\"") == kind + "/" + sub + start + b + "\"";
    assert blanks + (kind + "/" + sub + start + b + "\"") == blanks + kind + "/" + sub + start + b + "\"";
  }

  lemma QuotedSpelled(b: string)
    requires TextWithout(b, '"')
    ensures ValueSpelled("\"" + b + "\"", b) && SpacesSpelled("")
  {
  }

  lemma BoundaryToken()
    ensures TokenText("boundary") && EqualIgnoringCase("boundary", "boundary")
  {
    SmallLetters("boundary");
    Tokens("boundary");
  }

  lemma LineAndBlank()
    ensures SpacesSpelled("\r\n ")
  {
    var s := "\r\n ";
    assert s[..2] == "\r\n" && s[2..] == " " && " "[..1] == " " && " "[1..] == "";
    assert SpaceSpelled(s[..2]) && SpaceSpelled(" "[..1]);
    assert SpacesSpelled(" "[1..]);
    assert SpacesSpelled(s[2..]);
  }

  lemma OnePhraseSpelled(s: string, p: Phrase)
    requires PhraseSpelled(s, p)
    ensures PhrasesSpelled(s, [p])
  {
    assert s[..|s|] == s && s[|s|..] == "" && [p][1..] == [];
    assert PhrasesSpelled(s[|s|..], [p][1..]);
  }
}
