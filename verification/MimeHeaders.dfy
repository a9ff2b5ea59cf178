// The header grammar: a list of "name:value" lines closed by an empty line.  A value may go on
// over continuation lines, which begin with white space and hold something else as well.

module MimeHeaders {
  import opened Results
  import opened MimeText

  datatype Header = Header(name: string, value: string)

  predicate IsAlpha(c: char) { 'a' <= c <= 'z' || 'A' <= c <= 'Z' }

  // The class a-zA-Z_0-9\- of the grammar; the backslash is a member, not an escape.
  predicate IsTokenChar(c: char) { IsAlpha(c) || c == '_' || '0' <= c <= '9' || c == '\\' || c == '-' }

  predicate IsText(c: char) { c == '\t' || ' ' <= c <= '~' }

  predicate IsBlank(c: char) { c == ' ' || c == '\t' }

  // ---------- parsing ----------

  // Length of the header name at the start of s; 0 if there is none
  function TokenLength(s: string): (n: nat)
    ensures n <= |s|
  {
    if s == "" || !IsAlpha(s[0]) then 0 else 1 + Run(s[1..], IsTokenChar)
  }

  // Length of one continuation line, with the line end before it; 0 if there is none
  function ContinuationLength(s: string): (n: nat)
    ensures n <= |s|
  {
    if !(CRLF <= s) then 0
    else
      var blanks := Run(s[2..], IsBlank);
      var text := Run(s[2 + blanks..], IsText);
      if blanks == 0 || text == 0 then 0 else 2 + blanks + text
  }

  function ContinuationsLength(s: string): (n: nat)
    ensures n <= |s|
    decreases |s|
  {
    var n := ContinuationLength(s);
    if n == 0 then 0 else n + ContinuationsLength(s[n..])
  }

  function ValueLength(s: string): (n: nat)
    ensures n <= |s|
  {
    var n := Run(s, IsText);
    n + ContinuationsLength(s[n..])
  }

  // A header line; the result holds what follows it.
  function ParseHeader(s: string): (r: Option<(Header, string)>)
    ensures r.Some? ==> |r.value.1| < |s|
  {
    var t := TokenLength(s);
    if t == 0 || t == |s| || s[t] != ':' then None
    else
      var v := t + 1 + ValueLength(s[t + 1..]);
      if CRLF <= s[v..] then Some((Header(s[..t], s[t + 1..v]), s[v + 2..])) else None
  }

  // Headers as long as one parses, then the empty line
  function ParseHeaders(s: string): (r: Option<(seq<Header>, string)>)
    ensures r.Some? ==> |r.value.1| < |s|
    decreases |s|
  {
    match ParseHeader(s)
    case Some((h, rest)) =>
      (match ParseHeaders(rest)
       case Some((hs, after)) => Some(([h] + hs, after))
       case None => None)
    case None => if CRLF <= s then Some(([], s[2..])) else None
  }

  // ---------- printing ----------

  function PrintHeader(h: Header): string { h.name + ":" + h.value + CRLF }

  function PrintHeaderLines(hs: seq<Header>): string {
    if hs == [] then "" else PrintHeader(hs[0]) + PrintHeaderLines(hs[1..])
  }

  function PrintHeaders(hs: seq<Header>): string { PrintHeaderLines(hs) + CRLF }

  // ---------- the language ----------

  predicate IsName(n: string) { n != "" && IsAlpha(n[0]) && All(n[1..], IsTokenChar) }

  // Text that starts with white space and is not all white space
  predicate IsContinuation(l: string) {
    All(l, IsText) && l != "" && IsBlank(l[0]) && exists i :: 0 <= i < |l| && !IsBlank(l[i])
  }

  function JoinContinuations(lines: seq<string>): string {
    if lines == [] then "" else CRLF + lines[0] + JoinContinuations(lines[1..])
  }

  ghost predicate IsValue(v: string) {
    exists first, lines :: IsFolded(v, first, lines)
  }

  ghost predicate IsFolded(v: string, first: string, lines: seq<string>) {
    && All(first, IsText) && (forall l :: l in lines ==> IsContinuation(l))
    && v == first + JoinContinuations(lines)
  }

  ghost predicate IsHeader(h: Header) { IsName(h.name) && IsValue(h.value) }

  // ---------- what is parsed is in the language, and prints as it was ----------

  lemma ContinuationParsed(s: string)
    requires ContinuationLength(s) > 0
    ensures var n := ContinuationLength(s); s[..n] == CRLF + s[2..n] && IsContinuation(s[2..n])
  {
    var blanks := Run(s[2..], IsBlank);
    var n, l := ContinuationLength(s), s[2..ContinuationLength(s)];
    assert forall i :: 0 <= i < blanks ==> l[i] == s[2..][i];
    assert forall i :: blanks <= i < |l| ==> l[i] == s[2 + blanks..][i - blanks];
    assert !IsBlank(s[2..][blanks]) && l[blanks] == s[2..][blanks];
    assert s[..n] == CRLF + l;
  }

  lemma {:induction false} ContinuationsParsed(s: string) returns (lines: seq<string>)
    ensures s[..ContinuationsLength(s)] == JoinContinuations(lines)
    ensures forall l :: l in lines ==> IsContinuation(l)
    decreases |s|
  {
    hide ContinuationLength, IsContinuation, JoinContinuations;
    var n := ContinuationLength(s);
    if n == 0 {
      lines := [];
      NoContinuations();
    } else {
      ContinuationParsed(s);
      var rest := ContinuationsParsed(s[n..]);
      lines := [s[2..n]] + rest;
      TwoCuts(s, n, ContinuationsLength(s[n..]));
      MoreContinuations(s[2..n], rest);
    }
  }

  lemma NoContinuations()
    ensures JoinContinuations([]) == ""
  {
  }

  lemma MoreContinuations(l: string, rest: seq<string>)
    ensures JoinContinuations([l] + rest) == CRLF + l + JoinContinuations(rest)
  {
    assert ([l] + rest)[1..] == rest;
  }

  lemma ValueParsed(s: string)
    ensures IsValue(s[..ValueLength(s)])
  {
    hide ContinuationsLength, Run, JoinContinuations, IsContinuation;
    var n := Run(s, IsText);
    var lines := ContinuationsParsed(s[n..]);
    var m := ContinuationsLength(s[n..]);
    assert s[..n + m] == s[..n] + s[n..][..m];
    assert IsFolded(s[..n + m], s[..n], lines);
  }

  lemma HeaderPieces(s: string, t: nat, v: nat)
    requires t < v <= |s| && s[t] == ':' && CRLF <= s[v..]
    ensures s == s[..t] + ":" + s[t + 1..v] + CRLF + s[v + 2..]
  {
    assert s[v..v + 2] == s[v..][..2] == CRLF;
    assert s == s[..t] + [s[t]] + s[t + 1..v] + s[v..v + 2] + s[v + 2..];
  }

  lemma HeaderParsed(s: string)
    requires ParseHeader(s).Some?
    ensures var (h, rest) := ParseHeader(s).value; IsHeader(h) && s == PrintHeader(h) + rest
  {
    hide ValueLength, Run, IsValue;
    var t := TokenLength(s);
    var v := t + 1 + ValueLength(s[t + 1..]);
    HeaderPieces(s, t, v);
    ValueParsed(s[t + 1..]);
    assert s[t + 1..][..v - t - 1] == s[t + 1..v];
    assert s[..t][1..] == s[1..][..t - 1];
  }

  lemma {:induction false} HeadersParsed(s: string)
    requires ParseHeaders(s).Some?
    ensures var (hs, rest) := ParseHeaders(s).value; s == PrintHeaders(hs) + rest && forall h :: h in hs ==> IsHeader(h)
    decreases |s|
  {
    if ParseHeader(s).Some? {
      var (h, rest) := ParseHeader(s).value;
      HeaderParsed(s);
      HeadersParsed(rest);
      var (hs, after) := ParseHeaders(rest).value;
      PrintHeadersMore(h, hs, after);
    } else {
      assert s == CRLF + s[2..];
      assert PrintHeaders([]) == CRLF;
    }
  }

  lemma PrintHeadersMore(h: Header, hs: seq<Header>, after: string)
    ensures PrintHeaders([h] + hs) + after == PrintHeader(h) + (PrintHeaders(hs) + after)
  {
    assert ([h] + hs)[1..] == hs;
  }

  // ---------- what is in the language parses back ----------

  // Where a value must stop: at a line end that no continuation follows
  predicate EndsValue(s: string) { CRLF <= s && (|s| > 2 ==> !IsBlank(s[2])) }

  lemma ContinuationRead(l: string, after: string)
    requires IsContinuation(l) && CRLF <= after
    ensures ContinuationLength(CRLF + l + after) == 2 + |l|
  {
    var s := CRLF + l + after;
    assert s[2..] == l + after;
    var b := Run(s[2..], IsBlank);
    assert 0 < b < |l| by {
      var i :| 0 <= i < |l| && !IsBlank(l[i]);
      assert s[2..][i] == l[i] && s[2..][0] == l[0];
    }
    assert s[2 + b..] == l[b..] + after;
    RunIs(s[2 + b..], IsText, |l| - b);
  }

  lemma JoinStart(lines: seq<string>, after: string)
    requires CRLF <= after
    ensures CRLF <= JoinContinuations(lines) + after
  {
    if lines != [] {
      assert JoinContinuations(lines) + after == CRLF + (lines[0] + JoinContinuations(lines[1..]) + after);
    } else {
      assert JoinContinuations(lines) + after == after;
    }
  }

  lemma {:induction false} ContinuationsRead(lines: seq<string>, after: string)
    requires EndsValue(after) && forall l :: l in lines ==> IsContinuation(l)
    ensures ContinuationsLength(JoinContinuations(lines) + after) == |JoinContinuations(lines)|
  {
    if lines == [] {
      assert JoinContinuations(lines) + after == after;
      RunIs(after[2..], IsBlank, 0);
    } else {
      hide ContinuationLength, ContinuationsLength, IsContinuation, JoinContinuations;
      assert lines[0] in lines && [lines[0]] + lines[1..] == lines;
      MoreContinuations(lines[0], lines[1..]);
      ContinuationsRead(lines[1..], after);
      NextContinuationRead(lines[0], lines[1..], after);
    }
  }

  lemma NextContinuationRead(l: string, rest: seq<string>, after: string)
    requires IsContinuation(l) && CRLF <= after
    ensures ContinuationsLength(CRLF + l + JoinContinuations(rest) + after) == 2 + |l| + ContinuationsLength(JoinContinuations(rest) + after)
  {
    hide ContinuationLength, ContinuationsLength, IsContinuation, JoinContinuations;
    var t := JoinContinuations(rest) + after;
    JoinStart(rest, after);
    ContinuationRead(l, t);
    var line := CRLF + l;
    AfterLine(line, JoinContinuations(rest), after);
    FirstContinuation(line + t);
  }

  lemma AfterLine(line: string, more: string, after: string)
    ensures line + more + after == line + (more + after) && (line + (more + after))[|line|..] == more + after
  {
  }

  lemma FirstContinuation(s: string)
    requires ContinuationLength(s) > 0
    ensures ContinuationsLength(s) == ContinuationLength(s) + ContinuationsLength(s[ContinuationLength(s)..])
  {
    hide ContinuationLength;
  }

  lemma ValueRead(v: string, after: string)
    requires IsValue(v) && EndsValue(after)
    ensures ValueLength(v + after) == |v|
  {
    var first, lines :| IsFolded(v, first, lines);
    var rest := JoinContinuations(lines) + after;
    assert v + after == first + rest;
    JoinStart(lines, after);
    RunIs(first + rest, IsText, |first|);
    assert (first + rest)[|first|..] == rest;
    ContinuationsRead(lines, after);
  }

  lemma HeaderRead(h: Header, after: string)
    requires IsHeader(h) && (after != "" ==> !IsBlank(after[0]))
    ensures ParseHeader(PrintHeader(h) + after) == Some((h, after))
  {
    hide ValueLength, TokenLength, IsValue, IsName, PrintHeader;
    var s := PrintHeader(h) + after;
    PrintedPieces(h, after);
    TokenRead(h, after);
    ValueRead(h.value, CRLF + after);
    assert CRLF <= CRLF + after;
  }

  lemma TokenRead(h: Header, after: string)
    requires IsName(h.name)
    ensures 0 < |h.name| == TokenLength(PrintHeader(h) + after)
  {
    hide Run;
    var s := PrintHeader(h) + after;
    assert s[1..] == h.name[1..] + (":" + h.value + CRLF + after);
    RunIs(s[1..], IsTokenChar, |h.name| - 1);
  }

  lemma PrintedPieces(h: Header, after: string)
    ensures var (s, t, v) := (PrintHeader(h) + after, |h.name|, |h.name| + 1 + |h.value|);
            && v + 2 <= |s| && s[..t] == h.name && s[t] == ':' && s[t + 1..] == h.value + (CRLF + after)
            && s[t + 1..v] == h.value && s[v..] == CRLF + after && s[v + 2..] == after
  {
  }

  lemma {:induction false} HeadersRead(hs: seq<Header>, after: string)
    requires forall h :: h in hs ==> IsHeader(h)
    ensures ParseHeaders(PrintHeaders(hs) + after) == Some((hs, after))
  {
    if hs == [] {
      assert PrintHeaders(hs) + after == CRLF + after;
      assert (CRLF + after)[2..] == after;
    } else {
      var rest := PrintHeaders(hs[1..]) + after;
      assert [hs[0]] + hs[1..] == hs;
      PrintHeadersMore(hs[0], hs[1..], after);
      PrintedStart(hs[1..], after);
      HeaderRead(hs[0], rest);
      HeadersRead(hs[1..], after);
    }
  }

  lemma PrintedStart(hs: seq<Header>, after: string)
    requires forall h :: h in hs ==> IsHeader(h)
    ensures PrintHeaders(hs) + after != "" && !IsBlank((PrintHeaders(hs) + after)[0])
  {
    if hs == [] {
      assert PrintHeaders(hs) == CRLF;
    } else {
      assert hs[0] in hs;
      assert (PrintHeaders(hs) + after)[0] == hs[0].name[0];
    }
  }
}
