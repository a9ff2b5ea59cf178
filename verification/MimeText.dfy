// Text primitives of the MIME grammars: greedy runs, prefixes and first occurrences.

module MimeText {
  const CRLF: string := "\r\n"

  // Length of the longest prefix whose characters all satisfy p
  function Run(s: string, p: char -> bool): (n: nat)
    ensures n <= |s| && (forall i :: 0 <= i < n ==> p(s[i])) && (n < |s| ==> !p(s[n]))
  {
    if s == "" || !p(s[0]) then 0 else 1 + Run(s[1..], p)
  }

  predicate All(s: string, p: char -> bool) { forall i :: 0 <= i < |s| ==> p(s[i]) }

  lemma {:induction false} RunIs(s: string, p: char -> bool, n: nat)
    requires n <= |s| && (forall i :: 0 <= i < n ==> p(s[i])) && (n < |s| ==> !p(s[n]))
    ensures Run(s, p) == n
  {
    if n > 0 { RunIs(s[1..], p, n - 1); }
  }

  // d occurs in s at i
  predicate OccursAt(s: string, d: string, i: nat) { i + |d| <= |s| && s[i..i + |d|] == d }

  ghost predicate Occurs(s: string, d: string) { exists i: nat :: OccursAt(s, d, i) }

  // The first place where d occurs in s, or |s| if there is none
  function Find(s: string, d: string): (n: nat)
    requires d != ""
    ensures n <= |s| && (n < |s| ==> OccursAt(s, d, n)) && forall i: nat :: i < n ==> !OccursAt(s, d, i)
  {
    if s == "" then 0
    else if d <= s then assert OccursAt(s, d, 0); 0
    else
      var n := 1 + Find(s[1..], d);
      FindStep(s, d);
      n
  }

  lemma FindStep(s: string, d: string)
    requires s != "" && d != ""
    ensures forall i: nat {:trigger OccursAt(s, d, i)} :: 0 < i ==> (OccursAt(s[1..], d, i - 1) <==> OccursAt(s, d, i))
    ensures OccursAt(s, d, 0) <==> d <= s
  {
    forall i: nat | 0 < i ensures OccursAt(s[1..], d, i - 1) <==> OccursAt(s, d, i) {
      if i + |d| <= |s| { assert s[1..][i - 1..i - 1 + |d|] == s[i..i + |d|]; }
    }
    if |d| <= |s| { assert d <= s <==> s[..|d|] == d; assert s[0..|d|] == s[..|d|]; }
  }

  lemma FindIs(s: string, d: string, n: nat)
    requires d != "" && OccursAt(s, d, n) && forall i: nat :: i < n ==> !OccursAt(s, d, i)
    ensures Find(s, d) == n
  {
  }

  // Cutting a text before and after a piece of it
  lemma Cut(a: string, piece: string, b: string)
    ensures var s := a + (piece + b);
            s[..|a|] == a && s[|a|..] == piece + b && piece <= s[|a|..] && s[|a| + |piece|..] == b
  {
    var s := a + (piece + b);
    assert s == (a + piece) + b;
  }

  lemma TwoCuts(s: string, i: nat, j: nat)
    requires i + j <= |s|
    ensures s[..i + j] == s[..i] + s[i..][..j]
  {
  }

  // Occurrences in a concatenation that lie within one side
  lemma OccursLeft(a: string, b: string, d: string, i: nat)
    ensures OccursAt(a, d, i) ==> OccursAt(a + b, d, i)
    ensures i + |d| <= |a| && OccursAt(a + b, d, i) ==> OccursAt(a, d, i)
  {
    if i + |d| <= |a| { assert (a + b)[i..i + |d|] == a[i..i + |d|]; }
  }

  // A delimiter starts with the only CR it has.
  ghost predicate IsDelimiter(d: string) {
    d != "" && d[0] == '\r' && forall j :: 0 < j < |d| ==> d[j] != '\r'
  }

  // When text is followed by a delimiter, no occurrence of it can begin in the text and end in
  // the delimiter.
  lemma NoStraddle(a: string, d: string, b: string, i: nat)
    requires IsDelimiter(d) && OccursAt(a + d + b, d, i) && i < |a|
    ensures i + |d| <= |a| && OccursAt(a, d, i)
  {
    var t := a + d + b;
    assert t[|a|] == '\r';
    assert t == a + (d + b);
    OccursLeft(a, d + b, d, i);
  }

  // With the delimiter not in the text, its first occurrence is the one that follows the text.
  lemma FindAfter(a: string, d: string, b: string)
    requires IsDelimiter(d) && !Occurs(a, d)
    ensures Find(a + d + b, d) == |a|
  {
    var t := a + d + b;
    assert t[|a|..|a| + |d|] == d;
    forall i: nat | i < |a| ensures !OccursAt(t, d, i) {
      if OccursAt(t, d, i) { NoStraddle(a, d, b, i); }
    }
    FindIs(t, d, |a|);
  }
}
