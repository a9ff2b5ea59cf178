// Classes of characters, written out.

module Characters {
  const SMALL: string := "abcdefghijklmnopqrstuvwxyz"
  const CAPITALS: string := "ABCDEFGHIJKLMNOPQRSTUVWXYZ"
  const DIGITS: string := "0123456789"

  // The other characters that can be printed, with the blank
  const SIGNS: string := " !\"#$%&'()*+,-./"
  const MARKS: string := ":;<=>?@"
  const BRACKETS: string := "[\\]^_`"
  const BRACES: string := "{|}~"

  // c is one of the characters.
  predicate OneOf(c: char, s: string) { exists k :: 0 <= k < |s| && s[k] == c }

  predicate Letter(c: char) { OneOf(c, SMALL) || OneOf(c, CAPITALS) }

  predicate Printable(c: char) {
    Letter(c) || OneOf(c, DIGITS) || OneOf(c, SIGNS) || OneOf(c, MARKS) || OneOf(c, BRACKETS) || OneOf(c, BRACES)
  }

  lemma Smalls(c: char)
    ensures OneOf(c, SMALL) <==> 'a' <= c <= 'z'
    ensures 'a' <= c <= 'z' ==> SMALL[c as int - 'a' as int] == c
  {
    if 'a' <= c <= 'z' { assert SMALL[c as int - 'a' as int] == c; }
  }

  lemma CapitalLetters(c: char)
    ensures OneOf(c, CAPITALS) <==> 'A' <= c <= 'Z'
    ensures 'A' <= c <= 'Z' ==> CAPITALS[c as int - 'A' as int] == c
  {
    if 'A' <= c <= 'Z' { assert CAPITALS[c as int - 'A' as int] == c; }
  }

  lemma DigitChars(c: char)
    ensures OneOf(c, DIGITS) <==> '0' <= c <= '9'
    ensures '0' <= c <= '9' ==> DIGITS[c as int - '0' as int] == c
  {
    if '0' <= c <= '9' { assert DIGITS[c as int - '0' as int] == c; }
  }

  lemma SignChars(c: char)
    ensures OneOf(c, SIGNS) <==> ' ' <= c <= '/'
  {
    if ' ' <= c <= '/' { assert SIGNS[c as int - ' ' as int] == c; }
  }

  lemma MarkChars(c: char)
    ensures OneOf(c, MARKS) <==> ':' <= c <= '@'
    ensures OneOf(c, BRACKETS) <==> '[' <= c <= '`'
    ensures OneOf(c, BRACES) <==> '{' <= c <= '~'
  {
    if ':' <= c <= '@' { assert MARKS[c as int - ':' as int] == c; }
    if '[' <= c <= '`' { assert BRACKETS[c as int - '[' as int] == c; }
    if '{' <= c <= '~' { assert BRACES[c as int - '{' as int] == c; }
  }

  lemma Printables(c: char)
    ensures Printable(c) <==> ' ' <= c <= '~'
    ensures Letter(c) <==> 'a' <= c <= 'z' || 'A' <= c <= 'Z'
  {
    hide OneOf;
    Smalls(c);
    CapitalLetters(c);
    DigitChars(c);
    SignChars(c);
    MarkChars(c);
  }
}
