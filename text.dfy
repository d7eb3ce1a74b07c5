/** The string tests the role-name guards use: blankness, upper-casing
    (as the identity store normalises names and as the case-insensitive
    comparison folds them), and the letters-only regular expression. */
module Text {

  /** Char.IsWhiteSpace over the Latin-1 range. */
  predicate IsWhiteSpace(c: char)
  {
    c == ' ' || ('\t' <= c <= '\r') || c == '\U{0085}' || c == '\U{00A0}'
  }

  /** string.IsNullOrWhiteSpace on a non-null string: empty or all white space. */
  predicate IsBlank(s: string)
    ensures s == "" ==> IsBlank(s)
    ensures IsBlank(s) && |s| > 0 ==> !IsAsciiLetter(s[0])
  {
    forall i :: 0 <= i < |s| ==> IsWhiteSpace(s[i])
  }

  predicate IsAsciiLetter(c: char)
  {
    ('a' <= c <= 'z') || ('A' <= c <= 'Z')
  }

  predicate AllAsciiLetters(s: string)
  {
    forall i :: 0 <= i < |s| ==> IsAsciiLetter(s[i])
  }

  function UpperChar(c: char): char
  {
    if 'a' <= c <= 'z' then (c as int - 32) as char else c
  }

  /** The normalised (upper-cased) form of a name. */
  function Upper(s: string): (r: string)
    ensures |r| == |s|
    ensures forall i :: 0 <= i < |r| ==> !('a' <= r[i] <= 'z')
    ensures forall i :: 0 <= i < |s| && !('a' <= s[i] <= 'z') ==> r[i] == s[i]
  {
    seq(|s|, i requires 0 <= i < |s| => UpperChar(s[i]))
  }

  /** string.Equals(a, b, CurrentCultureIgnoreCase), folded to upper case. */
  predicate EqualsIgnoreCase(a: string, b: string)
    ensures a == b ==> EqualsIgnoreCase(a, b)
    ensures EqualsIgnoreCase(a, b) ==> |a| == |b|
  {
    Upper(a) == Upper(b)
  }

  /** Regex.IsMatch(s, "^[a-zA-Z]+$") with .NET's default options: `$` also
      matches just before a final line feed, so one trailing '\n' is let
      through. */
  predicate MatchesLettersPattern(s: string)
    ensures MatchesLettersPattern(s) ==> |s| > 0 && IsAsciiLetter(s[0])
    ensures MatchesLettersOnly(s) ==> MatchesLettersPattern(s)
    ensures MatchesLettersPattern(s) && !MatchesLettersOnly(s) ==> s[|s| - 1] == '\n'
  {
    (|s| > 0 && AllAsciiLetters(s))
    || (|s| > 1 && s[|s| - 1] == '\n' && AllAsciiLetters(s[..|s| - 1]))
  }

  /** The pattern with an end anchor that admits nothing after the last
      letter (`\z`). */
  predicate MatchesLettersOnly(s: string)
  {
    |s| > 0 && AllAsciiLetters(s)
  }

  /** A name that folds to a given non-blank name is not blank either:
      upper-casing maps a white-space character only to itself. */
  lemma {:induction false} FoldsToNonBlank(s: string, t: string)
    requires Upper(s) == t && !IsBlank(t)
    ensures !IsBlank(s)
  {
    var i :| 0 <= i < |t| && !IsWhiteSpace(t[i]);
    assert t[i] == UpperChar(s[i]);
  }
}
