/** Character- and string-level helpers shared by the retry-hint parser and
    the call orchestrator: decimal digits, number formatting as JavaScript's
    template literals print a non-negative integer, the `\s` class of
    JavaScript regular expressions, and ASCII case-insensitive matching as
    the `/i` flag does it. */
module Text {

  predicate IsDigit(c: char) {
    '0' <= c <= '9'
  }

  function DigitValue(c: char): (d: nat)
    requires IsDigit(c)
    ensures d < 10
  {
    c as int - '0' as int
  }

  predicate AllDigits(s: string) {
    forall i :: 0 <= i < |s| ==> IsDigit(s[i])
  }

  /** The value of a string of decimal digits, most significant first. */
  function DigitsValue(s: string): nat
    requires AllDigits(s)
    decreases |s|
  {
    if s == [] then 0 else DigitsValue(s[..|s| - 1]) * 10 + DigitValue(s[|s| - 1])
  }

  function DigitChar(d: nat): (c: char)
    requires d < 10
    ensures IsDigit(c) && DigitValue(c) == d
  {
    ('0' as int + d) as char
  }

  /** How `${n}` prints a non-negative integer: decimal, no leading zeros. */
  function NatToString(n: nat): (s: string)
    ensures s != [] && AllDigits(s)
    ensures DigitsValue(s) == n
    ensures |s| > 1 ==> s[0] != '0'
    decreases n
  {
    if n < 10 then [DigitChar(n)]
    else
      var init := NatToString(n / 10);
      var s := init + [DigitChar(n % 10)];
      assert s[..|s| - 1] == init;
      s
  }

  /** The white-space class `\s` of JavaScript regular expressions
      (white space and line terminators). */
  predicate IsSpace(c: char) {
    c == '\t' || c == '\n' || c == '\U{000B}' || c == '\U{000C}' || c == '\r' || c == ' '
    || c == '\U{00A0}' || c == '\U{1680}' || ('\U{2000}' <= c <= '\U{200A}')
    || c == '\U{2028}' || c == '\U{2029}' || c == '\U{202F}' || c == '\U{205F}'
    || c == '\U{3000}' || c == '\U{FEFF}'
  }

  function ToLowerAscii(c: char): (l: char)
    ensures 'A' <= c <= 'Z' ==> 'a' <= l <= 'z'
    ensures !('A' <= c <= 'Z') ==> l == c
  {
    if 'A' <= c <= 'Z' then (c as int + 32) as char else c
  }

  /** `word` (written in lower case) occurs at position `i` of `text`,
      ignoring the case of ASCII letters, as a `/i` regular expression
      compares characters. */
  predicate MatchesAt(text: string, i: nat, word: string) {
    i + |word| <= |text| && forall k :: 0 <= k < |word| ==> ToLowerAscii(text[i + k]) == word[k]
  }

  /** No upper-case ASCII letter occurs in `w`. */
  predicate NoUpperAscii(w: string) {
    w == [] || (!('A' <= w[0] <= 'Z') && NoUpperAscii(w[1..]))
  }

  /** A word without upper-case letters matches where it literally occurs. */
  lemma {:induction false} MatchesLiteral(text: string, i: nat, w: string)
    requires NoUpperAscii(w)
    requires i + |w| <= |text| && text[i..i + |w|] == w
    ensures MatchesAt(text, i, w)
    decreases |w|
  {
    if w != [] {
      assert text[i + 1..i + 1 + |w[1..]|] == w[1..] by {
        assert text[i + 1..i + |w|] == text[i..i + |w|][1..];
      }
      MatchesLiteral(text, i + 1, w[1..]);
      forall k | 0 <= k < |w| ensures ToLowerAscii(text[i + k]) == w[k] {
        if k == 0 {
          assert text[i] == text[i..i + |w|][0];
        } else {
          assert ToLowerAscii(text[i + 1 + (k - 1)]) == w[1..][k - 1];
        }
      }
    }
  }

  /** `word` (in lower case) occurs somewhere in `text`, ignoring case. */
  predicate ContainsIgnoringCase(text: string, word: string) {
    exists i :: 0 <= i <= |text| - |word| && MatchesAt(text, i, word)
  }

}
