/**
 * Character classes and byte-level helpers shared by the formatter model.
 *
 * PHP strings are byte strings holding UTF-8.  The model works on Unicode
 * scalar values and recovers byte counts (`strlen`) from UTF-8 widths.
 * `strtoupper` and the `/i` modifier are ASCII-only, as in PHP 8.
 */
module Chars {

  /** `\h` in a PCRE pattern: horizontal white space. */
  predicate IsHSpace(c: char) {
    c == ' ' || c == '\t' || c == '\U{00A0}' || c == '\U{1680}' || c == '\U{180E}'
    || ('\U{2000}' <= c <= '\U{200A}') || c == '\U{202F}' || c == '\U{205F}' || c == '\U{3000}'
  }

  /** `\v` in a PCRE pattern: vertical white space. */
  predicate IsVSpace(c: char) {
    c == '\n' || c == '\U{000B}' || c == '\U{000C}' || c == '\r'
    || c == '\U{0085}' || c == '\U{2028}' || c == '\U{2029}'
  }

  /** `\s` in a pattern with the `u` modifier: any horizontal or vertical white space. */
  predicate IsSpace(c: char) {
    IsHSpace(c) || IsVSpace(c)
  }

  /** `\s` in a pattern without the `u` modifier: ASCII white space only. */
  predicate IsAsciiSpace(c: char) {
    c == ' ' || c == '\t' || c == '\n' || c == '\U{000B}' || c == '\U{000C}' || c == '\r'
  }

  predicate IsDigit(c: char) {
    '0' <= c <= '9'
  }

  /** `\w` in a pattern without the `u` modifier. */
  predicate IsAsciiWord(c: char) {
    ('a' <= c <= 'z') || ('A' <= c <= 'Z') || IsDigit(c) || c == '_'
  }

  /**
   * The letters and numbers of U+0080-U+00BF: the ordinal indicators, the
   * superscript digits, the micro sign and the vulgar fractions.
   */
  predicate IsLatin1Word(c: char) {
    c == '\U{00AA}' || c == '\U{00B2}' || c == '\U{00B3}' || c == '\U{00B5}' || c == '\U{00B9}'
    || c == '\U{00BA}' || c == '\U{00BC}' || c == '\U{00BD}' || c == '\U{00BE}'
  }

  /**
   * `\w` in a pattern with the `u` modifier.  ASCII letters, digits and `_`
   * and the letters and numbers below U+00C0 exactly; from U+00C0 up every
   * code point counts as a letter except white space, the multiplication
   * and division signs and the general and CJK punctuation blocks.
   */
  predicate IsWordChar(c: char) {
    IsAsciiWord(c) || IsLatin1Word(c)
    || ('\U{00C0}' <= c && !IsSpace(c) && c != '\U{00D7}' && c != '\U{00F7}'
        && !('\U{2000}' <= c <= '\U{206F}') && !('\U{3000}' <= c <= '\U{303F}'))
  }

  /** ASCII upper-casing of one character (`strtoupper`). */
  function ToUpper(c: char): (r: char)
    ensures !('a' <= r <= 'z')
    ensures ('a' <= c <= 'z') || r == c
  {
    if 'a' <= c <= 'z' then (c as int - 32) as char else c
  }

  function Upper(s: string): (r: string)
    ensures |r| == |s|
    ensures forall i :: 0 <= i < |s| ==> r[i] == ToUpper(s[i])
  {
    seq(|s|, i requires 0 <= i < |s| => ToUpper(s[i]))
  }

  /** No lower-case ASCII letter occurs in `s`. */
  predicate IsUpperCase(s: string) {
    forall i :: 0 <= i < |s| ==> !('a' <= s[i] <= 'z')
  }

  lemma {:induction false} UpperIsUpperCase(s: string)
    ensures IsUpperCase(Upper(s))
    ensures Upper(Upper(s)) == Upper(s)
  {
  }

  /** `strtoupper(a) == strtoupper(b)`. */
  predicate SameUpper(a: string, b: string) {
    Upper(a) == Upper(b)
  }

  /** `preg_match('/^p/i', s)` for a literal ASCII prefix `p`. */
  predicate StartsWithCI(s: string, p: string) {
    |p| <= |s| && Upper(s[..|p|]) == Upper(p)
  }

  /** Number of bytes of `c` in UTF-8. */
  function Utf8Width(c: char): nat {
    if c as int < 0x80 then 1
    else if c as int < 0x800 then 2
    else if c as int < 0x1_0000 then 3
    else 4
  }

  /** `strlen` of the UTF-8 encoding of `s`. */
  function Utf8Len(s: string): (n: nat)
    ensures |s| <= n <= 4 * |s|
  {
    if |s| == 0 then 0 else Utf8Width(s[0]) + Utf8Len(s[1..])
  }

  predicate IsAscii(s: string) {
    forall i :: 0 <= i < |s| ==> s[i] as int < 0x80
  }

  lemma {:induction false} Utf8LenAscii(s: string)
    requires IsAscii(s)
    ensures Utf8Len(s) == |s|
  {
    if |s| > 0 {
      Utf8LenAscii(s[1..]);
    }
  }
}
