/** Character classes the widget's Python code asks about: `str.isspace`,
    `str.isupper`, `str.islower`, `str.isdigit`, the line boundaries of
    `str.splitlines`, and the ASCII classes its regular expressions use.
    `char` is a Unicode scalar value (Dafny 4's default `--unicode-char`). */
module Chars {

  /** Python's `str.isspace` for one character: the characters with
      bidirectional class WS, B or S, or general category Zs. This list is
      complete, so it agrees with Python on every code point. */
  predicate IsSpace(c: char) {
    || ('\U{9}' <= c <= '\U{D}')
    || ('\U{1C}' <= c <= '\U{20}')
    || c == '\U{85}' || c == '\U{A0}' || c == '\U{1680}'
    || ('\U{2000}' <= c <= '\U{200A}')
    || c == '\U{2028}' || c == '\U{2029}' || c == '\U{202F}' || c == '\U{205F}'
    || c == '\U{3000}'
  }

  predicate IsAsciiUpper(c: char) { 'A' <= c <= 'Z' }

  predicate IsAsciiLower(c: char) { 'a' <= c <= 'z' }

  predicate IsAsciiDigit(c: char) { '0' <= c <= '9' }

  /** `str.isupper` for one character, on ASCII and the Latin-1 letters
      (U+00C0..U+00DE without the multiplication sign). */
  predicate IsUpper(c: char) {
    IsAsciiUpper(c) || ('\U{C0}' <= c <= '\U{DE}' && c != '\U{D7}')
  }

  /** `str.islower` for one character, on ASCII and the Latin-1 letters
      (U+00DF..U+00FF without the division sign, the micro sign, and the
      feminine and masculine ordinal indicators U+00AA and U+00BA, which
      Unicode counts as lower-case). */
  predicate IsLower(c: char) {
    || IsAsciiLower(c) || c == '\U{AA}' || c == '\U{B5}' || c == '\U{BA}'
    || ('\U{DF}' <= c <= '\U{FF}' && c != '\U{F7}')
  }

  /** `str.isdigit` for one character, on ASCII and the Latin-1 superscript
      digits. */
  predicate IsDigit(c: char) {
    IsAsciiDigit(c) || c == '\U{B2}' || c == '\U{B3}' || c == '\U{B9}'
  }

  /** The characters at which `str.splitlines` ends a line
      (`\r\n` is handled as one boundary by the splitter itself). */
  predicate IsLineBoundary(c: char) {
    || c == '\n' || c == '\r' || c == '\U{B}' || c == '\U{C}'
    || c == '\U{1C}' || c == '\U{1D}' || c == '\U{1E}'
    || c == '\U{85}' || c == '\U{2028}' || c == '\U{2029}'
  }

  lemma LineBoundaryIsSpace(c: char)
    requires IsLineBoundary(c)
    ensures IsSpace(c)
  {
  }

  /** `str.lower` for one character, on ASCII and Latin-1 (the text it is
      applied to here is an ASCII identifier or an HTTP header value, which
      Python decodes as Latin-1). */
  function ToLower(c: char): (r: char)
    ensures IsUpper(c) ==> IsLower(r) && r as int == c as int + 32
    ensures !IsUpper(c) ==> r == c
  {
    if IsUpper(c) then (c as int + 32) as char else c
  }

  /** `str.lower` on a whole string. */
  function Lower(s: string): (r: string)
    ensures |r| == |s|
    ensures forall i :: 0 <= i < |s| ==> r[i] == ToLower(s[i])
  {
    seq(|s|, i requires 0 <= i < |s| => ToLower(s[i]))
  }

  /** Lower-casing leaves no upper-case letter. */
  lemma LowerHasNoUpper(s: string)
    ensures forall i :: 0 <= i < |Lower(s)| ==> !IsUpper(Lower(s)[i])
  {
  }

  /** Lower-casing introduces no character that is not a lower-case letter. */
  lemma LowerKeeps(s: string, c: char)
    requires c !in s && !IsLower(c)
    ensures c !in Lower(s)
  {
    forall i | 0 <= i < |s| ensures Lower(s)[i] != c {
      assert s[i] != c;
    }
  }
}
