/** Character classes used by the two normalisers.

    The Kotlin side runs on java.util.regex (whose `\s` and `\d` are ASCII-only
    unless UNICODE_CHARACTER_CLASS is set; these are the desktop JDK's classes,
    and Android's ICU-backed engine may accept more) and on Kotlin's `String.trim()`
    (whose notion of whitespace is `Char.isWhitespace()`); the Python side runs
    on `re` over `str`, whose `\s` is Unicode whitespace. */
module Chars {

  /** `\s` of java.util.regex: [ \t\n\x0B\f\r]. */
  predicate IsJavaSpace(c: char) {
    c == ' ' || c == '\t' || c == '\n' || c == '\U{B}' || c == '\U{C}' || c == '\r'
  }

  /** Kotlin's `Char.isWhitespace()` on the JVM, i.e. `Character.isWhitespace(c) ||
      Character.isSpaceChar(c)`: the controls U+0009..U+000D and U+001C..U+001F
      and the Unicode space, line and paragraph separators. This is what
      `String.trim()` removes. */
  predicate IsKotlinWhitespace(c: char) {
    ('\U{9}' <= c <= '\U{D}') || ('\U{1C}' <= c <= '\U{20}') || c == '\U{A0}' || c == '\U{1680}'
    || ('\U{2000}' <= c <= '\U{200A}') || c == '\U{2028}' || c == '\U{2029}' || c == '\U{202F}'
    || c == '\U{205F}' || c == '\U{3000}'
  }

  /** `\s` of Python's `re` on `str` patterns: the characters for which
      `str.isspace()` holds. It is Kotlin's whitespace plus U+0085 (NEL). */
  predicate IsPySpace(c: char) {
    IsKotlinWhitespace(c) || c == '\U{85}'
  }

  /** `\d`: ASCII decimal digits (exact for Java; an ASCII restriction for Python). */
  predicate IsAsciiDigit(c: char) {
    '0' <= c <= '9'
  }

  /** `\w` (ASCII letters, digits and the underscore); `\b` is a boundary between
      a word character and a non-word character or either end of the text. */
  predicate IsWordChar(c: char) {
    ('a' <= c <= 'z') || ('A' <= c <= 'Z') || IsAsciiDigit(c) || c == '_'
  }

  /** The class `[xy]` of the Python patterns. */
  predicate IsXY(c: char) {
    c == 'x' || c == 'y'
  }

  /** The character classes over which a pattern takes a greedy run. */
  datatype CharClass = JavaSpace | KotlinWhitespace | PySpace | Digit | Prime

  predicate InClass(c: char, cls: CharClass) {
    match cls
    case JavaSpace => IsJavaSpace(c)
    case KotlinWhitespace => IsKotlinWhitespace(c)
    case PySpace => IsPySpace(c)
    case Digit => IsAsciiDigit(c)
    case Prime => c == '\''
  }

  /** Length of the longest prefix of `s` whose characters are all in `cls`:
      what a greedy `\s*`, `\d+` or `'+` consumes. */
  function Span(s: string, cls: CharClass): (n: nat)
    ensures n <= |s|
    ensures forall i :: 0 <= i < n ==> InClass(s[i], cls)
    ensures n < |s| ==> !InClass(s[n], cls)
  {
    if s == [] || !InClass(s[0], cls) then 0 else 1 + Span(s[1..], cls)
  }

  /** The decimal digit character for `d`. */
  function DigitChar(d: nat): (c: char)
    requires d < 10
    ensures IsAsciiDigit(c)
  {
    ('0' as int + d) as char
  }

  /** Python's `f"{n}"` for a natural number: its decimal numeral. */
  function NatToString(n: nat): (r: string)
    ensures r != []
    ensures forall i :: 0 <= i < |r| ==> IsAsciiDigit(r[i])
  {
    if n < 10 then [DigitChar(n)] else NatToString(n / 10) + [DigitChar(n % 10)]
  }

  /** The number a string of decimal digits denotes. */
  function NumeralValue(s: string): nat
    requires forall i :: 0 <= i < |s| ==> IsAsciiDigit(s[i])
  {
    if s == [] then 0
    else
      assert IsAsciiDigit(s[|s| - 1]);
      10 * NumeralValue(s[..|s| - 1]) + (s[|s| - 1] as int - '0' as int)
  }

  /** The numeral of `n` denotes `n`. */
  lemma {:induction false} NatToStringValue(n: nat)
    ensures NumeralValue(NatToString(n)) == n
  {
    var r := NatToString(n);
    if n >= 10 {
      var a := NatToString(n / 10);
      assert r[..|r| - 1] == a;
      NatToStringValue(n / 10);
    }
  }
}
