/** Character classes used by the receipt patterns.

    Python's `\d`, `\w` and `str.upper` are Unicode-aware; here they are
    restricted to ASCII (digits 0-9, letters A-Z/a-z and `_`).  `\s`,
    `str.isspace`/`str.strip` and the boundaries of `str.splitlines` are
    finite lists in Python and are given in full. */
module Chars {

  /** The Indian rupee sign U+20B9. */
  const RUPEE: char := '\U{20B9}'
  /** The euro sign U+20AC. */
  const EURO: char := '\U{20AC}'

  /** One of the alternatives of the group `(\$|₹|€)`. */
  predicate IsCurrencySymbol(c: char) {
    c == '$' || c == RUPEE || c == EURO
  }

  /** `\d`, restricted to ASCII. */
  predicate IsDigit(c: char) {
    '0' <= c <= '9'
  }

  /** `\w`, restricted to ASCII: letters, digits and the underscore. */
  predicate IsWordChar(c: char) {
    IsDigit(c) || 'a' <= c <= 'z' || 'A' <= c <= 'Z' || c == '_'
  }

  /** Python's whitespace (`str.isspace`, and `\s` in a str pattern). */
  predicate IsSpace(c: char) {
    || '\t' <= c <= '\r'
    || '\U{1C}' <= c <= ' '
    || c == '\U{85}' || c == '\U{A0}' || c == '\U{1680}'
    || '\U{2000}' <= c <= '\U{200A}'
    || c == '\U{2028}' || c == '\U{2029}' || c == '\U{202F}'
    || c == '\U{205F}' || c == '\U{3000}'
  }

  /** A line boundary of `str.splitlines` (`\r\n` is handled by the splitter). */
  predicate IsLineBreak(c: char) {
    || '\n' <= c <= '\r'
    || '\U{1C}' <= c <= '\U{1E}'
    || c == '\U{85}' || c == '\U{2028}' || c == '\U{2029}'
  }

  /** A date separator, the class `[/-]`. */
  predicate IsDateSeparator(c: char) {
    c == '/' || c == '-'
  }

  /** `str.upper` on one character, restricted to ASCII. */
  function ToUpper(c: char): (u: char)
    ensures !('a' <= u <= 'z')
  {
    if 'a' <= c <= 'z' then (c as int - 32) as char else c
  }

  /** `c` and `d` are the lower-case and the upper-case form of one ASCII
      letter. */
  predicate CasePair(c: char, d: char) {
    'a' <= c <= 'z' && 'A' <= d <= 'Z' && c as int - d as int == 'a' as int - 'A' as int
  }

  /** Two characters upper-case alike exactly when they are equal or are the
      two cases of one ASCII letter: upper-casing both sides compares
      without regard to case. */
  lemma ToUpperIdentifies(c: char, d: char)
    ensures ToUpper(c) == ToUpper(d) <==> c == d || CasePair(c, d) || CasePair(d, c)
  {
  }
}
