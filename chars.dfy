/** Character classes used by the regular expressions and string methods of the
    application. Digits, word characters and case mapping are the ASCII subset of
    Python's Unicode classes; whitespace is the set for which Python's
    `str.isspace()` holds, which is also what `\s` matches in a `str` pattern. */
module Chars {

  /** Python's regular-expression `\d` and `str.isdigit()`, restricted to ASCII. */
  predicate IsDigit(c: char) {
    '0' <= c <= '9'
  }

  /** `\s` and `str.isspace()`. */
  predicate IsSpace(c: char) {
    || c == ' ' || c == '\t' || c == '\n' || c == '\r' || c == '\U{000B}' || c == '\U{000C}'
    || ('\U{001C}' <= c <= '\U{001F}')
    || c == '\U{0085}' || c == '\U{00A0}' || c == '\U{1680}'
    || ('\U{2000}' <= c <= '\U{200A}')
    || c == '\U{2028}' || c == '\U{2029}' || c == '\U{202F}' || c == '\U{205F}' || c == '\U{3000}'
  }

  /** `\w`: letters, digits and the underscore. */
  predicate IsWordChar(c: char) {
    IsDigit(c) || ('a' <= c <= 'z') || ('A' <= c <= 'Z') || c == '_'
  }

  /** `str.lower()` on one character. */
  function Lower(c: char): (r: char)
    ensures IsDigit(r) == IsDigit(c) && IsWordChar(r) == IsWordChar(c) && IsSpace(r) == IsSpace(c)
    ensures !('A' <= r <= 'Z')
    ensures !('A' <= c <= 'Z') ==> r == c
    ensures 'A' <= c <= 'Z' ==> r as int == c as int + 32
  {
    if 'A' <= c <= 'Z' then (c as int + 32) as char else c
  }

  /** The em-dash (U+2014) that ends a section heading in the documents. */
  const EmDash: char := '\U{2014}'

  /** The character classes that the patterns repeat with `+` or `*`. */
  datatype CharClass = Digit | NonDigit | Space | NonNewline | WordChar | Dash

  predicate InClass(cls: CharClass, c: char) {
    match cls
    case Digit => IsDigit(c)
    case NonDigit => !IsDigit(c)
    case Space => IsSpace(c)
    case NonNewline => c != '\n'
    case WordChar => IsWordChar(c)
    case Dash => c == EmDash
  }
}
