/** Character classes of the ECMAScript regular expression and number
    grammars used by the background page. */
module Chars {
  /** `\s` of ECMAScript regular expressions, which is also the white space
      that `parseInt` skips (WhiteSpace and LineTerminator). */
  predicate IsSpace(c: char) {
    c == '\t' || c == '\n' || c == '\U{000B}' || c == '\U{000C}' || c == '\r' ||
    c == ' ' || c == '\U{00A0}' || c == '\U{1680}' ||
    ('\U{2000}' <= c <= '\U{200A}') ||
    c == '\U{2028}' || c == '\U{2029}' || c == '\U{202F}' || c == '\U{205F}' ||
    c == '\U{3000}' || c == '\U{FEFF}'
  }

  /** Decimal digit. */
  predicate IsDigit(c: char) {
    '0' <= c <= '9'
  }

  /** `\w` of ECMAScript regular expressions (without the `u` flag). */
  predicate IsWordChar(c: char) {
    ('a' <= c <= 'z') || ('A' <= c <= 'Z') || IsDigit(c) || c == '_'
  }

  predicate AllSpace(s: string) {
    forall k :: 0 <= k < |s| ==> IsSpace(s[k])
  }

  predicate AllWord(s: string) {
    forall k :: 0 <= k < |s| ==> IsWordChar(s[k])
  }
}
