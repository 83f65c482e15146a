/**
 * Character classes of the JavaScript regular expressions used by the
 * renderer (non-Unicode mode): `\s`, `\w`, the class `[\w-]` of a token
 * class name, and the line terminators that `.` does not match; and the
 * prefix test every literal part of those expressions comes down to.
 */
module Text {

  /** JavaScript `\s`: WhiteSpace and LineTerminator code points. */
  predicate IsSpace(c: char)
  {
    || c == '\t' || c == '\n' || c == '\U{000B}' || c == '\U{000C}' || c == '\r' || c == ' '
    || c == '\U{00A0}' || c == '\U{1680}' || ('\U{2000}' <= c <= '\U{200A}')
    || c == '\U{2028}' || c == '\U{2029}' || c == '\U{202F}' || c == '\U{205F}'
    || c == '\U{3000}' || c == '\U{FEFF}'
  }

  /** JavaScript `\w` without the Unicode flag: `[A-Za-z0-9_]`. */
  predicate IsWordChar(c: char)
  {
    ('a' <= c <= 'z') || ('A' <= c <= 'Z') || ('0' <= c <= '9') || c == '_'
  }

  /** The character class `[\w-]` a token class name is made of. */
  predicate IsClassChar(c: char)
  {
    IsWordChar(c) || c == '-'
  }

  /** The characters JavaScript's `.` refuses to match. */
  predicate IsLineTerminator(c: char)
  {
    c == '\n' || c == '\r' || c == '\U{2028}' || c == '\U{2029}'
  }

  predicate StartsWith(s: string, p: string)
  {
    |p| <= |s| && s[..|p|] == p
  }
}
