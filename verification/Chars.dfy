/** ASCII characters, and reading a C string at an index. */
module Chars {
  import opened Bytes

  const SPACE: byte := 32
  const QUOTE: byte := 34
  const HASH: byte := 35
  const DOLLAR: byte := 36
  const OPEN_PAREN: byte := 40
  const CLOSE_PAREN: byte := 41
  const PLUS: byte := 43
  const COMMA: byte := 44
  const MINUS: byte := 45
  const DOT: byte := 46
  const SLASH: byte := 47
  const ZERO: byte := 48
  const COLON: byte := 58
  const SEMICOLON: byte := 59
  const EQUALS: byte := 61
  const AT: byte := 64
  const BACKSLASH: byte := 92
  const UNDERSCORE: byte := 95

  /** isspace in the C locale. */
  predicate IsSpace(c: byte) { c == SPACE || 9 <= c <= 13 }

  /** s[i]: a C string ends in a NUL. */
  function CharAt(s: Text, i: nat): byte {
    if i < |s| then s[i] else 0
  }
}
