/** Names for the ASCII code units that patterns, regular expressions and shell commands give a meaning to. */
module Chars {
  import opened Units

  const STAR: CodeUnit := 0x2A
  const QUESTION: CodeUnit := 0x3F
  const LBRACKET: CodeUnit := 0x5B
  const RBRACKET: CodeUnit := 0x5D
  const BACKSLASH: CodeUnit := 0x5C
  const CARET: CodeUnit := 0x5E
  const BANG: CodeUnit := 0x21
  const MINUS: CodeUnit := 0x2D
  const SLASH: CodeUnit := 0x2F
  const DOLLAR: CodeUnit := 0x24
  const LBRACE: CodeUnit := 0x7B
  const RBRACE: CodeUnit := 0x7D
  const LPAREN: CodeUnit := 0x28
  const RPAREN: CodeUnit := 0x29
  const PLUS: CodeUnit := 0x2B
  const DOT: CodeUnit := 0x2E
  const PIPE: CodeUnit := 0x7C
}
