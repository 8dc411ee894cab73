/** NUL-terminated CHAR16 text, and the character constants the library compares with. */
module CText {

  type Char16 = c: int | 0 <= c < 0x1_0000

  /** A code unit other than NUL, that is, one that can occur inside a string. */
  type Unit = c: int | 0 < c < 0x1_0000 witness 1

  /** The contents of a NUL-terminated string, terminator not included. */
  type Text = seq<Unit>

  const STAR: Unit := '*' as int
  const QUESTION: Unit := '?' as int
  const LBRACKET: Unit := '[' as int
  const RBRACKET: Unit := ']' as int
  const DASH: Unit := '-' as int
  const SPACE: Unit := ' ' as int
  const COMMA: Unit := ',' as int
  const ZERO: Unit := '0' as int
  const NINE: Unit := '9' as int
  const UPPER_A: Unit := 'A' as int
  const UPPER_F: Unit := 'F' as int
  const LOWER_A: Unit := 'a' as int
  const LOWER_F: Unit := 'f' as int
  const CR: Unit := 13
  const LF: Unit := 10

  /** What `*(s + i)` reads: the terminator is readable, nothing after it is. */
  function At(s: Text, i: nat): Char16
    requires i <= |s|
  {
    if i < |s| then s[i] else 0
  }
}
