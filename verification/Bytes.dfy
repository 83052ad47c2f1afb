/** Bytes and byte strings, as the C code sees them. */
module Bytes {
  type Byte = b: int | 0 <= b < 256

  /** A C string: its bytes up to, not including, the terminating NUL. */
  type CString = seq<Byte>

  /** A byte read through plain `char`, which is signed. */
  function SChar(b: Byte): int {
    if b < 128 then b else b - 256
  }

  // ASCII
  const BACKSPACE: Byte := 0x08
  const TAB: Byte := 0x09
  const NEWLINE: Byte := 0x0A
  const FORMFEED: Byte := 0x0C
  const RETURN: Byte := 0x0D
  const SPACE: Byte := 0x20
  const QUOTE: Byte := 0x22
  const PLUS: Byte := 0x2B
  const COMMA: Byte := 0x2C
  const MINUS: Byte := 0x2D
  const DOT: Byte := 0x2E
  const SLASH: Byte := 0x2F
  const ZERO: Byte := 0x30
  const COLON: Byte := 0x3A
  const UPPER_E: Byte := 0x45
  const LBRACKET: Byte := 0x5B
  const BACKSLASH: Byte := 0x5C
  const RBRACKET: Byte := 0x5D
  const LOWER_B: Byte := 0x62
  const LOWER_E: Byte := 0x65
  const LOWER_F: Byte := 0x66
  const LOWER_N: Byte := 0x6E
  const LOWER_R: Byte := 0x72
  const LOWER_T: Byte := 0x74
  const LOWER_U: Byte := 0x75
  const LBRACE: Byte := 0x7B
  const RBRACE: Byte := 0x7D

  predicate IsDigit(c: int) { 0x30 <= c <= 0x39 }

  predicate IsLower(c: int) { 0x61 <= c <= 0x7A }

  predicate IsUpper(c: int) { 0x41 <= c <= 0x5A }

  predicate IsAlpha(c: int) { IsUpper(c) || IsLower(c) }

  predicate IsSpace(c: int) { c == 0x20 || c == 0x09 || c == 0x0A || c == 0x0D }

  const NUMERALS: string := "0123456789abcdefghijklmnopqrstuvwxyz"
  const CAPITALS: string := "0123456789ABCDEFGHIJKLMNOPQRSTUVWXYZ"

  function Numeral(d: nat): (c: Byte)
    requires d < 36
    ensures c == NUMERALS[d] as int
  {
    if d < 10 then 0x30 + d else 0x61 + (d - 10)
  }

  function Capital(d: nat): (c: Byte)
    requires d < 36
    ensures c == CAPITALS[d] as int
  {
    if d < 10 then 0x30 + d else 0x41 + (d - 10)
  }

  /** The character stands for `d`, in either case.  The digits of hexadecimal numbers are those below 16. */
  predicate DigitIs(c: Byte, d: int) {
    0 <= d < 36 && (c == Numeral(d) || c == Capital(d))
  }

  /** A hexadecimal digit as sprintf writes it. */
  function HexDigit(d: nat): Byte
    requires d < 16
  {
    Numeral(d)
  }
}
