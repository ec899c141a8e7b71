/** Byte strings and the ASCII bytes the tool-call grammar mentions. */
module Bytes {

  type Byte = b: int | 0 <= b < 256
  type ByteString = seq<Byte>

  const SPACE: Byte := 0x20
  const QUOTE: Byte := 0x22
  const COMMA: Byte := 0x2C
  const MINUS: Byte := 0x2D
  const SLASH: Byte := 0x2F
  const ZERO: Byte := 0x30
  const NINE: Byte := 0x39
  const COLON: Byte := 0x3A
  const LBRACKET: Byte := 0x5B
  const BACKSLASH: Byte := 0x5C
  const RBRACKET: Byte := 0x5D
  const LBRACE: Byte := 0x7B
  const RBRACE: Byte := 0x7D

  // The letters b, f, n, r, t and u, which may follow a backslash.
  const LOWER_B: Byte := 0x62
  const LOWER_F: Byte := 0x66
  const LOWER_N: Byte := 0x6E
  const LOWER_R: Byte := 0x72
  const LOWER_T: Byte := 0x74
  const LOWER_U: Byte := 0x75

  // "name" and "input" with their quotes, and the JSON literals.
  const NAME_KEY: ByteString := [0x22, 0x6E, 0x61, 0x6D, 0x65, 0x22]
  const INPUT_KEY: ByteString := [0x22, 0x69, 0x6E, 0x70, 0x75, 0x74, 0x22]
  const TRUE_WORD: ByteString := [0x74, 0x72, 0x75, 0x65]
  const FALSE_WORD: ByteString := [0x66, 0x61, 0x6C, 0x73, 0x65]
  const NULL_WORD: ByteString := [0x6E, 0x75, 0x6C, 0x6C]

  predicate IsDigit(b: Byte) { ZERO <= b <= NINE }

  /** The value of a hexadecimal digit, or 16 when the byte is not one. */
  function HexValue(b: Byte): (v: int)
    ensures 0 <= v <= 16
  {
    if IsDigit(b) then b - ZERO
    else if 0x61 <= b <= 0x66 then b - 0x61 + 10
    else if 0x41 <= b <= 0x46 then b - 0x41 + 10
    else 16
  }

  predicate IsHex(b: Byte) { HexValue(b) < 16 }

  /** What is left after at most one leading space. */
  function SkipSpace(w: ByteString): ByteString {
    if |w| > 0 && w[0] == SPACE then w[1..] else w
  }

  /** Chunks one after another. */
  function Concat(chunks: seq<ByteString>): ByteString {
    if chunks == [] then [] else Concat(chunks[..|chunks| - 1]) + chunks[|chunks| - 1]
  }
}
