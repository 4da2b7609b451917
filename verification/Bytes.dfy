/** Byte strings: Go strings and byte slices are sequences of bytes here. */
module Bytes {

  type Byte = b: int | 0 <= b < 256

  type Bytes = seq<Byte>

  datatype Option<+T> = None | Some(value: T)

  const CR: Byte := 13
  const LF: Byte := 10
  const SPACE: Byte := 32
  const PLUS: Byte := 43
  const MINUS: Byte := 45
  const STAR: Byte := 42
  const DOLLAR: Byte := 36
  const COLON: Byte := 58
  const ZERO: Byte := 48
  const NINE: Byte := 57

  const CRLF: Bytes := [CR, LF]

  function Min(a: int, b: int): int {
    if a <= b then a else b
  }

  function Max(a: int, b: int): int {
    if a <= b then b else a
  }

  /** All the strings of xs, end to end. */
  function Concat(xs: seq<Bytes>): Bytes {
    if xs == [] then [] else xs[0] + Concat(xs[1..])
  }
}
