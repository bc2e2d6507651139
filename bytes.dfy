/** Bytes as the bytesutil package handles them (Go's `[]byte`), and the control bytes it looks for. */
module Bytes {

  newtype byte = b: int | 0 <= b < 256

  const TAB: byte := 9
  const NL: byte := 10
  const CR: byte := 13
}
