/** Bytes, byte strings, and results that may be missing. */
module Bytes {
  type Byte = b: nat | b < 256
  type Word = seq<Byte>

  const WORD: int := 0x1_0000_0000
  const INT_MAX: int := 0x7FFF_FFFF

  datatype Option<T> = None | Some(value: T)

  lemma {:induction false} Regroup(a: Word, b: Word, c: Word)
    ensures a + (b + c) == (a + b) + c
  {}
}
