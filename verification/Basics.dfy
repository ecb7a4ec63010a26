/** Shared vocabulary: optional values, machine bytes and 16-bit units, and
    the two integer limits the sources test against. */
module Basics {

  datatype Option<+T> = None | Some(value: T)

  type Byte = b: int | 0 <= b < 0x100

  // A char16_t code unit.
  type Unit = u: int | 0 <= u < 0x1_0000

  const INT32_MAX: int := 0x7fff_ffff

  // The smallest SIZE_MAX considered: size_t is at least 32 bits wide.
  const SIZE_MAX_32: int := 0xffff_ffff

  function Min(a: int, b: int): int {
    if a <= b then a else b
  }

  function Max(a: int, b: int): int {
    if a <= b then b else a
  }

  lemma Associate<T>(a: seq<T>, b: seq<T>, c: seq<T>)
    ensures a + (b + c) == (a + b) + c
  {}
}
