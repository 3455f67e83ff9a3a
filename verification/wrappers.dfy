/** Types and numbers that several modules share. */
module Wrappers {

  datatype Option<T> = None | Some(value: T)

  /** How a C function comes out: it succeeds, it reports a failure, or it does something that C
      leaves undefined, and then nothing is promised of what follows. */
  datatype Outcome = Success | Fail | Undefined

  const TWO31: int := 0x8000_0000
  const TWO32: int := 0x1_0000_0000
  const TWO63: int := 0x8000_0000_0000_0000
  const TWO64: int := 0x1_0000_0000_0000_0000

  type byte = x: int | 0 <= x < 0x100
}
