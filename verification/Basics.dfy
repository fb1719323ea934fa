/** What several parts of the model share. */
module Basics {

  datatype Option<T> = None | Some(value: T)

  /** The sizes of `unsigned int` and of `size_t` or `ulong`. */
  const TWO32: int := 0x1_0000_0000
  const TWO64: int := 0x1_0000_0000_0000_0000
}
