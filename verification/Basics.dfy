/** What several of the models share. */
module Basics {

  datatype Option<+T> = None | Some(value: T)

  // One past the largest unsigned 64-bit number.
  const WORD := 0x1_0000_0000_0000_0000
}
