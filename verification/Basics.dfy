/** Types and functions that several modules share. */
module Basics {

  datatype Option<+T> = None | Some(value: T)

  type byte = x: int | 0 <= x < 256

  function One(b: bool): nat {
    if b then 1 else 0
  }
}
