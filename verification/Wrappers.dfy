/** The Option and Result types and the largest `u64`, which the other modules share. */
module Wrappers {
  datatype Option<+T> = None | Some(value: T)

  datatype Result<+R, +E> = Success(value: R) | Failure(error: E)

  const MAX_U64: nat := 0xFFFF_FFFF_FFFF_FFFF
}
