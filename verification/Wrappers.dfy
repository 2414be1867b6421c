/** Failure-carrying results shared by every checker. */
module Wrappers {
  datatype Option<+T> = None | Some(value: T)

  datatype Result<+T, +E> = Ok(value: T) | Err(error: E)

  datatype Unit = Unit

  /** The largest machine index (`usize::MAX` on a 64-bit target). */
  const USIZE_MAX: nat := 0xFFFF_FFFF_FFFF_FFFF
}
