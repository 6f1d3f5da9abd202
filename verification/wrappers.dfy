/** Optional values for the source's nulls, and the byte type. */
module Wrappers {
  datatype Option<+T> = None | Some(value: T)

  /** An 8-bit unsigned value (C# `byte`). */
  newtype byte = b: int | 0 <= b < 256
}
