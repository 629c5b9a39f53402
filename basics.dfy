// Shared value types: the JVM's byte and the nullable results of the source.

module Basics {

  /** One byte of a stream or file, as an unsigned value. */
  newtype byte = x: int | 0 <= x < 256

  /** Kotlin's nullable `T?`: `None` stands for `null`. */
  datatype Option<T> = None | Some(value: T)

  function Min(a: int, b: int): int
  {
    if a <= b then a else b
  }
}
