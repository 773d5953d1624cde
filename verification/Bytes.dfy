/** Bytes as the C++ code sees them through `unsigned char`, and the types of partial results. */
module Bytes {
  type byte = n: int | 0 <= n < 256 witness 0

  datatype Option<+T> = None | Some(value: T)

  /** Why a computation has no result. */
  datatype Failure = Exception | UndefinedBehaviour

  datatype Computed<+T> = Ok(value: T) | Err(failure: Failure)

  predicate IsDigit(c: byte) {
    48 <= c <= 57
  }

  /** The value a plain (signed) `char` has when it is promoted to `int`. */
  function AsSignedChar(c: byte): int {
    if c < 128 then c else c - 256
  }
}
