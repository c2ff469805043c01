/** The two result shapes the model uses in place of `std::optional` and of exceptions. */
module Wrappers {

  datatype Option<+T> = None | Some(value: T)

  datatype Result<+T, +E> = Success(value: T) | Failure(error: E) {
    predicate IsFailure() {
      Failure?
    }

    function PropagateFailure<U>(): (r: Result<U, E>)
      requires Failure?
    {
      Failure(error)
    }

    function Extract(): T
      requires Success?
    {
      value
    }
  }

  /** `std::size_t` on a 64-bit platform: one more than its largest value. */
  const SIZE_LIMIT: nat := 0x1_0000_0000_0000_0000

  /** `std::string::npos`, the largest `std::size_t`. */
  const NPOS: nat := SIZE_LIMIT - 1
}
