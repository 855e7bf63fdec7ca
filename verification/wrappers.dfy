/** The exceptions the C++ standard library raises on the paths this model
    follows, and a value-or-exception result type. */
module Wrappers {

  /** `OutOfRange` is what `std::string::at` / `std::vector::at` throw for a bad
      index; `LengthError` is what `std::vector::resize` throws when asked for a
      size beyond `max_size()` (a negative `int` converted to `size_t`). */
  datatype Error = OutOfRange | LengthError

  datatype Result<+T> = Success(value: T) | Failure(error: Error) {
    predicate IsFailure() {
      Failure?
    }

    function PropagateFailure<U>(): Result<U>
      requires Failure?
    {
      Failure(error)
    }

    function Extract(): T
      requires Success?
    {
      value
    }
  }
}
