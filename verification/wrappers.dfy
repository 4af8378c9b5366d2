/** Failure-compatible wrappers used across the model: PHP's `null` becomes
    `Option.None`, an exception becomes `Result.Failure`, and a key of a PHP
    array that may be missing, present with `null`, or present with a value
    becomes a `Slot`. */
module Wrappers {

  datatype Option<+T> = None | Some(value: T)

  datatype Result<+T, +E> = Success(value: T) | Failure(error: E)

  /** The three states of one key of a PHP parameter array. */
  datatype Slot<+T> = Absent | Null | Given(value: T) {

    /** What reading the key yields once it is known to exist: `null` or the value. */
    function Read(): (r: Option<T>)
      requires !Absent?
      ensures r.None? <==> Null?
      ensures Given? ==> r == Some(value)
    {
      if Null? then None else Some(value)
    }
  }
}
