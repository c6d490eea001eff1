/** Failure-compatible wrappers and the errors the dubbing script can raise. */
module Results {

  /** The exceptions of dub_hindi_subtitle_to_En.py that the model reproduces. */
  datatype Error =
    | UnpackMismatch   // ValueError: a split gave a different number of fields than the assignment unpacks
    | InvalidLiteral   // ValueError: int() refused a field
    | MissingTextLine  // IndexError: a timestamp line is the last line of the file
    | ZeroDivision     // ZeroDivisionError: a non-empty clip for a zero-length window

  datatype Option<+T> = None | Some(value: T)

  datatype Result<+T> = Success(value: T) | Failure(error: Error) {

    predicate IsFailure() {
      Failure?
    }

    function PropagateFailure<U>(): Result<U>
      requires Failure?
    {
      Failure(error)
    }

    function Extract(): T
      requires Success?
    {
      value
    }
  }
}
