/** Failure-compatible result types shared by every module of the model.
    Python's `None` becomes `None`; a raised exception becomes `Failure`. */
module Wrappers {

  datatype Option<+T> = None | Some(value: T)

  datatype Result<+T, +E> = Success(value: T) | Failure(error: E) {

    predicate IsFailure() {
      Failure?
    }

    function PropagateFailure<U>(): Result<U, E>
      requires Failure?
    {
      Failure(error)
    }

    function Extract(): T
      requires Success?
    {
      value
    }
  }

  /** The exceptions the modelled Python code can raise. */
  datatype Exception =
    | MalformedLine(line: string)       // ValueError: a whitelist line without exactly one ':'
    | InvalidRepository(line: string)   // ValueError: empty repository side
    | InvalidTagOrDigest(line: string)  // ValueError: empty tag side
    | InvalidWildcard(line: string)     // ValueError: the line `*:*`
    | MissingTagAndDigest               // ValueError: an Item with neither tag nor digest
    | NoneComparison                    // TypeError: `<` between an int and None
    | NoneTag                           // TypeError: a string operation applied to a None tag
}
