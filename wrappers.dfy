/** Python's `None`-or-value and the exceptions the pagination code can raise. */
module Wrappers {

  /** A value that may be Python's `None`. */
  datatype Option<+T> = None | Some(value: T)

  /** The exceptions raised by the pagination code: a failed `assert` carries its message;
      `max()` of an empty key view raises `ValueError`; `del` of a missing dict key raises
      `KeyError`. */
  datatype Error = AssertionError(message: string) | ValueError | KeyError

  /** Either the value a call returns or the exception it raises. */
  datatype Result<+R> = Success(value: R) | Failure(error: Error)
}
