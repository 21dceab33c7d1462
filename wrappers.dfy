/** Option and Result values used where the script returns None or raises. */
module Wrappers {

  datatype Option<+T> = None | Some(value: T)

  /** `Failure` stands for a Python exception escaping the operation. */
  datatype Result<+T> = Success(value: T) | Failure(error: string)
}
