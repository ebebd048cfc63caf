/** Failure values returned by the user service and by the key-value store. */
module Errors {

  /** An optional value; `None` plays the role of Go's nil. */
  datatype Option<+T> = None | Some(value: T)

  /** The failures the core can observe. */
  datatype Error =
      /** A field-scoped failure: validation, blank input, or a lookup that found nothing. */
    | InputError(field: string, message: string)
      /** The store cancelled a transaction because one of its conditions did not hold. */
    | TransactionCanceled
      /** The store refused the shape of a request before looking at any item. */
    | ValidationException(reason: string)

  /** Either a value or the error that prevented computing it. */
  datatype Result<+T> = Success(value: T) | Failure(error: Error)
}
