/** The error enum of the loader (src/errors.rs). */
module Errors {

  /** `IOError` wraps the failure of the file read; its cause is kept as text. */
  datatype AocError =
    | IOError(cause: string)
    | OutOfBounds
    | ParseToTypeFailed
}
