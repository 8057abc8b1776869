/** The Python exceptions the deduplication script raises on bad input, and a
    result type that carries either a value or one of them. */
module Errors {

  /** `IndexError`: a list was indexed past its end (`split(..)[1]` on a name
      without the separator, `image_names[0]` on an empty listing).
      `ValueError`: `int()` was given text that is not a decimal literal. */
  datatype Error = IndexError | ValueError

  datatype Result<T> = Ok(value: T) | Err(error: Error)
}
