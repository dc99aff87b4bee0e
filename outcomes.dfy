/** Values and failures shared by the docktool model.
    Python raises exceptions; here every operation that can raise returns a
    `Result`, and the `Failure` says which exception it would have been. */
module Outcomes {

  datatype Option<+T> = None | Some(value: T)

  /** The exceptions the modelled code can raise.
      - ValueError(token): Python's float() refused `token`.
      - InputError(text): the tool's own "Size %s input error" exception,
        carrying the text it formats into the message.
      - IndexError(index): a table row had no column `index`. */
  datatype Failure =
    | ValueError(token: string)
    | InputError(text: string)
    | IndexError(index: nat)

  datatype Result<+T> = Ok(value: T) | Err(failure: Failure)

  /** `r` is a success carrying `x`. (Stated on the carried value rather than
      as `r == Ok(x)`, which the solver handles poorly for computed reals.) */
  predicate Yields<T(==)>(r: Result<T>, x: T) {
    r.Ok? && r.value == x
  }
}
