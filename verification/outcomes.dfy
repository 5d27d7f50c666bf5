/** Failure-carrying values used across the model: `Option` for the
    tokenizer's and encoder's fallible calls, `Result` for the `anyhow::Result`
    that the correction entry points return. */
module Outcomes {

  datatype Option<+T> = None | Some(value: T)

  datatype Result<+T, +E> = Ok(value: T) | Err(error: E)

  function Min(a: int, b: int): int
  {
    if a <= b then a else b
  }
}
