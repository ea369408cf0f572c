/** Results of fail-closed operations: every exception the source raises is an
    `Err`, and an absent dictionary entry or optional argument is `None`. */
module Wrappers {
  datatype Option<+T> = None | Some(value: T)

  datatype Result<+T> = Ok(value: T) | Err
}
