/** Option and Result values used for nullable fields and for the views'
    refusals (redirects and 404s) instead of exceptions. */
module Wrappers {

  /** A nullable value: `None` plays the role of a database NULL. */
  datatype Option<+T> = None | Some(value: T)

  /** The outcome of a view: either the value it renders or the refusal it
      answers with. */
  datatype Result<+T, +E> = Ok(value: T) | Err(error: E)
}
