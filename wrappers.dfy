/**
 * The optional value used wherever the JavaScript source has `null` or
 * `undefined`, and the outcome of a collaborator that either yields a value
 * or throws an error with a message.
 */
module Wrappers {

  datatype Option<+T> = None | Some(value: T)

  datatype Result<+T> = Ok(value: T) | Err(message: string)
}
