/** Failure-carrying wrappers shared by every module of the model.

  - Option<T> stands for a JavaScript value that may be `null`/`undefined`.
  - Result<T> stands for a promise that either resolves with a value or
    rejects with an error message.
 */
module Common {

  datatype Option<+T> = None | Some(value: T)

  datatype Result<+T> = Ok(value: T) | Err(message: string)
}
