/** Failure-compatible return types used by the model: `Option` stands for
    Python's `Optional[...]` / `None`, `Result` for an operation that may raise. */
module Wrappers {

  datatype Option<+T> = None | Some(value: T)

  datatype Result<+T> = Ok(value: T) | Err(message: string)
}
