/** Failure-carrying return types shared by the modules of this model.
    `Result` stands for a Python function that either returns a value or
    raises an exception; `Option` stands for a value that may be `None`. */
module Wrappers {

  datatype Option<+T> = None | Some(value: T)

  datatype Result<+T, +E> = Ok(value: T) | Err(error: E)

}
