/** Datatypes shared by the Todo model: `Option` stands for Java's nullable
    references and `Optional`, `Result` for an operation that either returns
    a value or raises one of the service's exceptions. */
module Wrappers {

  datatype Option<+T> = None | Some(value: T)

  datatype Result<+T, +E> = Success(value: T) | Failure(error: E)
}
