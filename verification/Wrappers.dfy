/** Results of operations that may find nothing or throw. */
module Wrappers {

  datatype Option<T> = None | Some(value: T)

  /** The exceptions of the encoder: a domain error, an invalid argument, or data that is too long. */
  datatype Outcome<T> = Ok(value: T) | DomainError | InvalidArgument | TooLong
}
