// Option and Result values used for Java nulls and for the exceptions the
// services raise.
module Wrappers {
  datatype Option<T> = None | Some(value: T)

  /** The exceptions raised by the services, by kind. */
  datatype Error =
    | NotFound(entity: string)            // "... not found" (IllegalArgumentException / RuntimeException)
    | AlreadyExists(entity: string)       // duplicate name, pair or triple
    | InvalidArgument(reason: string)     // other IllegalArgumentException
    | InvalidState(reason: string)        // IllegalStateException
    | IncorrectResultSize                 // a single-row finder matched several rows
    | Rejected(reason: string)            // a statement the database refuses

  datatype Result<T> = Ok(value: T) | Err(error: Error)
}
