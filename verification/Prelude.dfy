/** Result types shared by all modules. */
module Prelude {
  datatype Option<+T> = None | Some(value: T)

  /** The error kinds of the catalog API, and a panic on the way to an answer. Messages are not modelled. */
  datatype Error = BadRequest | Conflict | NotFound | MatchError | Panicked

  datatype Result<+T> = Ok(value: T) | Err(error: Error)
}
