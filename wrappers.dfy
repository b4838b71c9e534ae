/** Optional values (Java's nullable references) and results (Java's checked exceptions). */
module Wrappers {

  /** A possibly-null reference: `None` stands for Java's `null`. */
  datatype Option<T> = None | Some(value: T)

  /** The outcome of a Java call that either returns a value or throws. */
  datatype Result<T, E> = Ok(value: T) | Err(error: E)
}
