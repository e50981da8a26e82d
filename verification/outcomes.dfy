/** Failure-carrying datatypes used by the map model: `Option` stands for a
    Java reference that may be null, `Result` for a call that may throw. */
module Outcomes {

  /** A value that may be absent (a Java `null`). */
  datatype Option<+T> = None | Some(value: T)

  /** The outcome of a call that either returns a value or raises an error. */
  datatype Result<+T, +E> = Success(value: T) | Failure(error: E)

  /** The exceptions the tree map raises. */
  datatype Fault =
    | NullKey          // a null key given to findNode, containsKey, get or put
    | NullDereference  // a method reached through a null reference
}
