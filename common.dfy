/** Small shared value types. */
module Common {

  /** A value that may be absent; `None` stands for Java's `null`. */
  datatype Option<+T> = None | Some(value: T)

  /** How a Java call ended: with a value, or by throwing the named exception. */
  datatype Returned<+T> = Value(value: T) | Thrown(exception: string)
}
