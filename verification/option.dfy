/** Java's nullable references and its abnormal endings, made explicit. */
module Options {

  /** A Java reference that may be null. */
  datatype Option<T> = None | Some(value: T)

  /**
   * How a call ends: it returns a value, it throws a Java runtime
   * exception (an index out of bounds, a null dereference), or it loops
   * forever.
   */
  datatype Outcome<T> = Returns(value: T) | Throws | Loops
}
