/** A value that may be absent: Java's null, or a step that raised an exception. */
module Optional {
  datatype Option<T> = None | Some(value: T)
}
