/** A value that may be absent: a null shared pointer, an unset glTF id, a failed read. */
module Optional {
  datatype Option<+T> = None | Some(value: T)
}
