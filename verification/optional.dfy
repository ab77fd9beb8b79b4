/** The "nothing found" marker every search returns. */
module Optional {
  datatype Option<T> = None | Some(value: T)
}
