/** The usual optional value, for JavaScript's `undefined`. */
module Optional {
  datatype Option<+T> = None | Some(value: T)
}
