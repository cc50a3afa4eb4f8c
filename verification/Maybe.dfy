/** The optional value used where the source returns `null` or `undefined`. */
module Maybe {
  datatype Option<+T> = None | Some(value: T)
}
