/** The optional value used wherever the source yields `undefined` (a failed `find`). */
module Options {
  datatype Option<+T> = None | Some(value: T)
}
