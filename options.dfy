/** The optional value the source represents with `null`. */
module Options {
  datatype Option<+T> = None | Some(value: T)
}
