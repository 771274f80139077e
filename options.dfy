/** The optional value the source expresses with `null`. */
module Options {
  datatype Option<T> = None | Some(value: T)
}
