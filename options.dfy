/** The optional value the parsers and matchers return where Python returns None. */
module Options {
  datatype Option<+T> = None | Some(value: T)
}
