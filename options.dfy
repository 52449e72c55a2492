/** The optional value used for "element found / not found" and for Python's None. */
module Options {

  datatype Option<+T> = None | Some(value: T)
}
