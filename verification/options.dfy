/** The optional value used wherever the scripts use Python's `None`. */
module Options {

  datatype Option<+T> = None | Some(value: T)
}
