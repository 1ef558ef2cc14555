/** The conventional Some/None datatype, used for searches that may find nothing. */
module Options {

  datatype Option<+T> = None | Some(value: T)

}
