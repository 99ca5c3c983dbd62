/** The conventional Some/None datatype, used for "not found" results and error slots. */
module Optional {

  datatype Option<+T> = None | Some(value: T)

}
