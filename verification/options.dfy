/** The optional value used for nullable links and for scans that may find nothing. */
module Options {

  datatype Option<+T> = None | Some(value: T)

}
