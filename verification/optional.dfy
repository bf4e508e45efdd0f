/** The usual Some/None datatype, used for the optional label of a report row. */
module Optional {

  datatype Option<+T> = None | Some(value: T)
}
