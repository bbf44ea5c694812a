/** The optional value used for lookups and for results that can fail without a reason. */
module Options {

  datatype Option<+T> = None | Some(value: T)
}
