/** The optional value used where the source has `undefined` or an absent field. */
module Options {

  datatype Option<+T> = None | Some(value: T)
}
