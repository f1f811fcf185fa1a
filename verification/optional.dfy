/** The absent-or-present value used wherever the source has `undefined`, `null` or an optional field. */
module Optional {

  datatype Option<+T> = None | Some(value: T)

}
