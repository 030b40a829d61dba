/** The optional value used for `null`/`undefined` references in the address book. */
module Optional {

  /** `None` models JavaScript's `null` or `undefined`; `Some(v)` a present value. */
  datatype Option<+T> = None | Some(value: T)
}
