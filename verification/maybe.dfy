/** Java references that may be `null`. */
module Maybe {

  /** `None` stands for a `null` reference, `Some(v)` for a reference to `v`. */
  datatype Option<+T> = None | Some(value: T)
}
