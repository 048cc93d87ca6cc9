/** Small shared datatypes. */
module Base {

  /** Python's `None` or a value. */
  datatype Option<+T> = None | Some(value: T)
}
