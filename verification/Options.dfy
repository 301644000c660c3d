/** A value or nothing: Go's nil errors and nil pointers where no object is meant. */
module Options {
  datatype Option<+T> = None | Some(value: T)
}
