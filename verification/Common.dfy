/** The optional value every part of the model shares. */
module Common {
  datatype Option<+T> = None | Some(value: T)
}
