/** Stock definitions shared by the models. */
module Common {

  const INT_MAX := 0x7FFF_FFFF

  datatype Option<+T> = None | Some(value: T)
}
