/** Small shared types: bytes and an optional value. */
module Common {

  /** One byte of file content. */
  newtype byte = x: int | 0 <= x < 256

  datatype Option<+T> = None | Some(value: T)
}
