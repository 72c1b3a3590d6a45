/** Value types shared by the whole model: bytes and the two failure-carrying wrappers. */
module Common {

  /** A Rust `u8`. */
  type Byte = b: int | 0 <= b < 0x100

  datatype Option<T> = None | Some(value: T)

  datatype Result<T, E> = Ok(value: T) | Err(error: E)
}
