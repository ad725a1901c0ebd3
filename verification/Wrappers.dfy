/** Result and option values shared by every component. */
module Wrappers {
  datatype Option<+T> = None | Some(value: T)

  datatype Result<+T, +E> = Ok(value: T) | Err(error: E)

  /** One byte of a file, a buffer or a digest. */
  newtype byte = x: int | 0 <= x < 256

  /** A 32-byte digest. */
  type Hash = s: seq<byte> | |s| == 32 witness seq(32, _ => 0 as byte)
}
