/** Datatypes shared by every component. */
module Prelude {
  datatype Option<+T> = None | Some(value: T)

  /** An unsigned octet, as Python's `bytes` hold them. */
  type byte = b: int | 0 <= b < 256

  type Bytes = seq<byte>
}
