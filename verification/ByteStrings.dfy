/** Byte strings and results shared by the formats. */
module ByteStrings {
  type Byte = x: int | 0 <= x < 256
  type Bytes = seq<Byte>

  datatype Option<+T> = None | Some(value: T)
}
