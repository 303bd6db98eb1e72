// Types the modules share.
module Common {
  datatype Option<T> = None | Some(value: T)

  // A byte as a number, where it is counted with or moved; Bits.byte is one whose
  // bits are looked at.
  type Byte = v: int | 0 <= v < 256

  const U32: nat := 0x1_0000_0000

  // One of the display's two frame buffers.
  type Index = n: nat | n < 2
}
