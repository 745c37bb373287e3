// Bytes, byte strings and machine integers.
module Bytes {
  type Byte = n: int | 0 <= n < 256

  type ByteString = seq<Byte>

  const TWO63 := 0x8000_0000_0000_0000
  const TWO64 := 0x1_0000_0000_0000_0000

  type i64 = n: int | -TWO63 <= n < TWO63
  type u64 = n: int | 0 <= n < TWO64
}
