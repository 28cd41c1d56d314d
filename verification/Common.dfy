/** Bytes, machine words and optional values, for every part of the model. */
module Common {

  const WORD := 0x1_0000_0000_0000_0000

  type byte = x: int | 0 <= x < 0x100
  type u32 = x: int | 0 <= x < 0x1_0000_0000
  type u64 = x: int | 0 <= x < WORD

  datatype Option<+T> = None | Some(value: T)

  function Wrap64(x: int): u64 {
    x % WORD
  }
}
