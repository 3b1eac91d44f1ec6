/** What several components share. */
module Common {

  type Byte = b: nat | b < 0x100

  datatype Option<+T> = None | Some(value: T)

  function Max(a: int, b: int): int { if a > b then a else b }
}
