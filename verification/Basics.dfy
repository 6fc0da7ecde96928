/** Machine integers and small helpers that several modules use. */
module Basics {
  datatype Option<T> = None | Some(value: T)

  type i32 = n: int | -0x8000_0000 <= n <= 0x7FFF_FFFF

  type u32 = n: int | 0 <= n < 0x1_0000_0000

  type u64 = n: int | 0 <= n < 0x1_0000_0000_0000_0000

  function Max(a: int, b: int): int { if a > b then a else b }

  function Min(a: int, b: int): int { if a < b then a else b }
}
