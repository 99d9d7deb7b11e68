/** What several parts of the system share. */
module Common {

  type Byte = x: int | 0 <= x < 256

  function Min(a: int, b: int): int {
    if a < b then a else b
  }
}
