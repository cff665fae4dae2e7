/** Integers: the casts to SHORT, and the bounds of std. */
module Shorts {

  function Short(v: int): (r: int)
    ensures -0x8000 <= r < 0x8000
  {
    (v + 0x8000) % 0x1_0000 - 0x8000
  }

  function Max(a: int, b: int): int { if a < b then b else a }

  function Min(a: int, b: int): int { if a < b then a else b }

  /** std::clamp. */
  function Between(v: int, lo: int, hi: int): int {
    if v < lo then lo else if v > hi then hi else v
  }
}
