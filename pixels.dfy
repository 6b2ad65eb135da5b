/**
 * One pixel at a time: the luma of an RGB triple and the threshold that
 * turns a grey intensity into black or white.
 */
module Pixels {

  /** One unsigned 8-bit value, as `struct.pack('B', v)` writes it. */
  type byte = x: int | 0 <= x < 256

  predicate IsByte(v: int) {
    0 <= v < 256
  }

  /** A colour pixel; the source does not check that channels lie in 0..255. */
  datatype Rgb = Rgb(r: int, g: int, b: int)

  predicate IsColor(p: Rgb) {
    IsByte(p.r) && IsByte(p.g) && IsByte(p.b)
  }

  const Black: int := 0
  const White: int := 255
  const DefaultThreshold: int := 128

  /** `0.299*R + 0.587*G + 0.114*B`, scaled by 1000 so that it is exact. */
  function LumaSum(p: Rgb): int {
    299 * p.r + 587 * p.g + 114 * p.b
  }

  /** Integer division rounding toward zero, the way Python's `int()` truncates a float. */
  function TruncDiv(n: int, d: int): int
    requires d > 0
  {
    if n >= 0 then n / d else -((-n) / d)
  }

  /**
   * `rgb_to_grayscale`: the weighted sum truncated toward zero. For a colour
   * whose channels are bytes the result is the floor of the exact weighted sum,
   * and it is itself a grey byte.
   */
  function Luma(p: Rgb): (y: int)
    ensures 0 <= LumaSum(p) ==> 1000 * y <= LumaSum(p) < 1000 * y + 1000
    ensures LumaSum(p) < 0 ==> 1000 * y - 1000 < LumaSum(p) <= 1000 * y
    ensures IsColor(p) ==> IsByte(y)
  {
    TruncDiv(LumaSum(p), 1000)
  }

  /** `grayscale_to_binary`: white when the value reaches the threshold, black below it. */
  function Binarize(v: int, threshold: int := DefaultThreshold): (b: int)
    ensures b == White || b == Black
    ensures b == White <==> v >= threshold
  {
    if v >= threshold then White else Black
  }

  /** A brighter grey never binarises darker, and a higher threshold never binarises brighter. */
  lemma BinarizeMonotone(v1: int, v2: int, t1: int, t2: int)
    requires v1 <= v2 && t1 <= t2
    ensures Binarize(v1, t2) <= Binarize(v2, t2)
    ensures Binarize(v1, t2) <= Binarize(v1, t1)
  {
  }
}
