/** The little arithmetic several modules share. */
module Arith {
  function Min(a: int, b: int): int { if a <= b then a else b }

  function Max(a: int, b: int): int { if a >= b then a else b }

  lemma MulMono(a: nat, b: nat, c: nat)
    requires a <= b
    ensures 0 <= a * c <= b * c
  {
  }

  /** Row y of h rows of w elements ends inside the raster. */
  lemma RowInRaster(w: nat, h: nat, y: nat)
    requires y < h
    ensures y * w + w == (y + 1) * w <= w * h == h * w
  {
  }
}
