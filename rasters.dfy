/** Rasters as the program holds them in numpy arrays: rows of pixels, 8 bits per channel. */
module Rasters {

  /** One 8-bit channel value (numpy's uint8). */
  newtype byte = x: int | 0 <= x < 256

  /** A single-channel 8-bit raster: region masks, skeletons and overlay frames. */
  type Grid = seq<seq<byte>>

  /** `g` has `h` rows of `w` pixels each. */
  predicate Shaped<T>(g: seq<seq<T>>, h: nat, w: nat)
  {
    |g| == h && forall i :: 0 <= i < h ==> |g[i]| == w
  }

  /** `a` is pointwise at most `b`. */
  predicate Below(a: Grid, b: Grid, h: nat, w: nat)
    requires Shaped(a, h, w) && Shaped(b, h, w)
  {
    forall i, j :: 0 <= i < h && 0 <= j < w ==> a[i][j] <= b[i][j]
  }

  /** Two rasters of the same shape that agree at every pixel are equal. */
  lemma SameRaster<T>(x: seq<seq<T>>, y: seq<seq<T>>, h: nat, w: nat)
    requires Shaped(x, h, w) && Shaped(y, h, w)
    requires forall i, j :: 0 <= i < h && 0 <= j < w ==> x[i][j] == y[i][j]
    ensures x == y
  {
    forall i | 0 <= i < h
      ensures x[i] == y[i]
    {
      assert forall j :: 0 <= j < w ==> x[i][j] == y[i][j];
    }
  }
}
