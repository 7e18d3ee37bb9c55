/**
 * Grey-level dilation as cv2.dilate computes it with an all-ones K x K kernel, the anchor
 * at the kernel centre (K / 2) and the default border: each output pixel is the maximum of
 * the input over the window at row and column offsets -K/2 .. K-1-K/2, where neighbours
 * outside the image are ignored.
 */
module Morphology {
  import opened Rasters

  /** (p, q) lies in the K x K window anchored at (i, j). */
  predicate InWindow(i: int, j: int, p: int, q: int, k: nat)
  {
    i - k / 2 <= p < i + k - k / 2 && j - k / 2 <= q < j + k - k / 2
  }

  /** Some in-image pixel of the window of (i, j) holds the value `v`. */
  predicate Attains(g: Grid, h: nat, w: nat, k: nat, i: int, j: int, v: byte)
    requires Shaped(g, h, w)
  {
    exists p, q :: 0 <= p < h && 0 <= q < w && InWindow(i, j, p, q, k) && g[p][q] == v
  }

  /**
   * `v` is the maximum of `g` over the window of (i, j): no in-image pixel of the window
   * exceeds it, and some in-image pixel of the window holds it.
   */
  predicate IsWindowMax(g: Grid, h: nat, w: nat, k: nat, i: int, j: int, v: byte)
    requires Shaped(g, h, w)
  {
    (forall p, q :: 0 <= p < h && 0 <= q < w && InWindow(i, j, p, q, k) ==> g[p][q] <= v) &&
    Attains(g, h, w, k, i, j, v)
  }

  /** A position of the largest value of a non-empty row segment (the first one from the left). */
  function SeqArgMax(s: seq<byte>): (n: nat)
    requires |s| > 0
    ensures n < |s|
  {
    if |s| == 1 then 0
    else
      var rest := 1 + SeqArgMax(s[1..]);
      if s[0] >= s[rest] then 0 else rest
  }

  /** No value of the segment exceeds the one at SeqArgMax. */
  lemma {:induction false} SeqArgMaxIsMax(s: seq<byte>)
    requires |s| > 0
    ensures forall m :: 0 <= m < |s| ==> s[m] <= s[SeqArgMax(s)]
  {
    if |s| > 1 {
      SeqArgMaxIsMax(s[1..]);
      assert forall m :: 0 < m < |s| ==> s[m] == s[1..][m - 1];
    }
  }

  /** A position of the largest value of `g` in rows top..bottom-1 and columns left..right-1. */
  function BoxArgMax(g: Grid, h: nat, w: nat, top: nat, bottom: nat, left: nat, right: nat): (pos: (nat, nat))
    requires Shaped(g, h, w) && top < bottom <= h && left < right <= w
    ensures top <= pos.0 < bottom && left <= pos.1 < right
    decreases bottom - top
  {
    var col := left + SeqArgMax(g[top][left..right]);
    if top + 1 == bottom then (top, col)
    else
      var below := BoxArgMax(g, h, w, top + 1, bottom, left, right);
      if g[top][col] >= g[below.0][below.1] then (top, col) else below
  }

  /** No value of the box exceeds the one at BoxArgMax. */
  lemma {:induction false} BoxArgMaxIsMax(g: Grid, h: nat, w: nat, top: nat, bottom: nat, left: nat, right: nat)
    requires Shaped(g, h, w) && top < bottom <= h && left < right <= w
    ensures var pos := BoxArgMax(g, h, w, top, bottom, left, right);
      forall p, q :: top <= p < bottom && left <= q < right ==> g[p][q] <= g[pos.0][pos.1]
    decreases bottom - top
  {
    var row := g[top][left..right];
    SeqArgMaxIsMax(row);
    assert forall q :: left <= q < right ==> g[top][q] == row[q - left];
    if top + 1 < bottom {
      BoxArgMaxIsMax(g, h, w, top + 1, bottom, left, right);
    }
  }

  /** A position of the maximum of `g` over the window of (i, j), clipped to the image. */
  function WindowArgMax(g: Grid, h: nat, w: nat, i: nat, j: nat, k: nat): (pos: (nat, nat))
    requires Shaped(g, h, w) && i < h && j < w && k >= 1
    ensures pos.0 < h && pos.1 < w && InWindow(i, j, pos.0, pos.1, k)
  {
    var (top, bottom, left, right) := WindowBox(h, w, i, j, k);
    BoxArgMax(g, h, w, top, bottom, left, right)
  }

  /** The rows top..bottom-1 and columns left..right-1 of the window of (i, j) inside the image. */
  function WindowBox(h: nat, w: nat, i: nat, j: nat, k: nat): (box: (nat, nat, nat, nat))
    requires i < h && j < w && k >= 1
    ensures box.0 < box.1 <= h && box.2 < box.3 <= w
    ensures forall p, q :: 0 <= p < h && 0 <= q < w ==>
      (InWindow(i, j, p, q, k) <==> box.0 <= p < box.1 && box.2 <= q < box.3)
  {
    var top := if i >= k / 2 then i - k / 2 else 0;
    var bottom := if i + k - k / 2 <= h then i + k - k / 2 else h;
    var left := if j >= k / 2 then j - k / 2 else 0;
    var right := if j + k - k / 2 <= w then j + k - k / 2 else w;
    (top, bottom, left, right)
  }

  /** No in-image value of the window exceeds the one at WindowArgMax. */
  lemma WindowArgMaxIsMax(g: Grid, h: nat, w: nat, i: nat, j: nat, k: nat)
    requires Shaped(g, h, w) && i < h && j < w && k >= 1
    ensures var pos := WindowArgMax(g, h, w, i, j, k);
      forall p, q :: 0 <= p < h && 0 <= q < w && InWindow(i, j, p, q, k) ==> g[p][q] <= g[pos.0][pos.1]
  {
    var (top, bottom, left, right) := WindowBox(h, w, i, j, k);
    BoxArgMaxIsMax(g, h, w, top, bottom, left, right);
  }

  /** The maximum of `g` over the window of (i, j). */
  function WindowMax(g: Grid, h: nat, w: nat, i: nat, j: nat, k: nat): byte
    requires Shaped(g, h, w) && i < h && j < w && k >= 1
  {
    var pos := WindowArgMax(g, h, w, i, j, k);
    g[pos.0][pos.1]
  }

  /** The first `n` rows of the dilation of `g`. */
  function DilatedRows(g: Grid, h: nat, w: nat, k: nat, n: nat): (rows: Grid)
    requires Shaped(g, h, w) && k >= 1 && n <= h
    ensures Shaped(rows, n, w)
  {
    if n == 0 then []
    else DilatedRows(g, h, w, k, n - 1) + [seq(w, j requires 0 <= j < w => WindowMax(g, h, w, n - 1, j, k))]
  }

  /** Row i of the first `n` dilated rows holds the window maxima of row i. */
  lemma {:induction false} DilatedRowsAt(g: Grid, h: nat, w: nat, k: nat, n: nat, i: nat, j: nat)
    requires Shaped(g, h, w) && k >= 1 && i < n <= h && j < w
    ensures DilatedRows(g, h, w, k, n)[i][j] == WindowMax(g, h, w, i, j, k)
  {
    if i < n - 1 {
      DilatedRowsAt(g, h, w, k, n - 1, i, j);
      assert DilatedRows(g, h, w, k, n)[i] == DilatedRows(g, h, w, k, n - 1)[i];
    }
  }

  /** cv2.dilate(g, ones((k, k)), iterations=1). */
  function Dilate(g: Grid, h: nat, w: nat, k: nat): (r: Grid)
    requires Shaped(g, h, w) && k >= 1
    ensures Shaped(r, h, w)
  {
    DilatedRows(g, h, w, k, h)
  }

  /** Dilation never lowers a pixel, since every window holds its own centre. */
  lemma DilateExtensive(g: Grid, h: nat, w: nat, k: nat)
    requires Shaped(g, h, w) && k >= 1
    ensures Below(g, Dilate(g, h, w, k), h, w)
  {
    var r := Dilate(g, h, w, k);
    forall i, j | 0 <= i < h && 0 <= j < w
      ensures g[i][j] <= r[i][j]
    {
      DilatedRowsAt(g, h, w, k, h, i, j);
      WindowArgMaxIsMax(g, h, w, i, j, k);
      assert InWindow(i, j, i, j, k);
    }
  }

  /**
   * Dilation is the window maximum: every pixel of the result bounds each in-image
   * neighbour of its K x K window and equals one of them.
   */
  lemma DilateIsWindowMax(g: Grid, h: nat, w: nat, k: nat)
    requires Shaped(g, h, w) && k >= 1
    ensures forall i, j :: 0 <= i < h && 0 <= j < w ==> IsWindowMax(g, h, w, k, i, j, Dilate(g, h, w, k)[i][j])
  {
    var r := Dilate(g, h, w, k);
    forall i, j | 0 <= i < h && 0 <= j < w
      ensures IsWindowMax(g, h, w, k, i, j, r[i][j])
    {
      DilatedRowsAt(g, h, w, k, h, i, j);
      WindowArgMaxIsMax(g, h, w, i, j, k);
      var pos := WindowArgMax(g, h, w, i, j, k);
      assert g[pos.0][pos.1] == r[i][j];
    }
  }
}
