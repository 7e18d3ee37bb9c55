/**
 * The overlay side of func.py: img_addition paints the axis colour into an RGB image in
 * place, image_blend darkens the surroundings of a region (zeroing the caller's image
 * outside the region in place), and dilate_iter builds the frame list shown one after the
 * other: the whole region first, then the clipped dilations from the widest to the
 * narrowest, and last the thickened skeleton, so the overlay shrinks frame by frame.
 */
module Overlay {
  import opened Rasters
  import opened Morphology

  /** One RGB pixel, 8 bits per channel. */
  datatype Rgb = Rgb(r: byte, g: byte, b: byte)

  /** An RGB image as a value: rows of pixels. */
  type Image = seq<seq<Rgb>>

  const BlackPixel: Rgb := Rgb(0, 0, 0)

  /** The pixels of an H x W x 3 array, as a value. */
  function Pixels(a: array2<Rgb>): (img: Image)
    reads a
    ensures Shaped(img, a.Length0, a.Length1)
    ensures forall i, j :: 0 <= i < a.Length0 && 0 <= j < a.Length1 ==> img[i][j] == a[i, j]
  {
    seq(a.Length0, i requires 0 <= i < a.Length0 reads a =>
      seq(a.Length1, j requires 0 <= j < a.Length1 reads a => a[i, j]))
  }

  /** np.array(image, dtype=np.uint8): a fresh array holding the pixels of `image`. */
  method ToArray(image: Image, h: nat, w: nat) returns (a: array2<Rgb>)
    requires Shaped(image, h, w)
    ensures fresh(a) && a.Length0 == h && a.Length1 == w
    ensures Pixels(a) == image
  {
    a := new Rgb[h, w];
    forall i, j | 0 <= i < h && 0 <= j < w {
      a[i, j] := image[i][j];
    }
    SameRaster(Pixels(a), image, h, w);
  }

  // ---------------------------------------------------------------------------
  // img_addition

  /** The image with `axisColor` wherever the mask is positive. */
  function Paint(image: Image, areaMask: Grid, axisColor: Rgb, h: nat, w: nat): (painted: Image)
    requires Shaped(image, h, w) && Shaped(areaMask, h, w)
    ensures Shaped(painted, h, w)
  {
    seq(h, i requires 0 <= i < h => seq(w, j requires 0 <= j < w =>
      if areaMask[i][j] > 0 then axisColor else image[i][j]))
  }

  /**
   * img_addition: writes `axisColor` into all three channels of every pixel where the mask
   * is positive, leaves the other pixels alone, and returns the array it was given.
   */
  method ImgAddition(image: array2<Rgb>, areaMask: Grid, axisColor: Rgb) returns (result: array2<Rgb>)
    requires Shaped(areaMask, image.Length0, image.Length1)
    modifies image
    ensures result == image
    ensures Pixels(image) == Paint(old(Pixels(image)), areaMask, axisColor, image.Length0, image.Length1)
  {
    ghost var before := Pixels(image);
    forall i, j | 0 <= i < image.Length0 && 0 <= j < image.Length1 && areaMask[i][j] > 0 {
      image[i, j] := axisColor;
    }
    SameRaster(Pixels(image), Paint(before, areaMask, axisColor, image.Length0, image.Length1),
      image.Length0, image.Length1);
    result := image;
  }

  /**
   * Painting sets the colour exactly where the mask is positive and keeps every other pixel,
   * and painting twice with the same mask and colour is painting once.
   */
  lemma PaintSpec(image: Image, areaMask: Grid, axisColor: Rgb, h: nat, w: nat)
    requires Shaped(image, h, w) && Shaped(areaMask, h, w)
    ensures forall i, j :: 0 <= i < h && 0 <= j < w && areaMask[i][j] > 0 ==>
      Paint(image, areaMask, axisColor, h, w)[i][j] == axisColor
    ensures forall i, j :: 0 <= i < h && 0 <= j < w && areaMask[i][j] == 0 ==>
      Paint(image, areaMask, axisColor, h, w)[i][j] == image[i][j]
    ensures Paint(Paint(image, areaMask, axisColor, h, w), areaMask, axisColor, h, w)
      == Paint(image, areaMask, axisColor, h, w)
  {
    var once := Paint(image, areaMask, axisColor, h, w);
    SameRaster(Paint(once, areaMask, axisColor, h, w), once, h, w);
  }

  // ---------------------------------------------------------------------------
  // image_blend

  /** The foreground buffer: the image with every pixel outside the region zeroed. */
  function Foreground(image: Image, areaMask: Grid, h: nat, w: nat): (fg: Image)
    requires Shaped(image, h, w) && Shaped(areaMask, h, w)
    ensures Shaped(fg, h, w)
  {
    seq(h, i requires 0 <= i < h => seq(w, j requires 0 <= j < w =>
      if areaMask[i][j] == 0 then BlackPixel else image[i][j]))
  }

  /** The background copy: the image with every pixel inside the region zeroed. */
  function Background(image: Image, areaMask: Grid, h: nat, w: nat): (bg: Image)
    requires Shaped(image, h, w) && Shaped(areaMask, h, w)
    ensures Shaped(bg, h, w)
  {
    seq(h, i requires 0 <= i < h => seq(w, j requires 0 <= j < w =>
      if areaMask[i][j] > 0 then BlackPixel else image[i][j]))
  }

  /** cv2.addWeighted on one pixel, `addWeighted` standing for its per-channel arithmetic. */
  function WeighPixel(a: Rgb, b: Rgb, addWeighted: (byte, byte) -> byte): Rgb
  {
    Rgb(addWeighted(a.r, b.r), addWeighted(a.g, b.g), addWeighted(a.b, b.b))
  }

  /** cv2.addWeighted on whole images of one shape. */
  function Blend(fg: Image, bg: Image, addWeighted: (byte, byte) -> byte, h: nat, w: nat): (r: Image)
    requires Shaped(fg, h, w) && Shaped(bg, h, w)
    ensures Shaped(r, h, w)
  {
    seq(h, i requires 0 <= i < h => seq(w, j requires 0 <= j < w =>
      WeighPixel(fg[i][j], bg[i][j], addWeighted)))
  }

  /** image.copy(): a fresh array with the same pixels. */
  method CopyOf(a: array2<Rgb>) returns (c: array2<Rgb>)
    ensures fresh(c) && c.Length0 == a.Length0 && c.Length1 == a.Length1
    ensures Pixels(c) == Pixels(a)
  {
    c := new Rgb[a.Length0, a.Length1];
    forall i, j | 0 <= i < a.Length0 && 0 <= j < a.Length1 {
      c[i, j] := a[i, j];
    }
    SameRaster(Pixels(c), Pixels(a), a.Length0, a.Length1);
  }

  /**
   * image_blend with a single-channel mask. The foreground is the caller's own array, so
   * the caller's image is left zeroed outside the region; the background copy is zeroed
   * inside it; the result is a fresh array weighing the two.
   */
  method ImageBlend(image: array2<Rgb>, areaMask: Grid, addWeighted: (byte, byte) -> byte)
    returns (result: array2<Rgb>)
    requires Shaped(areaMask, image.Length0, image.Length1)
    modifies image
    ensures fresh(result) && result.Length0 == image.Length0 && result.Length1 == image.Length1
    ensures Pixels(image) == Foreground(old(Pixels(image)), areaMask, image.Length0, image.Length1)
    ensures Pixels(result) == Blend(Pixels(image),
      Background(old(Pixels(image)), areaMask, image.Length0, image.Length1),
      addWeighted, image.Length0, image.Length1)
  {
    var foreground := image;
    var background := CopyOf(image);
    ClearOutside(foreground, areaMask);
    ClearInside(background, areaMask);
    result := AddWeighted(foreground, background, addWeighted);
  }

  /** foreground[:, :, c][areaMask == 0] = 0 for every channel c. */
  method ClearOutside(a: array2<Rgb>, areaMask: Grid)
    requires Shaped(areaMask, a.Length0, a.Length1)
    modifies a
    ensures Pixels(a) == Foreground(old(Pixels(a)), areaMask, a.Length0, a.Length1)
  {
    ghost var before := Pixels(a);
    forall i, j | 0 <= i < a.Length0 && 0 <= j < a.Length1 && areaMask[i][j] == 0 {
      a[i, j] := BlackPixel;
    }
    SameRaster(Pixels(a), Foreground(before, areaMask, a.Length0, a.Length1), a.Length0, a.Length1);
  }

  /** background[:, :, c][areaMask > 0] = 0 for every channel c. */
  method ClearInside(a: array2<Rgb>, areaMask: Grid)
    requires Shaped(areaMask, a.Length0, a.Length1)
    modifies a
    ensures Pixels(a) == Background(old(Pixels(a)), areaMask, a.Length0, a.Length1)
  {
    ghost var before := Pixels(a);
    forall i, j | 0 <= i < a.Length0 && 0 <= j < a.Length1 && areaMask[i][j] > 0 {
      a[i, j] := BlackPixel;
    }
    SameRaster(Pixels(a), Background(before, areaMask, a.Length0, a.Length1), a.Length0, a.Length1);
  }

  /** cv2.addWeighted into a fresh array. */
  method AddWeighted(fg: array2<Rgb>, bg: array2<Rgb>, addWeighted: (byte, byte) -> byte) returns (result: array2<Rgb>)
    requires bg.Length0 == fg.Length0 && bg.Length1 == fg.Length1
    ensures fresh(result) && result.Length0 == fg.Length0 && result.Length1 == fg.Length1
    ensures Pixels(result) == Blend(Pixels(fg), Pixels(bg), addWeighted, fg.Length0, fg.Length1)
  {
    result := new Rgb[fg.Length0, fg.Length1];
    forall i, j | 0 <= i < fg.Length0 && 0 <= j < fg.Length1 {
      result[i, j] := WeighPixel(fg[i, j], bg[i, j], addWeighted);
    }
    SameRaster(Pixels(result), Blend(Pixels(fg), Pixels(bg), addWeighted, fg.Length0, fg.Length1),
      fg.Length0, fg.Length1);
  }

  /**
   * Each pixel survives in exactly one of the two buffers: in the foreground inside the
   * region and in the background outside it; so the two are never both non-black.
   */
  lemma BuffersSplitImage(image: Image, areaMask: Grid, h: nat, w: nat)
    requires Shaped(image, h, w) && Shaped(areaMask, h, w)
    ensures forall i, j :: 0 <= i < h && 0 <= j < w ==>
      Foreground(image, areaMask, h, w)[i][j] == BlackPixel || Background(image, areaMask, h, w)[i][j] == BlackPixel
    ensures forall i, j :: 0 <= i < h && 0 <= j < w ==>
      image[i][j] == (if areaMask[i][j] > 0 then Foreground(image, areaMask, h, w)[i][j]
                      else Background(image, areaMask, h, w)[i][j])
  {
  }

  /**
   * With alpha 1 and gamma 0 (weighing against black changes nothing), blending shows the
   * original pixel unchanged inside the region.
   */
  lemma BlendKeepsRegion(image: Image, areaMask: Grid, addWeighted: (byte, byte) -> byte, h: nat, w: nat)
    requires Shaped(image, h, w) && Shaped(areaMask, h, w)
    requires forall v :: addWeighted(v, 0) == v
    ensures forall i, j :: 0 <= i < h && 0 <= j < w && areaMask[i][j] > 0 ==>
      Blend(Foreground(image, areaMask, h, w), Background(image, areaMask, h, w), addWeighted, h, w)[i][j]
        == image[i][j]
  {
  }

  // ---------------------------------------------------------------------------
  // dilate_iter

  /** img[img_scope == 0] = 0: the frame cut down to the region. */
  function Clip(img: Grid, imgScope: Grid, h: nat, w: nat): (r: Grid)
    requires Shaped(img, h, w) && Shaped(imgScope, h, w)
    ensures Shaped(r, h, w)
  {
    seq(h, i requires 0 <= i < h => seq(w, j requires 0 <= j < w =>
      if imgScope[i][j] == 0 then 0 else img[i][j]))
  }

  /** The seed frame: the skeleton dilated twice with a 3 x 3 kernel, not clipped. */
  function Seed(skeleton: Grid, h: nat, w: nat): (r: Grid)
    requires Shaped(skeleton, h, w)
    ensures Shaped(r, h, w)
  {
    Dilate(Dilate(skeleton, h, w, 3), h, w, 3)
  }

  /**
   * The n-th frame of the loop (n >= 1): the previous loop frame, or the skeleton for the
   * first one, dilated with the K x K kernel and clipped to the region.
   */
  function LoopFrame(skeleton: Grid, villageMask: Grid, h: nat, w: nat, kernelSize: nat, n: nat): (r: Grid)
    requires Shaped(skeleton, h, w) && Shaped(villageMask, h, w) && kernelSize >= 1 && n >= 1
    ensures Shaped(r, h, w)
    decreases n
  {
    var previous := if n == 1 then skeleton else LoopFrame(skeleton, villageMask, h, w, kernelSize, n - 1);
    Clip(Dilate(previous, h, w, kernelSize), villageMask, h, w)
  }

  /** The list in the opposite order (list.reverse()). */
  function Reverse<T>(s: seq<T>): (r: seq<T>)
  {
    seq(|s|, n requires 0 <= n < |s| => s[|s| - 1 - n])
  }

  /**
   * The list dilate_iter returns: N + 2 frames, the mask first, then loop frames N down to
   * 1, and the seed last.
   */
  function Frames(skeleton: Grid, villageMask: Grid, h: nat, w: nat, iterNum: nat, kernelSize: nat): (frames: seq<Grid>)
    requires Shaped(skeleton, h, w) && Shaped(villageMask, h, w) && kernelSize >= 1
    ensures |frames| == iterNum + 2
    ensures frames[0] == villageMask
    ensures frames[iterNum + 1] == Seed(skeleton, h, w)
    ensures forall n :: 1 <= n <= iterNum ==>
      frames[n] == LoopFrame(skeleton, villageMask, h, w, kernelSize, iterNum + 1 - n)
  {
    [villageMask]
      + seq(iterNum, n requires 0 <= n < iterNum => LoopFrame(skeleton, villageMask, h, w, kernelSize, iterNum - n))
      + [Seed(skeleton, h, w)]
  }

  /** Every frame of the list has the shape of the region mask. */
  lemma FramesShaped(skeleton: Grid, villageMask: Grid, h: nat, w: nat, iterNum: nat, kernelSize: nat)
    requires Shaped(skeleton, h, w) && Shaped(villageMask, h, w) && kernelSize >= 1
    ensures forall n :: 0 <= n < iterNum + 2 ==> Shaped(Frames(skeleton, villageMask, h, w, iterNum, kernelSize)[n], h, w)
  {
    var frames := Frames(skeleton, villageMask, h, w, iterNum, kernelSize);
    forall n | 0 <= n < iterNum + 2
      ensures Shaped(frames[n], h, w)
    {
      if 1 <= n <= iterNum {
        assert frames[n] == LoopFrame(skeleton, villageMask, h, w, kernelSize, iterNum + 1 - n);
      }
    }
  }

  /**
   * dilate_iter. Both inputs are values here, as the source copies them before use. The
   * loop is cumulative: each clipped frame is the input of the next dilation.
   */
  method DilateIter(image: Grid, villageMask: Grid, h: nat, w: nat, iterNum: nat, kernelSize: nat)
    returns (imgs: seq<Grid>)
    requires Shaped(image, h, w) && Shaped(villageMask, h, w) && kernelSize >= 1
    ensures imgs == Frames(image, villageMask, h, w, iterNum, kernelSize)
    ensures |imgs| == iterNum + 2 && imgs[0] == villageMask && imgs[iterNum + 1] == Seed(image, h, w)
  {
    var imgScope := villageMask;
    var tempImg := image;
    var img := Dilate(Dilate(tempImg, h, w, 3), h, w, 3);
    imgs := [img];
    var i := 0;
    while i < iterNum
      invariant 0 <= i <= iterNum
      invariant tempImg == if i == 0 then image else LoopFrame(image, villageMask, h, w, kernelSize, i)
      invariant imgs == LoopPrefix(image, villageMask, h, w, kernelSize, i)
    {
      LoopFrameStep(image, villageMask, h, w, kernelSize, i, tempImg);
      img := Dilate(tempImg, h, w, kernelSize);
      img := Clip(img, imgScope, h, w);
      imgs := imgs + [img];
      tempImg := img;
      i := i + 1;
    }
    var built := imgs + [imgScope];
    LoopPrefixAt(image, villageMask, h, w, kernelSize, iterNum);
    assert forall n :: 0 <= n <= iterNum ==> built[n] == imgs[n];
    ReversedBuildIsFrames(image, villageMask, h, w, iterNum, kernelSize, built);
    imgs := Reverse(built);
  }

  /**
   * Reversing the list the loop builds (seed, loop frames 1..N, mask) gives the frames
   * in the order dilate_iter returns them.
   */
  lemma ReversedBuildIsFrames(skeleton: Grid, villageMask: Grid, h: nat, w: nat, iterNum: nat, kernelSize: nat,
                              built: seq<Grid>)
    requires Shaped(skeleton, h, w) && Shaped(villageMask, h, w) && kernelSize >= 1
    requires |built| == iterNum + 2 && built[0] == Seed(skeleton, h, w) && built[iterNum + 1] == villageMask
    requires forall n :: 1 <= n <= iterNum ==> built[n] == LoopFrame(skeleton, villageMask, h, w, kernelSize, n)
    ensures Reverse(built) == Frames(skeleton, villageMask, h, w, iterNum, kernelSize)
  {
    var reversed := Reverse(built);
    var frames := Frames(skeleton, villageMask, h, w, iterNum, kernelSize);
    forall n | 0 <= n < iterNum + 2
      ensures reversed[n] == frames[n]
    {
      assert reversed[n] == built[iterNum + 1 - n];
    }
  }

  /** The list the loop has built after i passes: the seed, then loop frames 1..i. */
  function LoopPrefix(skeleton: Grid, villageMask: Grid, h: nat, w: nat, kernelSize: nat, i: nat): (frames: seq<Grid>)
    requires Shaped(skeleton, h, w) && Shaped(villageMask, h, w) && kernelSize >= 1
    ensures |frames| == i + 1
  {
    if i == 0 then [Seed(skeleton, h, w)]
    else LoopPrefix(skeleton, villageMask, h, w, kernelSize, i - 1) + [LoopFrame(skeleton, villageMask, h, w, kernelSize, i)]
  }

  /** After i passes the list starts with the seed and holds loop frame n at position n. */
  lemma {:induction false} LoopPrefixAt(skeleton: Grid, villageMask: Grid, h: nat, w: nat, kernelSize: nat, i: nat)
    requires Shaped(skeleton, h, w) && Shaped(villageMask, h, w) && kernelSize >= 1
    ensures LoopPrefix(skeleton, villageMask, h, w, kernelSize, i)[0] == Seed(skeleton, h, w)
    ensures forall n :: 1 <= n <= i ==>
      LoopPrefix(skeleton, villageMask, h, w, kernelSize, i)[n] == LoopFrame(skeleton, villageMask, h, w, kernelSize, n)
  {
    if i > 0 {
      LoopPrefixAt(skeleton, villageMask, h, w, kernelSize, i - 1);
      var before := LoopPrefix(skeleton, villageMask, h, w, kernelSize, i - 1);
      assert LoopPrefix(skeleton, villageMask, h, w, kernelSize, i)
        == before + [LoopFrame(skeleton, villageMask, h, w, kernelSize, i)];
    }
  }

  /** One pass of the loop turns loop frame i (the skeleton for i = 0) into loop frame i + 1. */
  lemma LoopFrameStep(skeleton: Grid, villageMask: Grid, h: nat, w: nat, kernelSize: nat, i: nat, tempImg: Grid)
    requires Shaped(skeleton, h, w) && Shaped(villageMask, h, w) && kernelSize >= 1
    requires tempImg == if i == 0 then skeleton else LoopFrame(skeleton, villageMask, h, w, kernelSize, i)
    ensures Shaped(tempImg, h, w)
    ensures Clip(Dilate(tempImg, h, w, kernelSize), villageMask, h, w)
      == LoopFrame(skeleton, villageMask, h, w, kernelSize, i + 1)
  {
  }

  /** Every loop frame is zero outside the region. */
  lemma LoopFrameInsideRegion(skeleton: Grid, villageMask: Grid, h: nat, w: nat, kernelSize: nat, n: nat)
    requires Shaped(skeleton, h, w) && Shaped(villageMask, h, w) && kernelSize >= 1 && n >= 1
    ensures forall i, j :: 0 <= i < h && 0 <= j < w && villageMask[i][j] == 0 ==>
      LoopFrame(skeleton, villageMask, h, w, kernelSize, n)[i][j] == 0
  {
    var previous := if n == 1 then skeleton else LoopFrame(skeleton, villageMask, h, w, kernelSize, n - 1);
    var dilated := Dilate(previous, h, w, kernelSize);
    var frame := LoopFrame(skeleton, villageMask, h, w, kernelSize, n);
    assert frame == Clip(dilated, villageMask, h, w);
    forall i, j | 0 <= i < h && 0 <= j < w && villageMask[i][j] == 0
      ensures frame[i][j] == 0
    {
      assert frame[i][j] == Clip(dilated, villageMask, h, w)[i][j];
    }
  }

  /** Each loop frame is pointwise at least the one before it. */
  lemma LoopFrameGrows(skeleton: Grid, villageMask: Grid, h: nat, w: nat, kernelSize: nat, n: nat)
    requires Shaped(skeleton, h, w) && Shaped(villageMask, h, w) && kernelSize >= 1 && n >= 1
    ensures Below(LoopFrame(skeleton, villageMask, h, w, kernelSize, n),
                  LoopFrame(skeleton, villageMask, h, w, kernelSize, n + 1), h, w)
  {
    LoopFrameInsideRegion(skeleton, villageMask, h, w, kernelSize, n);
    var frame := LoopFrame(skeleton, villageMask, h, w, kernelSize, n);
    DilateExtensive(frame, h, w, kernelSize);
    var next := LoopFrame(skeleton, villageMask, h, w, kernelSize, n + 1);
    assert next == Clip(Dilate(frame, h, w, kernelSize), villageMask, h, w);
  }

  /** One pixel of the loop frames never decreases from frame m to frame n, m <= n. */
  lemma {:induction false} LoopFramePixelMonotone(skeleton: Grid, villageMask: Grid, h: nat, w: nat, kernelSize: nat,
                                                  m: nat, n: nat, i: nat, j: nat)
    requires Shaped(skeleton, h, w) && Shaped(villageMask, h, w) && kernelSize >= 1 && 1 <= m <= n
    requires i < h && j < w
    ensures LoopFrame(skeleton, villageMask, h, w, kernelSize, m)[i][j] <=
            LoopFrame(skeleton, villageMask, h, w, kernelSize, n)[i][j]
    decreases n
  {
    if m < n {
      LoopFramePixelMonotone(skeleton, villageMask, h, w, kernelSize, m, n - 1, i, j);
      LoopFrameGrows(skeleton, villageMask, h, w, kernelSize, n - 1);
    }
  }

  /** Loop frames are pointwise non-decreasing: frame m is below frame n when m <= n. */
  lemma LoopFramesMonotone(skeleton: Grid, villageMask: Grid, h: nat, w: nat, kernelSize: nat, m: nat, n: nat)
    requires Shaped(skeleton, h, w) && Shaped(villageMask, h, w) && kernelSize >= 1 && 1 <= m <= n
    ensures Below(LoopFrame(skeleton, villageMask, h, w, kernelSize, m),
                  LoopFrame(skeleton, villageMask, h, w, kernelSize, n), h, w)
  {
    forall i, j | 0 <= i < h && 0 <= j < w
      ensures LoopFrame(skeleton, villageMask, h, w, kernelSize, m)[i][j] <=
              LoopFrame(skeleton, villageMask, h, w, kernelSize, n)[i][j]
    {
      LoopFramePixelMonotone(skeleton, villageMask, h, w, kernelSize, m, n, i, j);
    }
  }

  /** Position n of the returned list, for 1 <= n <= N, is loop frame N + 1 - n. */
  lemma FrameAt(skeleton: Grid, villageMask: Grid, h: nat, w: nat, iterNum: nat, kernelSize: nat, n: nat)
    requires Shaped(skeleton, h, w) && Shaped(villageMask, h, w) && kernelSize >= 1
    requires 1 <= n <= iterNum
    ensures Frames(skeleton, villageMask, h, w, iterNum, kernelSize)[n]
      == LoopFrame(skeleton, villageMask, h, w, kernelSize, iterNum + 1 - n)
  {
  }

  /** In the returned list, positions 1..N are zero outside the region. */
  lemma FramesInsideRegion(skeleton: Grid, villageMask: Grid, h: nat, w: nat, iterNum: nat, kernelSize: nat, n: nat)
    requires Shaped(skeleton, h, w) && Shaped(villageMask, h, w) && kernelSize >= 1
    requires 1 <= n <= iterNum
    ensures forall i, j :: 0 <= i < h && 0 <= j < w && villageMask[i][j] == 0 ==>
      Frames(skeleton, villageMask, h, w, iterNum, kernelSize)[n][i][j] == 0
  {
    FrameAt(skeleton, villageMask, h, w, iterNum, kernelSize, n);
    LoopFrameInsideRegion(skeleton, villageMask, h, w, kernelSize, iterNum + 1 - n);
  }

  /**
   * In the returned list, positions 1..N are pointwise non-increasing: the overlay shrinks
   * from position 1 towards the seed.
   */
  lemma FramesShrink(skeleton: Grid, villageMask: Grid, h: nat, w: nat, iterNum: nat, kernelSize: nat, a: nat, b: nat)
    requires Shaped(skeleton, h, w) && Shaped(villageMask, h, w) && kernelSize >= 1
    requires 1 <= a <= b <= iterNum
    ensures Below(Frames(skeleton, villageMask, h, w, iterNum, kernelSize)[b],
                  Frames(skeleton, villageMask, h, w, iterNum, kernelSize)[a], h, w)
  {
    FrameAt(skeleton, villageMask, h, w, iterNum, kernelSize, a);
    FrameAt(skeleton, villageMask, h, w, iterNum, kernelSize, b);
    LoopFramesMonotone(skeleton, villageMask, h, w, kernelSize, iterNum + 1 - b, iterNum + 1 - a);
  }
}
