/**
 * The state machine of the AxisTrans window (controller.py): the mouse mode, the hand-drawn
 * boundary and road polylines, the region mask, the picked outline colour, the skeleton
 * result caches and the animated overlay of a skeleton onto the original image.
 *
 * Qt widgets, dialogs and pixmaps are not modelled. A pixmap the source keeps (skPix) is
 * represented by the image it was made from. Foreign image operations (cv2.fillPoly, the
 * findContours/drawContours/erode/dilate/resize chain, RGB to HSV conversion and the skimage
 * skeletonizers) are function parameters.
 */
module Controller {
  import opened Rasters
  import opened Colors
  import opened Classifier
  import opened Morphology
  import opened Overlay
  import opened Polylines

  /** What the mouse is doing (func.py's EventType). */
  datatype EventType = NoneType | DrawOutline | LoadOutline | DrawRoad | ExtractColor

  datatype Option<T> = None | Some(value: T)

  /** A loaded image of its own size: the outline image is not resized when loaded. */
  datatype Picture = Picture(pixels: Image, rows: nat, cols: nat)

  /** The HSV raster of an RGB image, converted pixel by pixel. */
  function HsvOf(img: Image, h: nat, w: nat, toHsv: Rgb -> Hsv): (hsv: seq<seq<Hsv>>)
    requires Shaped(img, h, w)
    ensures Shaped(hsv, h, w)
  {
    seq(h, i requires 0 <= i < h => seq(w, j requires 0 <= j < w => toHsv(img[i][j])))
  }

  /** villageMask[villageMask > 0] = 1: every positive pixel becomes 1. */
  function Binarize(g: Grid, h: nat, w: nat): (b: Grid)
    requires Shaped(g, h, w)
    ensures Shaped(b, h, w)
    ensures forall i, j :: 0 <= i < h && 0 <= j < w ==> b[i][j] <= 1 && (b[i][j] == 1 <==> g[i][j] > 0)
  {
    seq(h, i requires 0 <= i < h => seq(w, j requires 0 <= j < w => if g[i][j] > 0 then 1 else g[i][j]))
  }

  /** Binarizing a binary mask changes nothing. */
  lemma BinarizeIdempotent(g: Grid, h: nat, w: nat)
    requires Shaped(g, h, w)
    ensures Binarize(Binarize(g, h, w), h, w) == Binarize(g, h, w)
  {
    var once := Binarize(g, h, w);
    SameRaster(Binarize(once, h, w), once, h, w);
  }

  // ---------------------------------------------------------------------------
  // dynamic_showResult

  /**
   * One displayed frame: the original image painted with the axis colour where the frame is
   * positive, then blended with the region mask.
   */
  function Composite(orig: Image, frame: Grid, mask: Grid, axisColor: Rgb,
                     addWeighted: (byte, byte) -> byte, h: nat, w: nat): (shown: Image)
    requires Shaped(orig, h, w) && Shaped(frame, h, w) && Shaped(mask, h, w)
    ensures Shaped(shown, h, w)
  {
    var painted := Paint(orig, frame, axisColor, h, w);
    Blend(Foreground(painted, mask, h, w), Background(painted, mask, h, w), addWeighted, h, w)
  }

  /**
   * Inside the region a displayed frame shows the axis colour where the frame is positive and
   * the original pixel elsewhere; outside it, the same pixel weighed against black.
   */
  lemma CompositeAt(orig: Image, frame: Grid, mask: Grid, axisColor: Rgb,
                    addWeighted: (byte, byte) -> byte, h: nat, w: nat, i: nat, j: nat)
    requires Shaped(orig, h, w) && Shaped(frame, h, w) && Shaped(mask, h, w)
    requires forall v :: addWeighted(v, 0) == v
    requires i < h && j < w
    ensures mask[i][j] > 0 ==>
      Composite(orig, frame, mask, axisColor, addWeighted, h, w)[i][j]
        == (if frame[i][j] > 0 then axisColor else orig[i][j])
    ensures mask[i][j] == 0 ==>
      Composite(orig, frame, mask, axisColor, addWeighted, h, w)[i][j]
        == WeighPixel(BlackPixel, if frame[i][j] > 0 then axisColor else orig[i][j], addWeighted)
  {
    var painted := Paint(orig, frame, axisColor, h, w);
    BlendKeepsRegion(painted, mask, addWeighted, h, w);
  }

  /** One pass of dynamic_showResult's loop: paint a fresh copy of the image, then blend it. */
  method ShowFrame(orig: Image, frame: Grid, mask: Grid, axisColor: Rgb,
                   addWeighted: (byte, byte) -> byte, h: nat, w: nat) returns (shown: Image)
    requires Shaped(orig, h, w) && Shaped(frame, h, w) && Shaped(mask, h, w)
    ensures shown == Composite(orig, frame, mask, axisColor, addWeighted, h, w)
  {
    var image := ToArray(orig, h, w);
    var painted := ImgAddition(image, frame, axisColor);
    var blended := ImageBlend(painted, mask, addWeighted);
    shown := Pixels(blended);
  }

  /** The frames dynamic_showResult displays, in order. */
  function Animation(orig: Image, skeleton: Grid, mask: Grid, axisColor: Rgb, addWeighted: (byte, byte) -> byte,
                     h: nat, w: nat, iterNum: nat, kernelSize: nat): (shown: seq<Image>)
    requires Shaped(orig, h, w) && Shaped(skeleton, h, w) && Shaped(mask, h, w) && kernelSize >= 1
    ensures |shown| == iterNum + 2
  {
    var frames := Frames(skeleton, mask, h, w, iterNum, kernelSize);
    FramesShaped(skeleton, mask, h, w, iterNum, kernelSize);
    seq(iterNum + 2, n requires 0 <= n < iterNum + 2 => Composite(orig, frames[n], mask, axisColor, addWeighted, h, w))
  }

  /** The first displayed frame paints the whole region in the axis colour. */
  lemma AnimationStartsWithRegion(orig: Image, skeleton: Grid, mask: Grid, axisColor: Rgb,
                                  addWeighted: (byte, byte) -> byte, h: nat, w: nat, iterNum: nat,
                                  kernelSize: nat, i: nat, j: nat)
    requires Shaped(orig, h, w) && Shaped(skeleton, h, w) && Shaped(mask, h, w) && kernelSize >= 1
    requires forall v :: addWeighted(v, 0) == v
    requires i < h && j < w && mask[i][j] > 0
    ensures Animation(orig, skeleton, mask, axisColor, addWeighted, h, w, iterNum, kernelSize)[0][i][j] == axisColor
  {
    var frames := Frames(skeleton, mask, h, w, iterNum, kernelSize);
    CompositeAt(orig, frames[0], mask, axisColor, addWeighted, h, w, i, j);
  }

  /**
   * Outside the region every displayed frame but the last shows the dimmed original pixel:
   * the mask and the loop frames are zero there. Only the seed, which is not clipped, can
   * paint outside the region.
   */
  lemma AnimationOutsideRegion(orig: Image, skeleton: Grid, mask: Grid, axisColor: Rgb,
                               addWeighted: (byte, byte) -> byte, h: nat, w: nat, iterNum: nat,
                               kernelSize: nat, n: nat, i: nat, j: nat)
    requires Shaped(orig, h, w) && Shaped(skeleton, h, w) && Shaped(mask, h, w) && kernelSize >= 1
    requires forall v :: addWeighted(v, 0) == v
    requires n <= iterNum && i < h && j < w && mask[i][j] == 0
    ensures Animation(orig, skeleton, mask, axisColor, addWeighted, h, w, iterNum, kernelSize)[n][i][j]
      == WeighPixel(BlackPixel, orig[i][j], addWeighted)
  {
    var frames := Frames(skeleton, mask, h, w, iterNum, kernelSize);
    FramesShaped(skeleton, mask, h, w, iterNum, kernelSize);
    if n > 0 {
      FramesInsideRegion(skeleton, mask, h, w, iterNum, kernelSize, n);
    }
    assert frames[n][i][j] == 0;
    CompositeAt(orig, frames[n], mask, axisColor, addWeighted, h, w, i, j);
  }

  /**
   * Between positions 1 and N of the animation the painted part of the region only shrinks:
   * a region pixel that position b paints is painted at every earlier position a >= 1.
   */
  lemma AnimationPaintShrinks(orig: Image, skeleton: Grid, mask: Grid, axisColor: Rgb,
                              addWeighted: (byte, byte) -> byte, h: nat, w: nat, iterNum: nat,
                              kernelSize: nat, a: nat, b: nat, i: nat, j: nat)
    requires Shaped(orig, h, w) && Shaped(skeleton, h, w) && Shaped(mask, h, w) && kernelSize >= 1
    requires forall v :: addWeighted(v, 0) == v
    requires 1 <= a <= b <= iterNum && i < h && j < w && mask[i][j] > 0
    requires Frames(skeleton, mask, h, w, iterNum, kernelSize)[b][i][j] > 0
    ensures Animation(orig, skeleton, mask, axisColor, addWeighted, h, w, iterNum, kernelSize)[a][i][j] == axisColor
  {
    var frames := Frames(skeleton, mask, h, w, iterNum, kernelSize);
    FramesShaped(skeleton, mask, h, w, iterNum, kernelSize);
    FramesShrink(skeleton, mask, h, w, iterNum, kernelSize, a, b);
    assert frames[b][i][j] <= frames[a][i][j];
    CompositeAt(orig, frames[a], mask, axisColor, addWeighted, h, w, i, j);
  }

  // ---------------------------------------------------------------------------
  // AxisTrans

  class AxisTrans {
    /** The size of the image label every image is resized to. */
    const height: nat
    const width: nat
    /** cv2.addWeighted(fg, 1, bg, 0.6, 0) on one channel. */
    const addWeighted: (byte, byte) -> byte
    /** The axis colour (orange), the kernel size and the number of loop frames. */
    const axisColor: Rgb := Rgb(255, 165, 0)
    const kernelSize: nat := 8
    const iterNum: nat := 13

    var eventType: EventType
    var originalImg: Option<Image>
    var outlineImg: Option<Picture>
    var villageMask: Option<Grid>
    var resultImg: Option<Image>
    var skPix: Option<Image>
    var outlineColor: OutlineColor

    var contourPoints: seq<Polyline>
    var contourNum: int
    var lastPoint: Point
    var endPoint: Point

    var roadPoints: seq<Polyline>
    var roadNum: int
    var roadLastPoint: Point
    var roadEndPoint: Point

    var midAxis: Option<Image>
    var imContour: Option<Image>
    var sk1: Option<Image>
    var sk2: Option<Image>

    /** The boundary polylines being drawn. */
    ghost function Contour(): Tracer
      reads this
    {
      Tracer(contourPoints, contourNum, lastPoint, endPoint)
    }

    /** The road polylines being drawn. */
    ghost function Road(): Tracer
      reads this
    {
      Tracer(roadPoints, roadNum, roadLastPoint, roadEndPoint)
    }

    /**
     * Images and masks have the label's size; while a kind of line is being drawn its
     * current polyline is its last one; road drawing needs a skeleton result.
     */
    ghost predicate Valid()
      reads this
    {
      (forall v :: addWeighted(v, 0) == v) &&
      (originalImg.Some? ==> Shaped(originalImg.value, height, width)) &&
      (outlineImg.Some? ==> Shaped(outlineImg.value.pixels, outlineImg.value.rows, outlineImg.value.cols)) &&
      (villageMask.Some? ==> Shaped(villageMask.value, height, width)) &&
      (eventType == EventType.DrawOutline ==> Counted(Contour())) &&
      (eventType == EventType.DrawRoad ==> Counted(Road()) && skPix.Some?)
    }

    /** Nothing is loaded, drawn or cached; the outline colour is red. */
    constructor (height: nat, width: nat, addWeighted: (byte, byte) -> byte)
      requires forall v :: addWeighted(v, 0) == v
      ensures Valid()
      ensures this.height == height && this.width == width && this.addWeighted == addWeighted
      ensures eventType == EventType.NoneType && outlineColor == Red
      ensures originalImg.None? && outlineImg.None? && villageMask.None? && resultImg.None? && skPix.None?
      ensures Contour() == Fresh && Road() == Fresh
      ensures midAxis.None? && imContour.None? && sk1.None? && sk2.None?
    {
      this.height := height;
      this.width := width;
      this.addWeighted := addWeighted;
      eventType := EventType.NoneType;
      originalImg := None;
      outlineImg := None;
      villageMask := None;
      resultImg := None;
      skPix := None;
      outlineColor := Red;
      contourPoints, contourNum, lastPoint, endPoint := [[]], 0, NullPoint, NullPoint;
      roadPoints, roadNum, roadLastPoint, roadEndPoint := [[]], 0, NullPoint, NullPoint;
      midAxis, imContour, sk1, sk2 := None, None, None, None;
    }

    /** The skeleton-result caches are all empty. */
    ghost predicate CachesEmpty()
      reads this
    {
      midAxis.None? && imContour.None? && sk1.None? && sk2.None?
    }

    /** empty_result: forgets every cached skeleton result. */
    method EmptyResult()
      modifies this`midAxis, this`imContour, this`sk1, this`sk2
      ensures CachesEmpty()
    {
      midAxis := None;
      imContour := None;
      sk1 := None;
      sk2 := None;
    }

    /** draw_outline: boundary drawing starts over with one empty polyline. */
    method DrawOutline()
      requires Valid()
      modifies this`eventType, this`contourPoints, this`contourNum, this`lastPoint, this`endPoint
      ensures Valid()
      ensures eventType == EventType.DrawOutline && Contour() == Fresh
    {
      eventType := EventType.DrawOutline;
      contourPoints := [[]];
      contourNum := 0;
      lastPoint := NullPoint;
      endPoint := NullPoint;
    }

    /**
     * drow_road: with a skeleton result, road drawing starts over with one empty polyline;
     * without one, nothing changes.
     */
    method DrawRoad()
      requires Valid()
      modifies this`eventType, this`roadPoints, this`roadNum, this`roadLastPoint, this`roadEndPoint
      ensures Valid()
      ensures skPix.None? ==> eventType == old(eventType) && Road() == old(Road())
      ensures skPix.Some? ==> eventType == EventType.DrawRoad && Road() == Fresh
    {
      if skPix.Some? {
        eventType := EventType.DrawRoad;
        roadPoints := [[]];
        roadNum := 0;
        roadLastPoint := NullPoint;
        roadEndPoint := NullPoint;
      }
    }

    /** extractColor: the next left click picks the outline colour. */
    method ExtractColor()
      requires Valid()
      modifies this`eventType
      ensures Valid()
      ensures eventType == EventType.ExtractColor
    {
      eventType := EventType.ExtractColor;
    }

    /**
     * mousePressEvent. While drawing, the press is applied to the polylines of the current
     * kind; while picking a colour, a left click classifies `sample`, the HSV value of the
     * outline image under the cursor (None when the lookup raises on a click past the right
     * or bottom edge; numpy wraps negative indices, so a click left of or above the image
     * samples the opposite edge). Without an outline image, or with a failed lookup, the
     * colour is kept.
     */
    method MousePress(click: Click, sample: Option<Hsv>)
      requires Valid()
      modifies this`contourPoints, this`contourNum, this`lastPoint, this`endPoint
      modifies this`roadPoints, this`roadNum, this`roadLastPoint, this`roadEndPoint, this`outlineColor
      ensures Valid()
      ensures eventType == EventType.DrawOutline ==> Contour() == Press(old(Contour()), click)
      ensures eventType != EventType.DrawOutline ==> Contour() == old(Contour())
      ensures eventType == EventType.DrawRoad ==> Road() == Press(old(Road()), click)
      ensures eventType != EventType.DrawRoad ==> Road() == old(Road())
      ensures outlineColor ==
        if eventType == EventType.ExtractColor && click.LeftClick? && outlineImg.Some? && sample.Some?
        then Classify(sample.value, old(outlineColor))
        else old(outlineColor)
    {
      if eventType == EventType.DrawOutline {
        PressContour(click);
      } else if eventType == EventType.DrawRoad {
        PressRoad(click);
      } else if eventType == EventType.ExtractColor {
        // self.outlineImg.resize raises, and the except keeps the colour, without an outline image
        if click.LeftClick? && outlineImg.Some? && sample.Some? {
          outlineColor := Classify(sample.value, outlineColor);
        }
      }
    }

    /** The boundary branch of mousePressEvent. */
    method PressContour(click: Click)
      requires Valid() && eventType == EventType.DrawOutline
      modifies this`contourPoints, this`contourNum, this`lastPoint, this`endPoint
      ensures Valid() && Contour() == Press(old(Contour()), click)
    {
      match click
      case LeftClick(p) =>
        if lastPoint == NullPoint && endPoint == NullPoint {
          lastPoint := p;
          contourPoints := contourPoints[contourNum := contourPoints[contourNum] + [lastPoint]];
          endPoint := lastPoint;
        } else {
          endPoint := p;
          contourPoints := contourPoints[contourNum := contourPoints[contourNum] + [endPoint]];
        }
      case RightClick =>
        lastPoint := NullPoint;
        endPoint := NullPoint;
        contourPoints := contourPoints + [[]];
        contourNum := contourNum + 1;
      case OtherButton =>
    }

    /** The road branch of mousePressEvent, the same as the boundary branch on the road fields. */
    method PressRoad(click: Click)
      requires Valid() && eventType == EventType.DrawRoad
      modifies this`roadPoints, this`roadNum, this`roadLastPoint, this`roadEndPoint
      ensures Valid() && Road() == Press(old(Road()), click)
    {
      match click
      case LeftClick(p) =>
        if roadLastPoint == NullPoint && roadEndPoint == NullPoint {
          roadLastPoint := p;
          roadPoints := roadPoints[roadNum := roadPoints[roadNum] + [roadLastPoint]];
          roadEndPoint := roadLastPoint;
        } else {
          roadEndPoint := p;
          roadPoints := roadPoints[roadNum := roadPoints[roadNum] + [roadEndPoint]];
        }
      case RightClick =>
        roadLastPoint := NullPoint;
        roadEndPoint := NullPoint;
        roadPoints := roadPoints + [[]];
        roadNum := roadNum + 1;
      case OtherButton =>
    }

    /**
     * cleanLine: the lines of the kind being drawn start over; otherwise nothing changes.
     * Without an original image the boundary branch raises before resetting the endpoints.
     */
    method CleanLine()
      requires Valid()
      modifies this`contourPoints, this`contourNum, this`lastPoint, this`endPoint
      modifies this`roadPoints, this`roadNum, this`roadLastPoint, this`roadEndPoint
      ensures Valid()
      ensures Contour() ==
        if eventType != EventType.DrawOutline then old(Contour())
        else if originalImg.Some? then Fresh
        else Tracer([[]], 0, old(lastPoint), old(endPoint))
      ensures Road() == if eventType == EventType.DrawRoad then Fresh else old(Road())
    {
      if eventType == EventType.DrawOutline {
        contourPoints := [[]];
        contourNum := 0;
        // pil2pixmap(self.originalImg) raises here when no original image is loaded
        if originalImg.Some? {
          lastPoint := NullPoint;
          endPoint := NullPoint;
        }
      } else if eventType == EventType.DrawRoad {
        roadPoints := [[]];
        roadNum := 0;
        roadLastPoint := NullPoint;
        roadEndPoint := NullPoint;
      }
    }

    /** offset_calculate: leaves the mouse idle and drops the empty road polylines. */
    method OffsetCalculate()
      requires Valid()
      modifies this`eventType, this`roadPoints
      ensures Valid()
      ensures eventType == EventType.NoneType && roadPoints == WithoutEmpty(old(roadPoints))
    {
      eventType := EventType.NoneType;
      roadPoints := RemoveEmpty(roadPoints);
    }

    /**
     * extract_village.
     * - While drawing a boundary: the empty polylines are dropped and the rest filled into
     *   the mask (`fillPoly`, None when it fails, in which case the mask is kept).
     * - After loading an outline or picking its colour, with an outline image: the pixels of
     *   the outline colour are marked, and `traceRegion` stands for finding their outer
     *   contours, filling them, closing and resizing to the label (None when no contour is
     *   found); the mask is the binarized region.
     * In both cases the caches are emptied only when the original image is loaded, because
     * blending with a missing original fails first. In any other mode nothing changes.
     */
    method ExtractVillage(fillPoly: seq<Polyline> -> Option<Grid>, toHsv: Rgb -> Hsv,
                          traceRegion: Grid -> Option<Grid>)
      requires Valid()
      requires forall lines :: fillPoly(lines).Some? ==> Shaped(fillPoly(lines).value, height, width)
      requires forall g :: traceRegion(g).Some? ==> Shaped(traceRegion(g).value, height, width)
      modifies this`eventType, this`contourPoints, this`villageMask
      modifies this`midAxis, this`imContour, this`sk1, this`sk2
      ensures Valid()
      ensures old(eventType) == EventType.DrawOutline ==>
        eventType == EventType.NoneType &&
        contourPoints == WithoutEmpty(old(contourPoints)) &&
        villageMask == (if fillPoly(contourPoints).Some? then fillPoly(contourPoints) else old(villageMask)) &&
        (if fillPoly(contourPoints).Some? && originalImg.Some? then CachesEmpty()
         else unchanged(this`midAxis, this`imContour, this`sk1, this`sk2))
      ensures (old(eventType) == EventType.LoadOutline || old(eventType) == EventType.ExtractColor) && outlineImg.Some? ==>
        var pic := outlineImg.value;
        var outline := GetOutlineMask(HsvOf(pic.pixels, pic.rows, pic.cols, toHsv), pic.rows, pic.cols, outlineColor);
        var region := traceRegion(outline);
        eventType == EventType.NoneType && contourPoints == old(contourPoints) &&
        villageMask == (if region.Some? then Some(Binarize(region.value, height, width)) else old(villageMask)) &&
        (if region.Some? && originalImg.Some? then CachesEmpty()
         else unchanged(this`midAxis, this`imContour, this`sk1, this`sk2))
      ensures (old(eventType) == EventType.LoadOutline || old(eventType) == EventType.ExtractColor) && outlineImg.None? ==>
        unchanged(this)
      ensures old(eventType) in {EventType.NoneType, EventType.DrawRoad} ==> unchanged(this)
    {
      if eventType == EventType.DrawOutline {
        eventType := EventType.NoneType;
        contourPoints := RemoveEmpty(contourPoints);
        var imgMask := fillPoly(contourPoints);
        if imgMask.Some? {
          villageMask := imgMask;
          if originalImg.Some? {
            EmptyResult();
          }
        }
      } else if eventType == EventType.LoadOutline || eventType == EventType.ExtractColor {
        if outlineImg.Some? {
          eventType := EventType.NoneType;
          var pic := outlineImg.value;
          var outline := GetOutlineMask(HsvOf(pic.pixels, pic.rows, pic.cols, toHsv), pic.rows, pic.cols, outlineColor);
          var region := traceRegion(outline);
          if region.Some? {
            villageMask := Some(Binarize(region.value, height, width));
            if originalImg.Some? {
              EmptyResult();
            }
          }
        }
      }
    }

    /** The image a skeleton action shows and caches for `skeleton`: the last animation frame. */
    ghost function Shown(skeleton: Grid): Image
      reads this
      requires Valid() && originalImg.Some? && villageMask.Some? && Shaped(skeleton, height, width)
    {
      Composite(originalImg.value, Seed(skeleton, height, width), villageMask.value, axisColor, addWeighted,
                height, width)
    }

    /**
     * dynamic_showResult: every frame of dilate_iter is painted onto a fresh array of the
     * original image and blended with the region, so nothing painted for one frame reaches
     * the next; the last frame shown, that of the seed, becomes the result.
     */
    method DynamicShowResult(skeleton: Grid) returns (result: Image, ghost shown: seq<Image>)
      requires Valid() && originalImg.Some? && villageMask.Some? && Shaped(skeleton, height, width)
      modifies this`resultImg, this`skPix
      ensures Valid()
      ensures shown == Animation(originalImg.value, skeleton, villageMask.value, axisColor, addWeighted,
                                 height, width, iterNum, kernelSize)
      ensures result == shown[|shown| - 1] && result == Shown(skeleton)
      ensures resultImg == Some(result) && skPix == Some(result)
    {
      var orig, mask := originalImg.value, villageMask.value;
      var imageList := DilateIter(skeleton, mask, height, width, iterNum, kernelSize);
      FramesShaped(skeleton, mask, height, width, iterNum, kernelSize);
      ghost var animation := Animation(orig, skeleton, mask, axisColor, addWeighted, height, width, iterNum, kernelSize);
      result := orig;
      shown := [];
      for n := 0 to |imageList|
        invariant shown == animation[..n]
        invariant n > 0 ==> result == animation[n - 1]
      {
        result := ShowFrame(orig, imageList[n], mask, axisColor, addWeighted, height, width);
        shown := shown + [result];
      }
      resultImg := Some(result);
      skPix := Some(result);
    }

    /**
     * The body shared by medaxis, skletonize1 and skletonize2: a cached result is shown
     * again; otherwise, with a region, the skeleton of the region is animated and becomes the
     * new cached value. Without a region, or without the original image (the animation then
     * fails on its first frame), nothing but the mode changes.
     */
    method ShowSkeleton(cached: Option<Image>, skeletonOf: Grid -> Grid) returns (cache: Option<Image>)
      requires Valid()
      requires forall g :: Shaped(g, height, width) ==> Shaped(skeletonOf(g), height, width)
      modifies this`eventType, this`resultImg, this`skPix
      ensures Valid() && eventType == EventType.NoneType
      ensures cached.Some? ==> cache == cached && resultImg == cached && skPix == old(skPix)
      ensures cached.None? && (villageMask.None? || originalImg.None?) ==>
        cache.None? && resultImg == old(resultImg) && skPix == old(skPix)
      ensures cached.None? && villageMask.Some? && originalImg.Some? ==>
        cache == Some(Shown(skeletonOf(villageMask.value))) && resultImg == cache && skPix == cache
    {
      eventType := EventType.NoneType;
      if cached.None? {
        if villageMask.None? || originalImg.None? {
          cache := None;
        } else {
          var result, shown := DynamicShowResult(skeletonOf(villageMask.value));
          cache := Some(result);
        }
      } else {
        resultImg := cached;
        cache := cached;
      }
    }

    /** medaxis: the medial axis of the region (its distance-weighted skeleton), cached in midAxis. */
    method Medaxis(medialAxis: Grid -> Grid)
      requires Valid()
      requires forall g :: Shaped(g, height, width) ==> Shaped(medialAxis(g), height, width)
      modifies this`eventType, this`resultImg, this`skPix, this`midAxis
      ensures Valid() && eventType == EventType.NoneType
      ensures old(midAxis).Some? ==> midAxis == old(midAxis) && resultImg == midAxis && skPix == old(skPix)
      ensures old(midAxis).None? && (villageMask.None? || originalImg.None?) ==>
        midAxis.None? && resultImg == old(resultImg) && skPix == old(skPix)
      ensures old(midAxis).None? && villageMask.Some? && originalImg.Some? ==>
        midAxis == Some(Shown(medialAxis(villageMask.value))) && resultImg == midAxis && skPix == midAxis
    {
      midAxis := ShowSkeleton(midAxis, medialAxis);
    }

    /** skletonize1: the thinned skeleton of the region, cached in sk1. */
    method Skeletonize1(skeletonize: Grid -> Grid)
      requires Valid()
      requires forall g :: Shaped(g, height, width) ==> Shaped(skeletonize(g), height, width)
      modifies this`eventType, this`resultImg, this`skPix, this`sk1
      ensures Valid() && eventType == EventType.NoneType
      ensures old(sk1).Some? ==> sk1 == old(sk1) && resultImg == sk1 && skPix == old(skPix)
      ensures old(sk1).None? && (villageMask.None? || originalImg.None?) ==>
        sk1.None? && resultImg == old(resultImg) && skPix == old(skPix)
      ensures old(sk1).None? && villageMask.Some? && originalImg.Some? ==>
        sk1 == Some(Shown(skeletonize(villageMask.value))) && resultImg == sk1 && skPix == sk1
    {
      sk1 := ShowSkeleton(sk1, skeletonize);
    }

    /** skletonize2: the skeleton of the region by Lee's method, cached in sk2. */
    method Skeletonize2(skeletonizeLee: Grid -> Grid)
      requires Valid()
      requires forall g :: Shaped(g, height, width) ==> Shaped(skeletonizeLee(g), height, width)
      modifies this`eventType, this`resultImg, this`skPix, this`sk2
      ensures Valid() && eventType == EventType.NoneType
      ensures old(sk2).Some? ==> sk2 == old(sk2) && resultImg == sk2 && skPix == old(skPix)
      ensures old(sk2).None? && (villageMask.None? || originalImg.None?) ==>
        sk2.None? && resultImg == old(resultImg) && skPix == old(skPix)
      ensures old(sk2).None? && villageMask.Some? && originalImg.Some? ==>
        sk2 == Some(Shown(skeletonizeLee(villageMask.value))) && resultImg == sk2 && skPix == sk2
    {
      sk2 := ShowSkeleton(sk2, skeletonizeLee);
    }
  }
}
