/**
 * The outline-colour model of func.py: the ten outline colours, the inclusive HSV
 * range table used for thresholding, and getOutlineMask, which marks the pixels of an
 * (already converted) HSV raster that lie in the chosen colour's range.
 */
module Colors {
  import opened Rasters

  /** The colour of a boundary line drawn on an outline image. */
  datatype OutlineColor = Red | Orange | Yellow | Green | Cyan | Blue | Purple | Black | Gray | White

  /** One pixel in OpenCV's 8-bit HSV space. */
  datatype Hsv = Hsv(h: byte, s: byte, v: byte)

  /** An inclusive range of HSV triples, as (lower, upper) is handed to cv2.inRange. */
  datatype HsvRange = HsvRange(lower: Hsv, upper: Hsv)

  /** The colour table; red wraps around hue 0 and so has two entries. */
  const ColorDict: map<string, HsvRange> := map[
    "red_1" := HsvRange(Hsv(0, 43, 46), Hsv(10, 255, 255)),
    "red_2" := HsvRange(Hsv(156, 43, 46), Hsv(180, 255, 255)),
    "orange" := HsvRange(Hsv(11, 43, 46), Hsv(25, 255, 255)),
    "yellow" := HsvRange(Hsv(26, 43, 46), Hsv(34, 255, 255)),
    "green" := HsvRange(Hsv(35, 43, 46), Hsv(77, 255, 255)),
    "cyan" := HsvRange(Hsv(78, 43, 46), Hsv(99, 255, 255)),
    "blue" := HsvRange(Hsv(100, 43, 46), Hsv(124, 255, 255)),
    "purple" := HsvRange(Hsv(125, 43, 46), Hsv(155, 255, 255)),
    "black" := HsvRange(Hsv(0, 0, 0), Hsv(180, 255, 46)),
    "gray" := HsvRange(Hsv(0, 0, 46), Hsv(180, 43, 220)),
    "white" := HsvRange(Hsv(0, 0, 221), Hsv(180, 30, 255))
  ]

  /** cv2.inRange at one pixel: every channel between its bounds, both inclusive. */
  predicate InRange(p: Hsv, r: HsvRange)
  {
    r.lower.h <= p.h <= r.upper.h &&
    r.lower.s <= p.s <= r.upper.s &&
    r.lower.v <= p.v <= r.upper.v
  }

  /** Whether getOutlineMask marks a pixel of colour `c`: one branch of its if-chain. */
  predicate Selected(c: OutlineColor, p: Hsv)
  {
    match c
    case Red => InRange(p, ColorDict["red_1"]) || InRange(p, ColorDict["red_2"])
    case Orange => InRange(p, ColorDict["orange"])
    case Yellow => InRange(p, ColorDict["yellow"])
    case Green => InRange(p, ColorDict["green"])
    case Cyan => InRange(p, ColorDict["cyan"])
    case Blue => InRange(p, ColorDict["blue"])
    case Purple => InRange(p, ColorDict["purple"])
    case Black => InRange(p, ColorDict["black"])
    case Gray => InRange(p, ColorDict["gray"])
    case White => InRange(p, ColorDict["white"])
  }

  /** The chromatic labels, those whose range is a hue band. */
  predicate Chromatic(c: OutlineColor)
  {
    !(c.Black? || c.Gray? || c.White?)
  }

  /**
   * The outline mask of an HSV raster: a fresh raster of the same shape holding 1 exactly
   * where the pixel lies in the chosen colour's range, and 0 elsewhere.
   */
  function GetOutlineMask(image: seq<seq<Hsv>>, h: nat, w: nat, outlineColor: OutlineColor): (result: Grid)
    requires Shaped(image, h, w)
    ensures Shaped(result, h, w)
    ensures forall i, j :: 0 <= i < h && 0 <= j < w ==> result[i][j] <= 1
    ensures forall i, j :: 0 <= i < h && 0 <= j < w ==>
      (result[i][j] == 1 <==> Selected(outlineColor, image[i][j]))
  {
    seq(h, i requires 0 <= i < h =>
      seq(w, j requires 0 <= j < w => if Selected(outlineColor, image[i][j]) then 1 else 0))
  }

  /** For red, a pixel is marked exactly when it lies in the low-hue or in the high-hue band. */
  lemma RedIsUnionOfBands(p: Hsv)
    ensures Selected(Red, p) <==>
      (p.h <= 10 || 156 <= p.h <= 180) && 43 <= p.s && 46 <= p.v
  {
  }

  /** The seven chromatic ranges never overlap: a pixel is marked for at most one of them. */
  lemma ChromaticRangesDisjoint(c1: OutlineColor, c2: OutlineColor, p: Hsv)
    requires Chromatic(c1) && Chromatic(c2) && c1 != c2
    ensures !(Selected(c1, p) && Selected(c2, p))
  {
  }

  /** The black and gray ranges overlap exactly at V = 46 with S <= 43. */
  lemma BlackAndGrayOverlap(p: Hsv)
    ensures Selected(Black, p) && Selected(Gray, p) <==> p.h <= 180 && p.v == 46 && p.s <= 43
  {
  }

  /**
   * The gray range meets every chromatic range: a pixel of a chromatic colour is also gray
   * exactly when its saturation is 43 and its value at most 220.
   */
  lemma GrayMeetsChromaticRanges(c: OutlineColor, p: Hsv)
    requires Chromatic(c)
    ensures Selected(c, p) && Selected(Gray, p) <==> Selected(c, p) && p.s == 43 && p.v <= 220
  {
  }

  /** A concrete pixel marked both for red and for gray. */
  lemma RedAndGraySample()
    ensures Selected(Red, Hsv(0, 43, 100)) && Selected(Gray, Hsv(0, 43, 100))
  {
  }
}
