/**
 * The colour picker of AxisTrans.mousePressEvent (controller.py): the HSV triple sampled
 * under the cursor is turned into an outline colour by fixed inclusive bands, saturated
 * samples by hue and the others by value alone.
 */
module Classifier {
  import opened Rasters
  import opened Colors

  /**
   * The colour the picker assigns to `p`; `current` is the colour held before, which is
   * kept when no band assigns (a saturated sample with hue above 180).
   */
  function Classify(p: Hsv, current: OutlineColor): (c: OutlineColor)
    ensures Saturated(p) && p.h <= 180 ==> InHueBand(c, p.h)
    ensures Saturated(p) && p.h > 180 ==> c == current
    ensures !Saturated(p) ==> InValueBand(c, p.v)
  {
    if 43 <= p.s <= 255 && 46 <= p.v <= 255 then
      if (0 <= p.h <= 10) || (156 <= p.h <= 180) then Red
      else if 11 <= p.h <= 25 then Orange
      else if 26 <= p.h <= 34 then Yellow
      else if 35 <= p.h <= 77 then Green
      else if 78 <= p.h <= 99 then Cyan
      else if 100 <= p.h <= 124 then Blue
      else if 125 <= p.h <= 155 then Purple
      else current
    else
      // three independent ifs, each of which overwrites the colour when its band holds
      var afterBlack := if 0 <= p.v <= 46 then Black else current;
      var afterGray := if 47 <= p.v <= 220 then Gray else afterBlack;
      if 221 <= p.v <= 255 then White else afterGray
  }

  /** The sample is coloured enough to be judged by hue. */
  predicate Saturated(p: Hsv)
  {
    43 <= p.s && 46 <= p.v
  }

  /** The hue table of the chromatic labels; achromatic labels have no hue band. */
  predicate InHueBand(c: OutlineColor, h: byte)
  {
    match c
    case Red => 0 <= h <= 10 || 156 <= h <= 180
    case Orange => 11 <= h <= 25
    case Yellow => 26 <= h <= 34
    case Green => 35 <= h <= 77
    case Cyan => 78 <= h <= 99
    case Blue => 100 <= h <= 124
    case Purple => 125 <= h <= 155
    case Black => false
    case Gray => false
    case White => false
  }

  /** The value table of the achromatic labels. */
  predicate InValueBand(c: OutlineColor, v: byte)
  {
    match c
    case Black => 0 <= v <= 46
    case Gray => 47 <= v <= 220
    case White => 221 <= v <= 255
    case _ => false
  }

  /** The hue bands partition 0..180: every hue lies in exactly one band. */
  lemma {:induction false} HueBandsPartition(h: byte)
    requires h <= 180
    ensures exists c :: InHueBand(c, h)
    ensures forall c1, c2 :: InHueBand(c1, h) && InHueBand(c2, h) ==> c1 == c2
  {
    var c := Classify(Hsv(h, 43, 46), Black);
    assert InHueBand(c, h);
  }

  /** The value bands partition 0..255: every 8-bit value lies in exactly one band. */
  lemma {:induction false} ValueBandsPartition(v: byte)
    ensures exists c :: InValueBand(c, v)
    ensures forall c1, c2 :: InValueBand(c1, v) && InValueBand(c2, v) ==> c1 == c2
  {
    var c := Classify(Hsv(0, 0, v), Red);
    assert InValueBand(c, v);
  }

  /**
   * A saturated sample with hue in 0..180 gets exactly the label whose hue band holds the
   * hue, whatever colour was held before.
   */
  lemma ClassifySaturated(p: Hsv, current: OutlineColor)
    requires Saturated(p) && p.h <= 180
    ensures forall c :: InHueBand(c, p.h) <==> c == Classify(p, current)
  {
  }

  /** An unsaturated or dark sample gets the label whose value band holds its value. */
  lemma ClassifyUnsaturated(p: Hsv, current: OutlineColor)
    requires !Saturated(p)
    ensures forall c :: InValueBand(c, p.v) <==> c == Classify(p, current)
  {
  }

  /** A saturated sample with hue above 180 leaves the held colour in place. */
  lemma ClassifyKeepsColourAboveHue180(p: Hsv, current: OutlineColor)
    requires Saturated(p) && p.h > 180
    ensures Classify(p, current) == current
  {
  }

  /** Boundary values fall on the documented side. */
  lemma ClassifyBoundaries(current: OutlineColor)
    ensures Classify(Hsv(10, 43, 46), current) == Red
    ensures Classify(Hsv(11, 43, 46), current) == Orange
    ensures Classify(Hsv(155, 255, 255), current) == Purple
    ensures Classify(Hsv(156, 255, 255), current) == Red
    ensures Classify(Hsv(0, 42, 46), current) == Black
    ensures Classify(Hsv(0, 255, 45), current) == Black
    ensures Classify(Hsv(0, 42, 47), current) == Gray
    ensures Classify(Hsv(0, 42, 221), current) == White
  {
  }

  /**
   * Agreement with the threshold table: a sample with hue in 0..180 that the picker labels
   * anything but white lies inside that label's range, so thresholding with the picked
   * colour marks the sampled pixel.
   */
  lemma ClassifyWithinTable(p: Hsv, current: OutlineColor)
    requires p.h <= 180
    ensures Classify(p, current) != White ==> Selected(Classify(p, current), p)
  {
  }

  /**
   * The white label is wider than the white range: a white-labelled sample is inside the
   * range exactly when its saturation is at most 30, so samples with saturation 31..42 are
   * labelled white but are not marked when thresholding for white.
   */
  lemma ClassifyWhiteAgainstTable(p: Hsv, current: OutlineColor)
    requires p.h <= 180 && Classify(p, current) == White
    ensures Selected(White, p) <==> p.s <= 30
  {
  }

  /** A concrete sample of that gap. */
  lemma WhiteSampleOutsideWhiteRange()
    ensures Classify(Hsv(0, 35, 230), Red) == White && !Selected(White, Hsv(0, 35, 230))
  {
  }
}
