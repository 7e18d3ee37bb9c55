# village_skeleton in Dafny

A verified model of the computational core of village_skeleton. This PyQt tool takes a remote-sensing image and a village region, extracts the region's skeleton, and animates an overlay that starts as the whole region and shrinks frame by frame down to the thickened skeleton. The model covers three parts:

- **Outline colours** (`colors.dfy`, `classifier.dfy`). These are:
  - the ten `OutlineColor` labels;
  - the inclusive HSV range table `colorDict`;
  - `getOutlineMask`, which marks the pixels of an HSV raster lying in the chosen colour's range;
  - the colour picker of `mousePressEvent`, which turns a sampled HSV triple into a label.
- **Overlay frames and compositing** (`morphology.dfy`, `overlay.dfy`). These are:
  - grey-level dilation with an all-ones K x K kernel, as `cv2.dilate` computes it with its default anchor and border;
  - `img_addition`, which paints the axis colour into the caller's array in place;
  - `image_blend`, which zeroes the caller's array outside the region in place, because the foreground aliases the image, and weighs it against a copy zeroed inside the region;
  - `dilate_iter`, the cumulative loop that builds the reversed frame list.
- **The `AxisTrans` window state** (`polylines.dfy`, `controller.dfy`). This is a class with:
  - the mouse mode;
  - the boundary and road polylines that left and right clicks build;
  - the empty-polyline filters;
  - the binarised region mask;
  - the picked outline colour;
  - the skeleton-result caches `midAxis`, `sk1` and `sk2`;
  - `dynamic_showResult`, which paints every frame onto a fresh copy of the original image.

`rasters.dfy` holds the shared raster vocabulary: `byte`, `Grid` and the `Shaped` and `Below` predicates.

Pixels are 8-bit (`newtype byte`). Masks and frames are value rasters (`seq<seq<byte>>`), since every array `dilate_iter` touches is a fresh one. The RGB arrays that `img_addition` and `image_blend` mutate in place are `array2<Rgb>`.

Foreign image operations are parameters of the methods that use them, with contracts that constrain only their shape. These are:
- RGB to HSV conversion;
- `cv2.fillPoly`;
- the chain `findContours` / `drawContours` / `erode` / `dilate` / `resize`;
- the skimage skeletonizers.

`cv2.addWeighted(fg, 1, bg, 0.6, 0)` is an abstract per-channel function `addWeighted`. Its only assumed law is `addWeighted(v, 0) == v`, which holds for alpha 1 and gamma 0.

Facts about the code that the model keeps:
- `dilate_iter` is cumulative: each clipped frame is the input of the next dilation (func.py:212).
- `OutlineColor` has ten labels (func.py:22-35).
- `colorDict`'s gray range starts at V = 46 (func.py:47), so black and gray overlap at V = 46. Gray also allows S up to 43, so it meets every chromatic range at S = 43.

## Model

| member | source | states |
|---|---|---|
| Colors.GetOutlineMask | func.py:69-112 | A fresh raster of the input's shape. Every value is 0 or 1, and a pixel is 1 exactly when its HSV triple lies, inclusively, in the chosen colour's `colorDict` range(s). |
| Colors.RedIsUnionOfBands | func.py:89-93 | For red, a pixel is marked iff its hue is in 0..10 or 156..180, S >= 43 and V >= 46. This is the union of `red_1` and `red_2`. |
| Colors.ChromaticRangesDisjoint | func.py:38-45 | No pixel lies in the ranges of two different chromatic colours. |
| Colors.BlackAndGrayOverlap | func.py:46-47 | A pixel is in both the black and the gray range iff H <= 180, V = 46 and S <= 43. |
| Colors.GrayMeetsChromaticRanges | func.py:38-47 | A pixel of a chromatic colour's range is also in the gray range iff S = 43 and V <= 220. |
| Colors.RedAndGraySample | func.py:38-47 | A concrete such pixel: H 0, S 43, V 100 is marked both for red and for gray. |
| Classifier.Classify | controller.py:364-385 | A saturated sample with H <= 180 gets a label whose hue band holds H. A saturated sample with H > 180 keeps the held colour. Any other sample gets a label whose value band holds V. |
| Classifier.HueBandsPartition | controller.py:364-378 | Every hue in 0..180 lies in exactly one hue band of the picker. |
| Classifier.ValueBandsPartition | controller.py:379-385 | Every value in 0..255 lies in exactly one value band (black, gray, white). |
| Classifier.ClassifySaturated | controller.py:364-378 | A sample with S >= 43, V >= 46 and H <= 180 gets exactly the label whose hue band holds H (both directions). |
| Classifier.ClassifyUnsaturated | controller.py:379-385 | Any other sample gets exactly the label whose value band holds V (both directions). |
| Classifier.ClassifyKeepsColourAboveHue180 | controller.py:364-378 | A saturated sample with H > 180 leaves the previously picked colour unchanged, because no branch assigns. |
| Classifier.ClassifyBoundaries | controller.py:364-385 | At the band edges: H 10 is red, 11 orange, 155 purple, 156 red. At low S: V 46 is black, 47 gray, 221 white. V 45 is black even at full saturation. |
| Classifier.ClassifyWithinTable | controller.py:364-385 | A sample with H <= 180 labelled anything but white lies inside that label's `colorDict` range, so thresholding with the picked colour marks it. |
| Classifier.ClassifyWhiteAgainstTable | controller.py:384-385 | A white-labelled sample is inside `colorDict['white']` iff S <= 30. So samples with S in 31..42 are labelled white but not marked. |
| Classifier.WhiteSampleOutsideWhiteRange | controller.py:379-385 | A concrete such sample: H 0, S 35, V 230. |
| Morphology.Dilate | func.py:209 | `cv2.dilate` with a K x K all-ones kernel keeps the raster's shape. |
| Morphology.DilateIsWindowMax | func.py:209 | Every output pixel bounds each in-image pixel of its window (rows and columns -K/2 .. K-1-K/2) and equals one of them. |
| Morphology.DilateExtensive | func.py:209 | Dilation never lowers a pixel. |
| Overlay.Paint | func.py:160-162 | The painted image keeps the image's shape; its pixels are stated by `PaintSpec`. |
| Overlay.ToArray | controller.py:232 | `np.array(originalImg)`: a fresh array holding the image's pixels. |
| Overlay.ImgAddition | func.py:144-163 | Writes the axis colour into every pixel of the caller's array where the mask is positive, nothing else, and returns that same array. |
| Overlay.PaintSpec | func.py:160-162 | Painting puts the axis colour exactly where the mask is positive and keeps every other pixel. Painting twice equals painting once. |
| Overlay.CopyOf | func.py:135 | `image.copy()`: a fresh array with the same pixels. |
| Overlay.ClearOutside | func.py:138-139 | Zeroes every pixel of the array where the mask is 0 and keeps the rest. |
| Overlay.ClearInside | func.py:138-140 | Zeroes every pixel of the array where the mask is positive and keeps the rest. |
| Overlay.AddWeighted | func.py:141 | A fresh array weighing the two buffers pixel by pixel. |
| Overlay.ImageBlend | func.py:114-142 | The caller's array is left zeroed outside the region (the foreground aliases it). The result is a fresh array: the blend of that foreground with the original zeroed inside the region. |
| Overlay.BuffersSplitImage | func.py:134-140 | At every pixel one of the two buffers is black, and the other holds the original pixel. |
| Overlay.BlendKeepsRegion | func.py:137-141 | With alpha 1 and gamma 0, the blend shows the original pixel unchanged wherever the mask is positive. |
| Overlay.Clip | func.py:210 | The clipped frame keeps the shape; that clipped frames vanish outside the region is stated by `LoopFrameInsideRegion`. |
| Overlay.Seed | func.py:205-206 | The seed, two 3 x 3 dilations of the skeleton, keeps the skeleton's shape; it is the last returned frame (`Frames`). |
| Overlay.LoopFrame | func.py:208-212 | Loop frame n keeps the shape; it is the clipped dilation of loop frame n - 1, or of the skeleton for n = 1 (`LoopFrameStep`). |
| Overlay.Frames | func.py:200-215 | The returned list has N + 2 frames: the mask first, the unclipped 3 x 3 twice-dilated seed last, and loop frame N + 1 - n at position n. |
| Overlay.FramesShaped | func.py:200-215 | Every returned frame has the shape of the region mask. |
| Overlay.DilateIter | func.py:200-215 | The loop, which appends and then reverses the list in place, returns exactly `Frames`: N + 2 frames, the mask first and the seed last. |
| Overlay.LoopPrefix | func.py:207-212 | After i passes the list holds i + 1 frames; their contents are stated by `LoopPrefixAt`. |
| Overlay.LoopPrefixAt | func.py:207-212 | After i passes the list starts with the seed and holds loop frame n at position n. |
| Overlay.LoopFrameStep | func.py:209-212 | One pass dilates `temp_img` (the skeleton at first, then the previous clipped frame) and clips it, giving the next loop frame. |
| Overlay.ReversedBuildIsFrames | func.py:213-214 | Reversing the built list (seed, loop frames 1..N, mask) gives the returned order. |
| Overlay.LoopFrameInsideRegion | func.py:210 | Every loop frame is zero wherever the mask is 0. |
| Overlay.LoopFrameGrows | func.py:209-212 | Each loop frame is pointwise at least the previous one. |
| Overlay.LoopFramePixelMonotone | func.py:208-212 | At every pixel, loop frame m is at most loop frame n whenever m <= n. |
| Overlay.LoopFramesMonotone | func.py:208-212 | Loop frames are pointwise non-decreasing. |
| Overlay.FramesInsideRegion | func.py:208-214 | Positions 1..N of the returned list are zero outside the region. |
| Overlay.FramesShrink | func.py:208-214 | Positions 1..N of the returned list are pointwise non-increasing. |
| Polylines.Press | controller.py:306-329 | A press keeps "the current polyline is the last one" (`num == len(lines) - 1`). |
| Polylines.PressEffects | controller.py:307-329 | A left click appends exactly its point to the current polyline, sets the end point, and changes no other polyline. A right click appends one empty polyline, advances the index and resets both endpoints. Other buttons change nothing. |
| Polylines.Replay | controller.py:306-329 | Any run of presses keeps the count invariant. |
| Polylines.ReplayRecordsClicks | controller.py:306-329 | After any run of presses, the recorded points are the old points followed by the left-click positions in click order, and each right click adds one polyline. |
| Polylines.FreshReplay | controller.py:89-93 | From a fresh start, the recorded points are exactly the left-click positions in order, and there are 1 + (right clicks) polylines. |
| Polylines.WithoutEmpty | controller.py:107-108 | The filtered list has no empty polyline and is no longer than the input. |
| Polylines.RemoveFirstEmpty | controller.py:108 | `list.remove([])` drops one element and leaves the filtered list unchanged. |
| Polylines.WithoutEmptyFixes | controller.py:107 | A list without empty polylines is its own filtering, so the loop stops there. |
| Polylines.RemoveEmpty | controller.py:107-108 | The `while [] in lines: lines.remove([])` loop returns exactly the non-empty polylines in their original order. |
| Polylines.WithoutEmptyConcat | controller.py:107-108 | Filtering distributes over concatenation, so order is kept. |
| Polylines.WithoutEmptyKeepsLines | controller.py:107-108 | Every non-empty polyline is kept as many times as it occurs. |
| Polylines.WithoutEmptyKeepsPoints | controller.py:107-108 | Dropping empty polylines loses and reorders no point. |
| Controller.HsvOf | controller.py:135-136 | The HSV raster has the image's shape. |
| Controller.Binarize | controller.py:154 | Every value becomes 0 or 1, and a pixel is 1 iff it was positive. |
| Controller.BinarizeIdempotent | controller.py:154 | Binarising twice is binarising once. |
| Controller.Composite | controller.py:232-234 | A displayed image keeps the original's shape; its pixels are stated by `CompositeAt`. |
| Controller.CompositeAt | controller.py:232-234 | A displayed pixel inside the region is the axis colour where the frame is positive and the original pixel elsewhere. Outside the region it is that same pixel weighed against black. |
| Controller.ShowFrame | controller.py:232-235 | One pass of the frame loop (fresh array, paint, blend) yields the composite of the original image and the frame. |
| Controller.Animation | controller.py:230-238 | One displayed image per frame: N + 2 of them. |
| Controller.AnimationStartsWithRegion | controller.py:230-234 | The first displayed image paints the whole region in the axis colour. |
| Controller.AnimationOutsideRegion | controller.py:230-234 | Outside the region, every displayed image but the last (the unclipped seed) shows the dimmed original pixel, so no paint carries over. |
| Controller.AnimationPaintShrinks | controller.py:230-234 | A region pixel painted at position b in 1..N is painted at every earlier position a >= 1. |
| Controller.AxisTrans.constructor | controller.py:13-34 | The mouse is idle, the outline colour is red, and no image, outline, mask or result is set. Axis colour (255, 165, 0), kernel 8 and 13 iterations are constants. The polyline and cache fields, which the source creates later, start fresh and empty. |
| Controller.AxisTrans.EmptyResult | controller.py:486-493 | `midAxis`, `im_contour`, `sk1` and `sk2` are all None. |
| Controller.AxisTrans.DrawOutline | controller.py:84-95 | Boundary drawing mode, with one empty polyline, index 0 and null endpoints. The count invariant holds. |
| Controller.AxisTrans.DrawRoad | controller.py:243-262 | With a skeleton result: road mode with a fresh road tracer. Without one: nothing changes. |
| Controller.AxisTrans.ExtractColor | controller.py:295-299 | The mouse picks colours. |
| Controller.AxisTrans.MousePress | controller.py:301-389 | In a drawing mode, the press is applied to that mode's polylines only, and the count invariant is kept. In colour mode, a left click with an outline image loaded and a sample sets the colour to `Classify` of the sample. Otherwise the colour is kept, as when `outlineImg.resize` raises. |
| Controller.AxisTrans.PressContour | controller.py:306-329 | The boundary fields become `Press` of the old boundary tracer. |
| Controller.AxisTrans.PressRoad | controller.py:332-350 | The road fields become `Press` of the old road tracer. |
| Controller.AxisTrans.CleanLine | controller.py:440-457 | The polylines of the mode being drawn start over, and the other kind is unchanged. Without an original image the boundary branch raises at line 447, after resetting the list but before resetting the endpoints. |
| Controller.AxisTrans.OffsetCalculate | controller.py:264-275 | The mouse becomes idle and the road list loses exactly its empty polylines. |
| Controller.AxisTrans.ExtractVillage | controller.py:97-163 | Per mode:<br>- While drawing: the boundary list is filtered, the mask becomes its fill, and the caches are emptied when the blend can run.<br>- With an outline image: the mask becomes the binarised traced region of the outline-colour pixels, and the caches are emptied likewise.<br>- Without an outline image, or in other modes: nothing changes. |
| Controller.AxisTrans.DynamicShowResult | controller.py:226-241 | The displayed images are exactly `Animation` (a fresh copy of the original image per frame). The result, `resultImg` and `skPix` are the last one: the seed's composite. |
| Controller.AxisTrans.ShowSkeleton | controller.py:165-224 | A cached result is shown again without recomputation. Without a region, the cache stays None. Otherwise the new skeleton's animation result is cached and shown. |
| Controller.AxisTrans.Medaxis | controller.py:165-184 | The `ShowSkeleton` contract on `midAxis`, for the medial axis. |
| Controller.AxisTrans.Skeletonize1 | controller.py:186-204 | The `ShowSkeleton` contract on `sk1`, for the thinned skeleton. |
| Controller.AxisTrans.Skeletonize2 | controller.py:206-224 | The `ShowSkeleton` contract on `sk2`, for Lee's skeleton. |

## Left out

- Controller.AxisTrans.constructor: the source's `__init__` does not create `contourPoints`, `contourNum`, `lastPoint`, `endPoint`, the road fields, `midAxis`, `im_contour`, `sk1` or `sk2`. They first appear in draw_outline, drow_road and empty_result. The model creates them at construction, fresh and empty. So it does not capture the AttributeError that `medaxis`, `skletonize1` and `skletonize2` raise (lines 171, 192, 212) before any image has been opened. Those raises happen after the mode is reset and before anything else changes, which is the state the model reaches. Nor does it capture the caught AttributeError of `offset_calculate` before any road drawing (line 271), where the model filters the initial `[[]]` to `[]`.
- Uncaught raises (for example `pil2pixmap(None)` in draw_outline at line 95 and cleanLine at line 447) are modelled, like caught ones, as the state reached just before the raising statement.

- Qt and UI plumbing is not modelled. This covers main.py, `BaseMainWindow.closeEvent`, `pil2pixmap`, `ndarray2pixmap`, message boxes, pens and pixmaps (`outlinePix`, `roadPix`), `show_oriImg`, `cleanImg`, `saveImg`, `quit` and the pass-stubs at controller.py:495-508. A pixmap the model keeps (`skPix`) is represented by the image it was made from.
- `open_file` and `openOutline` are file dialogs and are not modelled. The model's methods take `originalImg`, `outlineImg` and the `LoadOutline` mode as they find them, so the class invariant only requires their shapes.
- `transPos`, `mouseMoveEvent`, `mouseReleaseEvent` and `paintEvent` are not modelled. They only move the line endpoints while drawing (`paintEvent` copies the end point into the last point). In the model the endpoints change only on presses, draw_outline and cleanLine.
- Timing and event pumping (`time.sleep`, `QApplication.processEvents`) are not modelled.
- Controller.AxisTrans.MousePress: the click position is given already translated, and `sample` stands for the HSV value of the resized outline image under the cursor (None when the lookup raises on a click past the right or bottom edge). The resize and conversion are foreign. A missing outline image is handled by the model itself: the colour is kept.
- Controller.AxisTrans.OffsetCalculate: the placeholder message text and the conversion of each polyline to an ndarray are not modelled.
- Controller.AxisTrans.ExtractVillage: `fillPoly` and the contour-tracing chain are parameters with shape-only contracts. The ndarray conversion of the boundary polylines is not modelled.
- Controller.AxisTrans.Medaxis: the float product `distance * skel` and its `astype('uint8')` truncation in `dilate_iter` are folded into the `medialAxis` parameter, which returns a byte raster.
- Controller.AxisTrans.Medaxis, Controller.AxisTrans.Skeletonize1, Controller.AxisTrans.Skeletonize2: without a region the source redisplays the original image, which is display only. When the original image is missing, the source raises before caching; the model then changes nothing but the mode.
- Controller.AxisTrans.DrawRoad: the resize of `originalImg` to the label size is the identity here, because every image is kept at label size. The copy of `skPix` into `roadPix` is display only.
- Overlay.ImageBlend: only the single-channel-mask branch is modelled. Every caller passes a 2-D mask; with a 3-channel mask the source zeroes nothing.
- Overlay.AddWeighted: `cv2.addWeighted` float arithmetic (rounding, saturation) is abstracted as the per-channel function `addWeighted`. The model assumes only `addWeighted(v, 0) == v`.
- Morphology.Dilate: the kernel size must be at least 1. The source always uses 3 or 8.
- Exceptions caught by the source's `try` blocks are modelled as the state reached before the failing step. Examples: a missing original image during the blend in extract_village, or a missing outline image while picking a colour.
- Colors.GetOutlineMask: works on an already converted HSV raster, because `cv2.cvtColor` is foreign.
