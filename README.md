# SVGWebcam core, modelled in Dafny

SVGWebcam turns webcam frames into animated SVG line drawings. A GPU pipeline computes edges
and Hough vote grids; the CPU then extracts circles and lines and writes the SVG. This project
models that CPU side and proves what it promises.

- **Edge raster** (`EdgeRaster`, edge_raster.dfy): the binarisation of the red channel read
  back from the edge framebuffer, the edge count, and the row-major list of edge pixels.
- **Peak window** (`PeakWindow`, peak_window.dfy): the local-maximum test shared by both
  detectors. A cell survives unless a cell of its 5 x 5 window, at spacing `step`, has
  strictly more votes.
- **Ranking** (`Ranking`, ranking.dfy): JavaScript's stable `sort((a, b) => b.votes - a.votes)`
  as a stable insertion sort, and `slice(0, n)`.
- **Circle detector** (`CircleDetector`, circle_detector.dfy): `detectCirclesCPU`. It votes
  into a fresh accumulator per radius `minR, minR + 5, ...`, scans peaks on a step-5 grid,
  sorts stably, applies greedy non-maximum suppression and caps the result at 100.
- **Line peaks** (`LinePeaks`, line_peaks.dfy): the CPU half of `detectLines`. It returns
  nothing for an incomplete framebuffer; otherwise it keeps window peaks of the theta/rho vote
  grid with at least `threshold` votes, sorted and capped at 40.
- **SVG geometry** (`SvgGeometry`, svg_geometry.dfy): `transformPoint`, the uniform
  fit-and-centre of the frame in the window, the y-flip, and the stroke scale.
- **Bezier path** (`BezierPath`, svg_bezier.dfy): `generateBezierPath`, which draws quadratic
  curves through the midpoints, with the optional random "wiggle" divisor.
- **Connected paths** (`ConnectEdges`, svg_connect.dfy): the `connectEdges` modes of
  `generateSVG`.
  - Straight lines: the pen is lifted only across a gap larger than
    `max(innerWidth, innerHeight) / 6`.
  - Bezier: the points are cut into segments at exactly those gaps.
- **SVG export** (`SvgExport`, svg_export.dfy): `generateSVG` as a whole. It builds one
  element per drawable path or one connected element, with opacity, stroke width and dash.
- **Dash offset** (`DashOffset`, dash_offset.dfy): `calculateDashOffset`, a saw-tooth of
  period 35 000 ms from 256 down towards -256.
- **SVG document** (`SvgDocument`, svg_document.dfy): `createSVGString` (layers in the listed
  order) and the row flip of `extractBlurTexture`.

Loops that update state in the source are methods with loop invariants. Each is proved equal
to a recursive specification function, and the lemmas prove the promised properties about
those functions:

- array passes: `BinarizeEdges`, `CastVote`/`VoteAngle`/`VoteRadius`, `FlipRows`/`CopyRow`;
- pushes inside nested loops: `CollectEdgePixels`, `ScanRow`, `FindRadiusPeaks`, `ScanColumn`,
  `FindLinePeaks`, `SuppressDuplicates`, `ConnectStraight`, `CollectSegments`, `BezierCommands`.

Expression-only code (the fit, the transform, the dash offset, the separate-paths branch,
`createSVGString`) is written as functions.

## Model

| member | source | states |
|---|---|---|
| EdgeRaster.BinarizeEdges | src/app/lines/page.tsx:610-613 | one byte per pixel; it is 255 exactly when the red byte `pixels[4i]` is positive and 0 exactly when that byte is 0 |
| EdgeRaster.CountEdges | src/app/lines/page.tsx:546-549 | the loop returns the number of positive bytes, which is at most the buffer length |
| EdgeRaster.EdgeCountBounded | src/app/lines/page.tsx:546-549 | the count never exceeds the length, and it is 0 exactly when every byte is 0 |
| EdgeRaster.CollectEdgePixels | src/app/lines/page.tsx:755-762 | the nested loop builds exactly the row-by-row list of edge pixels |
| EdgeRaster.EdgePixelsExact | src/app/lines/page.tsx:755-762 | the list holds only in-bounds pixels with a positive edge byte, holds every such pixel, and is strictly increasing in row-major order |
| EdgeRaster.EdgePixelsCount | src/app/lines/page.tsx:546-549 | the edge-pixel list is as long as the edge count |
| PeakWindow.CheckWindowMax | src/app/lines/page.tsx:788-800 | the `isMax` loop with its two `break`s returns true exactly when no in-bounds cell at offsets {-2..2}·step in both directions has strictly more votes (ties do not count) |
| PeakWindow.RowBeats | src/app/lines/page.tsx:790-799 | the inner loop over the column offsets reports true exactly when some in-bounds cell of that window row has strictly more votes |
| Ranking.Take | src/app/lines/page.tsx:833 | `slice(0, n)` is the prefix of exactly min(n, length) entries: the whole list when it is no longer than n, and its first n entries otherwise |
| Ranking.SortByKeyDescCorrect | src/app/lines/page.tsx:812 | the sort by `b.votes - a.votes` orders by votes descending and is a permutation of its input |
| Ranking.SortByKeyDescStable | src/app/lines/page.tsx:812 | the sort is stable: entries with equal votes keep their input order |
| Ranking.TakeKeepsStrongest | src/app/lines/page.tsx:833 | a prefix of a ranked list stays ranked; an entry is cut only when the prefix is full of entries with at least as many votes |
| Ranking.TopByKey | src/app/lines/page.tsx:740 | sort-then-slice gives at most n entries, ranked, all from the input, all of it when the input is short; a left-out entry ranks no higher than any kept one |
| CircleDetector.CastVote | src/app/lines/page.tsx:776-778 | one guarded increment: the accumulator becomes the tally of the old votes plus the centre's cell, if it has one |
| CircleDetector.VoteAngle | src/app/lines/page.tsx:772-779 | the pass over the edge pixels for one angle adds, in pixel order, the cell of each pixel's own rounded centre `centreOf(p, r, θ)` |
| CircleDetector.VoteRadius | src/app/lines/page.tsx:765-780 | a fresh accumulator, voted over the 24 angles 0, 15, ..., 345, equals the tally of the in-bounds centres, with at most 24 votes per edge pixel |
| CircleDetector.AccumulatorCounts | src/app/lines/page.tsx:772-778 | the vote of cell (x, y) is the number of (angle, edge pixel) pairs whose rounded centre `centreOf(p, r, θ)` is exactly (x, y) |
| CircleDetector.SumTally | src/app/lines/page.tsx:776-778 | every in-range vote adds exactly one to the accumulator's total |
| CircleDetector.CentresBeforeLength | src/app/lines/page.tsx:767-772 | k angle samples over the edge pixels give k times as many candidate centres |
| CircleDetector.ScanRow | src/app/lines/page.tsx:784-806 | one grid row of the peak scan pushes exactly the row's peaks, left to right |
| CircleDetector.RowPeaksExact | src/app/lines/page.tsx:784-804 | a circle is pushed from a grid row exactly when it lies on that row at or after the scan position, meets the threshold and wins its window |
| CircleDetector.FindRadiusPeaks | src/app/lines/page.tsx:783-807 | the peak scan of one radius pushes exactly its peaks in scan order (y, then x) |
| CircleDetector.RadiusPeaksExact | src/app/lines/page.tsx:783-804 | a circle is pushed for radius r exactly when (x, y) is on the grid r, r+5, ... with r <= x < width-r and r <= y < height-r, has at least `threshold` votes, and no in-bounds cell at offsets {-10,-5,0,5,10}² beats it |
| CircleDetector.CandidatesFromExact | src/app/lines/page.tsx:764-807 | the candidates are exactly the peaks of the radii minR, minR+5, ... <= maxR |
| CircleDetector.ConflictSymmetric | src/app/lines/page.tsx:817-822 | `dist < 30 && radiusDiff < 15` is symmetric |
| CircleDetector.SuppressDuplicates | src/app/lines/page.tsx:811-831 | the `keep`/`break` loop builds exactly the greedy suppression of the sorted list |
| CircleDetector.SuppressSubset | src/app/lines/page.tsx:814-830 | suppression only keeps entries of its input |
| CircleDetector.SuppressSeparated | src/app/lines/page.tsx:814-830 | no two kept circles are within distance 30 with radii less than 15 apart |
| CircleDetector.SuppressSorted | src/app/lines/page.tsx:812-830 | suppressing a list ranked by votes keeps it ranked |
| CircleDetector.SuppressPrefix | src/app/lines/page.tsx:814-830 | the kept list only grows as the loop proceeds |
| CircleDetector.SuppressDominated | src/app/lines/page.tsx:814-830 | every discarded circle conflicts with an earlier kept one, which in a ranked list has at least as many votes |
| CircleDetector.SeparatedIsFixpoint | src/app/lines/page.tsx:814-830 | a list without duplicates passes suppression unchanged |
| CircleDetector.SuppressIdempotent | src/app/lines/page.tsx:814-830 | suppressing the output again removes nothing |
| CircleDetector.CapKeepsStrongest | src/app/lines/page.tsx:833 | the cap drops a surviving circle only when 100 circles with at least as many votes are returned |
| CircleDetector.DetectedCirclesFacts | src/app/lines/page.tsx:743-834 | at most 100 circles, ranked by votes, pairwise separated, each a peak of some radius with at least `threshold` votes |
| CircleDetector.DetectedCirclesAreCandidates | src/app/lines/page.tsx:764-833 | every returned circle is a window peak of one of the radii with at least `threshold` votes |
| CircleDetector.DetectCircles | src/app/lines/page.tsx:743-834 | the method computes exactly the specified result |
| LinePeaks.ScanColumn | src/app/lines/page.tsx:706-733 | one theta column of the scan pushes exactly its peaks, by increasing rho bin |
| LinePeaks.FindLinePeaks | src/app/lines/page.tsx:704-734 | the scan pushes exactly the peaks, theta outer and rho inner |
| LinePeaks.ColumnPeaksExact | src/app/lines/page.tsx:706-731 | a line is pushed from column t exactly when its rho bin is at or after the scan position, meets the threshold and wins its window |
| LinePeaks.LineCandidatesExact | src/app/lines/page.tsx:709-731 | a line is pushed exactly when its cell has at least `threshold` votes and no in-bounds cell within ±2 bins in both directions has strictly more |
| LinePeaks.DetectLines | src/app/lines/page.tsx:644-648 | the method returns `[]` for an incomplete framebuffer and otherwise the sorted, sliced peaks |
| LinePeaks.DetectedLinesFacts | src/app/lines/page.tsx:740 | empty for an incomplete framebuffer; otherwise at most 40 lines, ranked by votes, each a peak with at least `threshold` votes, and a peak is left out only when 40 lines with at least as many votes are returned |
| SvgGeometry.TransformPoint | src/utils/svg/generateSVG.ts:11-23 | the affine map is undone by subtracting the translation and dividing by the (non-zero) scale; the unit scale with no translation is the identity |
| SvgGeometry.UniformTransformScalesDistance | src/utils/svg/generateSVG.ts:11-23 | with equal scales every squared distance is multiplied by scale² |
| SvgGeometry.FitToWindow | src/utils/svg/generateSVG.ts:91-119 | the scale is uniform and positive; the frame fits inside the window, fills it in one dimension, and is centred in both |
| SvgGeometry.FitSameSize | src/utils/svg/generateSVG.ts:100-119 | a window of the frame's size gives scale 1 and no translation |
| SvgGeometry.ToWindow | src/utils/svg/generateSVG.ts:140-141 | the frame point is recovered from its window image (flip and fit are invertible for a non-zero scale); a fit of scale 1 without translation only flips y to `height - y` |
| SvgGeometry.ToWindowInside | src/utils/svg/generateSVG.ts:140-141 | every point of the frame is drawn inside the window |
| SvgGeometry.ToWindowOrientation | src/utils/svg/generateSVG.ts:140-141 | the flip `height - y` turns the picture upside down and keeps left-to-right order |
| SvgGeometry.ScaledStrokeWidth | src/utils/svg/generateSVG.ts:122 | the stroke width is positive, and twice the given width at scale 1 |
| SvgGeometry.WindowScalesDistance | src/utils/svg/generateSVG.ts:140-141 | flipping y and applying the fit multiplies every squared distance between frame points by the square of the scale |
| SvgGeometry.StrokeScalesWithDrawing | src/utils/svg/generateSVG.ts:121-122 | the stroke width scales proportionally with the drawing: drawn stroke over drawn distance equals twice the given stroke over the frame distance (stated squared) |
| BezierPath.RandomDivisor | src/utils/svg/generateSVG.ts:32-34 | a draw in [0, 1) gives a divisor in [1.975, 2.025) |
| BezierPath.Divisor | src/utils/svg/generateSVG.ts:53 | the divisor is in [1.975, 2.025) with wiggle and exactly 2 without |
| BezierPath.BezierCommands | src/utils/svg/generateSVG.ts:35-66 | the loop pushes exactly the specified commands |
| BezierPath.BezierShape | src/utils/svg/generateSVG.ts:35-66 | fewer than 2 points give nothing and 2 points give `M p0 L p1`; n >= 3 points give one M and n-1 Q, the last with control p(n-2) and end p(n-1) |
| BezierPath.BezierEndpoints | src/utils/svg/generateSVG.ts:42-63 | the path starts with a move to the first point and ends at the last point |
| BezierPath.InteriorJoinsSmooth | src/utils/svg/generateSVG.ts:44-58 | without wiggle each interior curve ends at the midpoint of p(i) and p(i+1), and the tangents on both sides of the join agree |
| BezierPath.FinalJoinReverses | src/utils/svg/generateSVG.ts:57-63 | the final curve starts back towards p(n-2): its tangent is the reverse of the one arriving at the join |
| ConnectEdges.ConnectStraight | src/utils/svg/generateSVG.ts:184-212 | the straight-mode loop builds exactly the fold of the pen rule over the paths |
| ConnectEdges.StraightClosedForm | src/utils/svg/generateSVG.ts:187-212 | one command per point of each path with at least 2 points, in order. A command is M exactly for a path's first point that is the very first point or is farther than `maxDistance` from the previous one; every other command is L |
| ConnectEdges.StraightStartsWithMove | src/utils/svg/generateSVG.ts:194-196 | the first command draws nothing: it is a move to the first point |
| ConnectEdges.CollectSegments | src/utils/svg/generateSVG.ts:132-165 | the segmenting loop, with its final push, builds exactly the fold over the paths |
| ConnectEdges.SegmentsMatchStraight | src/utils/svg/generateSVG.ts:143-155 | a new Bezier segment starts exactly where straight mode lifts the pen, so the segments are straight mode's points cut at every M |
| ConnectEdges.SegmentsKeepPoints | src/utils/svg/generateSVG.ts:131-165 | the segments laid end to end are all transformed points of the paths with at least 2 points, in order |
| ConnectEdges.SegmentsAreLong | src/utils/svg/generateSVG.ts:137-160 | every segment has at least two points |
| SvgExport.PathOpacity | src/utils/svg/generateSVG.ts:263 | the path opacity is at least 0.3 and at least the intensity, and equal to one of them |
| SvgExport.DashOffsetAt | src/utils/svg/generateSVG.ts:85-87 | the offset is 0 without a time and in (-256, 256] for a non-negative time |
| SvgExport.GenerateSvg | src/utils/svg/generateSVG.ts:68-283 | the method builds exactly the specified group |
| SvgExport.SeparateElementsMatchDrawn | src/utils/svg/generateSVG.ts:233-279 | map-then-filter gives one element per path with at least two points, in order |
| SvgExport.DrawnPaths | src/utils/svg/generateSVG.ts:235-278 | the drawn paths are exactly the input paths with at least two points |
| SvgExport.SvgSeparate | src/utils/svg/generateSVG.ts:231-280 | in separate mode the group's elements are the elements of the drawn paths, in order |
| SvgExport.SeparateElementFacts | src/utils/svg/generateSVG.ts:237-275 | each element has the shared stroke, scaled width, fill and dash; its opacity is `globalOpacity` if given, otherwise at least 0.3 and at least the intensity; its `d` is the Bezier path or `M` followed by `L`s over the window points |
| SvgExport.PolylineCommands | src/utils/svg/generateSVG.ts:249-259 | one command per point, each ending at that point's window image: M for the first point, L for the others |
| SvgExport.SvgConnected | src/utils/svg/generateSVG.ts:126-230 | connected mode gives one element with opacity `globalOpacity` or 1. Its `d` is straight mode's pen drawing, or one Bezier curve per segment, each segment having at least two points |
| SvgExport.ChainSegments | src/utils/svg/generateSVG.ts:168 | mapping `generateBezierPath` over the segments gives exactly the chained Bezier commands |
| SvgExport.LonePathSameInBothModes | src/utils/svg/generateSVG.ts:187-259 | a single path is drawn with the same commands whether connected or separate |
| DashOffset.Trunc | src/utils/svg/calculateDashOffset.ts:12 | truncation towards zero, bounded by floor and ceiling |
| DashOffset.Rem | src/utils/svg/calculateDashOffset.ts:12 | JavaScript's `%` keeps the sign of the dividend and stays below the period in size |
| DashOffset.Offset | src/utils/svg/calculateDashOffset.ts:5-16 | for t >= 0 the offset is in (-256, 256]; for t < 0 it is in [256, 768) |
| DashOffset.OffsetWithinPeriod | src/utils/svg/calculateDashOffset.ts:12-15 | inside period k the offset is the line `256 - 512 (t - 35000k) / 35000` |
| DashOffset.OffsetPeriodic | src/utils/svg/calculateDashOffset.ts:12 | `offset(t + 35000) = offset(t)` for t >= 0 |
| DashOffset.OffsetAtPeriodStart | src/utils/svg/calculateDashOffset.ts:12-15 | every multiple of the period gives exactly 256 |
| DashOffset.OffsetDecreasesWithinPeriod | src/utils/svg/calculateDashOffset.ts:12-15 | the offset strictly decreases inside each period |
| SvgDocument.JoinAt | src/utils/svgGenerator.ts:50 | `join` puts part k after the earlier parts and one separator each |
| SvgDocument.JoinSepAt | src/utils/svgGenerator.ts:50 | neighbouring parts are separated by exactly one separator |
| SvgDocument.JoinLength | src/utils/svgGenerator.ts:50 | the join is as long as its parts plus one separator between each pair |
| SvgDocument.OrderedLayers | src/utils/svgGenerator.ts:45-50 | one layer string per entry of `layerOrder`, in that order |
| SvgDocument.LayerInOrder | src/utils/svgGenerator.ts:45-55 | the layer named at position k appears after the header line and the earlier layers: layers come in `layerOrder` order, repeats repeat, unnamed layers are absent |
| SvgDocument.CreateSvgString | src/utils/svgGenerator.ts:38-56 | the document opens with the XML declaration and the `<svg>` tag with the given width, height and view box `0 0 W H`, then a newline, and closes with `</svg>`; with no layers listed nothing stands between the two |
| SvgDocument.DefaultOrder | src/utils/svgGenerator.ts:43 | the default order puts the background first and the outline paths second |
| SvgDocument.MirrorInvolution | src/utils/svgGenerator.ts:25-32 | the row mirror maps the buffer onto itself and is its own inverse, so it is a bijection and every byte is written from exactly one source byte |
| SvgDocument.FlippedRow | src/utils/svgGenerator.ts:26-31 | `flipped[y*W*4 + x] = pixels[(H-1-y)*W*4 + x]` for 0 <= y < H and 0 <= x < 4W |
| SvgDocument.FlipTwice | src/utils/svgGenerator.ts:25-32 | flipping twice gives back the original buffer |
| SvgDocument.FlipRows | src/utils/svgGenerator.ts:21-32 | the nested copy loop produces exactly the flipped buffer, of length W*H*4 |
| SvgDocument.CopyRow | src/utils/svgGenerator.ts:27-31 | one pass of the inner loop fills row y with row H-1-y, keeps the rows before it, and leaves every byte after row y unchanged |

## Left out

- GLSL shaders and all WebGL setup, including the Sobel pass, the GPU Hough voting,
  `readPixels` and framebuffer binding: they run on the GPU or call a foreign API. Their
  outputs (the RGBA read-back and the vote grids) are inputs here.
- The sines, cosines and rounding of circle voting: the centre
  `(Math.round(x - r cos θ), Math.round(y - r sin θ))` that edge pixel (x, y) votes for is the
  parameter `centreOf(p, r, θ)`, evaluated per pixel as the source does in doubles. Rounding
  in doubles makes the displacement depend on the pixel (cos 60° is slightly above 0.5), so
  the model does not assume one offset per radius and angle.
- The grayscale weighting `Math.round(0.299 r + 0.587 g + 0.114 b)` in `detectEdges`
  (src/app/lines/page.tsx:573-579): floating point, and not part of the modelled logic.
- The real θ and ρ values of a detected line (`t·π/180`, `r - maxRho`): lines are identified by
  their bins. The line vote grid is the red channel only, indexed `r*180 + t`, without the RGBA
  stride of 4.
- Vote counts are unbounded naturals: a `Uint32Array` cell cannot overflow with at most
  24 votes per edge pixel.
- The debug statistics loops (`maxVotes`, `totalNonZero`) and all `console` output.
- Number formatting (`toFixed(2)`, `${width}`): `d` is a sequence of commands, and the
  document's numbers go through a formatter parameter `show`.
- `Math.random` is a parameter: the draws of the n-th Bezier curve. `window.innerWidth` and
  `window.innerHeight` are parameters too.
- Zero or negative frame or window sizes: the model requires positive sizes. The source gives
  a degenerate but finite fit when one side is zero or negative, and NaN only when both the
  frame width and height are 0.
- Distances are compared squared: `sqrt(d²) <= m` is `d² <= m²` for m >= 0, and `dist < 30`
  is `dx² + dy² < 900`.
- The SVG markup of `<path>` and `<g>` elements: the model keeps their content (commands,
  stroke, width, fill, opacity, dash). The fixed round line cap and join and the whitespace
  are not modelled.
- `extractBlurTexture`'s `putImageData` and the `Uint8ClampedArray` type: the flipped buffer
  is returned. The copy of the same flip loop in src/app/svg/page.tsx:200-207 is the same
  computation.
- React pages and hooks, presets, animation and scheduling, `generateSVGFromFramebuffer`
  (which only binds a framebuffer and calls through), and the stub geometry utilities are
  not part of this model.
- JavaScript doubles in `generateSVG` and `calculateDashOffset` are exact reals here, so
  equalities the model proves hold in the source only up to rounding: for example
  `calculateDashOffset(0.1)` and `calculateDashOffset(35000.1)` differ in the last digit.
- DashOffset.OffsetPeriodic: stated for t >= 0 only, since for negative times JavaScript's `%`
  keeps the sign and the period is crossed at 0; and it holds exactly on reals, while in
  doubles the two offsets agree only up to rounding.
- BezierPath.InteriorJoinsSmooth: stated without the wiggle, since a random divisor moves the
  curve's end off the midpoint and the tangents no longer agree; and it holds exactly on
  reals, while in doubles the midpoint and the tangents agree only up to rounding.
