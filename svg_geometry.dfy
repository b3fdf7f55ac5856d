/** Geometry of the SVG export (src/utils/svg/generateSVG.ts): the affine point transform,
    the aspect-preserving fit of the video frame into the window, and the vertical flip from
    the bottom-left origin of WebGL to the top-left origin of SVG. Coordinates are reals. */
module SvgGeometry {

  datatype Point = Point(x: real, y: real)

  /** An edge path of the frame (src/types/svg.ts): its points and its intensity. */
  datatype EdgePath = EdgePath(points: seq<Point>, intensity: real)

  datatype Option<T> = None | Some(value: T)

  /** One command of an SVG path's `d` attribute (M, L or Q); number formatting is not modelled. */
  datatype Command = MoveTo(to: Point) | LineTo(to: Point) | QuadTo(control: Point, to: Point)

  /** `transformPoint`: the affine map (x, y) |-> (x * scaleX + translateX, y * scaleY + translateY).
      It is undone by subtracting the translation and dividing by the scale, and the unit scale
      with no translation leaves the point where it is. */
  function TransformPoint(x: real, y: real, scaleX: real, scaleY: real, translateX: real, translateY: real): (r: Point)
    ensures scaleX != 0.0 ==> (r.x - translateX) / scaleX == x
    ensures scaleY != 0.0 ==> (r.y - translateY) / scaleY == y
    ensures scaleX == scaleY == 1.0 && translateX == translateY == 0.0 ==> r == Point(x, y)
  {
    ScaleCancels(x, scaleX, translateX);
    ScaleCancels(y, scaleY, translateY);
    Point(x * scaleX + translateX, y * scaleY + translateY)
  }

  /** Dividing by a non-zero scale undoes multiplying by it. */
  lemma ScaleCancels(v: real, scale: real, translate: real)
    ensures scale != 0.0 ==> (v * scale + translate - translate) / scale == v
  {
    if scale != 0.0 {
      assert v * scale + translate - translate == v * scale;
      assert v * scale / scale == v;
    }
  }

  function SqDist(p: Point, q: Point): real
  {
    (p.x - q.x) * (p.x - q.x) + (p.y - q.y) * (p.y - q.y)
  }

  /** A uniform transform scales every distance by the same factor. */
  lemma UniformTransformScalesDistance(a: Point, b: Point, scale: real, translateX: real, translateY: real)
    ensures SqDist(TransformPoint(a.x, a.y, scale, scale, translateX, translateY),
                   TransformPoint(b.x, b.y, scale, scale, translateX, translateY))
         == scale * scale * SqDist(a, b)
  {
    var dx := a.x - b.x;
    var dy := a.y - b.y;
    assert (a.x * scale + translateX) - (b.x * scale + translateX) == dx * scale;
    assert (a.y * scale + translateY) - (b.y * scale + translateY) == dy * scale;
    assert (dx * scale) * (dx * scale) == scale * scale * (dx * dx);
    assert (dy * scale) * (dy * scale) == scale * scale * (dy * dy);
  }

  /** A uniform scale and a translation. */
  datatype Fit = Fit(scale: real, translateX: real, translateY: real)

  lemma WiderWindow(width: real, height: real, innerWidth: real, innerHeight: real)
    requires width > 0.0 && height > 0.0 && innerWidth > 0.0 && innerHeight > 0.0
    requires innerWidth / innerHeight > width / height
    ensures width * (innerHeight / height) < innerWidth
  {
    assert width * (innerHeight / height) == (width / height) * innerHeight;
    assert (innerWidth / innerHeight) * innerHeight == innerWidth;
  }

  lemma NarrowerWindow(width: real, height: real, innerWidth: real, innerHeight: real)
    requires width > 0.0 && height > 0.0 && innerWidth > 0.0 && innerHeight > 0.0
    requires !(innerWidth / innerHeight > width / height)
    ensures height * (innerWidth / width) <= innerHeight
  {
    assert height * (innerWidth / width) == (innerWidth / innerHeight) * innerHeight / (width / height);
  }

  /** The fit of a `width x height` frame into an `innerWidth x innerHeight` window: when the
      window is wider than the frame, fit the height and centre horizontally; otherwise fit
      the width and centre vertically. In both cases the scale is uniform and positive, the
      scaled frame fits inside the window and fills it in one dimension (so no larger uniform
      scale fits), and it is centred in both directions. */
  function FitToWindow(width: real, height: real, innerWidth: real, innerHeight: real): (f: Fit)
    requires width > 0.0 && height > 0.0 && innerWidth > 0.0 && innerHeight > 0.0
    ensures f.scale > 0.0
    ensures width * f.scale <= innerWidth && height * f.scale <= innerHeight
    ensures width * f.scale == innerWidth || height * f.scale == innerHeight
    ensures f.translateX == (innerWidth - width * f.scale) / 2.0
    ensures f.translateY == (innerHeight - height * f.scale) / 2.0
  {
    if innerWidth / innerHeight > width / height then
      var scale := innerHeight / height;
      WiderWindow(width, height, innerWidth, innerHeight);
      Fit(scale, (innerWidth - width * scale) / 2.0, 0.0)
    else
      var scale := innerWidth / width;
      NarrowerWindow(width, height, innerWidth, innerHeight);
      Fit(scale, 0.0, (innerHeight - height * scale) / 2.0)
  }

  /** A window of the frame's own size leaves every point where it is. */
  lemma FitSameSize(width: real, height: real)
    requires width > 0.0 && height > 0.0
    ensures FitToWindow(width, height, width, height) == Fit(1.0, 0.0, 0.0)
  {
    assert !(width / height > width / height);
  }

  /** From frame coordinates (origin bottom-left) to window coordinates (origin top-left):
      y becomes `height - y`, then the uniform fit is applied. The frame point is recovered
      from its window image, and a window of the frame's own size only flips it. */
  function ToWindow(p: Point, height: real, fit: Fit): (r: Point)
    ensures fit.scale != 0.0 ==> p == Point((r.x - fit.translateX) / fit.scale, height - (r.y - fit.translateY) / fit.scale)
    ensures fit == Fit(1.0, 0.0, 0.0) ==> r == Point(p.x, height - p.y)
  {
    TransformPoint(p.x, height - p.y, fit.scale, fit.scale, fit.translateX, fit.translateY)
  }

  /** The window images of a path's points, in order. */
  function WindowPoints(points: seq<Point>, height: real, fit: Fit): (r: seq<Point>)
    ensures |r| == |points|
  {
    seq(|points|, k requires 0 <= k < |points| => ToWindow(points[k], height, fit))
  }

  lemma ScaleMonotone(a: real, b: real, scale: real)
    requires a <= b && scale > 0.0
    ensures a * scale <= b * scale
  {
  }

  lemma ScaleStrictlyMonotone(a: real, b: real, scale: real)
    requires a < b && scale > 0.0
    ensures a * scale < b * scale
  {
  }

  /** A coordinate in [0, size] lands in [0, inner] under a positive scale that fits `size`
      into `inner`, with the centring translation. */
  lemma CentredInside(v: real, size: real, inner: real, scale: real, translate: real)
    requires 0.0 <= v <= size && scale > 0.0 && size * scale <= inner
    requires translate == (inner - size * scale) / 2.0
    ensures 0.0 <= v * scale + translate <= inner
  {
    ScaleMonotone(0.0, v, scale);
    ScaleMonotone(v, size, scale);
  }

  /** Any centred fit of the frame inside the window draws the frame inside the window. */
  lemma CentredFitInside(p: Point, width: real, height: real, innerWidth: real, innerHeight: real, fit: Fit)
    requires 0.0 <= p.x <= width && 0.0 <= p.y <= height
    requires fit.scale > 0.0 && width * fit.scale <= innerWidth && height * fit.scale <= innerHeight
    requires fit.translateX == (innerWidth - width * fit.scale) / 2.0
    requires fit.translateY == (innerHeight - height * fit.scale) / 2.0
    ensures 0.0 <= ToWindow(p, height, fit).x <= innerWidth
    ensures 0.0 <= ToWindow(p, height, fit).y <= innerHeight
  {
    CentredInside(p.x, width, innerWidth, fit.scale, fit.translateX);
    CentredInside(height - p.y, height, innerHeight, fit.scale, fit.translateY);
  }

  /** A point of the frame lands inside the window. */
  lemma ToWindowInside(p: Point, width: real, height: real, innerWidth: real, innerHeight: real)
    requires width > 0.0 && height > 0.0 && innerWidth > 0.0 && innerHeight > 0.0
    requires 0.0 <= p.x <= width && 0.0 <= p.y <= height
    ensures 0.0 <= ToWindow(p, height, FitToWindow(width, height, innerWidth, innerHeight)).x <= innerWidth
    ensures 0.0 <= ToWindow(p, height, FitToWindow(width, height, innerWidth, innerHeight)).y <= innerHeight
  {
    CentredFitInside(p, width, height, innerWidth, innerHeight, FitToWindow(width, height, innerWidth, innerHeight));
  }

  /** The flip turns the picture upside down: a point higher up in the frame (larger y) is
      drawn higher up in the window (smaller y), and horizontal order is kept. */
  lemma ToWindowOrientation(p: Point, q: Point, height: real, fit: Fit)
    requires fit.scale > 0.0
    ensures p.y < q.y ==> ToWindow(q, height, fit).y < ToWindow(p, height, fit).y
    ensures p.x < q.x ==> ToWindow(p, height, fit).x < ToWindow(q, height, fit).x
  {
    if p.y < q.y {
      assert (height - q.y) * fit.scale < (height - p.y) * fit.scale;
    }
    if p.x < q.x {
      ScaleStrictlyMonotone(p.x, q.x, fit.scale);
      assert ToWindow(p, height, fit).x == p.x * fit.scale + fit.translateX;
      assert ToWindow(q, height, fit).x == q.x * fit.scale + fit.translateX;
    }
  }

  /** `strokeWidth * scaleX * 2`: the stroke grows with the fit. */
  function ScaledStrokeWidth(strokeWidth: real, fit: Fit): (w: real)
    ensures fit.scale > 0.0 && strokeWidth > 0.0 ==> w > 0.0
    ensures fit.scale == 1.0 ==> w == 2.0 * strokeWidth
  {
    strokeWidth * fit.scale * 2.0
  }

  /** Flipping and fitting scale every squared distance by the square of the fit's scale. */
  lemma WindowScalesDistance(a: Point, b: Point, height: real, fit: Fit)
    ensures SqDist(ToWindow(a, height, fit), ToWindow(b, height, fit)) == fit.scale * fit.scale * SqDist(a, b)
  {
    var p := ToWindow(a, height, fit);
    var q := ToWindow(b, height, fit);
    var s := fit.scale;
    assert p.x - q.x == (a.x - b.x) * s;
    assert p.y - q.y == (b.y - a.y) * s;
    SquareScale(a.x - b.x, s);
    SquareScale(b.y - a.y, s);
    assert (b.y - a.y) * (b.y - a.y) == (a.y - b.y) * (a.y - b.y);
  }

  lemma SquareScale(d: real, s: real)
    ensures (d * s) * (d * s) == s * s * (d * d)
  {
  }

  /** The stroke scales proportionally with the drawing: relative to the distance between any
      two frame points, the drawn stroke is as wide as twice the given stroke is in the frame. */
  lemma StrokeScalesWithDrawing(strokeWidth: real, a: Point, b: Point, height: real, fit: Fit)
    ensures ScaledStrokeWidth(strokeWidth, fit) * ScaledStrokeWidth(strokeWidth, fit) * SqDist(a, b)
         == (2.0 * strokeWidth) * (2.0 * strokeWidth) * SqDist(ToWindow(a, height, fit), ToWindow(b, height, fit))
  {
    WindowScalesDistance(a, b, height, fit);
    var u := 2.0 * strokeWidth;
    assert ScaledStrokeWidth(strokeWidth, fit) == u * fit.scale;
    Regroup(ScaledStrokeWidth(strokeWidth, fit), 2.0 * strokeWidth, fit.scale,
            SqDist(a, b), SqDist(ToWindow(a, height, fit), ToWindow(b, height, fit)));
  }

  /** Squared widths and squared distances grow by the same factor. */
  lemma Regroup(w: real, u: real, s: real, dist: real, scaled: real)
    requires w == u * s && scaled == s * s * dist
    ensures w * w * dist == u * u * scaled
  {
  }
}
