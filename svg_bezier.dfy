/** `generateBezierPath` (src/utils/svg/generateSVG.ts): a path through a polyline drawn as
    quadratic curves whose controls are the interior points and whose ends are the midpoints
    between neighbours, so consecutive curves join smoothly. With "wiggle" each midpoint is
    computed with a random divisor in [1.975, 2.025) instead of 2; the random draws are a
    parameter (draw i is the `Math.random()` value used for interior point i). */
module BezierPath {
  import opened SvgGeometry

  /** `getRandomDivisor`: 1.975 + u * 0.05 for a draw u of `Math.random()`. */
  function RandomDivisor(u: real): (d: real)
    ensures 0.0 <= u < 1.0 ==> 1.975 <= d < 2.025
  {
    1.975 + u * 0.05
  }

  /** Every draw lies in [0, 1), as `Math.random()` promises. */
  ghost predicate ValidDraws(draws: nat -> real)
  {
    forall i :: 0.0 <= draws(i) < 1.0
  }

  /** The divisor of interior point i. */
  function Divisor(useWiggle: bool, draws: nat -> real, i: nat): (d: real)
    requires ValidDraws(draws)
    ensures useWiggle ==> 1.975 <= d < 2.025
    ensures !useWiggle ==> d == 2.0
  {
    if useWiggle then RandomDivisor(draws(i)) else 2.0
  }

  /** `(a + b) / divisor`, coordinate-wise. */
  function Between(a: Point, b: Point, divisor: real): Point
    requires divisor != 0.0
  {
    Point((a.x + b.x) / divisor, (a.y + b.y) / divisor)
  }

  /** The curve of interior point i: control at the point, end between it and the next. */
  function InteriorCurve(points: seq<Point>, useWiggle: bool, draws: nat -> real, i: nat): Command
    requires ValidDraws(draws) && i + 1 < |points|
  {
    QuadTo(points[i], Between(points[i], points[i + 1], Divisor(useWiggle, draws, i)))
  }

  /** The curves of interior points 1, ..., k - 1, in order. */
  function Interior(points: seq<Point>, useWiggle: bool, draws: nat -> real, k: nat): seq<Command>
    requires ValidDraws(draws) && 1 <= k < |points|
  {
    if k == 1 then [] else Interior(points, useWiggle, draws, k - 1) + [InteriorCurve(points, useWiggle, draws, k - 1)]
  }

  /** The whole path: nothing for fewer than two points, a straight segment for two, and
      otherwise a move to the first point, the interior curves and a final curve with the
      second-last point as control and the last point as end. */
  function Bezier(points: seq<Point>, useWiggle: bool, draws: nat -> real): seq<Command>
    requires ValidDraws(draws)
  {
    if |points| < 2 then []
    else if |points| == 2 then [MoveTo(points[0]), LineTo(points[1])]
    else [MoveTo(points[0])] + Interior(points, useWiggle, draws, |points| - 1) +
         [QuadTo(points[|points| - 2], points[|points| - 1])]
  }

  /** The command loop of `generateBezierPath`. */
  method BezierCommands(points: seq<Point>, useWiggle: bool, draws: nat -> real) returns (commands: seq<Command>)
    requires ValidDraws(draws)
    ensures commands == Bezier(points, useWiggle, draws)
  {
    if |points| < 2 {
      return [];
    }
    if |points| == 2 {
      return [MoveTo(points[0]), LineTo(points[1])];
    }
    commands := [MoveTo(points[0])];
    for i := 1 to |points| - 1
      invariant commands == [MoveTo(points[0])] + Interior(points, useWiggle, draws, i)
    {
      var divisor := Divisor(useWiggle, draws, i);
      var end := Between(points[i], points[i + 1], divisor);
      commands := commands + [QuadTo(points[i], end)];
    }
    var last := points[|points| - 1];
    var secondLast := points[|points| - 2];
    commands := commands + [QuadTo(secondLast, last)];
  }

  lemma {:induction false} InteriorAt(points: seq<Point>, useWiggle: bool, draws: nat -> real, k: nat)
    requires ValidDraws(draws) && 1 <= k < |points|
    ensures |Interior(points, useWiggle, draws, k)| == k - 1
    ensures forall j :: 0 <= j < k - 1 ==> Interior(points, useWiggle, draws, k)[j] == InteriorCurve(points, useWiggle, draws, j + 1)
    decreases k
  {
    if k > 1 {
      InteriorAt(points, useWiggle, draws, k - 1);
    }
  }

  /** The shape of the path by point count: empty below two points, `M p0 L p1` for two,
      and for n >= 3 one move to p0 followed by exactly n - 1 curves, where curve i
      (1 <= i <= n - 2) has control p_i and ends between p_i and p_(i+1), and the last has
      control p_(n-2) and ends at p_(n-1). */
  lemma BezierShape(points: seq<Point>, useWiggle: bool, draws: nat -> real)
    requires ValidDraws(draws)
    ensures |points| < 2 ==> Bezier(points, useWiggle, draws) == []
    ensures |points| == 2 ==> Bezier(points, useWiggle, draws) == [MoveTo(points[0]), LineTo(points[1])]
    ensures |points| >= 3 ==>
      && |Bezier(points, useWiggle, draws)| == |points|
      && Bezier(points, useWiggle, draws)[0] == MoveTo(points[0])
      && (forall i :: 1 <= i < |points| ==> Bezier(points, useWiggle, draws)[i].QuadTo?)
      && (forall i :: 1 <= i < |points| - 1 ==> Bezier(points, useWiggle, draws)[i] == InteriorCurve(points, useWiggle, draws, i))
      && Bezier(points, useWiggle, draws)[|points| - 1] == QuadTo(points[|points| - 2], points[|points| - 1])
  {
    if |points| >= 3 {
      var n := |points|;
      var inner := Interior(points, useWiggle, draws, n - 1);
      InteriorAt(points, useWiggle, draws, n - 1);
      var b := [MoveTo(points[0])] + inner + [QuadTo(points[n - 2], points[n - 1])];
      assert Bezier(points, useWiggle, draws) == b;
      assert forall i :: 1 <= i < n - 1 ==> b[i] == inner[i - 1];
    }
  }

  /** The path starts at the first point and ends at the last one. */
  lemma BezierEndpoints(points: seq<Point>, useWiggle: bool, draws: nat -> real)
    requires ValidDraws(draws) && |points| >= 2
    ensures Bezier(points, useWiggle, draws)[0] == MoveTo(points[0])
    ensures Bezier(points, useWiggle, draws)[|Bezier(points, useWiggle, draws)| - 1].to == points[|points| - 1]
  {
    BezierShape(points, useWiggle, draws);
  }

  function Sub(a: Point, b: Point): Point
  {
    Point(a.x - b.x, a.y - b.y)
  }

  function Half(v: Point): Point
  {
    Point(v.x / 2.0, v.y / 2.0)
  }

  /** Without wiggle, consecutive interior curves join smoothly: at each join the direction in
      which one curve arrives (end minus control) is the direction in which the next leaves
      (its control minus the join), namely half the step between the two controls. */
  lemma InteriorJoinsSmooth(points: seq<Point>, draws: nat -> real, i: nat)
    requires ValidDraws(draws) && 1 <= i && i + 1 < |points| - 1
    ensures |Bezier(points, false, draws)| == |points|
    ensures Bezier(points, false, draws)[i].QuadTo? && Bezier(points, false, draws)[i + 1].QuadTo?
    ensures Sub(Bezier(points, false, draws)[i].to, Bezier(points, false, draws)[i].control)
         == Sub(Bezier(points, false, draws)[i + 1].control, Bezier(points, false, draws)[i].to)
         == Half(Sub(points[i + 1], points[i]))
  {
    BezierShape(points, false, draws);
  }

  /** Without wiggle, the final curve leaves its start in the direction opposite to the one
      in which the previous curve arrived: both curves have the second-last point as control,
      so the path arrives at the join heading towards the last point and leaves it heading
      back towards the second-last one. */
  lemma FinalJoinReverses(points: seq<Point>, draws: nat -> real)
    requires ValidDraws(draws) && |points| >= 3
    ensures |Bezier(points, false, draws)| == |points|
    ensures Bezier(points, false, draws)[|points| - 2].QuadTo? && Bezier(points, false, draws)[|points| - 1].QuadTo?
    ensures Sub(Bezier(points, false, draws)[|points| - 2].to, Bezier(points, false, draws)[|points| - 2].control)
         == Half(Sub(points[|points| - 1], points[|points| - 2]))
    ensures Sub(Bezier(points, false, draws)[|points| - 1].control, Bezier(points, false, draws)[|points| - 2].to)
         == Half(Sub(points[|points| - 2], points[|points| - 1]))
  {
    BezierShape(points, false, draws);
  }
}
