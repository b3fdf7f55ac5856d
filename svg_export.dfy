/** `generateSVG` (src/utils/svg/generateSVG.ts): the edge paths of one frame become a group
    of SVG `<path>` elements. In the connected mode (when `connectEdges` is set and there is at
    least one path) all paths are drawn as one element; otherwise every path with at least two
    points becomes an element of its own. The markup is modelled by its content: the
    commands of `d`, the stroke, the scaled stroke width, the fill, the opacity and the
    optional dash; number formatting is not modelled. `Math.random` is a parameter: `draws(n)`
    is the sequence of draws used by the n-th Bezier curve built. */
module SvgExport {
  import opened SvgGeometry
  import BezierPath
  import ConnectEdges
  import DashOffset

  /** The optional parameters of `generateSVG`, with the source's defaults left to callers. */
  datatype Options = Options(
    strokeWidth: real,
    strokeColor: string,
    time: Option<real>,
    globalOpacity: Option<real>,
    fill: string,
    connectEdges: bool,
    useBezier: bool,
    groupId: string,
    useWiggle: bool,
    useDashArray: bool,
    dashSize: real)

  datatype Dash = Dash(size: real, offset: real)

  /** One `<path>` element. Line caps and joins are always round and are not modelled. */
  datatype PathElement = PathElement(d: seq<Command>, stroke: string, strokeWidth: real, fill: string,
                                     opacity: real, dash: Option<Dash>)

  /** `<g id="groupId"> ... </g>`. */
  datatype Group = Group(id: string, elements: seq<PathElement>)

  const MinPathOpacity: real := 0.3

  /** The dash offset: the saw-tooth at `time`, or 0 without a time. */
  function DashOffsetAt(time: Option<real>): (offset: real)
    ensures time.None? ==> offset == 0.0
    ensures time.Some? && time.value >= 0.0 ==> DashOffset.MinOffset < offset <= DashOffset.MaxOffset
  {
    if time.Some? then DashOffset.Offset(time.value) else 0.0
  }

  function DashOf(options: Options): Option<Dash>
  {
    if options.useDashArray then Some(Dash(options.dashSize, DashOffsetAt(options.time))) else None
  }

  /** The global opacity when one is given, the mode's own opacity otherwise. */
  function OpacityOf(globalOpacity: Option<real>, own: real): real
  {
    if globalOpacity.Some? then globalOpacity.value else own
  }

  /** `Math.max(0.3, intensity)`. */
  function PathOpacity(intensity: real): (o: real)
    ensures o >= MinPathOpacity && o >= intensity
    ensures o == MinPathOpacity || o == intensity
  {
    if MinPathOpacity >= intensity then MinPathOpacity else intensity
  }

  /** The element with the attributes every element shares. */
  function Element(d: seq<Command>, options: Options, fit: Fit, opacity: real): PathElement
  {
    PathElement(d, options.strokeColor, ScaledStrokeWidth(options.strokeWidth, fit), options.fill, opacity, DashOf(options))
  }

  // ---------------------------------------------------------------- separate paths

  /** The straight `d` of one path: a move to its first window point, lines to the others. */
  function PolylineCommands(points: seq<Point>, height: real, fit: Fit): (d: seq<Command>)
    ensures |d| == |points|
    ensures |points| > 0 ==> d[0].MoveTo?
    ensures forall k :: 0 < k < |d| ==> d[k].LineTo?
    ensures forall k :: 0 <= k < |d| ==> d[k].to == ToWindow(points[k], height, fit)
  {
    seq(|points|, k requires 0 <= k < |points| =>
      if k == 0 then MoveTo(ToWindow(points[k], height, fit)) else LineTo(ToWindow(points[k], height, fit)))
  }

  function SeparateElement(path: EdgePath, options: Options, height: real, fit: Fit, draws: nat -> real): PathElement
    requires BezierPath.ValidDraws(draws)
  {
    var d := if options.useBezier then BezierPath.Bezier(WindowPoints(path.points, height, fit), options.useWiggle, draws)
             else PolylineCommands(path.points, height, fit);
    Element(d, options, fit, OpacityOf(options.globalOpacity, PathOpacity(path.intensity)))
  }

  /** The separate mode from path j on; n is the number of Bezier curves built so far.
      Paths with fewer than two points give the empty string, which is filtered out. */
  function SeparateElements(paths: seq<EdgePath>, j: nat, n: nat, options: Options, height: real, fit: Fit,
                            draws: nat -> nat -> real): seq<PathElement>
    requires forall m :: BezierPath.ValidDraws(draws(m))
    decreases |paths| - j
  {
    if j >= |paths| then []
    else if |paths[j].points| < 2 then SeparateElements(paths, j + 1, n, options, height, fit, draws)
    else [SeparateElement(paths[j], options, height, fit, draws(n))] + SeparateElements(paths, j + 1, n + 1, options, height, fit, draws)
  }

  /** The paths that are drawn: those with at least two points, in order. */
  function Drawn(paths: seq<EdgePath>, j: nat): seq<EdgePath>
    decreases |paths| - j
  {
    if j >= |paths| then []
    else (if |paths[j].points| < 2 then [] else [paths[j]]) + Drawn(paths, j + 1)
  }

  // ---------------------------------------------------------------- connected paths

  /** `segments.map(seg => generateBezierPath(seg, useWiggle)).join(' ')` from segment k on. */
  function BezierChain(segments: seq<seq<Point>>, k: nat, useWiggle: bool, draws: nat -> nat -> real): seq<Command>
    requires forall m :: BezierPath.ValidDraws(draws(m))
    decreases |segments| - k
  {
    if k >= |segments| then []
    else BezierPath.Bezier(segments[k], useWiggle, draws(k)) + BezierChain(segments, k + 1, useWiggle, draws)
  }

  function ConnectedElement(paths: seq<EdgePath>, options: Options, height: real, fit: Fit, maxGap: real,
                            draws: nat -> nat -> real): PathElement
    requires forall m :: BezierPath.ValidDraws(draws(m))
  {
    var d := if options.useBezier
             then BezierChain(ConnectEdges.Segments(paths, height, fit, maxGap), 0, options.useWiggle, draws)
             else ConnectEdges.Straight(paths, height, fit, maxGap);
    Element(d, options, fit, OpacityOf(options.globalOpacity, 1.0))
  }

  predicate Connected(paths: seq<EdgePath>, options: Options)
  {
    options.connectEdges && |paths| > 0
  }

  /** The group `generateSVG` builds for a `width x height` frame in an
      `innerWidth x innerHeight` window. */
  function Svg(paths: seq<EdgePath>, width: real, height: real, innerWidth: real, innerHeight: real,
               options: Options, draws: nat -> nat -> real): Group
    requires width > 0.0 && height > 0.0 && innerWidth > 0.0 && innerHeight > 0.0
    requires forall m :: BezierPath.ValidDraws(draws(m))
  {
    var fit := FitToWindow(width, height, innerWidth, innerHeight);
    var elements :=
      if Connected(paths, options)
      then [ConnectedElement(paths, options, height, fit, ConnectEdges.MaxGap(innerWidth, innerHeight), draws)]
      else SeparateElements(paths, 0, 0, options, height, fit, draws);
    Group(options.groupId, elements)
  }

  /** The join of the Bezier curves of all segments. */
  method ChainSegments(segments: seq<seq<Point>>, useWiggle: bool, draws: nat -> nat -> real) returns (d: seq<Command>)
    requires forall m :: BezierPath.ValidDraws(draws(m))
    ensures d == BezierChain(segments, 0, useWiggle, draws)
  {
    d := [];
    for k := 0 to |segments|
      invariant d + BezierChain(segments, k, useWiggle, draws) == BezierChain(segments, 0, useWiggle, draws)
    {
      var curve := BezierPath.BezierCommands(segments[k], useWiggle, draws(k));
      assert BezierChain(segments, k, useWiggle, draws) == curve + BezierChain(segments, k + 1, useWiggle, draws);
      assert d + curve + BezierChain(segments, k + 1, useWiggle, draws) == d + (curve + BezierChain(segments, k + 1, useWiggle, draws));
      d := d + curve;
    }
  }

  /** `generateSVG`. */
  method GenerateSvg(paths: seq<EdgePath>, width: real, height: real, innerWidth: real, innerHeight: real,
                     options: Options, draws: nat -> nat -> real) returns (group: Group)
    requires width > 0.0 && height > 0.0 && innerWidth > 0.0 && innerHeight > 0.0
    requires forall m :: BezierPath.ValidDraws(draws(m))
    ensures group == Svg(paths, width, height, innerWidth, innerHeight, options, draws)
  {
    var fit := FitToWindow(width, height, innerWidth, innerHeight);
    var elements: seq<PathElement>;
    if options.connectEdges && |paths| > 0 {
      var maxGap := ConnectEdges.MaxGap(innerWidth, innerHeight);
      var d;
      if options.useBezier {
        var segments := ConnectEdges.CollectSegments(paths, height, fit, maxGap);
        d := ChainSegments(segments, options.useWiggle, draws);
      } else {
        d := ConnectEdges.ConnectStraight(paths, height, fit, maxGap);
      }
      elements := [Element(d, options, fit, OpacityOf(options.globalOpacity, 1.0))];
    } else {
      elements := SeparateElements(paths, 0, 0, options, height, fit, draws);
    }
    group := Group(options.groupId, elements);
  }

  // ---------------------------------------------------------------- properties

  /** The elements of the drawn paths, the k-th built with the draws of curve n + k. */
  function DrawnElements(drawn: seq<EdgePath>, n: nat, options: Options, height: real, fit: Fit,
                         draws: nat -> nat -> real): (elements: seq<PathElement>)
    requires forall m :: BezierPath.ValidDraws(draws(m))
    ensures |elements| == |drawn|
  {
    seq(|drawn|, k requires 0 <= k < |drawn| => SeparateElement(drawn[k], options, height, fit, draws(n + k)))
  }

  lemma DrawnElementsCons(path: EdgePath, rest: seq<EdgePath>, n: nat, options: Options, height: real, fit: Fit,
                          draws: nat -> nat -> real)
    requires forall m :: BezierPath.ValidDraws(draws(m))
    ensures DrawnElements([path] + rest, n, options, height, fit, draws)
         == [SeparateElement(path, options, height, fit, draws(n))] + DrawnElements(rest, n + 1, options, height, fit, draws)
  {
    var all := DrawnElements([path] + rest, n, options, height, fit, draws);
    var tail := DrawnElements(rest, n + 1, options, height, fit, draws);
    forall k | 1 <= k < |all|
      ensures all[k] == tail[k - 1]
    {
      assert ([path] + rest)[k] == rest[k - 1];
      assert (n + 1) + (k - 1) == n + k;
    }
  }

  lemma {:induction false} SeparateElementsMatchDrawn(paths: seq<EdgePath>, j: nat, n: nat, options: Options, height: real,
                                                      fit: Fit, draws: nat -> nat -> real)
    requires forall m :: BezierPath.ValidDraws(draws(m))
    ensures SeparateElements(paths, j, n, options, height, fit, draws) == DrawnElements(Drawn(paths, j), n, options, height, fit, draws)
    decreases |paths| - j
  {
    if j < |paths| {
      if |paths[j].points| < 2 {
        SeparateElementsMatchDrawn(paths, j + 1, n, options, height, fit, draws);
        assert Drawn(paths, j) == Drawn(paths, j + 1);
      } else {
        SeparateElementsMatchDrawn(paths, j + 1, n + 1, options, height, fit, draws);
        assert Drawn(paths, j) == [paths[j]] + Drawn(paths, j + 1);
        DrawnElementsCons(paths[j], Drawn(paths, j + 1), n, options, height, fit, draws);
      }
    }
  }

  lemma {:induction false} DrawnPaths(paths: seq<EdgePath>, j: nat)
    ensures forall p :: p in Drawn(paths, j) <==> exists i :: j <= i < |paths| && paths[i] == p && |p.points| >= 2
    decreases |paths| - j
  {
    if j < |paths| {
      DrawnPaths(paths, j + 1);
    }
  }

  /** The separate mode: one element per path with at least two points, in order, the k-th
      drawn with the draws of curve k. */
  lemma SvgSeparate(paths: seq<EdgePath>, width: real, height: real, innerWidth: real, innerHeight: real,
                    options: Options, draws: nat -> nat -> real)
    requires width > 0.0 && height > 0.0 && innerWidth > 0.0 && innerHeight > 0.0
    requires forall m :: BezierPath.ValidDraws(draws(m))
    requires !Connected(paths, options)
    ensures Svg(paths, width, height, innerWidth, innerHeight, options, draws).elements
         == DrawnElements(Drawn(paths, 0), 0, options, height, FitToWindow(width, height, innerWidth, innerHeight), draws)
  {
    SeparateElementsMatchDrawn(paths, 0, 0, options, height, FitToWindow(width, height, innerWidth, innerHeight), draws);
  }

  /** The element of one path: the shared attributes, the global opacity when given and
      otherwise the path's intensity but at least 0.3, and as `d` the Bezier curve through the
      path's window points or a move to the first window point followed by lines to the
      others. */
  lemma SeparateElementFacts(path: EdgePath, options: Options, height: real, fit: Fit, draws: nat -> real)
    requires BezierPath.ValidDraws(draws)
    ensures SeparateElement(path, options, height, fit, draws).stroke == options.strokeColor
    ensures SeparateElement(path, options, height, fit, draws).strokeWidth == ScaledStrokeWidth(options.strokeWidth, fit)
    ensures SeparateElement(path, options, height, fit, draws).fill == options.fill
    ensures SeparateElement(path, options, height, fit, draws).dash == DashOf(options)
    ensures options.globalOpacity.None? ==>
      SeparateElement(path, options, height, fit, draws).opacity >= MinPathOpacity &&
      SeparateElement(path, options, height, fit, draws).opacity >= path.intensity
    ensures options.globalOpacity.Some? ==> SeparateElement(path, options, height, fit, draws).opacity == options.globalOpacity.value
    ensures options.useBezier ==>
      SeparateElement(path, options, height, fit, draws).d == BezierPath.Bezier(WindowPoints(path.points, height, fit), options.useWiggle, draws)
    ensures !options.useBezier ==>
      SeparateElement(path, options, height, fit, draws).d == PolylineCommands(path.points, height, fit)
  {
  }

  /** The connected mode: a single element, opaque unless a global opacity is given; drawn
      straight, its `d` is the reference pen drawing over all visited points (a move exactly
      where the gap is too large); drawn with curves, it is the join of one Bezier curve per
      segment, and every segment has at least two points. */
  lemma SvgConnected(paths: seq<EdgePath>, width: real, height: real, innerWidth: real, innerHeight: real,
                     options: Options, draws: nat -> nat -> real)
    requires width > 0.0 && height > 0.0 && innerWidth > 0.0 && innerHeight > 0.0
    requires forall m :: BezierPath.ValidDraws(draws(m))
    requires Connected(paths, options)
    ensures |Svg(paths, width, height, innerWidth, innerHeight, options, draws).elements| == 1
    ensures Svg(paths, width, height, innerWidth, innerHeight, options, draws).elements[0].opacity
         == (if options.globalOpacity.Some? then options.globalOpacity.value else 1.0)
    ensures !options.useBezier ==>
      Svg(paths, width, height, innerWidth, innerHeight, options, draws).elements[0].d
        == ConnectEdges.PenCommands(ConnectEdges.Stops(paths, 0, height, FitToWindow(width, height, innerWidth, innerHeight)),
                                    ConnectEdges.MaxGap(innerWidth, innerHeight))
    ensures options.useBezier ==>
      var segments := ConnectEdges.Segments(paths, height, FitToWindow(width, height, innerWidth, innerHeight),
                                            ConnectEdges.MaxGap(innerWidth, innerHeight));
      && Svg(paths, width, height, innerWidth, innerHeight, options, draws).elements[0].d
           == BezierChain(segments, 0, options.useWiggle, draws)
      && (forall k :: 0 <= k < |segments| ==> |segments[k]| >= 2)
  {
    var fit := FitToWindow(width, height, innerWidth, innerHeight);
    var maxGap := ConnectEdges.MaxGap(innerWidth, innerHeight);
    ConnectEdges.StraightClosedForm(paths, height, fit, maxGap);
    ConnectEdges.SegmentsAreLong(paths, height, fit, maxGap);
  }

  /** A lone path is drawn the same whether paths are connected or not. */
  lemma LonePathSameInBothModes(path: EdgePath, height: real, fit: Fit, maxGap: real)
    requires |path.points| >= 2
    ensures ConnectEdges.Straight([path], height, fit, maxGap) == PolylineCommands(path.points, height, fit)
  {
    ConnectEdges.StraightClosedForm([path], height, fit, maxGap);
    var stops := ConnectEdges.Stops([path], 0, height, fit);
    assert stops == ConnectEdges.PathStops(path.points, height, fit) + ConnectEdges.Stops([path], 1, height, fit);
    assert stops == ConnectEdges.PathStops(path.points, height, fit);
  }
}
