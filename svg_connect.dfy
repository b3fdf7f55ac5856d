/** The `connectEdges` modes of `generateSVG` (src/utils/svg/generateSVG.ts). All points of
    the paths with at least two points are visited in order, mapped into the window, and
    joined into one drawing; the pen is lifted between two paths only when the gap between
    the last point drawn and the next path's first point exceeds `max(innerWidth,
    innerHeight) / 6`. The straight mode emits one M or L command per point; the Bezier mode
    collects the points into segments, starting a new segment at each such gap.

    Both loops are modelled as left folds over the paths (`StraightPaths`, `SegmentPaths`),
    and both folds are characterised by a closed form over the sequence of visited points
    (`Stops`). Distances are compared squared: `sqrt(d2) <= m` iff `d2 <= m * m` for m >= 0. */
module ConnectEdges {
  import opened SvgGeometry

  /** `Math.max(innerWidth, innerHeight) / 6`. */
  function MaxGap(innerWidth: real, innerHeight: real): real
  {
    (if innerWidth >= innerHeight then innerWidth else innerHeight) / 6.0
  }

  /** The gap between p and q is at most `maxGap`. */
  predicate Near(p: Point, q: Point, maxGap: real)
  {
    SqDist(p, q) <= maxGap * maxGap
  }

  /** A visited point in window coordinates, and whether it is the first point of its path. */
  datatype Stop = Stop(at: Point, startsPath: bool)

  /** The stops of one path. */
  function PathStops(points: seq<Point>, height: real, fit: Fit): (stops: seq<Stop>)
    ensures |stops| == |points|
  {
    seq(|points|, k requires 0 <= k < |points| => Stop(ToWindow(points[k], height, fit), k == 0))
  }

  /** The stops of paths j, j + 1, ..., skipping paths with fewer than two points. */
  function Stops(paths: seq<EdgePath>, j: nat, height: real, fit: Fit): seq<Stop>
    decreases |paths| - j
  {
    if j >= |paths| then []
    else (if |paths[j].points| < 2 then [] else PathStops(paths[j].points, height, fit)) + Stops(paths, j + 1, height, fit)
  }

  function LastAt(stops: seq<Stop>): Option<Point>
  {
    if stops == [] then None else Some(stops[|stops| - 1].at)
  }

  /** Reference definition of the straight mode: the pen moves (M) to stop k exactly when it
      starts a path and is either the very first stop or too far from the previous stop;
      otherwise it draws a line (L) to it. */
  function PenCommand(stops: seq<Stop>, k: nat, maxGap: real): Command
    requires k < |stops|
  {
    if stops[k].startsPath && (k == 0 || !Near(stops[k].at, stops[k - 1].at, maxGap))
    then MoveTo(stops[k].at) else LineTo(stops[k].at)
  }

  function PenCommands(stops: seq<Stop>, maxGap: real): (cmds: seq<Command>)
    ensures |cmds| == |stops|
  {
    seq(|stops|, k requires 0 <= k < |stops| => PenCommand(stops, k, maxGap))
  }

  // ---------------------------------------------------------------- straight mode

  /** `allPoints` and `lastPoint` of the straight-lines loop. */
  datatype PenState = PenState(commands: seq<Command>, last: Option<Point>)

  /** The handling of one transformed point. */
  function StraightStep(st: PenState, t: Point, first: bool, maxGap: real): PenState
  {
    var c := if !first then LineTo(t)
             else if st.last.None? then MoveTo(t)
             else if Near(t, st.last.value, maxGap) then LineTo(t)
             else MoveTo(t);
    PenState(st.commands + [c], Some(t))
  }

  /** The inner `forEach` from point i on. */
  function StraightPoints(points: seq<Point>, i: nat, st: PenState, height: real, fit: Fit, maxGap: real): PenState
    decreases |points| - i
  {
    if i >= |points| then st
    else StraightPoints(points, i + 1, StraightStep(st, ToWindow(points[i], height, fit), i == 0, maxGap), height, fit, maxGap)
  }

  /** The outer `forEach` from path j on; paths with fewer than two points are skipped. */
  function StraightPaths(paths: seq<EdgePath>, j: nat, st: PenState, height: real, fit: Fit, maxGap: real): PenState
    decreases |paths| - j
  {
    if j >= |paths| then st
    else StraightPaths(paths, j + 1,
                       if |paths[j].points| < 2 then st else StraightPoints(paths[j].points, 0, st, height, fit, maxGap),
                       height, fit, maxGap)
  }

  function Straight(paths: seq<EdgePath>, height: real, fit: Fit, maxGap: real): seq<Command>
  {
    StraightPaths(paths, 0, PenState([], None), height, fit, maxGap).commands
  }

  /** The connected straight-lines loop. */
  method ConnectStraight(paths: seq<EdgePath>, height: real, fit: Fit, maxGap: real) returns (commands: seq<Command>)
    ensures commands == Straight(paths, height, fit, maxGap)
  {
    commands := [];
    var lastPoint: Option<Point> := None;
    for j := 0 to |paths|
      invariant StraightPaths(paths, j, PenState(commands, lastPoint), height, fit, maxGap)
             == StraightPaths(paths, 0, PenState([], None), height, fit, maxGap)
    {
      var points := paths[j].points;
      if |points| >= 2 {
        for i := 0 to |points|
          invariant StraightPaths(paths, j + 1, StraightPoints(points, i, PenState(commands, lastPoint), height, fit, maxGap), height, fit, maxGap)
                 == StraightPaths(paths, 0, PenState([], None), height, fit, maxGap)
        {
          var t := ToWindow(points[i], height, fit);
          if i == 0 {
            if lastPoint.None? {
              commands := commands + [MoveTo(t)];
            } else if Near(t, lastPoint.value, maxGap) {
              commands := commands + [LineTo(t)];
            } else {
              commands := commands + [MoveTo(t)];
            }
          } else {
            commands := commands + [LineTo(t)];
          }
          lastPoint := Some(t);
        }
      }
    }
  }

  lemma PenCommandsAppend(stops: seq<Stop>, s: Stop, maxGap: real)
    ensures PenCommands(stops + [s], maxGap) == PenCommands(stops, maxGap) + [PenCommand(stops + [s], |stops|, maxGap)]
  {
    var xs := stops + [s];
    forall k | 0 <= k < |stops|
      ensures PenCommand(xs, k, maxGap) == PenCommand(stops, k, maxGap)
    {
      assert xs[k] == stops[k];
      if k > 0 {
        assert xs[k - 1] == stops[k - 1];
      }
    }
  }

  lemma {:induction false} StraightPointsClosed(points: seq<Point>, i: nat, st: PenState, done: seq<Stop>,
                                                height: real, fit: Fit, maxGap: real)
    requires i <= |points|
    requires st.commands == PenCommands(done, maxGap) && st.last == LastAt(done)
    ensures StraightPoints(points, i, st, height, fit, maxGap).commands
         == PenCommands(done + PathStops(points, height, fit)[i..], maxGap)
    ensures StraightPoints(points, i, st, height, fit, maxGap).last == LastAt(done + PathStops(points, height, fit)[i..])
    decreases |points| - i
  {
    var stops := PathStops(points, height, fit);
    if i < |points| {
      var s := stops[i];
      var st' := StraightStep(st, s.at, i == 0, maxGap);
      PenCommandsAppend(done, s, maxGap);
      StraightPointsClosed(points, i + 1, st', done + [s], height, fit, maxGap);
      assert stops[i..] == [s] + stops[i + 1..];
      assert done + [s] + stops[i + 1..] == done + stops[i..];
    } else {
      assert done + stops[i..] == done;
    }
  }

  /** One whole path of the inner loop appends its stops. */
  lemma StraightPathClosed(points: seq<Point>, st: PenState, done: seq<Stop>, height: real, fit: Fit, maxGap: real)
    requires st.commands == PenCommands(done, maxGap) && st.last == LastAt(done)
    ensures StraightPoints(points, 0, st, height, fit, maxGap)
         == PenState(PenCommands(done + PathStops(points, height, fit), maxGap), LastAt(done + PathStops(points, height, fit)))
  {
    StraightPointsClosed(points, 0, st, done, height, fit, maxGap);
    assert PathStops(points, height, fit)[0..] == PathStops(points, height, fit);
  }

  lemma {:induction false} StraightPathsClosed(paths: seq<EdgePath>, j: nat, st: PenState, done: seq<Stop>,
                                               height: real, fit: Fit, maxGap: real)
    requires st.commands == PenCommands(done, maxGap) && st.last == LastAt(done)
    ensures StraightPaths(paths, j, st, height, fit, maxGap)
         == PenState(PenCommands(done + Stops(paths, j, height, fit), maxGap), LastAt(done + Stops(paths, j, height, fit)))
    decreases |paths| - j
  {
    if j < |paths| {
      var points := paths[j].points;
      var rest := Stops(paths, j + 1, height, fit);
      if |points| < 2 {
        assert Stops(paths, j, height, fit) == rest;
        assert StraightPaths(paths, j, st, height, fit, maxGap) == StraightPaths(paths, j + 1, st, height, fit, maxGap);
        StraightPathsClosed(paths, j + 1, st, done, height, fit, maxGap);
      } else {
        var stops := PathStops(points, height, fit);
        var st' := StraightPoints(points, 0, st, height, fit, maxGap);
        StraightPathClosed(points, st, done, height, fit, maxGap);
        StraightPathsClosed(paths, j + 1, st', done + stops, height, fit, maxGap);
        assert Stops(paths, j, height, fit) == stops + rest;
        assert done + stops + rest == done + (stops + rest);
      }
    } else {
      assert done + Stops(paths, j, height, fit) == done;
    }
  }

  /** The straight mode draws exactly one command per visited point, in order, and lifts the
      pen (M) exactly at the first stop and at the first point of a path that is farther than
      `maxGap` from the previous point; every other point is joined with L. */
  lemma StraightClosedForm(paths: seq<EdgePath>, height: real, fit: Fit, maxGap: real)
    ensures Straight(paths, height, fit, maxGap) == PenCommands(Stops(paths, 0, height, fit), maxGap)
  {
    StraightPathsClosed(paths, 0, PenState([], None), [], height, fit, maxGap);
    assert [] + Stops(paths, 0, height, fit) == Stops(paths, 0, height, fit);
  }

  lemma {:induction false} FirstStopStartsPath(paths: seq<EdgePath>, j: nat, height: real, fit: Fit)
    ensures |Stops(paths, j, height, fit)| > 0 ==> Stops(paths, j, height, fit)[0].startsPath
    decreases |paths| - j
  {
    if j < |paths| && |paths[j].points| < 2 {
      FirstStopStartsPath(paths, j + 1, height, fit);
      assert Stops(paths, j, height, fit) == Stops(paths, j + 1, height, fit);
    }
  }

  /** The straight drawing starts by moving the pen to the first visited point. */
  lemma StraightStartsWithMove(paths: seq<EdgePath>, height: real, fit: Fit, maxGap: real)
    ensures |Straight(paths, height, fit, maxGap)| == |Stops(paths, 0, height, fit)|
    ensures |Straight(paths, height, fit, maxGap)| > 0 ==>
      Straight(paths, height, fit, maxGap)[0] == MoveTo(Stops(paths, 0, height, fit)[0].at)
  {
    StraightClosedForm(paths, height, fit, maxGap);
    FirstStopStartsPath(paths, 0, height, fit);
  }

  // ---------------------------------------------------------------- Bezier mode

  /** `segments`, `currentSegment` and `lastPoint` of the Bezier loop. */
  datatype SegState = SegState(segments: seq<seq<Point>>, current: seq<Point>, last: Option<Point>)

  /** The handling of one transformed point: at a path's first point that is too far from
      the last point, a non-empty current segment is closed; the point joins the current
      segment. */
  function SegmentStep(st: SegState, t: Point, first: bool, maxGap: real): SegState
  {
    if first && st.last.Some? && !Near(t, st.last.value, maxGap) && |st.current| > 0
    then SegState(st.segments + [st.current], [t], Some(t))
    else SegState(st.segments, st.current + [t], Some(t))
  }

  function SegmentPoints(points: seq<Point>, i: nat, st: SegState, height: real, fit: Fit, maxGap: real): SegState
    decreases |points| - i
  {
    if i >= |points| then st
    else SegmentPoints(points, i + 1, SegmentStep(st, ToWindow(points[i], height, fit), i == 0, maxGap), height, fit, maxGap)
  }

  function SegmentPaths(paths: seq<EdgePath>, j: nat, st: SegState, height: real, fit: Fit, maxGap: real): SegState
    decreases |paths| - j
  {
    if j >= |paths| then st
    else SegmentPaths(paths, j + 1,
                      if |paths[j].points| < 2 then st else SegmentPoints(paths[j].points, 0, st, height, fit, maxGap),
                      height, fit, maxGap)
  }

  /** The closing push of a non-empty current segment. */
  function Flush(segments: seq<seq<Point>>, current: seq<Point>): seq<seq<Point>>
  {
    if |current| > 0 then segments + [current] else segments
  }

  function Segments(paths: seq<EdgePath>, height: real, fit: Fit, maxGap: real): seq<seq<Point>>
  {
    var st := SegmentPaths(paths, 0, SegState([], [], None), height, fit, maxGap);
    Flush(st.segments, st.current)
  }

  /** The segment-collecting loop of the connected Bezier mode. */
  method CollectSegments(paths: seq<EdgePath>, height: real, fit: Fit, maxGap: real) returns (segments: seq<seq<Point>>)
    ensures segments == Segments(paths, height, fit, maxGap)
  {
    segments := [];
    var currentSegment: seq<Point> := [];
    var lastPoint: Option<Point> := None;
    for j := 0 to |paths|
      invariant SegmentPaths(paths, j, SegState(segments, currentSegment, lastPoint), height, fit, maxGap)
             == SegmentPaths(paths, 0, SegState([], [], None), height, fit, maxGap)
    {
      var points := paths[j].points;
      if |points| >= 2 {
        for i := 0 to |points|
          invariant SegmentPaths(paths, j + 1, SegmentPoints(points, i, SegState(segments, currentSegment, lastPoint), height, fit, maxGap), height, fit, maxGap)
                 == SegmentPaths(paths, 0, SegState([], [], None), height, fit, maxGap)
        {
          var t := ToWindow(points[i], height, fit);
          ghost var before := SegState(segments, currentSegment, lastPoint);
          if i == 0 && lastPoint.Some? {
            if !Near(t, lastPoint.value, maxGap) {
              if |currentSegment| > 0 {
                segments := segments + [currentSegment];
                currentSegment := [];
              }
            }
          }
          currentSegment := currentSegment + [t];
          lastPoint := Some(t);
          assert SegState(segments, currentSegment, lastPoint) == SegmentStep(before, t, i == 0, maxGap);
        }
      }
    }
    if |currentSegment| > 0 {
      segments := segments + [currentSegment];
    }
  }

  /** Reference definition of segmentation: cut a command sequence into runs of pen
      positions, starting a new run at each move that follows some drawn point. */
  datatype Split = Split(done: seq<seq<Point>>, current: seq<Point>)

  function SplitAtMoves(cmds: seq<Command>): Split
  {
    if cmds == [] then Split([], [])
    else
      var s := SplitAtMoves(cmds[..|cmds| - 1]);
      var c := cmds[|cmds| - 1];
      if c.MoveTo? && |s.current| > 0 then Split(s.done + [s.current], [c.to])
      else Split(s.done, s.current + [c.to])
  }

  lemma SplitAtMovesAppend(cmds: seq<Command>, c: Command)
    ensures SplitAtMoves(cmds + [c]) ==
      var s := SplitAtMoves(cmds);
      if c.MoveTo? && |s.current| > 0 then Split(s.done + [s.current], [c.to]) else Split(s.done, s.current + [c.to])
  {
    assert (cmds + [c])[..|cmds|] == cmds;
  }

  lemma SplitAtMovesEmpty(stops: seq<Stop>, maxGap: real)
    requires stops == []
    ensures SplitAtMoves(PenCommands(stops, maxGap)).current == []
  {
    assert PenCommands(stops, maxGap) == [];
  }

  lemma {:induction false} SegmentPointsClosed(points: seq<Point>, i: nat, st: SegState, done: seq<Stop>,
                                               height: real, fit: Fit, maxGap: real)
    requires i <= |points|
    requires Split(st.segments, st.current) == SplitAtMoves(PenCommands(done, maxGap)) && st.last == LastAt(done)
    ensures var r := SegmentPoints(points, i, st, height, fit, maxGap);
            Split(r.segments, r.current) == SplitAtMoves(PenCommands(done + PathStops(points, height, fit)[i..], maxGap))
    ensures SegmentPoints(points, i, st, height, fit, maxGap).last == LastAt(done + PathStops(points, height, fit)[i..])
    decreases |points| - i
  {
    var stops := PathStops(points, height, fit);
    if i < |points| {
      var s := stops[i];
      var st' := SegmentStep(st, s.at, i == 0, maxGap);
      PenCommandsAppend(done, s, maxGap);
      SplitAtMovesAppend(PenCommands(done, maxGap), PenCommand(done + [s], |done|, maxGap));
      if done == [] {
        SplitAtMovesEmpty(done, maxGap);
      }
      SegmentPointsClosed(points, i + 1, st', done + [s], height, fit, maxGap);
      assert stops[i..] == [s] + stops[i + 1..];
      assert done + [s] + stops[i + 1..] == done + stops[i..];
    } else {
      assert done + stops[i..] == done;
    }
  }

  lemma {:induction false} SegmentPathsClosed(paths: seq<EdgePath>, j: nat, st: SegState, done: seq<Stop>,
                                              height: real, fit: Fit, maxGap: real)
    requires Split(st.segments, st.current) == SplitAtMoves(PenCommands(done, maxGap)) && st.last == LastAt(done)
    ensures var r := SegmentPaths(paths, j, st, height, fit, maxGap);
            Split(r.segments, r.current) == SplitAtMoves(PenCommands(done + Stops(paths, j, height, fit), maxGap))
    decreases |paths| - j
  {
    if j < |paths| {
      var points := paths[j].points;
      if |points| < 2 {
        SegmentPathsClosed(paths, j + 1, st, done, height, fit, maxGap);
        assert Stops(paths, j, height, fit) == Stops(paths, j + 1, height, fit);
      } else {
        var stops := PathStops(points, height, fit);
        SegmentPointsClosed(points, 0, st, done, height, fit, maxGap);
        assert stops[0..] == stops;
        SegmentPathsClosed(paths, j + 1, SegmentPoints(points, 0, st, height, fit, maxGap), done + stops, height, fit, maxGap);
        assert done + stops + Stops(paths, j + 1, height, fit) == done + Stops(paths, j, height, fit);
      }
    } else {
      assert done + Stops(paths, j, height, fit) == done;
    }
  }

  /** The Bezier mode starts a new segment exactly where the straight mode lifts the pen:
      its segments are the straight-mode drawing cut at every move. */
  lemma SegmentsMatchStraight(paths: seq<EdgePath>, height: real, fit: Fit, maxGap: real)
    ensures Segments(paths, height, fit, maxGap) ==
      var s := SplitAtMoves(Straight(paths, height, fit, maxGap));
      Flush(s.done, s.current)
  {
    SplitAtMovesEmpty([], maxGap);
    SegmentPathsClosed(paths, 0, SegState([], [], None), [], height, fit, maxGap);
    StraightClosedForm(paths, height, fit, maxGap);
    assert [] + Stops(paths, 0, height, fit) == Stops(paths, 0, height, fit);
  }

  // ---------------------------------------------------------------- the points are kept

  function Concat(segments: seq<seq<Point>>): seq<Point>
  {
    if segments == [] then [] else Concat(segments[..|segments| - 1]) + segments[|segments| - 1]
  }

  function Pens(cmds: seq<Command>): (pens: seq<Point>)
    ensures |pens| == |cmds|
  {
    seq(|cmds|, k requires 0 <= k < |cmds| => cmds[k].to)
  }

  function Places(stops: seq<Stop>): (places: seq<Point>)
    ensures |places| == |stops|
  {
    seq(|stops|, k requires 0 <= k < |stops| => stops[k].at)
  }

  lemma ConcatSnoc(segments: seq<seq<Point>>, segment: seq<Point>)
    ensures Concat(segments + [segment]) == Concat(segments) + segment
  {
    assert (segments + [segment])[..|segments|] == segments;
  }

  lemma PensSnoc(cmds: seq<Command>)
    requires cmds != []
    ensures Pens(cmds) == Pens(cmds[..|cmds| - 1]) + [cmds[|cmds| - 1].to]
  {
  }

  lemma {:induction false} SplitKeepsPens(cmds: seq<Command>)
    ensures Concat(SplitAtMoves(cmds).done) + SplitAtMoves(cmds).current == Pens(cmds)
    decreases |cmds|
  {
    if cmds != [] {
      var init := cmds[..|cmds| - 1];
      var c := cmds[|cmds| - 1];
      SplitKeepsPens(init);
      PensSnoc(cmds);
      var s := SplitAtMoves(init);
      if c.MoveTo? && |s.current| > 0 {
        ConcatSnoc(s.done, s.current);
      } else {
        assert Concat(s.done) + (s.current + [c.to]) == (Concat(s.done) + s.current) + [c.to];
      }
    }
  }

  /** Cutting into segments loses and reorders nothing: laid end to end, the segments are the
      window images of all points of all paths with at least two points, in order. */
  lemma SegmentsKeepPoints(paths: seq<EdgePath>, height: real, fit: Fit, maxGap: real)
    ensures Concat(Segments(paths, height, fit, maxGap)) == Places(Stops(paths, 0, height, fit))
  {
    var stops := Stops(paths, 0, height, fit);
    SegmentsMatchStraight(paths, height, fit, maxGap);
    StraightClosedForm(paths, height, fit, maxGap);
    var cmds := PenCommands(stops, maxGap);
    SplitKeepsPens(cmds);
    assert Pens(cmds) == Places(stops);
    var s := SplitAtMoves(cmds);
    if |s.current| > 0 {
      assert (s.done + [s.current])[..|s.done|] == s.done;
    }
  }

  lemma {:induction false} SegmentPointsLong(points: seq<Point>, i: nat, st: SegState, height: real, fit: Fit, maxGap: real)
    requires 2 <= |points| && i <= |points|
    requires forall k :: 0 <= k < |st.segments| ==> |st.segments[k]| >= 2
    requires i == 0 ==> |st.current| != 1
    requires i > 0 ==> |st.current| >= i
    ensures forall k :: 0 <= k < |SegmentPoints(points, i, st, height, fit, maxGap).segments| ==>
      |SegmentPoints(points, i, st, height, fit, maxGap).segments[k]| >= 2
    ensures |SegmentPoints(points, i, st, height, fit, maxGap).current| >= 2
    decreases |points| - i
  {
    if i < |points| {
      SegmentPointsLong(points, i + 1, SegmentStep(st, ToWindow(points[i], height, fit), i == 0, maxGap), height, fit, maxGap);
    }
  }

  lemma {:induction false} SegmentPathsLong(paths: seq<EdgePath>, j: nat, st: SegState, height: real, fit: Fit, maxGap: real)
    requires forall k :: 0 <= k < |st.segments| ==> |st.segments[k]| >= 2
    requires |st.current| != 1
    ensures forall k :: 0 <= k < |SegmentPaths(paths, j, st, height, fit, maxGap).segments| ==>
      |SegmentPaths(paths, j, st, height, fit, maxGap).segments[k]| >= 2
    ensures |SegmentPaths(paths, j, st, height, fit, maxGap).current| != 1
    decreases |paths| - j
  {
    if j < |paths| {
      var points := paths[j].points;
      if |points| < 2 {
        SegmentPathsLong(paths, j + 1, st, height, fit, maxGap);
      } else {
        SegmentPointsLong(points, 0, st, height, fit, maxGap);
        SegmentPathsLong(paths, j + 1, SegmentPoints(points, 0, st, height, fit, maxGap), height, fit, maxGap);
      }
    }
  }

  /** A segment never breaks inside a path and every path drawn has at least two points, so
      every segment has at least two points: each one is drawn as a curve of its own. */
  lemma SegmentsAreLong(paths: seq<EdgePath>, height: real, fit: Fit, maxGap: real)
    ensures forall k :: 0 <= k < |Segments(paths, height, fit, maxGap)| ==> |Segments(paths, height, fit, maxGap)[k]| >= 2
  {
    SegmentPathsLong(paths, 0, SegState([], [], None), height, fit, maxGap);
  }
}
