/** The CPU circle detector of the line/circle detector page (`detectCirclesCPU` in
    src/app/lines/page.tsx): multi-radius Hough voting over image space, a coarse-grid peak
    scan per radius, a stable sort by votes and greedy non-maximum suppression across radii.

    The trigonometry of the voting loop is a parameter: `centreOf(p, r, theta)` is the centre
    (Math.round(x - r cos theta), Math.round(y - r sin theta)) that edge pixel p = (x, y) votes
    for at radius r and angle theta in degrees, as the source computes it in double precision.
    Rounding makes the displacement depend on the pixel, so it is a function of all three. */
module CircleDetector {
  import opened EdgeRaster
  import opened PeakWindow
  import Ranking

  datatype Circle = Circle(x: int, y: int, radius: int, votes: nat)

  const RadiusStep := 5
  const AngleStep := 15
  const FullTurn := 360
  /** Angle samples per radius: 0, 15, ..., 345 degrees. */
  const AngleSamples := 24
  const GridStep := 5
  /** Two detections are duplicates when their centres are closer than 30 (30 * 30 = 900)
      and their radii differ by less than 15. */
  const DuplicateDistanceSq := 900
  const DuplicateRadiusGap := 15
  const MaxCircles := 100

  function VotesOf(c: Circle): int
  {
    c.votes
  }

  // ---------------------------------------------------------------- voting

  /** The centres one angle sample votes for: one per edge pixel, in edge-pixel order. */
  function CentresAt(pixels: seq<Pixel>, centreOf: (Pixel, int, int) -> Pixel, r: int, theta: int): seq<Pixel>
  {
    if pixels == [] then []
    else CentresAt(pixels[..|pixels| - 1], centreOf, r, theta) + [centreOf(pixels[|pixels| - 1], r, theta)]
  }

  /** The centres voted for by the first k angle samples 0, 15, ..., 15 * (k - 1), in voting order. */
  function CentresBefore(pixels: seq<Pixel>, centreOf: (Pixel, int, int) -> Pixel, r: int, k: nat): seq<Pixel>
  {
    if k == 0 then []
    else CentresBefore(pixels, centreOf, r, k - 1) + CentresAt(pixels, centreOf, r, AngleStep * (k - 1))
  }

  /** All centres voted for at radius `r`. */
  function Centres(pixels: seq<Pixel>, centreOf: (Pixel, int, int) -> Pixel, r: int): seq<Pixel>
  {
    CentresBefore(pixels, centreOf, r, AngleSamples)
  }

  /** The accumulator index of a centre, when it falls inside the raster. */
  function CellOf(c: Pixel, width: nat, height: nat): seq<nat>
  {
    if InGrid(width, height, c.x, c.y) then CellIndexInRange(width, height, c.x, c.y); [c.y * width + c.x] else []
  }

  lemma CellOfInGrid(c: Pixel, width: nat, height: nat)
    requires InGrid(width, height, c.x, c.y)
    ensures CellOf(c, width, height) == [c.y * width + c.x]
  {
  }

  lemma CellOfOutside(c: Pixel, width: nat, height: nat)
    requires !InGrid(width, height, c.x, c.y)
    ensures CellOf(c, width, height) == []
  {
  }

  /** The accumulator indices of the centres that fall inside the raster, in voting order. */
  function CellsOf(centres: seq<Pixel>, width: nat, height: nat): seq<nat>
  {
    if centres == [] then []
    else CellsOf(centres[..|centres| - 1], width, height) + CellOf(centres[|centres| - 1], width, height)
  }

  /** Only centres inside the raster leave a cell, and every cell is an index of the raster. */
  lemma {:induction false} CellsOfInRange(centres: seq<Pixel>, width: nat, height: nat)
    ensures |CellsOf(centres, width, height)| <= |centres|
    ensures forall k :: 0 <= k < |CellsOf(centres, width, height)| ==> CellsOf(centres, width, height)[k] < width * height
    decreases |centres|
  {
    if centres != [] {
      var c := centres[|centres| - 1];
      CellsOfInRange(centres[..|centres| - 1], width, height);
      if InGrid(width, height, c.x, c.y) {
        CellIndexInRange(width, height, c.x, c.y);
      }
    }
  }

  /** A vote grid of `n` cells in which cell c counts the occurrences of c in `cells`. */
  function Tally(cells: seq<nat>, n: nat): (grid: seq<nat>)
    ensures |grid| == n
  {
    seq(n, c => multiset(cells)[c])
  }

  /** The accumulator of one radius: cell c counts the in-bounds votes cast at index c. */
  function Accumulator(pixels: seq<Pixel>, centreOf: (Pixel, int, int) -> Pixel, r: int, width: nat, height: nat): (acc: seq<nat>)
    ensures |acc| == width * height
  {
    Tally(CellsOf(Centres(pixels, centreOf, r), width, height), width * height)
  }

  /** Sum of a vote grid. */
  function Sum(s: seq<nat>): nat
  {
    if s == [] then 0 else Sum(s[..|s| - 1]) + s[|s| - 1]
  }

  lemma {:induction false} SumIncrement(s: seq<nat>, i: nat)
    requires i < |s|
    ensures Sum(s[i := s[i] + 1]) == Sum(s) + 1
    decreases |s|
  {
    var t := s[i := s[i] + 1];
    assert t[..|t| - 1] == if i < |s| - 1 then s[..|s| - 1][i := s[i] + 1] else s[..|s| - 1];
    if i < |s| - 1 {
      SumIncrement(s[..|s| - 1], i);
    }
  }

  lemma {:induction false} SumZero(s: seq<nat>)
    requires forall k :: 0 <= k < |s| ==> s[k] == 0
    ensures Sum(s) == 0
    decreases |s|
  {
    if s != [] {
      SumZero(s[..|s| - 1]);
    }
  }

  /** One more vote at cell i adds one to that cell of the tally and leaves the rest. */
  lemma TallyAppend(cells: seq<nat>, i: nat, n: nat)
    requires i < n
    ensures Tally(cells + [i], n) == Tally(cells, n)[i := Tally(cells, n)[i] + 1]
  {
    assert multiset(cells + [i]) == multiset(cells) + multiset{i};
  }

  /** Every in-range vote is counted exactly once. */
  lemma {:induction false} SumTally(cells: seq<nat>, n: nat)
    requires forall k :: 0 <= k < |cells| ==> cells[k] < n
    ensures Sum(Tally(cells, n)) == |cells|
    decreases |cells|
  {
    if cells == [] {
      SumZero(Tally(cells, n));
    } else {
      var init := cells[..|cells| - 1];
      var last := cells[|cells| - 1];
      assert cells == init + [last];
      SumTally(init, n);
      TallyAppend(init, last, n);
      SumIncrement(Tally(init, n), last);
    }
  }

  lemma {:induction false} CentresBeforeLength(pixels: seq<Pixel>, centreOf: (Pixel, int, int) -> Pixel, r: int, k: nat)
    ensures |CentresBefore(pixels, centreOf, r, k)| == k * |pixels|
    decreases k
  {
    if k > 0 {
      CentresBeforeLength(pixels, centreOf, r, k - 1);
      CentresAtLength(pixels, centreOf, r, AngleStep * (k - 1));
      assert (k - 1) * |pixels| + |pixels| == k * |pixels|;
    }
  }

  lemma {:induction false} CentresAtLength(pixels: seq<Pixel>, centreOf: (Pixel, int, int) -> Pixel, r: int, theta: int)
    ensures |CentresAt(pixels, centreOf, r, theta)| == |pixels|
    decreases |pixels|
  {
    if pixels != [] {
      CentresAtLength(pixels[..|pixels| - 1], centreOf, r, theta);
    }
  }

  lemma CentresAtStep(pixels: seq<Pixel>, j: nat, centreOf: (Pixel, int, int) -> Pixel, r: int, theta: int)
    requires j < |pixels|
    ensures CentresAt(pixels[..j + 1], centreOf, r, theta) == CentresAt(pixels[..j], centreOf, r, theta) + [centreOf(pixels[j], r, theta)]
  {
    assert pixels[..j + 1][..j] == pixels[..j];
  }

  lemma CellsOfAppend(centres: seq<Pixel>, c: Pixel, width: nat, height: nat)
    ensures CellsOf(centres + [c], width, height) == CellsOf(centres, width, height) + CellOf(c, width, height)
  {
    assert (centres + [c])[..|centres|] == centres;
  }

  /** Cell c of the array holds the number of occurrences of c in `cells`. */
  ghost predicate Tallies(a: array<nat>, cells: seq<nat>)
    reads a
  {
    forall c :: 0 <= c < a.Length ==> a[c] == multiset(cells)[c]
  }

  /** One vote: the accumulator cell of centre `c` is incremented when it lies inside the raster. */
  method CastVote(a: array<nat>, c: Pixel, width: nat, height: nat, ghost cells: seq<nat>)
    returns (ghost cells': seq<nat>)
    requires a.Length == width * height && Tallies(a, cells)
    modifies a
    ensures cells' == cells + CellOf(c, width, height)
    ensures Tallies(a, cells')
  {
    if 0 <= c.x < width && 0 <= c.y < height {
      CellIndexInRange(width, height, c.x, c.y);
      var idx: nat := c.y * width + c.x;
      CellOfInGrid(c, width, height);
      cells' := cells + [idx];
      assert multiset(cells') == multiset(cells) + multiset{idx};
      a[idx] := a[idx] + 1;
    } else {
      CellOfOutside(c, width, height);
      cells' := cells;
    }
  }

  /** One angle sample of the voting loop: every edge pixel votes for its displaced centre. */
  method VoteAngle(a: array<nat>, pixels: seq<Pixel>, centreOf: (Pixel, int, int) -> Pixel, r: int, theta: int,
                   width: nat, height: nat,
                   ghost before: seq<Pixel>, ghost cells: seq<nat>)
    returns (ghost cells': seq<nat>)
    requires a.Length == width * height
    requires cells == CellsOf(before, width, height) && Tallies(a, cells)
    modifies a
    ensures cells' == CellsOf(before + CentresAt(pixels, centreOf, r, theta), width, height)
    ensures Tallies(a, cells')
  {
    cells' := cells;
    assert pixels[..0] == [];
    assert before + CentresAt(pixels[..0], centreOf, r, theta) == before;
    for j := 0 to |pixels|
      invariant cells' == CellsOf(before + CentresAt(pixels[..j], centreOf, r, theta), width, height)
      invariant Tallies(a, cells')
    {
      var centre := centreOf(pixels[j], r, theta);
      VoteStep(before, pixels, j, centreOf, r, theta, width, height);
      cells' := CastVote(a, centre, width, height, cells');
    }
    assert pixels[..|pixels|] == pixels;
  }

  /** The cells voted after edge pixel j are those voted before it plus the cell of its centre. */
  lemma VoteStep(before: seq<Pixel>, pixels: seq<Pixel>, j: nat, centreOf: (Pixel, int, int) -> Pixel, r: int, theta: int,
                 width: nat, height: nat)
    requires j < |pixels|
    ensures CellsOf(before + CentresAt(pixels[..j + 1], centreOf, r, theta), width, height)
         == CellsOf(before + CentresAt(pixels[..j], centreOf, r, theta), width, height) + CellOf(centreOf(pixels[j], r, theta), width, height)
  {
    var cast := before + CentresAt(pixels[..j], centreOf, r, theta);
    CentresAtStep(pixels, j, centreOf, r, theta);
    assert before + CentresAt(pixels[..j + 1], centreOf, r, theta) == cast + [centreOf(pixels[j], r, theta)];
    CellsOfAppend(cast, centreOf(pixels[j], r, theta), width, height);
  }

  /** Voting for one radius into a fresh, zeroed `width * height` accumulator, angle sample by
      angle sample (0, 15, ..., 345 degrees). The total number of votes is at most 24 per edge
      pixel. */
  method VoteRadius(pixels: seq<Pixel>, centreOf: (Pixel, int, int) -> Pixel, r: int, width: nat, height: nat)
    returns (acc: seq<nat>)
    ensures acc == Accumulator(pixels, centreOf, r, width, height)
    ensures Sum(acc) <= AngleSamples * |pixels|
  {
    var a := new nat[width * height](_ => 0);
    ghost var cells: seq<nat> := [];
    ghost var k := 0;
    var theta := 0;
    while theta < FullTurn
      invariant 0 <= k <= AngleSamples && theta == AngleStep * k
      invariant cells == CellsOf(CentresBefore(pixels, centreOf, r, k), width, height)
      invariant Tallies(a, cells)
    {
      cells := VoteAngle(a, pixels, centreOf, r, theta, width, height, CentresBefore(pixels, centreOf, r, k), cells);
      assert CentresBefore(pixels, centreOf, r, k + 1) == CentresBefore(pixels, centreOf, r, k) + CentresAt(pixels, centreOf, r, theta);
      theta := theta + AngleStep;
      k := k + 1;
    }
    assert k == AngleSamples;
    acc := a[..];
    assert acc == Tally(cells, width * height);
    AccumulatorVotes(pixels, centreOf, r, width, height);
  }

  /** At most one vote per (angle sample, edge pixel) pair lands in the accumulator. */
  lemma AccumulatorVotes(pixels: seq<Pixel>, centreOf: (Pixel, int, int) -> Pixel, r: int, width: nat, height: nat)
    ensures Sum(Accumulator(pixels, centreOf, r, width, height)) <= AngleSamples * |pixels|
  {
    var cells := CellsOf(Centres(pixels, centreOf, r), width, height);
    CellsOfInRange(Centres(pixels, centreOf, r), width, height);
    SumTally(cells, width * height);
    CentresBeforeLength(pixels, centreOf, r, AngleSamples);
  }

  lemma CellIndexInjective(width: nat, x1: int, y1: int, x2: int, y2: int)
    requires 0 <= x1 < width && 0 <= x2 < width
    requires y1 * width + x1 == y2 * width + x2
    ensures x1 == x2 && y1 == y2
  {
    if y1 < y2 {
      MulMonotone(y1 + 1, y2, width);
      assert false;
    } else if y2 < y1 {
      MulMonotone(y2 + 1, y1, width);
      assert false;
    }
  }

  lemma MulMonotone(a: int, b: int, k: nat)
    requires a <= b
    ensures a * k <= b * k
  {
    assert b * k - a * k == (b - a) * k;
  }

  /** The cell of one centre is the cell of (x, y) exactly when the centre is (x, y). */
  lemma CellOfCount(c: Pixel, width: nat, height: nat, x: int, y: int)
    requires InGrid(width, height, x, y)
    ensures multiset(CellOf(c, width, height))[y * width + x] == if c == Pixel(x, y) then 1 else 0
  {
    if InGrid(width, height, c.x, c.y) {
      CellOfInGrid(c, width, height);
      if c.y * width + c.x == y * width + x {
        CellIndexInjective(width, c.x, c.y, x, y);
      }
    } else {
      CellOfOutside(c, width, height);
    }
  }

  lemma {:induction false} CellsOfCounts(centres: seq<Pixel>, width: nat, height: nat, x: int, y: int)
    requires InGrid(width, height, x, y)
    ensures multiset(CellsOf(centres, width, height))[y * width + x] == multiset(centres)[Pixel(x, y)]
    decreases |centres|
  {
    if centres != [] {
      var init := centres[..|centres| - 1];
      var c := centres[|centres| - 1];
      CellsOfCounts(init, width, height, x, y);
      CellOfCount(c, width, height, x, y);
      assert centres == init + [c];
      assert multiset(centres) == multiset(init) + multiset{c};
      assert multiset(CellsOf(centres, width, height)) == multiset(CellsOf(init, width, height)) + multiset(CellOf(c, width, height));
    }
  }

  /** The meaning of the accumulator: the cell of an in-bounds point (x, y) holds the number of
      (angle sample, edge pixel) pairs whose displaced centre is exactly (x, y). */
  lemma AccumulatorCounts(pixels: seq<Pixel>, centreOf: (Pixel, int, int) -> Pixel, r: int, width: nat, height: nat, x: int, y: int)
    requires InGrid(width, height, x, y)
    ensures Cell(Accumulator(pixels, centreOf, r, width, height), width, height, x, y)
         == multiset(Centres(pixels, centreOf, r))[Pixel(x, y)]
  {
    CellIndexInRange(width, height, x, y);
    CellsOfCounts(Centres(pixels, centreOf, r), width, height, x, y);
  }

  // ---------------------------------------------------------------- peaks of one radius

  /** A grid cell is kept when it has at least `threshold` votes and no in-bounds cell at
      offsets {-10, -5, 0, 5, 10} in each direction strictly beats it. */
  ghost predicate IsCirclePeak(acc: seq<nat>, width: nat, height: nat, x: int, y: int, threshold: int)
    requires |acc| == width * height && InGrid(width, height, x, y)
  {
    Cell(acc, width, height, x, y) >= threshold &&
    IsWindowMax(acc, width, height, x, y, GridStep, Cell(acc, width, height, x, y))
  }

  /** The peaks of row `y` at columns x, x + 5, ... below `width - r`. */
  ghost function RowPeaks(acc: seq<nat>, width: nat, height: nat, r: nat, threshold: int, y: int, x: int): seq<Circle>
    requires |acc| == width * height && r <= y < height - r && r <= x
    decreases width - x
  {
    if x >= width - r then []
    else
      (if IsCirclePeak(acc, width, height, x, y, threshold)
       then [Circle(x, y, r, Cell(acc, width, height, x, y))] else []) +
      RowPeaks(acc, width, height, r, threshold, y, x + GridStep)
  }

  /** The peaks of rows y, y + 5, ... below `height - r`, row by row. */
  ghost function PeaksFrom(acc: seq<nat>, width: nat, height: nat, r: nat, threshold: int, y: int): seq<Circle>
    requires |acc| == width * height && r <= y
    decreases height - y
  {
    if y >= height - r then []
    else RowPeaks(acc, width, height, r, threshold, y, r) + PeaksFrom(acc, width, height, r, threshold, y + GridStep)
  }

  /** The candidates of radius `r`, in scan order (y, then x). */
  ghost function RadiusPeaks(acc: seq<nat>, width: nat, height: nat, r: nat, threshold: int): seq<Circle>
    requires |acc| == width * height
  {
    PeaksFrom(acc, width, height, r, threshold, r)
  }

  /** The scan of one row of the coarse grid: columns x = r, r + 5, ... below `width - r`. */
  method ScanRow(acc: seq<nat>, width: nat, height: nat, r: nat, threshold: int, y: int)
    returns (found: seq<Circle>)
    requires |acc| == width * height && r <= y < height - r
    ensures found == RowPeaks(acc, width, height, r, threshold, y, r)
  {
    found := [];
    var x: int := r;
    while x < width - r
      invariant r <= x
      invariant found + RowPeaks(acc, width, height, r, threshold, y, x) == RowPeaks(acc, width, height, r, threshold, y, r)
      decreases width - x
    {
      var votes := Cell(acc, width, height, x, y);
      var isMax := false;
      if votes >= threshold {
        isMax := CheckWindowMax(acc, width, height, x, y, GridStep, votes);
      }
      assert isMax <==> IsCirclePeak(acc, width, height, x, y, threshold);
      ghost var rest := RowPeaks(acc, width, height, r, threshold, y, x + GridStep);
      if isMax {
        assert RowPeaks(acc, width, height, r, threshold, y, x) == [Circle(x, y, r, votes)] + rest;
        found := found + [Circle(x, y, r, votes)];
      } else {
        assert RowPeaks(acc, width, height, r, threshold, y, x) == rest;
      }
      x := x + GridStep;
    }
  }

  /** The peak scan of one radius: the coarse grid x, y = r, r + 5, ... inside the margin r. */
  method FindRadiusPeaks(acc: seq<nat>, width: nat, height: nat, r: nat, threshold: int)
    returns (found: seq<Circle>)
    requires |acc| == width * height
    ensures found == RadiusPeaks(acc, width, height, r, threshold)
  {
    found := [];
    var y: int := r;
    while y < height - r
      invariant r <= y
      invariant found + PeaksFrom(acc, width, height, r, threshold, y) == RadiusPeaks(acc, width, height, r, threshold)
      decreases height - y
    {
      var row := ScanRow(acc, width, height, r, threshold, y);
      found := found + row;
      y := y + GridStep;
    }
  }

  /** A candidate of radius r in scan position (x, y): on the coarse grid inside the margin,
      with at least `threshold` votes, and a window maximum of its accumulator. */
  ghost predicate IsRadiusPeak(acc: seq<nat>, width: nat, height: nat, r: nat, threshold: int, c: Circle)
    requires |acc| == width * height
  {
    && c.radius == r
    && r <= c.x < width - r && (c.x - r) % GridStep == 0
    && r <= c.y < height - r && (c.y - r) % GridStep == 0
    && IsCirclePeak(acc, width, height, c.x, c.y, threshold)
    && c.votes == Cell(acc, width, height, c.x, c.y)
  }

  lemma {:induction false} RowPeaksExact(acc: seq<nat>, width: nat, height: nat, r: nat, threshold: int, y: int, x: int)
    requires |acc| == width * height && r <= y < height - r && r <= x && (y - r) % GridStep == 0 && (x - r) % GridStep == 0
    ensures forall c :: c in RowPeaks(acc, width, height, r, threshold, y, x) <==>
      IsRadiusPeak(acc, width, height, r, threshold, c) && c.y == y && c.x >= x
    decreases width - x
  {
    var row := RowPeaks(acc, width, height, r, threshold, y, x);
    if x < width - r {
      var rest := RowPeaks(acc, width, height, r, threshold, y, x + GridStep);
      var head := if IsCirclePeak(acc, width, height, x, y, threshold)
                  then [Circle(x, y, r, Cell(acc, width, height, x, y))] else [];
      assert row == head + rest;
      RowPeaksExact(acc, width, height, r, threshold, y, x + GridStep);
      forall c | IsRadiusPeak(acc, width, height, r, threshold, c) && c.y == y && c.x > x
        ensures c.x >= x + GridStep
      {
        NextOnGrid(c.x, x, r);
      }
    }
  }

  /** Two distinct points of the grid r, r + 5, ... are at least one step apart. */
  lemma NextOnGrid(a: int, b: int, r: int)
    requires (a - r) % GridStep == 0 && (b - r) % GridStep == 0 && a > b
    ensures a >= b + GridStep
  {
    var qa := (a - r) / GridStep;
    var qb := (b - r) / GridStep;
    assert a - r == GridStep * qa;
    assert b - r == GridStep * qb;
    assert a - b == GridStep * (qa - qb);
  }

  lemma {:induction false} PeaksFromExact(acc: seq<nat>, width: nat, height: nat, r: nat, threshold: int, y: int)
    requires |acc| == width * height && r <= y && (y - r) % GridStep == 0
    ensures forall c :: c in PeaksFrom(acc, width, height, r, threshold, y) <==>
      IsRadiusPeak(acc, width, height, r, threshold, c) && c.y >= y
    decreases height - y
  {
    if y < height - r {
      RowPeaksExact(acc, width, height, r, threshold, y, r);
      PeaksFromExact(acc, width, height, r, threshold, y + GridStep);
    }
  }

  /** The candidates of one radius are exactly the grid cells that pass the threshold and the
      window test: every candidate does, and every such cell is a candidate. */
  lemma RadiusPeaksExact(acc: seq<nat>, width: nat, height: nat, r: nat, threshold: int)
    requires |acc| == width * height
    ensures forall c :: c in RadiusPeaks(acc, width, height, r, threshold) <==> IsRadiusPeak(acc, width, height, r, threshold, c)
  {
    PeaksFromExact(acc, width, height, r, threshold, r);
  }

  // ---------------------------------------------------------------- candidates of all radii

  /** The candidates of radii r, r + 5, ... up to `maxR`, radius by radius. */
  ghost function CandidatesFrom(pixels: seq<Pixel>, centreOf: (Pixel, int, int) -> Pixel, width: nat, height: nat,
                                r: nat, maxR: int, threshold: int): seq<Circle>
    decreases maxR - r
  {
    if r > maxR then []
    else RadiusPeaks(Accumulator(pixels, centreOf, r, width, height), width, height, r, threshold) +
         CandidatesFrom(pixels, centreOf, width, height, r + RadiusStep, maxR, threshold)
  }

  /** A candidate of the whole scan: a peak of one of the radii minR, minR + 5, ... <= maxR. */
  ghost predicate IsCandidate(pixels: seq<Pixel>, centreOf: (Pixel, int, int) -> Pixel, width: nat, height: nat,
                              minR: nat, maxR: int, threshold: int, c: Circle)
  {
    && minR <= c.radius <= maxR && (c.radius - minR) % RadiusStep == 0
    && IsRadiusPeak(Accumulator(pixels, centreOf, c.radius, width, height), width, height, c.radius, threshold, c)
  }

  lemma {:induction false} CandidatesFromExact(pixels: seq<Pixel>, centreOf: (Pixel, int, int) -> Pixel, width: nat, height: nat,
                                              r: nat, maxR: int, threshold: int, minR: nat)
    requires minR <= r && (r - minR) % RadiusStep == 0
    ensures forall c :: c in CandidatesFrom(pixels, centreOf, width, height, r, maxR, threshold) <==>
      IsCandidate(pixels, centreOf, width, height, minR, maxR, threshold, c) && c.radius >= r
    decreases maxR - r
  {
    if r <= maxR {
      RadiusPeaksExact(Accumulator(pixels, centreOf, r, width, height), width, height, r, threshold);
      CandidatesFromExact(pixels, centreOf, width, height, r + RadiusStep, maxR, threshold, minR);
    }
  }

  // ---------------------------------------------------------------- non-maximum suppression

  function Sq(d: int): int
  {
    d * d
  }

  /** `dist < 30 && radiusDiff < 15`, with the distance compared squared. */
  predicate Conflict(a: Circle, b: Circle)
  {
    Sq(a.x - b.x) + Sq(a.y - b.y) < DuplicateDistanceSq &&
    -DuplicateRadiusGap < a.radius - b.radius < DuplicateRadiusGap
  }

  lemma ConflictSymmetric(a: Circle, b: Circle)
    ensures Conflict(a, b) <==> Conflict(b, a)
  {
    assert Sq(a.x - b.x) == Sq(b.x - a.x);
    assert Sq(a.y - b.y) == Sq(b.y - a.y);
  }

  predicate ConflictsWithKept(c: Circle, kept: seq<Circle>)
  {
    exists k :: 0 <= k < |kept| && Conflict(c, kept[k])
  }

  /** No two entries are duplicates of each other. */
  ghost predicate Separated(s: seq<Circle>)
  {
    forall i, j :: 0 <= i < j < |s| ==> !Conflict(s[i], s[j])
  }

  /** Greedy suppression in list order: an entry is kept unless it conflicts with an entry
      kept before it. */
  function Suppress(s: seq<Circle>): seq<Circle>
  {
    if s == [] then []
    else
      var kept := Suppress(s[..|s| - 1]);
      if ConflictsWithKept(s[|s| - 1], kept) then kept else kept + [s[|s| - 1]]
  }

  /** The NMS loop: the `keep` flag and the inner loop that breaks at the first conflict. */
  method SuppressDuplicates(sorted: seq<Circle>) returns (filtered: seq<Circle>)
    ensures filtered == Suppress(sorted)
  {
    filtered := [];
    for i := 0 to |sorted|
      invariant filtered == Suppress(sorted[..i])
    {
      var circle := sorted[i];
      var keep := true;
      var j := 0;
      while j < |filtered|
        invariant 0 <= j <= |filtered|
        invariant keep ==> forall k :: 0 <= k < j ==> !Conflict(circle, filtered[k])
        invariant !keep ==> ConflictsWithKept(circle, filtered)
        decreases |filtered| - j
      {
        var existing := filtered[j];
        var dx := circle.x - existing.x;
        var dy := circle.y - existing.y;
        var radiusDiff := if circle.radius >= existing.radius then circle.radius - existing.radius
                          else existing.radius - circle.radius;
        if dx * dx + dy * dy < DuplicateDistanceSq && radiusDiff < DuplicateRadiusGap {
          assert Conflict(circle, filtered[j]);
          keep := false;
          break;
        }
        j := j + 1;
      }
      assert sorted[..i + 1][..i] == sorted[..i];
      if keep {
        filtered := filtered + [circle];
      }
    }
    assert sorted[..|sorted|] == sorted;
  }

  lemma {:induction false} SuppressSubset(s: seq<Circle>)
    ensures forall c :: c in Suppress(s) ==> c in s
    decreases |s|
  {
    if s != [] {
      SuppressSubset(s[..|s| - 1]);
    }
  }

  /** No two kept entries are duplicates. */
  lemma {:induction false} SuppressSeparated(s: seq<Circle>)
    ensures Separated(Suppress(s))
    decreases |s|
  {
    if s != [] {
      SuppressSeparated(s[..|s| - 1]);
      var kept := Suppress(s[..|s| - 1]);
      var last := s[|s| - 1];
      if !ConflictsWithKept(last, kept) {
        forall i | 0 <= i < |kept|
          ensures !Conflict(kept[i], last)
        {
          ConflictSymmetric(kept[i], last);
        }
      }
    }
  }

  /** Suppression of a list ranked by votes keeps it ranked. */
  lemma {:induction false} SuppressSorted(s: seq<Circle>)
    requires Ranking.SortedDesc(s, VotesOf)
    ensures Ranking.SortedDesc(Suppress(s), VotesOf)
    decreases |s|
  {
    if s != [] {
      var init := s[..|s| - 1];
      SuppressSorted(init);
      SuppressSubset(init);
      var kept := Suppress(init);
      forall i | 0 <= i < |kept|
        ensures VotesOf(kept[i]) >= VotesOf(s[|s| - 1])
      {
        assert kept[i] in init;
      }
    }
  }

  lemma {:induction false} SuppressPrefix(s: seq<Circle>, i: nat)
    requires i <= |s|
    ensures Suppress(s[..i]) <= Suppress(s)
    decreases |s| - i
  {
    if i < |s| {
      SuppressPrefix(s, i + 1);
      assert s[..i + 1][..i] == s[..i];
    } else {
      assert s[..i] == s;
    }
  }

  /** Every entry that is not kept conflicts with an earlier entry that is kept (in a list
      ranked by votes, one with at least as many votes). */
  lemma SuppressDominated(s: seq<Circle>, i: nat)
    requires i < |s|
    ensures s[i] in Suppress(s) ||
            exists j :: 0 <= j < i && s[j] in Suppress(s) && Conflict(s[i], s[j]) &&
                        (Ranking.SortedDesc(s, VotesOf) ==> s[j].votes >= s[i].votes)
  {
    var prefix := s[..i + 1];
    assert prefix[..i] == s[..i];
    var kept := Suppress(s[..i]);
    SuppressPrefix(s, i);
    SuppressPrefix(s, i + 1);
    if ConflictsWithKept(s[i], kept) {
      var k :| 0 <= k < |kept| && Conflict(s[i], kept[k]);
      SuppressSubset(s[..i]);
      assert kept[k] in s[..i];
      var j :| 0 <= j < i && s[j] == kept[k];
      assert kept[k] in Suppress(s);
    } else {
      assert Suppress(prefix) == kept + [s[i]];
      assert s[i] in Suppress(prefix);
    }
  }

  lemma {:induction false} SeparatedIsFixpoint(s: seq<Circle>)
    requires Separated(s)
    ensures Suppress(s) == s
    decreases |s|
  {
    if s != [] {
      var init := s[..|s| - 1];
      SeparatedIsFixpoint(init);
      forall k | 0 <= k < |init|
        ensures !Conflict(s[|s| - 1], init[k])
      {
        ConflictSymmetric(s[|s| - 1], init[k]);
      }
      assert init + [s[|s| - 1]] == s;
    }
  }

  /** Re-running the suppression on its own output removes nothing. */
  lemma SuppressIdempotent(s: seq<Circle>)
    ensures Suppress(Suppress(s)) == Suppress(s)
  {
    SuppressSeparated(s);
    SeparatedIsFixpoint(Suppress(s));
  }

  // ---------------------------------------------------------------- the detector

  /** The result of `detectCirclesCPU`: the candidates of all radii, stably sorted by votes,
      suppressed and capped at 100. */
  ghost function DetectedCircles(edges: seq<Byte>, width: nat, height: nat, minR: nat, maxR: int,
                                 threshold: int, centreOf: (Pixel, int, int) -> Pixel): seq<Circle>
    requires |edges| == width * height
  {
    Ranking.Take(Survivors(edges, width, height, minR, maxR, threshold, centreOf), MaxCircles)
  }

  /** The candidates of all radii that survive suppression, most votes first. */
  ghost function Survivors(edges: seq<Byte>, width: nat, height: nat, minR: nat, maxR: int,
                           threshold: int, centreOf: (Pixel, int, int) -> Pixel): seq<Circle>
    requires |edges| == width * height
  {
    var candidates := CandidatesFrom(EdgePixels(edges, width, height), centreOf, width, height, minR, maxR, threshold);
    Suppress(Ranking.SortByKeyDesc(candidates, VotesOf))
  }

  /** The cap of 100 drops only the weakest survivors: a survivor is left out only when 100
      circles with at least as many votes are returned. */
  lemma CapKeepsStrongest(edges: seq<Byte>, width: nat, height: nat, minR: nat, maxR: int, threshold: int,
                          centreOf: (Pixel, int, int) -> Pixel)
    requires |edges| == width * height
    ensures forall c :: c in Survivors(edges, width, height, minR, maxR, threshold, centreOf) &&
                        c !in DetectedCircles(edges, width, height, minR, maxR, threshold, centreOf) ==>
      |DetectedCircles(edges, width, height, minR, maxR, threshold, centreOf)| == MaxCircles &&
      forall i :: 0 <= i < MaxCircles ==> DetectedCircles(edges, width, height, minR, maxR, threshold, centreOf)[i].votes >= c.votes
  {
    var candidates := CandidatesFrom(EdgePixels(edges, width, height), centreOf, width, height, minR, maxR, threshold);
    var sorted := Ranking.SortByKeyDesc(candidates, VotesOf);
    Ranking.SortByKeyDescCorrect(candidates, VotesOf);
    SuppressSorted(sorted);
    Ranking.TakeKeepsStrongest(Suppress(sorted), MaxCircles, VotesOf);
  }

  /** What the detector promises of its output: at most 100 circles, ranked by votes,
      pairwise separated, each a window peak of at least `threshold` votes on the coarse grid
      of one of the radii. */
  lemma DetectedCirclesFacts(edges: seq<Byte>, width: nat, height: nat, minR: nat, maxR: int, threshold: int,
                             centreOf: (Pixel, int, int) -> Pixel)
    requires |edges| == width * height
    ensures |DetectedCircles(edges, width, height, minR, maxR, threshold, centreOf)| <= MaxCircles
    ensures Ranking.SortedDesc(DetectedCircles(edges, width, height, minR, maxR, threshold, centreOf), VotesOf)
    ensures Separated(DetectedCircles(edges, width, height, minR, maxR, threshold, centreOf))
    ensures forall c :: c in DetectedCircles(edges, width, height, minR, maxR, threshold, centreOf) ==>
      IsCandidate(EdgePixels(edges, width, height), centreOf, width, height, minR, maxR, threshold, c) && c.votes >= threshold
  {
    var candidates := CandidatesFrom(EdgePixels(edges, width, height), centreOf, width, height, minR, maxR, threshold);
    var sorted := Ranking.SortByKeyDesc(candidates, VotesOf);
    var filtered := Suppress(sorted);
    Ranking.SortByKeyDescCorrect(candidates, VotesOf);
    SuppressSorted(sorted);
    Ranking.TakeKeepsStrongest(filtered, MaxCircles, VotesOf);
    SuppressSeparated(sorted);
    SeparatedPrefix(filtered, |Ranking.Take(filtered, MaxCircles)|);
    DetectedCirclesAreCandidates(edges, width, height, minR, maxR, threshold, centreOf);
  }

  lemma SeparatedPrefix(s: seq<Circle>, n: nat)
    requires Separated(s) && n <= |s|
    ensures Separated(s[..n])
  {
  }

  /** Every detected circle is a candidate: a peak of one of the radii with enough votes. */
  lemma DetectedCirclesAreCandidates(edges: seq<Byte>, width: nat, height: nat, minR: nat, maxR: int, threshold: int,
                                     centreOf: (Pixel, int, int) -> Pixel)
    requires |edges| == width * height
    ensures forall c :: c in DetectedCircles(edges, width, height, minR, maxR, threshold, centreOf) ==>
      IsCandidate(EdgePixels(edges, width, height), centreOf, width, height, minR, maxR, threshold, c) && c.votes >= threshold
  {
    var pixels := EdgePixels(edges, width, height);
    var candidates := CandidatesFrom(pixels, centreOf, width, height, minR, maxR, threshold);
    var sorted := Ranking.SortByKeyDesc(candidates, VotesOf);
    var filtered := Suppress(sorted);
    var circles := Ranking.Take(filtered, MaxCircles);
    Ranking.SortByKeyDescCorrect(candidates, VotesOf);
    SuppressSubset(sorted);
    CandidatesFromExact(pixels, centreOf, width, height, minR, maxR, threshold, minR);
    forall c | c in circles
      ensures IsCandidate(pixels, centreOf, width, height, minR, maxR, threshold, c) && c.votes >= threshold
    {
      assert c in filtered;
      assert c in multiset(sorted);
    }
  }

  /** The whole detector: edge pixels, voting and peak scan per radius, ranking, suppression
      and the cap of 100. */
  method DetectCircles(edges: seq<Byte>, width: nat, height: nat, minR: nat, maxR: int, threshold: int,
                       centreOf: (Pixel, int, int) -> Pixel)
    returns (circles: seq<Circle>)
    requires |edges| == width * height
    ensures circles == DetectedCircles(edges, width, height, minR, maxR, threshold, centreOf)
  {
    var edgePixels := CollectEdgePixels(edges, width, height);
    var candidates: seq<Circle> := [];
    var r := minR;
    while r <= maxR
      invariant minR <= r
      invariant candidates + CandidatesFrom(edgePixels, centreOf, width, height, r, maxR, threshold)
             == CandidatesFrom(edgePixels, centreOf, width, height, minR, maxR, threshold)
      decreases maxR - r
    {
      var acc := VoteRadius(edgePixels, centreOf, r, width, height);
      var found := FindRadiusPeaks(acc, width, height, r, threshold);
      candidates := candidates + found;
      r := r + RadiusStep;
    }
    assert candidates == CandidatesFrom(edgePixels, centreOf, width, height, minR, maxR, threshold);
    var sorted := Ranking.SortByKeyDesc(candidates, VotesOf);
    var filtered := SuppressDuplicates(sorted);
    circles := Ranking.Take(filtered, MaxCircles);
  }
}
