/** Peak extraction of the line detector (`detectLines` in src/app/lines/page.tsx), after the
    GPU has voted into the (theta, rho) accumulator: 180 theta bins by `numRhos` rho bins,
    stored rho-row by rho-row. A cell is a line when it has at least `threshold` votes and no
    cell of its 5 x 5 neighbourhood (offsets -2..2 in both directions) has strictly more.
    The result is ranked by votes and capped at 40. */
module LinePeaks {
  import opened PeakWindow
  import Ranking

  const NumThetas := 180
  const MaxLines := 40

  /** A detected line, by its accumulator bins. */
  datatype Line = Line(thetaBin: nat, rhoBin: nat, votes: nat)

  function VotesOf(l: Line): int
  {
    l.votes
  }

  ghost predicate IsLinePeak(grid: seq<nat>, numRhos: nat, t: int, r: int, threshold: int)
    requires |grid| == NumThetas * numRhos && InGrid(NumThetas, numRhos, t, r)
  {
    Cell(grid, NumThetas, numRhos, t, r) >= threshold &&
    IsWindowMax(grid, NumThetas, numRhos, t, r, 1, Cell(grid, NumThetas, numRhos, t, r))
  }

  /** The peaks of theta column t at rho bins r, r + 1, ... */
  ghost function ColumnPeaks(grid: seq<nat>, numRhos: nat, threshold: int, t: nat, r: nat): seq<Line>
    requires |grid| == NumThetas * numRhos && t < NumThetas
    decreases numRhos - r
  {
    if r >= numRhos then []
    else
      (if IsLinePeak(grid, numRhos, t, r, threshold)
       then [Line(t, r, Cell(grid, NumThetas, numRhos, t, r))] else []) +
      ColumnPeaks(grid, numRhos, threshold, t, r + 1)
  }

  /** The peaks of theta columns t, t + 1, ..., column by column. */
  ghost function PeaksFrom(grid: seq<nat>, numRhos: nat, threshold: int, t: nat): seq<Line>
    requires |grid| == NumThetas * numRhos
    decreases NumThetas - t
  {
    if t >= NumThetas then []
    else ColumnPeaks(grid, numRhos, threshold, t, 0) + PeaksFrom(grid, numRhos, threshold, t + 1)
  }

  /** All peaks in scan order: theta outer, rho inner. */
  ghost function LineCandidates(grid: seq<nat>, numRhos: nat, threshold: int): seq<Line>
    requires |grid| == NumThetas * numRhos
  {
    PeaksFrom(grid, numRhos, threshold, 0)
  }

  /** The result of `detectLines`: nothing when the accumulator framebuffer could not be set
      up, otherwise the 40 strongest peaks, most votes first. */
  ghost function DetectedLines(framebufferComplete: bool, grid: seq<nat>, numRhos: nat, threshold: int): seq<Line>
    requires |grid| == NumThetas * numRhos
  {
    if !framebufferComplete then []
    else Ranking.Take(Ranking.SortByKeyDesc(LineCandidates(grid, numRhos, threshold), VotesOf), MaxLines)
  }

  /** The scan of one theta column over all rho bins. */
  method ScanColumn(grid: seq<nat>, numRhos: nat, threshold: int, t: nat) returns (found: seq<Line>)
    requires |grid| == NumThetas * numRhos && t < NumThetas
    ensures found == ColumnPeaks(grid, numRhos, threshold, t, 0)
  {
    found := [];
    for r := 0 to numRhos
      invariant found + ColumnPeaks(grid, numRhos, threshold, t, r) == ColumnPeaks(grid, numRhos, threshold, t, 0)
    {
      var votes := Cell(grid, NumThetas, numRhos, t, r);
      var isMax := false;
      if votes >= threshold {
        isMax := CheckWindowMax(grid, NumThetas, numRhos, t, r, 1, votes);
      }
      assert isMax <==> IsLinePeak(grid, numRhos, t, r, threshold);
      ghost var rest := ColumnPeaks(grid, numRhos, threshold, t, r + 1);
      if isMax {
        assert ColumnPeaks(grid, numRhos, threshold, t, r) == [Line(t, r, votes)] + rest;
        found := found + [Line(t, r, votes)];
      } else {
        assert ColumnPeaks(grid, numRhos, threshold, t, r) == rest;
      }
    }
  }

  /** The peak scan over the whole accumulator. */
  method FindLinePeaks(grid: seq<nat>, numRhos: nat, threshold: int) returns (found: seq<Line>)
    requires |grid| == NumThetas * numRhos
    ensures found == LineCandidates(grid, numRhos, threshold)
  {
    found := [];
    for t := 0 to NumThetas
      invariant found + PeaksFrom(grid, numRhos, threshold, t) == LineCandidates(grid, numRhos, threshold)
    {
      var column := ScanColumn(grid, numRhos, threshold, t);
      found := found + column;
    }
  }

  /** Peak extraction, ranking and the cap of 40, after the early exit for an incomplete
      accumulator framebuffer. */
  method DetectLines(framebufferComplete: bool, grid: seq<nat>, numRhos: nat, threshold: int)
    returns (lines: seq<Line>)
    requires |grid| == NumThetas * numRhos
    ensures lines == DetectedLines(framebufferComplete, grid, numRhos, threshold)
  {
    if !framebufferComplete {
      return [];
    }
    var found := FindLinePeaks(grid, numRhos, threshold);
    lines := Ranking.Take(Ranking.SortByKeyDesc(found, VotesOf), MaxLines);
  }

  /** A peak of the accumulator, reported by its bins and its vote count. */
  ghost predicate IsLineCandidate(grid: seq<nat>, numRhos: nat, threshold: int, l: Line)
    requires |grid| == NumThetas * numRhos
  {
    && l.thetaBin < NumThetas && l.rhoBin < numRhos
    && IsLinePeak(grid, numRhos, l.thetaBin, l.rhoBin, threshold)
    && l.votes == Cell(grid, NumThetas, numRhos, l.thetaBin, l.rhoBin)
  }

  lemma {:induction false} ColumnPeaksExact(grid: seq<nat>, numRhos: nat, threshold: int, t: nat, r: nat)
    requires |grid| == NumThetas * numRhos && t < NumThetas
    ensures forall l :: l in ColumnPeaks(grid, numRhos, threshold, t, r) <==>
      IsLineCandidate(grid, numRhos, threshold, l) && l.thetaBin == t && l.rhoBin >= r
    decreases numRhos - r
  {
    if r < numRhos {
      ColumnPeaksExact(grid, numRhos, threshold, t, r + 1);
    }
  }

  lemma {:induction false} PeaksFromExact(grid: seq<nat>, numRhos: nat, threshold: int, t: nat)
    requires |grid| == NumThetas * numRhos
    ensures forall l :: l in PeaksFrom(grid, numRhos, threshold, t) <==>
      IsLineCandidate(grid, numRhos, threshold, l) && l.thetaBin >= t
    decreases NumThetas - t
  {
    if t < NumThetas {
      ColumnPeaksExact(grid, numRhos, threshold, t, 0);
      PeaksFromExact(grid, numRhos, threshold, t + 1);
    }
  }

  /** The scan finds exactly the peaks: every reported line passes the threshold and the
      window test, and every cell that does is reported. */
  lemma LineCandidatesExact(grid: seq<nat>, numRhos: nat, threshold: int)
    requires |grid| == NumThetas * numRhos
    ensures forall l :: l in LineCandidates(grid, numRhos, threshold) <==> IsLineCandidate(grid, numRhos, threshold, l)
  {
    PeaksFromExact(grid, numRhos, threshold, 0);
  }

  /** What `detectLines` returns: nothing on an incomplete framebuffer; otherwise at most 40
      peaks, most votes first, and a peak is left out only when 40 peaks with at least as
      many votes are reported. */
  lemma DetectedLinesFacts(framebufferComplete: bool, grid: seq<nat>, numRhos: nat, threshold: int)
    requires |grid| == NumThetas * numRhos
    ensures !framebufferComplete ==> DetectedLines(framebufferComplete, grid, numRhos, threshold) == []
    ensures |DetectedLines(framebufferComplete, grid, numRhos, threshold)| <= MaxLines
    ensures Ranking.SortedDesc(DetectedLines(framebufferComplete, grid, numRhos, threshold), VotesOf)
    ensures forall l :: l in DetectedLines(framebufferComplete, grid, numRhos, threshold) ==>
      IsLineCandidate(grid, numRhos, threshold, l) && l.votes >= threshold
    ensures framebufferComplete ==> forall l ::
      (IsLineCandidate(grid, numRhos, threshold, l) && l !in DetectedLines(framebufferComplete, grid, numRhos, threshold)) ==>
        |DetectedLines(framebufferComplete, grid, numRhos, threshold)| == MaxLines &&
        forall i :: 0 <= i < MaxLines ==> DetectedLines(framebufferComplete, grid, numRhos, threshold)[i].votes >= l.votes
  {
    LineCandidatesExact(grid, numRhos, threshold);
    Ranking.TopByKey(LineCandidates(grid, numRhos, threshold), MaxLines, VotesOf);
  }
}
