/** The animated stroke-dash offset of the SVG export (src/utils/svg/calculateDashOffset.ts):
    a saw-tooth in time that runs linearly from 256 down towards -256 over a period of
    35 000 ms and jumps back to 256 at every multiple of the period. Time is a real number
    of milliseconds; JavaScript's `%` on numbers keeps the sign of the dividend, which is
    modelled by a truncating remainder. */
module DashOffset {

  const Period: real := 35000.0
  const MinOffset: real := -256.0
  const MaxOffset: real := 256.0

  /** Rounding towards zero. */
  function Trunc(x: real): (n: int)
    ensures x >= 0.0 ==> n as real <= x < n as real + 1.0
    ensures x < 0.0 ==> n as real - 1.0 < x <= n as real
  {
    if x >= 0.0 then x.Floor else -((-x).Floor)
  }

  /** JavaScript's `time % Period`: the remainder after removing whole periods towards zero. */
  function Rem(time: real): (rem: real)
    ensures time >= 0.0 ==> 0.0 <= rem < Period
    ensures time < 0.0 ==> -Period < rem <= 0.0
  {
    time - Trunc(time / Period) as real * Period
  }

  /** `max - range * ((time % period) / period)` with max = 256 and range = 512. For
      non-negative times the offset stays in (-256, 256]; a negative time gives an offset in
      [256, 768), since the remainder keeps the sign of the dividend. */
  function Offset(time: real): (offset: real)
    ensures time >= 0.0 ==> MinOffset < offset <= MaxOffset
    ensures time < 0.0 ==> MaxOffset <= offset < MaxOffset + (MaxOffset - MinOffset)
  {
    MaxOffset - (MaxOffset - MinOffset) * (Rem(time) / Period)
  }

  /** Inside the k-th period the offset is the straight line from 256 at its start. */
  lemma OffsetWithinPeriod(time: real, k: nat)
    requires k as real * Period <= time < (k + 1) as real * Period
    ensures Offset(time) == MaxOffset - (MaxOffset - MinOffset) * ((time - k as real * Period) / Period)
  {
    assert Trunc(time / Period) == k;
  }

  /** The animation loops: one period later the offset is the same. */
  lemma OffsetPeriodic(time: real)
    requires time >= 0.0
    ensures Offset(time + Period) == Offset(time)
  {
    var k := Trunc(time / Period);
    OffsetWithinPeriod(time, k);
    OffsetWithinPeriod(time + Period, k + 1);
  }

  /** Every period starts at the top of the saw-tooth. */
  lemma OffsetAtPeriodStart(k: nat)
    ensures Offset(k as real * Period) == MaxOffset
  {
    OffsetWithinPeriod(k as real * Period, k);
  }

  /** Within one period the offset only moves in one direction: it strictly decreases. */
  lemma OffsetDecreasesWithinPeriod(t1: real, t2: real, k: nat)
    requires k as real * Period <= t1 < t2 < (k + 1) as real * Period
    ensures Offset(t2) < Offset(t1)
  {
    OffsetWithinPeriod(t1, k);
    OffsetWithinPeriod(t2, k);
  }
}
