/**
 * The segment plan of `split_and_resize`: how many segments a video of a given
 * duration is cut into and where each one starts and ends, with Python's
 * `math.ceil` and `round` written out on exact reals.
 */
module SegmentPlan {
  import opened Results

  /** `MAX_LEN`, the longest segment in seconds. */
  const MaxLen: real := 60.0

  /** Frame size assumed when the dimension probe fails. */
  const FallbackWidth: int := 1280
  const FallbackHeight: int := 720

  function Min(a: real, b: real): real {
    if a <= b then a else b
  }

  /** `math.ceil` on a real. */
  function Ceil(x: real): (n: int)
    ensures x <= n as real < x + 1.0
  {
    -((-x).Floor)
  }

  /**
   * Python's `round(x)` with no digits argument: the nearest integer, ties to
   * the even one. Exact on reals; binary floating point is not modelled.
   */
  function Round(x: real): (n: int)
    ensures x - 0.5 <= n as real <= x + 0.5
    ensures (n as real == x - 0.5 || n as real == x + 0.5) ==> n % 2 == 0
  {
    var f := x.Floor;
    var frac := x - f as real;
    if frac < 0.5 then f
    else if frac > 0.5 then f + 1
    else if f % 2 == 0 then f
    else f + 1
  }

  lemma RoundOfInteger(n: int)
    ensures Round(n as real) == n
  {
  }

  lemma RoundMonotone(x: real, y: real)
    requires x <= y
    ensures Round(x) <= Round(y)
  {
  }

  /** The duration used: the probed value, or 0.0 when the probe's output is not a number. */
  function ProbedDuration(probe: Option<real>): real {
    probe.GetOr(0.0)
  }

  /** The frame size used: the probed width and height, or 1280x720 when that probe fails. */
  function ProbedSize(probe: Option<(int, int)>): (int, int) {
    probe.GetOr((FallbackWidth, FallbackHeight))
  }

  /** `num_segs = max(1, math.ceil(duration / MAX_LEN))`. */
  function NumSegs(d: real): (n: int)
    ensures n >= 1
    ensures n as real >= d / MaxLen
  {
    var c := Ceil(d / MaxLen);
    if c > 1 then c else 1
  }

  /** `seg_len = duration / num_segs if num_segs > 0 else duration`. */
  function SegLen(d: real): real {
    var n := NumSegs(d);
    if n > 0 then d / n as real else d
  }

  /** The unrounded start of segment `i`: `i * seg_len`. */
  function StartPoint(d: real, i: int): real {
    i as real * SegLen(d)
  }

  /** The unrounded end of segment `i`: `min((i + 1) * seg_len, duration)`. */
  function EndPoint(d: real, i: int): real {
    Min((i + 1) as real * SegLen(d), d)
  }

  /** `start = round(i * seg_len)`. */
  function SegStart(d: real, i: int): int {
    Round(StartPoint(d, i))
  }

  /** `end = round(min((i + 1) * seg_len, duration))`. */
  function SegEnd(d: real, i: int): int {
    Round(EndPoint(d, i))
  }

  /** The segment count times the segment length is the duration, and no segment exceeds sixty seconds. */
  lemma PlanCoversDuration(d: real)
    requires d >= 0.0
    ensures NumSegs(d) as real * SegLen(d) == d
    ensures 0.0 <= SegLen(d) <= MaxLen
  {
    var n := NumSegs(d) as real;
    var l := SegLen(d);
    assert l == d / n;
    assert n * l == d;
    assert n * MaxLen >= d;
    assert (l - MaxLen) * n <= 0.0;
  }

  /** No smaller count keeps every segment within sixty seconds. */
  lemma NumSegsIsLeast(d: real)
    requires d >= 0.0
    ensures NumSegs(d) == 1 || (NumSegs(d) - 1) as real * MaxLen < d
  {
  }

  /** Up to the last segment, `(i + 1) * seg_len` does not pass the duration, so `min` picks it. */
  lemma InnerBoundary(d: real, i: int)
    requires d >= 0.0 && 0 <= i < NumSegs(d) - 1
    ensures Min((i + 1) as real * SegLen(d), d) == (i + 1) as real * SegLen(d)
  {
    PlanCoversDuration(d);
    var n := NumSegs(d);
    var l := SegLen(d);
    assert (n - (i + 1)) as real * l >= 0.0;
    assert n as real * l - (i + 1) as real * l == (n - (i + 1)) as real * l;
  }

  /**
   * The rounded segments tile the timeline: the first starts at 0, each ends
   * where the next starts, and the last ends at the rounded duration.
   */
  lemma SegmentsTile(d: real)
    requires d >= 0.0
    ensures SegStart(d, 0) == 0
    ensures forall i :: 0 <= i < NumSegs(d) - 1 ==> SegEnd(d, i) == SegStart(d, i + 1)
    ensures SegEnd(d, NumSegs(d) - 1) == Round(d)
  {
    RoundOfInteger(0);
    forall i | 0 <= i < NumSegs(d) - 1
      ensures SegEnd(d, i) == SegStart(d, i + 1)
    {
      InnerBoundary(d, i);
    }
    PlanCoversDuration(d);
  }

  lemma MulSuccessor(i: int, l: real)
    ensures (i + 1) as real * l == i as real * l + l
  {
  }

  lemma MulMonotone(i: int, j: int, l: real)
    requires i <= j && l >= 0.0
    ensures i as real * l <= j as real * l
  {
    assert j as real * l - i as real * l == (j - i) as real * l;
  }

  /** Rounding two points at most `l` apart gives integers in order at most `l + 1` apart. */
  lemma RoundSpan(a: real, m: real, l: real)
    requires a <= m <= a + l
    ensures Round(a) <= Round(m)
    ensures (Round(m) - Round(a)) as real <= l + 1.0
  {
    RoundMonotone(a, m);
  }

  /** Segment `i` starts within the duration. */
  lemma StartWithinDuration(d: real, i: int)
    requires d >= 0.0 && 0 <= i < NumSegs(d)
    ensures 0.0 <= i as real * SegLen(d) <= d
  {
    PlanCoversDuration(d);
    MulMonotone(i, NumSegs(d), SegLen(d));
  }

  /** Before rounding, segment `i` runs from `i * seg_len` to at most `seg_len` later. */
  lemma SegmentWindow(d: real, i: int)
    requires d >= 0.0 && 0 <= i < NumSegs(d)
    ensures 0.0 <= SegLen(d) <= MaxLen
    ensures i as real * SegLen(d) <= Min((i + 1) as real * SegLen(d), d) <= i as real * SegLen(d) + SegLen(d)
  {
    PlanCoversDuration(d);
    StartWithinDuration(d, i);
    MulSuccessor(i, SegLen(d));
  }

  lemma SegmentOrdered(d: real, i: int)
    requires d >= 0.0 && 0 <= i < NumSegs(d)
    ensures SegStart(d, i) <= SegEnd(d, i)
  {
    SegmentWindow(d, i);
    RoundMonotone(i as real * SegLen(d), Min((i + 1) as real * SegLen(d), d));
  }

  lemma SegmentSpan(d: real, i: int)
    requires d >= 0.0 && 0 <= i < NumSegs(d)
    ensures (SegEnd(d, i) - SegStart(d, i)) as real <= SegLen(d) + 1.0
  {
    SegmentWindow(d, i);
    RoundSpan(i as real * SegLen(d), Min((i + 1) as real * SegLen(d), d), SegLen(d));
  }

  /** Every segment starts no later than it ends and lasts at most one second more than `seg_len`, so at most 61 seconds. */
  lemma SegmentBounds(d: real, i: int)
    requires d >= 0.0 && 0 <= i < NumSegs(d)
    ensures SegStart(d, i) <= SegEnd(d, i)
    ensures (SegEnd(d, i) - SegStart(d, i)) as real <= SegLen(d) + 1.0
    ensures SegEnd(d, i) - SegStart(d, i) <= 61
  {
    SegmentOrdered(d, i);
    SegmentSpan(d, i);
    PlanCoversDuration(d);
  }

  /** Sum of the rounded lengths of the first `k` segments. */
  function CoveredSeconds(d: real, k: nat): int {
    if k == 0 then 0 else CoveredSeconds(d, k - 1) + (SegEnd(d, k - 1) - SegStart(d, k - 1))
  }

  lemma {:induction false} CoveredTelescopes(d: real, k: nat)
    requires d >= 0.0 && 1 <= k <= NumSegs(d)
    ensures CoveredSeconds(d, k) == SegEnd(d, k - 1)
  {
    SegmentsTile(d);
    if k > 1 {
      CoveredTelescopes(d, k - 1);
    }
  }

  /** Together the segments last the rounded duration, within half a second of the real one. */
  lemma TotalCoverage(d: real)
    requires d >= 0.0
    ensures CoveredSeconds(d, NumSegs(d)) == Round(d)
    ensures d - 0.5 <= CoveredSeconds(d, NumSegs(d)) as real <= d + 0.5
  {
    CoveredTelescopes(d, NumSegs(d));
    SegmentsTile(d);
  }

  /** With two or more segments, each lasts over thirty seconds. */
  lemma LongSegments(d: real)
    requires d >= 0.0 && NumSegs(d) >= 2
    ensures SegLen(d) > 30.0
  {
    PlanCoversDuration(d);
    var n := NumSegs(d);
    var l := SegLen(d);
    assert d / MaxLen > (n - 1) as real;
    assert n as real * l > 60.0 * (n - 1) as real;
    assert (l - 30.0) * n as real > 0.0;
  }

  /** Points more than one apart round to different integers. */
  lemma RoundSeparates(a: real, b: real)
    requires a + 1.0 < b
    ensures Round(a) < Round(b)
  {
  }

  /** The rounded starts strictly increase, so no two segments share a time range. */
  lemma StartsIncrease(d: real, i: int, j: int)
    requires d >= 0.0 && 0 <= i < j < NumSegs(d)
    ensures SegStart(d, i) < SegStart(d, j)
  {
    StartsApart(d, i, j);
    RoundSeparates(i as real * SegLen(d), j as real * SegLen(d));
  }

  /** Before rounding, two distinct starts are more than a second apart. */
  lemma StartsApart(d: real, i: int, j: int)
    requires d >= 0.0 && 0 <= i < j < NumSegs(d)
    ensures i as real * SegLen(d) + 1.0 < j as real * SegLen(d)
  {
    LongSegments(d);
    var l := SegLen(d);
    MulMonotone(i + 1, j, l);
    MulSuccessor(i, l);
  }

  /** A failed duration probe leaves a single segment from 0 to 0. */
  lemma FailedProbeGivesOneEmptySegment()
    ensures NumSegs(ProbedDuration(None)) == 1
    ensures SegStart(ProbedDuration(None), 0) == 0 && SegEnd(ProbedDuration(None), 0) == 0
  {
    RoundOfInteger(0);
  }

  /** 125 seconds: three segments of 41.67 seconds, 0-42, 42-83 and 83-125. */
  lemma ExamplePlan()
    ensures NumSegs(125.0) == 3
    ensures SegStart(125.0, 0) == 0 && SegEnd(125.0, 0) == 42
    ensures SegStart(125.0, 1) == 42 && SegEnd(125.0, 1) == 83
    ensures SegStart(125.0, 2) == 83 && SegEnd(125.0, 2) == 125
  {
    assert NumSegs(125.0) == 3;
    assert SegLen(125.0) == 125.0 / 3.0;
    RoundOfInteger(0);
    RoundOfInteger(125);
  }

  /** Equal reals round alike. */
  lemma RoundCongruent(a: real, b: real)
    requires a == b
    ensures Round(a) == Round(b)
  {
  }

  /** The loop's inline rounding computes the planned start. */
  lemma RoundedStart(d: real, segLen: real, i: int)
    requires segLen == SegLen(d)
    ensures Round(i as real * segLen) == SegStart(d, i)
  {
    RoundCongruent(i as real * segLen, StartPoint(d, i));
  }

  /** The loop's inline rounding computes the planned end. */
  lemma RoundedEnd(d: real, segLen: real, i: int)
    requires segLen == SegLen(d)
    ensures Round(Min((i + 1) as real * segLen, d)) == SegEnd(d, i)
  {
    RoundCongruent(Min((i + 1) as real * segLen, d), EndPoint(d, i));
  }
}
