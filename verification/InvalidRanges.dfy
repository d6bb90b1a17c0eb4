/** The time intervals over which a signal of a capture is invalid. */
module InvalidRanges {
  import opened Prelude
  import opened Samples

  /** A sample's time and whether its signal is valid. */
  datatype Point = Point(t: real, valid: bool)

  datatype Interval = Interval(start: real, end: real)

  predicate IsIncreasing(points: seq<Point>) {
    forall i, j :: 0 <= i < j < |points| ==> points[i].t < points[j].t
  }

  // ---------- What the intervals must be ----------

  /** Sorted, non-empty, and strictly apart from each other. */
  predicate AreSeparated(ranges: seq<Interval>) {
    && (forall k :: 0 <= k < |ranges| ==> ranges[k].start < ranges[k].end)
    && forall k :: 0 < k < |ranges| ==> ranges[k - 1].end < ranges[k].start
  }

  predicate Contains(r: Interval, t: real) {
    r.start <= t < r.end
  }

  predicate IsCovered(ranges: seq<Interval>, t: real) {
    exists k :: 0 <= k < |ranges| && Contains(ranges[k], t)
  }

  /** `t` is the time of a sample that is valid, or is not. */
  predicate IsTimeOf(points: seq<Point>, t: real, valid: bool) {
    exists i :: 0 <= i < |points| && points[i] == Point(t, valid)
  }

  /** Intervals start at invalid samples and end at valid ones or at the end of the capture. */
  predicate AreAtSamples(points: seq<Point>, ranges: seq<Interval>, duration: real) {
    forall k :: 0 <= k < |ranges| ==>
      IsTimeOf(points, ranges[k].start, false)
      && (IsTimeOf(points, ranges[k].end, true) || ranges[k].end == duration)
  }

  /** A sample before the end of the capture is invalid exactly when its time is in some interval. */
  predicate AreExact(points: seq<Point>, ranges: seq<Interval>, duration: real) {
    forall i :: 0 <= i < |points| && points[i].t < duration ==> (!points[i].valid <==> IsCovered(ranges, points[i].t))
  }

  function Total(ranges: seq<Interval>): real {
    if ranges == [] then 0.0 else Total(ranges[..|ranges| - 1]) + ranges[|ranges| - 1].end - ranges[|ranges| - 1].start
  }

  /** A measurement holds until the next sample or the end of the capture. */
  function Until(points: seq<Point>, i: nat, duration: real): real {
    if i < |points| then Min(points[i].t, duration) else duration
  }

  function HoldTime(points: seq<Point>, i: nat, duration: real): real
    requires i < |points|
  {
    if points[i].valid || points[i].t >= duration then 0.0 else Until(points, i + 1, duration) - points[i].t
  }

  /** The hold times of the invalid ones among the first `n` samples. */
  function InvalidTime(points: seq<Point>, n: nat, duration: real): real
    requires n <= |points|
  {
    if n == 0 then 0.0 else InvalidTime(points, n - 1, duration) + HoldTime(points, n - 1, duration)
  }

  // ---------- The loop ----------

  /** Where the intervals found before sample `i`, and the one still open, lie. */
  predicate AreBehind(points: seq<Point>, ranges: seq<Interval>, start: Option<real>, i: nat)
    requires i <= |points|
  {
    && (i == 0 ==> ranges == [] && start.None?)
    && (i > 0 ==> points[i - 1].valid == start.None?)
    && (start.Some? ==> i > 0 && start.value <= points[i - 1].t && IsTimeOf(points, start.value, false))
    && (ranges != [] ==> i > 0 && ranges[|ranges| - 1].end <= points[i - 1].t)
    && (start.Some? && ranges != [] ==> ranges[|ranges| - 1].end < start.value)
  }

  /** The samples before `i` are invalid exactly in the intervals found and in the open one. */
  predicate AreMarked(points: seq<Point>, ranges: seq<Interval>, start: Option<real>, i: nat)
    requires i <= |points|
  {
    forall j :: 0 <= j < i ==>
      (!points[j].valid <==> IsCovered(ranges, points[j].t) || (start.Some? && start.value <= points[j].t))
  }

  predicate IsTimed(points: seq<Point>, duration: real, ranges: seq<Interval>, start: Option<real>, i: nat)
    requires i <= |points|
  {
    InvalidTime(points, i, duration)
      == Total(ranges) + if start.Some? then Until(points, i, duration) - start.value else 0.0
  }

  /** What the loop knows before sample `i`, all samples so far lying before the end of the capture. */
  ghost predicate IsProgress(points: seq<Point>, duration: real, ranges: seq<Interval>, start: Option<real>, i: nat)
    requires i <= |points|
  {
    && (forall j :: 0 <= j < i ==> points[j].t < duration)
    && AreSeparated(ranges) && AreAtSamples(points, ranges, duration)
    && AreBehind(points, ranges, start, i)
    && AreMarked(points, ranges, start, i)
    && IsTimed(points, duration, ranges, start, i)
  }

  lemma CoverMore(ranges: seq<Interval>, r: Interval, t: real)
    ensures IsCovered(ranges + [r], t) <==> IsCovered(ranges, t) || Contains(r, t)
  {
    var more := ranges + [r];
    assert forall k :: 0 <= k < |ranges| ==> more[k] == ranges[k];
    assert more[|ranges|] == r;
  }

  lemma TotalMore(ranges: seq<Interval>, r: Interval)
    ensures Total(ranges + [r]) == Total(ranges) + r.end - r.start
  {
    assert (ranges + [r])[..|ranges|] == ranges;
  }

  lemma SeparatedMore(ranges: seq<Interval>, r: Interval)
    requires AreSeparated(ranges) && r.start < r.end && (ranges != [] ==> ranges[|ranges| - 1].end < r.start)
    ensures AreSeparated(ranges + [r])
  {
  }

  lemma AtSamplesMore(points: seq<Point>, ranges: seq<Interval>, r: Interval, duration: real)
    requires AreAtSamples(points, ranges, duration)
    requires IsTimeOf(points, r.start, false) && (IsTimeOf(points, r.end, true) || r.end == duration)
    ensures AreAtSamples(points, ranges + [r], duration)
  {
    hide IsTimeOf;
  }

  lemma MarkedMore(points: seq<Point>, ranges: seq<Interval>, start: real, end: real, i: nat)
    requires i <= |points| && AreMarked(points, ranges, Some(start), i)
    requires forall j :: 0 <= j < i ==> points[j].t < end
    ensures AreMarked(points, ranges + [Interval(start, end)], None, i)
  {
    hide IsCovered;
    forall j | 0 <= j < i
      ensures !points[j].valid <==> IsCovered(ranges + [Interval(start, end)], points[j].t)
    {
      CoverMore(ranges, Interval(start, end), points[j].t);
    }
  }

  /** Closing the open interval at the time the last hold ends. */
  lemma CloseRange(points: seq<Point>, duration: real, ranges: seq<Interval>, start: real, end: real, i: nat)
    requires i <= |points| && IsProgress(points, duration, ranges, Some(start), i)
    requires end == Until(points, i, duration) && forall j :: 0 <= j < i ==> points[j].t < end
    requires IsTimeOf(points, end, true) || end == duration
    ensures var more := ranges + [Interval(start, end)];
            && AreSeparated(more) && AreAtSamples(points, more, duration)
            && AreMarked(points, more, None, i) && IsTimed(points, duration, more, None, i)
  {
    hide AreSeparated, AreAtSamples, AreMarked, IsTimeOf, Total, InvalidTime, Until;
    var r := Interval(start, end);
    SeparatedMore(ranges, r);
    AtSamplesMore(points, ranges, r, duration);
    MarkedMore(points, ranges, start, end, i);
    TotalMore(ranges, r);
  }

  /** From the end of the capture on, invalid samples add no time. */
  lemma {:induction false} NoTimeAfter(points: seq<Point>, i: nat, n: nat, duration: real)
    requires i <= n <= |points| && forall j :: i <= j < n ==> points[j].t >= duration
    ensures InvalidTime(points, n, duration) == InvalidTime(points, i, duration)
    decreases n - i
  {
    if i < n { NoTimeAfter(points, i, n - 1, duration); }
  }

  ghost predicate IsAnswer(points: seq<Point>, duration: real, ranges: seq<Interval>) {
    && AreSeparated(ranges) && AreAtSamples(points, ranges, duration) && AreExact(points, ranges, duration)
    && Total(ranges) == InvalidTime(points, |points|, duration)
  }

  lemma MarkedIsExact(points: seq<Point>, ranges: seq<Interval>, i: nat, duration: real)
    requires i <= |points| && AreMarked(points, ranges, None, i)
    requires forall j :: i <= j < |points| ==> points[j].t >= duration
    ensures AreExact(points, ranges, duration)
  {
    hide IsCovered;
  }

  /** The loop ends before sample `i`: at the end of the capture or of the samples. */
  lemma Finish(points: seq<Point>, duration: real, ranges: seq<Interval>, start: Option<real>, i: nat)
    requires i <= |points| && IsIncreasing(points) && IsProgress(points, duration, ranges, start, i)
    requires i < |points| ==> points[i].t >= duration
    ensures IsAnswer(points, duration, if start.Some? then ranges + [Interval(start.value, duration)] else ranges)
  {
    assert forall j :: i <= j < |points| ==> points[j].t >= duration;
    NoTimeAfter(points, i, |points|, duration);
    hide IsIncreasing, AreSeparated, AreAtSamples, AreMarked, AreExact, InvalidTime, Total, IsTimeOf;
    var all := if start.Some? then ranges + [Interval(start.value, duration)] else ranges;
    if start.Some? { CloseRange(points, duration, ranges, start.value, duration, i); }
    MarkedIsExact(points, all, i, duration);
  }

  lemma MarkNext(points: seq<Point>, ranges: seq<Interval>, start: Option<real>, i: nat)
    requires i < |points| && AreMarked(points, ranges, start, i)
    requires !points[i].valid <==> IsCovered(ranges, points[i].t) || (start.Some? && start.value <= points[i].t)
    ensures AreMarked(points, ranges, start, i + 1)
  {
    hide IsCovered;
  }

  /** Starting an interval at `i` covers no sample before it. */
  lemma MarkStart(points: seq<Point>, ranges: seq<Interval>, i: nat)
    requires i < |points| && AreMarked(points, ranges, None, i) && !points[i].valid
    requires forall j :: 0 <= j < i ==> points[j].t < points[i].t
    ensures AreMarked(points, ranges, Some(points[i].t), i + 1)
  {
    hide IsCovered;
  }

  /** Nothing found so far reaches a later time. */
  lemma NotCovered(points: seq<Point>, ranges: seq<Interval>, t: real)
    requires AreSeparated(ranges) && (ranges != [] ==> ranges[|ranges| - 1].end <= t)
    ensures !IsCovered(ranges, t)
  {
    forall k | 0 <= k < |ranges|
      ensures ranges[k].end <= t
    {
      EndsBeforeLast(ranges, k);
    }
  }

  lemma {:induction false} EndsBeforeLast(ranges: seq<Interval>, k: nat)
    requires AreSeparated(ranges) && k < |ranges|
    ensures ranges[k].end <= ranges[|ranges| - 1].end
    decreases |ranges| - k
  {
    if k + 1 < |ranges| {
      EndsBeforeLast(ranges, k + 1);
      assert ranges[k + 1 - 1].end < ranges[k + 1].start < ranges[k + 1].end;
    }
  }

  lemma TimeNext(points: seq<Point>, duration: real, ranges: seq<Interval>, start: Option<real>, i: nat)
    requires i < |points| && points[i].t < duration && IsTimed(points, duration, ranges, start, i)
    requires points[i].valid ==> start.None?
    ensures IsTimed(points, duration, ranges,
                    if !points[i].valid && start.None? then Some(points[i].t) else start, i + 1)
  {
    hide Total;
  }

  /** A valid sample after a valid one. */
  lemma StepValid(points: seq<Point>, duration: real, ranges: seq<Interval>, i: nat)
    requires i < |points| && IsIncreasing(points) && IsProgress(points, duration, ranges, None, i)
    requires points[i].t < duration && points[i].valid
    ensures IsProgress(points, duration, ranges, None, i + 1)
  {
    assert i > 0 ==> points[i - 1].t < points[i].t;
    hide IsIncreasing, AreSeparated, AreAtSamples, AreMarked, IsTimed, IsTimeOf, IsCovered;
    NotCovered(points, ranges, points[i].t);
    MarkNext(points, ranges, None, i);
    TimeNext(points, duration, ranges, None, i);
  }

  /** A valid sample before the end of the capture closes the open interval. */
  lemma StepClose(points: seq<Point>, duration: real, ranges: seq<Interval>, start: real, i: nat)
    requires i < |points| && IsIncreasing(points) && IsProgress(points, duration, ranges, Some(start), i)
    requires points[i].t < duration && points[i].valid
    ensures IsProgress(points, duration, ranges + [Interval(start, points[i].t)], None, i + 1)
  {
    hide IsIncreasing, AreSeparated, AreAtSamples, AreMarked, IsTimed, IsTimeOf, IsCovered, InvalidTime, Total;
    var t, more := points[i].t, ranges + [Interval(start, points[i].t)];
    IsTime(points, i);
    EarlierTimes(points, i);
    CloseRange(points, duration, ranges, start, t, i);
    assert more[|ranges|] == Interval(start, t);
    NotCovered(points, more, t);
    MarkNext(points, more, None, i);
    TimeNext(points, duration, more, None, i);
  }

  lemma IsTime(points: seq<Point>, i: nat)
    requires i < |points|
    ensures IsTimeOf(points, points[i].t, points[i].valid)
  {
    assert points[i] == Point(points[i].t, points[i].valid);
  }

  lemma EarlierTimes(points: seq<Point>, i: nat)
    requires i < |points| && IsIncreasing(points)
    ensures forall j :: 0 <= j < i ==> points[j].t < points[i].t
  {
  }

  /** An invalid sample before the end of the capture opens an interval or stays in it. */
  lemma StepInvalid(points: seq<Point>, duration: real, ranges: seq<Interval>, start: Option<real>, i: nat)
    requires i < |points| && IsIncreasing(points) && IsProgress(points, duration, ranges, start, i)
    requires points[i].t < duration && !points[i].valid
    ensures IsProgress(points, duration, ranges, if start.None? then Some(points[i].t) else start, i + 1)
  {
    hide IsIncreasing, AreSeparated, AreAtSamples, AreMarked, IsTimed, IsTimeOf, IsCovered;
    IsTime(points, i);
    EarlierTimes(points, i);
    if start.Some? { MarkNext(points, ranges, start, i); } else { MarkStart(points, ranges, i); }
    TimeNext(points, duration, ranges, start, i);
  }

  /** `invalid_ranges`. On increasing times, the intervals are exact. */
  method InvalidRanges(points: seq<Point>, duration: real) returns (ranges: seq<Interval>)
    ensures IsIncreasing(points) ==> IsAnswer(points, duration, ranges)
  {
    ranges := [];
    var start: Option<real> := None;
    for i := 0 to |points|
      invariant IsIncreasing(points) ==> IsProgress(points, duration, ranges, start, i)
    {
      hide IsProgress, IsIncreasing, IsAnswer;
      var t := points[i].t;
      if t >= duration {
        if IsIncreasing(points) { Finish(points, duration, ranges, start, i); }
        if start.Some? { ranges := ranges + [Interval(start.value, duration)]; }
        return;
      }
      if IsIncreasing(points) {
        if points[i].valid && start.None? {
          StepValid(points, duration, ranges, i);
        } else if points[i].valid {
          StepClose(points, duration, ranges, start.value, i);
        } else {
          StepInvalid(points, duration, ranges, start, i);
        }
      }
      if !points[i].valid && start.None? { start := Some(t); }
      if points[i].valid && start.Some? {
        ranges := ranges + [Interval(start.value, t)];
        start := None;
      }
    }
    if IsIncreasing(points) { Finish(points, duration, ranges, start, |points|); }
    if start.Some? { ranges := ranges + [Interval(start.value, duration)]; }
  }
}
