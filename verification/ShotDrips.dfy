/**
 The last drops of a shot in terms of the capture: which weights the drip gain is the
 difference of, and from which samples the flow into the cup is taken.
 */
module ShotDrips {
  import opened Prelude
  import opened Samples
  import opened Shot
  import opened ShotCup
  import opened ShotGaps
  import opened ShotMarks
  import opened ShotSegments

  // ---------- The weights in the cup ----------

  /** The weight of sample `i`, relative to the first usable one, is one of a cup in place. */
  predicate HasCup(samples: seq<Sample>, i: nat) {
    var w := WeightAt(samples, Some(i));
    w.Some? && w.value >= 0.0
  }

  /** The first sample with a cup in place. */
  function FirstCup(samples: seq<Sample>): Option<nat> {
    if samples == [] then None
    else
      var n := |samples| - 1;
      var before := FirstCup(samples[..n]);
      if before.None? && HasCup(samples, n) then Some(n) else before
  }

  /** The last sample with a cup in place. */
  function LastCup(samples: seq<Sample>): Option<nat> {
    if samples == [] then None
    else if HasCup(samples, |samples| - 1) then Some(|samples| - 1)
    else LastCup(samples[..|samples| - 1])
  }

  ghost predicate IsFirstCup(samples: seq<Sample>, i: Option<nat>) {
    match i
    case None => forall j :: 0 <= j < |samples| ==> !HasCup(samples, j)
    case Some(k) => k < |samples| && HasCup(samples, k) && forall j :: 0 <= j < k ==> !HasCup(samples, j)
  }

  ghost predicate IsLastCup(samples: seq<Sample>, i: Option<nat>) {
    match i
    case None => forall j :: 0 <= j < |samples| ==> !HasCup(samples, j)
    case Some(k) => k < |samples| && HasCup(samples, k) && forall j :: k < j < |samples| ==> !HasCup(samples, j)
  }

  lemma CupBefore(samples: seq<Sample>, i: nat)
    requires samples != [] && i < |samples| - 1
    ensures HasCup(samples, i) <==> HasCup(samples[..|samples| - 1], i)
  {
    SameBefore(samples, Some(i));
  }

  lemma {:induction false} CupsAreEnds(samples: seq<Sample>)
    ensures IsFirstCup(samples, FirstCup(samples)) && IsLastCup(samples, LastCup(samples))
  {
    if samples != [] {
      var p := samples[..|samples| - 1];
      CupsAreEnds(p);
      hide HasCup;
      forall j: nat | j < |p|
        ensures HasCup(samples, j) <==> HasCup(p, j)
      {
        CupBefore(samples, j);
      }
    }
  }

  /**
   The sample the drips are counted from: the last one with a cup up to the stop of the
   pump, else the first one after it.
   */
  function StopCup(samples: seq<Sample>): Option<nat> {
    var stop := StopIndex(samples);
    if stop.None? || stop.value >= |samples| then None
    else
      var before := LastCup(samples[..stop.value + 1]);
      if before.Some? then before else FirstCup(samples)
  }

  /** What is lost of a weight does not count. */
  function Gain(first: Option<real>, last: Option<real>): real {
    if first.Some? && last.Some? && last.value > first.value then last.value - first.value else 0.0
  }

  /** The samples up to the one at which the drips are over. */
  function Dripping(samples: seq<Sample>, target: real): (d: seq<Sample>)
    ensures d <= samples
  {
    var over := DripsOver(samples, target);
    if over.Some? && over.value < |samples| then samples[..over.value + 1] else samples
  }

  lemma PrefixWeight(samples: seq<Sample>, m: nat, i: Option<nat>)
    requires m <= |samples| && (i.Some? ==> i.value < m)
    ensures WeightAt(samples[..m], i) == WeightAt(samples, i)
  {
    if i.Some? { assert samples[..m][..i.value + 1] == samples[..i.value + 1]; }
  }

  lemma LastMore(samples: seq<Sample>)
    requires samples != []
    ensures var p, weight := samples[..|samples| - 1], WeightAt(samples, Some(|samples| - 1));
            WeightAt(samples, LastCup(samples))
            == if weight.Some? && weight.value >= 0.0 then weight else WeightAt(p, LastCup(p))
    ensures WeightAt(samples, LastCup(samples)).Some? <==> LastCup(samples).Some?
  {
    var p := samples[..|samples| - 1];
    CupsAreEnds(p);
    CupsAreEnds(samples);
    PrefixWeight(samples, |p|, LastCup(p));
    hide WeightAt;
  }

  lemma CupIsKnown(samples: seq<Sample>)
    ensures var first, last := FirstCup(samples), LastCup(samples);
            && (first.Some? ==> first.value < |samples| && WeightAt(samples, first).Some?)
            && (last.Some? ==> last.value < |samples| && WeightAt(samples, last).Some?)
            && (first.Some? <==> last.Some?)
  {
    CupsAreEnds(samples);
  }

  lemma StopCupAtStop(samples: seq<Sample>)
    requires samples != [] && StopIndex(samples) == Some(|samples| - 1)
    ensures WeightAt(samples, StopCup(samples)) == WeightAt(samples, LastCup(samples))
  {
    CupIsKnown(samples);
    assert samples[..|samples|] == samples;
    hide WeightAt, LastCup, FirstCup, StopIndex;
  }

  lemma StopCupIs(samples: seq<Sample>, stop: nat, upTo: seq<Sample>)
    requires StopIndex(samples) == Some(stop) && stop < |samples| && upTo == samples[..stop + 1]
    ensures StopCup(samples) == if LastCup(upTo).Some? then LastCup(upTo) else FirstCup(samples)
    ensures LastCup(upTo).Some? ==>
              LastCup(upTo).value <= stop && WeightAt(samples, LastCup(upTo)) == WeightAt(upTo, LastCup(upTo))
    ensures StopIndex(samples).Some? && WeightAt(upTo, LastCup(upTo)).Some? <==> LastCup(upTo).Some?
  {
    CupIsKnown(upTo);
    PrefixWeight(samples, stop + 1, LastCup(upTo));
    hide StopIndex, LastCup, FirstCup;
  }

  lemma FirstMore(samples: seq<Sample>)
    requires samples != []
    ensures var p := samples[..|samples| - 1];
            && FirstCup(samples) == (if FirstCup(p).Some? then FirstCup(p) else LastCup(samples))
            && (FirstCup(p).Some? ==> WeightAt(samples, FirstCup(p)) == WeightAt(p, FirstCup(p)))
            && (FirstCup(p).Some? <==> WeightAt(p, FirstCup(p)).Some?)
  {
    var p := samples[..|samples| - 1];
    CupIsKnown(p);
    PrefixWeight(samples, |p|, FirstCup(p));
    hide HasCup, WeightAt;
  }

  lemma StopCupAfterStop(samples: seq<Sample>, stop: nat)
    requires samples != [] && stop < |samples| - 1
    requires StopIndex(samples) == StopIndex(samples[..|samples| - 1]) == Some(stop)
    ensures var p := samples[..|samples| - 1];
            var before := WeightAt(p, StopCup(p));
            WeightAt(samples, StopCup(samples)) == if before.Some? then before else WeightAt(samples, LastCup(samples))
  {
    hide *;
    var p, upTo := samples[..|samples| - 1], samples[..stop + 1];
    assert p[..stop + 1] == upTo;
    StopCupIs(samples, stop, upTo);
    StopCupIs(p, stop, upTo);
    FirstMore(samples);
  }

  /** The weight the drips are counted from: once known it stays, and before the stop there is none. */
  lemma StopCupMore(samples: seq<Sample>)
    requires samples != []
    ensures var p, stop := samples[..|samples| - 1], StopIndex(samples);
            var before := WeightAt(p, StopCup(p));
            WeightAt(samples, StopCup(samples))
            == if stop.None? then None else if before.Some? then before else WeightAt(samples, LastCup(samples))
  {
    var p, stop := samples[..|samples| - 1], StopIndex(samples);
    StopWithin(samples);
    StopWithin(p);
    if stop == Some(|p|) {
      StopCupAtStop(samples);
    } else if stop.Some? {
      StopCupAfterStop(samples, stop.value);
    }
    hide WeightAt, LastCup, FirstCup;
  }

  /** `next` is what one more weight makes of the drips, as long as they are not over. */
  predicate IsDripsAfter(d: Drips, weight: Option<real>, stopped: bool, next: Drips) {
    var cup := if weight.Some? && weight.value >= 0.0 then weight else d.cupWeight;
    var base := if !stopped || d.stopWeight.Some? then d.stopWeight else cup;
    && next.cupWeight == cup && next.stopWeight == base
    && next.gain == if !stopped then d.gain
                    else if cup.Some? && base.Some? then Max(0.0, cup.value - base.value) else d.gain
  }

  lemma NextDrips(st: State, s: Sample, target: real, next: State, weight: Option<real>, stopped: bool)
    requires next == Next(st, s, target) && next.scale.Latest() == weight && next.pump.stop.Some? == stopped
    ensures if st.drips.done then next.drips == st.drips else IsDripsAfter(st.drips, weight, stopped, next.drips)
  {
    hide NextSegments;
  }

  ghost predicate DripsAre(d: Drips, samples: seq<Sample>) {
    && d.stopWeight == WeightAt(samples, StopCup(samples)) && d.cupWeight == WeightAt(samples, LastCup(samples))
    && d.gain == Gain(d.stopWeight, d.cupWeight)
    && (d.cupWeight.None? ==> d.stopWeight.None?)
  }

  lemma HasStop(samples: seq<Sample>)
    ensures HasStopped(samples) <==> StopIndex(samples).Some?
  {
  }

  /** The drips of one more sample, in terms of the capture. */
  lemma RunDripsMore(samples: seq<Sample>, target: real)
    requires samples != [] && IsTimed(samples) && !Run(samples[..|samples| - 1], target).drips.done
    ensures var weight, stopped := WeightAt(samples, Some(|samples| - 1)), StopIndex(samples).Some?;
            IsDripsAfter(Run(samples[..|samples| - 1], target).drips, weight, stopped, Run(samples, target).drips)
  {
    hide *;
    var p, n := samples[..|samples| - 1], |samples| - 1;
    RunLast(samples, target);
    RunOrigin(samples, target);
    PumpTimes(samples, target);
    HasStop(samples);
    NextDrips(Run(p, target), samples[n], target, Run(samples, target),
              WeightAt(samples, Some(n)), StopIndex(samples).Some?);
  }

  lemma DripsStep(samples: seq<Sample>, target: real)
    requires samples != [] && IsTimed(samples) && !Run(samples[..|samples| - 1], target).drips.done
    requires DripsAre(Run(samples[..|samples| - 1], target).drips, samples[..|samples| - 1])
    ensures DripsAre(Run(samples, target).drips, samples)
  {
    hide Run, WeightAt, LastCup, FirstCup, StopCup, StopIndex, IsTimed;
    var p := samples[..|samples| - 1];
    RunDripsMore(samples, target);
    LastMore(samples);
    StopCupMore(samples);
    StopsOnce(samples);
  }

  lemma StopsOnce(samples: seq<Sample>)
    requires samples != []
    ensures var p := samples[..|samples| - 1];
            StopIndex(samples).None? ==> StopIndex(p).None? && WeightAt(p, StopCup(p)).None?
  {
    hide FirstOn;
  }

  lemma {:induction false} DripsOfRun(samples: seq<Sample>, target: real)
    requires IsTimed(samples)
    ensures DripsAre(Run(samples, target).drips, Dripping(samples, target))
  {
    DripsAreOver(samples, target);
    if samples != [] {
      var p := samples[..|samples| - 1];
      DripsAreOver(p, target);
      DripsOfRun(p, target);
      DrippingMore(samples, target);
      if Run(p, target).drips.done {
        RunLast(samples, target);
        NextDrips(Run(p, target), samples[|p|], target, Run(samples, target),
                  Run(samples, target).scale.Latest(), Run(samples, target).pump.stop.Some?);
      } else {
        DripsStep(samples, target);
      }
    }
    hide Run, WeightAt, LastCup, FirstCup, StopCup, DripsOver;
  }

  lemma DrippingMore(samples: seq<Sample>, target: real)
    requires samples != [] && IsTimed(samples)
    ensures var p := samples[..|samples| - 1];
            Dripping(samples, target) == if Run(p, target).drips.done then Dripping(p, target) else samples
    ensures var p := samples[..|samples| - 1]; !Run(p, target).drips.done ==> Dripping(p, target) == p
  {
    var p, over := samples[..|samples| - 1], DripsOver(samples, target);
    OverMore(samples, target);
    hide Run, DripsOver;
    if over.Some? && over.value < |p| { assert p[..over.value + 1] == samples[..over.value + 1]; }
    if over == Some(|p|) { assert samples[..|p| + 1] == samples; }
  }

  /**
   On every timed capture: the weight in the cup is the last one of a cup in place up to the
   sample at which the drips are over, and the gain is its rise over the weight at the stop:
   the last one up to the stop, else the first after it.
   */
  lemma DripGain(samples: seq<Sample>, target: real)
    requires IsTimed(samples)
    ensures var d, dripping := Run(samples, target).drips, Dripping(samples, target);
            && IsLastCup(dripping, LastCup(dripping)) && IsFirstCup(dripping, FirstCup(dripping))
            && d.cupWeight == WeightAt(samples, LastCup(dripping))
            && d.stopWeight == WeightAt(samples, StopCup(dripping))
            && d.gain == if d.cupWeight.Some? && d.stopWeight.Some? && d.cupWeight.value > d.stopWeight.value
                         then d.cupWeight.value - d.stopWeight.value else 0.0
  {
    var dripping := Dripping(samples, target);
    DripsOfRun(samples, target);
    CupsAreEnds(dripping);
    CupIsKnown(dripping);
    StopCupWithin(dripping);
    assert dripping == samples[..|dripping|];
    PrefixWeight(samples, |dripping|, LastCup(dripping));
    PrefixWeight(samples, |dripping|, StopCup(dripping));
    hide Run, WeightAt, LastCup, FirstCup, StopCup, Dripping, IsLastCup, IsFirstCup;
  }

  lemma StopCupWithin(samples: seq<Sample>)
    ensures StopCup(samples).Some? ==> StopCup(samples).value < |samples|
  {
    CupIsKnown(samples);
    var stop := StopIndex(samples);
    if stop.Some? && stop.value < |samples| { CupIsKnown(samples[..stop.value + 1]); }
    hide LastCup, FirstCup, WeightAt, StopIndex;
  }

  // ---------- The flow into the cup ----------

  function ReadingAt(samples: seq<Sample>, i: nat): Reading
    requires i < |samples|
  {
    Reading(TimeS(samples[i]), WeightAt(samples, Some(i)))
  }

  /** The readings from sample `k` on. */
  function Readings(samples: seq<Sample>, k: nat): (r: seq<Reading>)
    requires k <= |samples|
    ensures |r| == |samples| - k && forall i :: 0 <= i < |r| ==> r[i] == ReadingAt(samples, k + i)
  {
    seq(|samples| - k, i requires 0 <= i < |samples| - k => ReadingAt(samples, k + i))
  }

  /** The window starts at most 32 samples back. */
  function WindowStart(samples: seq<Sample>): (k: nat)
    ensures k <= |samples|
  {
    if |samples| < 32 then 0 else |samples| - 32
  }

  lemma ReadingsMore(samples: seq<Sample>, k: nat)
    requires samples != [] && k < |samples|
    ensures var p, n := samples[..|samples| - 1], |samples| - 1;
            Readings(samples, k) == Readings(p, k) + [ReadingAt(samples, n)]
  {
    var p, n := samples[..|samples| - 1], |samples| - 1;
    forall i | k <= i < n
      ensures ReadingAt(samples, i) == ReadingAt(p, i)
    {
      PrefixWeight(samples, n, Some(i));
    }
    assert Readings(samples, k) == Readings(p, k) + [ReadingAt(samples, n)] by { hide ReadingAt; }
  }

  lemma NextWindow(c: Scale, s: Sample)
    ensures var more := c.window + [Reading(TimeS(s), c.Observe(s).Latest())];
            c.Observe(s).window == if |more| <= 32 then more else more[|more| - 32..]
  {
  }

  lemma NoWindow(target: real)
    ensures Run([], target).scale.window == Readings([], WindowStart([]))
  {
  }

  lemma ReadingIs(samples: seq<Sample>, i: nat)
    requires i < |samples|
    ensures ReadingAt(samples, i) == Reading(TimeS(samples[i]), WeightAt(samples, Some(i)))
  {
  }

  lemma WindowMoves(samples: seq<Sample>)
    requires samples != []
    ensures var p := samples[..|samples| - 1];
            var k, more := WindowStart(p), Readings(samples, WindowStart(p));
            Readings(samples, WindowStart(samples)) == if |more| <= 32 then more else more[|more| - 32..]
  {
    hide ReadingAt;
  }

  /** On every capture the window holds the times and the relative weights of the last 32 samples. */
  lemma {:induction false} WindowOfRun(samples: seq<Sample>, target: real)
    ensures Run(samples, target).scale.window == Readings(samples, WindowStart(samples))
  {
    hide Run, WeightAt, Scale.Observe, Scale.Latest, Readings, ReadingAt, WindowStart;
    if samples == [] {
      NoWindow(target);
    } else {
      var p, n := samples[..|samples| - 1], |samples| - 1;
      ReadingIs(samples, n);
      WindowOfRun(p, target);
      RunOrigin(samples, target);
      NextWindow(Run(p, target).scale, samples[n]);
      ReadingsMore(samples, WindowStart(p));
      RunScale(samples, target);
      WindowMoves(samples);
    }
  }

  lemma RunScale(samples: seq<Sample>, target: real)
    requires samples != []
    ensures Run(samples, target).scale
         == Run(samples[..|samples| - 1], target).scale.Observe(samples[|samples| - 1])
  {
    hide NextSegments;
  }

  /** Sample `j` is at least 1.999 s old, and none of the last 32 samples after it is. */
  ghost predicate IsBase(samples: seq<Sample>, j: nat) {
    && WindowStart(samples) <= j < |samples| - 1
    && (forall k: nat :: j <= k < |samples| - 1 ==> HasCup(samples, k))
    && (forall k: nat :: j <= k < |samples| - 1 ==>
          (k == j <==> IsOlder(TimeS(samples[|samples| - 1]), TimeS(samples[k]))))
  }

  predicate IsOlder(now: Option<real>, t: Option<real>) {
    now.Some? && t.Some? && now.value - t.value >= 1.999
  }

  /** The readings before the last one. */
  function Past(samples: seq<Sample>): (past: seq<Reading>)
    requires samples != []
    ensures |past| == |samples| - 1 - WindowStart(samples)
    ensures forall i :: 0 <= i < |past| ==> past[i] == ReadingAt(samples, WindowStart(samples) + i)
  {
    Readings(samples, WindowStart(samples))[..|samples| - 1 - WindowStart(samples)]
  }

  lemma PastIs(samples: seq<Sample>, k: nat)
    requires samples != [] && WindowStart(samples) <= k < |samples| - 1
    ensures var r := Past(samples)[k - WindowStart(samples)];
            && (AtLeast(r.weight, 0.0) <==> HasCup(samples, k))
            && (IsOld(r, TimeS(samples[|samples| - 1])) <==> IsOlder(TimeS(samples[|samples| - 1]), TimeS(samples[k])))
            && r.t == TimeS(samples[k]) && r.weight == WeightAt(samples, Some(k))
  {
    hide Past;
  }

  /** The past readings and the samples they are of. */
  ghost predicate IsPast(samples: seq<Sample>, from: nat, past: seq<Reading>, t: Option<real>) {
    && |past| == |samples| - 1 - from
    && forall k: nat :: from <= k < |samples| - 1 ==>
         && (HasCup(samples, k) <==> AtLeast(past[k - from].weight, 0.0))
         && (IsOlder(t, TimeS(samples[k])) <==> IsOld(past[k - from], t))
  }

  lemma PastOfCapture(samples: seq<Sample>)
    requires samples != []
    ensures IsPast(samples, WindowStart(samples), Past(samples), TimeS(samples[|samples| - 1]))
  {
    hide Past, WindowStart, HasCup, IsOlder, IsOld;
    forall k: nat | WindowStart(samples) <= k < |samples| - 1
      ensures var r := Past(samples)[k - WindowStart(samples)];
              && (AtLeast(r.weight, 0.0) <==> HasCup(samples, k))
              && (IsOld(r, TimeS(samples[|samples| - 1])) <==>
                  IsOlder(TimeS(samples[|samples| - 1]), TimeS(samples[k])))
    {
      PastIs(samples, k);
    }
  }

  lemma BaseIsRateBase(samples: seq<Sample>, from: nat, past: seq<Reading>, t: Option<real>, j: nat)
    requires samples != [] && from == WindowStart(samples) && t == TimeS(samples[|samples| - 1])
    requires IsPast(samples, from, past, t) && IsBase(samples, j)
    ensures IsRateBase(past, t, j - from)
  {
    hide HasCup, IsOlder, IsOld, WindowStart;
    forall i | j - from <= i < |past|
      ensures AtLeast(past[i].weight, 0.0) && (i == j - from <==> IsOld(past[i], t))
    {
      var k: nat := from + i;
      assert HasCup(samples, k) && past[k - from] == past[i];
    }
  }

  lemma RateBaseIsBase(samples: seq<Sample>, from: nat, past: seq<Reading>, t: Option<real>, i: nat)
    requires samples != [] && from == WindowStart(samples) && t == TimeS(samples[|samples| - 1])
    requires IsPast(samples, from, past, t) && IsRateBase(past, t, i)
    ensures IsBase(samples, from + i)
  {
    hide HasCup, IsOlder, IsOld, WindowStart;
    forall k: nat | from + i <= k < |samples| - 1
      ensures HasCup(samples, k) && (k == from + i <==> IsOlder(t, TimeS(samples[k])))
    {
      assert AtLeast(past[k - from].weight, 0.0);
    }
  }

  /** The change of weight per second since sample `j`. */
  function FlowSince(samples: seq<Sample>, j: nat): Option<real>
    requires j < |samples|
  {
    var n := |samples| - 1;
    var now, past := TimeS(samples[n]), TimeS(samples[j]);
    var last, first := WeightAt(samples, Some(n)), WeightAt(samples, Some(j));
    if now.None? || past.None? || last.None? || first.None? || now.value <= past.value then None
    else Some((last.value - first.value) / (now.value - past.value))
  }

  lemma SlopeIsFlow(samples: seq<Sample>, j: nat)
    requires IsBase(samples, j) && HasCup(samples, |samples| - 1)
    ensures var r, now, last := Past(samples)[j - WindowStart(samples)], TimeS(samples[|samples| - 1]),
                                WeightAt(samples, Some(|samples| - 1));
            && r.weight.Some? && r.t.Some? && now.Some? && now.value - r.t.value > 0.0
            && FlowSince(samples, j) == Some((last.value - r.weight.value) / (now.value - r.t.value))
  {
    PastIs(samples, j);
    assert HasCup(samples, j) && IsOlder(TimeS(samples[|samples| - 1]), TimeS(samples[j]));
    hide Past, WindowStart, IsBase, WeightAt;
  }

  /**
   On every capture, from the capture alone: the flow is the slope since the latest of the last
   32 samples that is at least 1.999 s old, and is unknown exactly when there is none, or
   a cup is missing since then.
   */
  lemma FlowOfRun(samples: seq<Sample>, target: real)
    requires samples != []
    ensures var n, rate := |samples| - 1, Run(samples, target).scale.Rate();
            && (rate.Some? <==> HasCup(samples, n) && exists j: nat :: IsBase(samples, j))
            && forall j: nat :: IsBase(samples, j) && HasCup(samples, n) ==> rate == FlowSince(samples, j)
  {
    hide Run, HasCup, WeightAt, WindowStart, Past, Scale.Rate, RateSince, IsRateBase, IsOlder, FlowSince, IsPast;
    var n, from, past, t := |samples| - 1, WindowStart(samples), Past(samples), TimeS(samples[|samples| - 1]);
    var weight := WeightAt(samples, Some(n));
    RateOfCapture(samples, target);
    PastOfCapture(samples);
    if HasCup(samples, n) {
      RateIsSlope(past, t, weight.value);
      forall j: nat | IsBase(samples, j)
        ensures RateSince(past, t, weight.value) == FlowSince(samples, j)
      {
        BaseIsRateBase(samples, from, past, t, j);
        SlopeIsFlow(samples, j);
      }
      if RateSince(past, t, weight.value).Some? {
        var i :| IsRateBase(past, t, i);
        RateBaseWithin(past, t, i);
        RateBaseIsBase(samples, from, past, t, i);
      } else if j: nat :| IsBase(samples, j) {
        BaseIsRateBase(samples, from, past, t, j);
      }
    }
  }

  lemma RateBaseWithin(past: seq<Reading>, t: Option<real>, i: int)
    requires IsRateBase(past, t, i)
    ensures 0 <= i < |past|
  {
  }

  lemma RateOfCapture(samples: seq<Sample>, target: real)
    requires samples != []
    ensures var n, weight := |samples| - 1, WeightAt(samples, Some(|samples| - 1));
            && (HasCup(samples, n) ==> weight.Some?)
            && Run(samples, target).scale.Rate()
               == if HasCup(samples, n) then RateSince(Past(samples), TimeS(samples[n]), weight.value) else None
  {
    var n := |samples| - 1;
    WindowOfRun(samples, target);
    var c := Run(samples, target).scale;
    assert c.window == Past(samples) + [ReadingAt(samples, n)] by { hide Run, ReadingAt, WeightAt; }
    hide Run, Past, WindowStart, WeightAt, Scale.Rate, RateSince;
    RateOfScale(c, Past(samples), ReadingAt(samples, n));
  }

  lemma RateOfScale(c: Scale, past: seq<Reading>, last: Reading)
    requires c.window == past + [last]
    ensures c.Rate() == if AtLeast(last.weight, 0.0) then RateSince(past, last.t, last.weight.value) else None
  {
  }
}
