/**
 What every shot summary keeps, whatever the capture: the scale, the weighted
 temperature and the drips; and that its cup mean is the one of the analysis script.
 */
module ShotCup {
  import opened Prelude
  import opened Samples
  import opened Shot
  import Cup = CupMeans

  // ---------- The weighted temperature ----------

  /** All valid temperatures of the capture lie in a range. */
  ghost predicate InRange(samples: seq<Sample>, lo: real, hi: real) {
    forall i :: 0 <= i < |samples| && Temperature(samples[i]).Some? ==> lo <= Temperature(samples[i]).value <= hi
  }

  ghost predicate IsBetween(v: Option<real>, lo: real, hi: real) {
    v.Some? ==> lo <= v.value <= hi
  }

  /** The books of the weighted mean. */
  ghost predicate IsBalanced(h: Heat, lo: real, hi: real) {
    && h.weightSum == h.weightMax >= 0.0
    && Cup.Between(h.weighted, h.weightSum, lo, hi)
    && IsBetween(h.last, lo, hi)
    && h.cupMean == if h.weightSum > 0.5 then Some(h.weighted / h.weightSum) else None
  }

  lemma WeighRises(h: Heat, c: real, weight: real)
    requires weight > h.weightMax
    ensures var h', grams := h.Weigh(c, Some(weight)), weight - h.weightMax;
            && h'.weightMax == weight && h'.weightSum == h.weightSum + grams && h'.last == h.last
            && h'.weighted == h.weighted + Warm(grams, if h.last.Some? then h.last.value else c, c)
            && h'.cupMean == if h'.weightSum > 0.5 then Some(h'.weighted / h'.weightSum) else h.cupMean
  {
  }

  lemma WeighKeeps(h: Heat, c: real, weight: Option<real>, lo: real, hi: real)
    requires IsBalanced(h, lo, hi) && lo <= c <= hi
    ensures IsBalanced(h.Weigh(c, weight), lo, hi)
  {
    if weight.Some? && weight.value > h.weightMax {
      WeighRises(h, c, weight.value);
      hide Cup.Between, Warm, Heat.Weigh;
      Cup.WarmBetween(h.weighted, h.weightSum, weight.value - h.weightMax,
                      if h.last.Some? then h.last.value else c, c, lo, hi);
    }
  }

  lemma HeatKeeps(h: Heat, temperature: Option<real>, running: bool, weight: Option<real>, lo: real, hi: real)
    requires IsBalanced(h, lo, hi) && IsBetween(temperature, lo, hi)
    ensures IsBalanced(h.Observe(temperature, running, weight), lo, hi)
  {
    if temperature.Some? && running {
      var c := temperature.value;
      var seen := h.(start := if h.start.None? then Some(c) else h.start);
      hide Cup.Between, Heat.Weigh;
      assert IsBalanced(seen.Extremes(c), lo, hi);
      WeighKeeps(seen.Extremes(c), c, weight, lo, hi);
    }
  }

  /**
   On every capture: the grams summed equal the running maximum of the weight, and
   the cup mean is given exactly above half a gram and lies among the valid temperatures.
   */
  lemma {:induction false} CupMeanInvariant(samples: seq<Sample>, target: real, lo: real, hi: real)
    requires InRange(samples, lo, hi)
    ensures var h := Run(samples, target).heat;
            && h.weightSum == h.weightMax >= 0.0
            && (h.cupMean.Some? <==> h.weightSum > 0.5)
            && IsBetween(h.cupMean, lo, hi)
            && IsBalanced(h, lo, hi)
  {
    if samples != [] {
      var p, s := samples[..|samples| - 1], samples[|samples| - 1];
      assert forall i :: 0 <= i < |p| ==> p[i] == samples[i];
      CupMeanInvariant(p, target, lo, hi);
      HeatKeeps(Run(p, target).heat, Temperature(s), Run(samples, target).pump.Running(),
                Run(samples, target).scale.Latest(), lo, hi);
    }
    var h := Run(samples, target).heat;
    hide Run, Cup.Between;
    if h.weightSum > 0.5 { Cup.MeanBetween(h.weighted, h.weightSum, lo, hi); }
  }

  /** The temperature after sample `i` while the pump runs. */
  ghost predicate IsRunningTemperature(samples: seq<Sample>, target: real, i: int, c: real) {
    0 <= i < |samples| && Temperature(samples[i]) == Some(c) && Run(samples[..i + 1], target).pump.Running()
  }

  ghost predicate IsLow(samples: seq<Sample>, target: real, low: Option<real>) {
    && (low.Some? ==> exists i :: IsRunningTemperature(samples, target, i, low.value))
    && forall i, c :: IsRunningTemperature(samples, target, i, c) ==> low.Some? && low.value <= c
  }

  ghost predicate IsHigh(samples: seq<Sample>, target: real, high: Option<real>) {
    && (high.Some? ==> exists i :: IsRunningTemperature(samples, target, i, high.value))
    && forall i, c :: IsRunningTemperature(samples, target, i, c) ==> high.Some? && c <= high.value
  }

  lemma RunningPrefix(samples: seq<Sample>, target: real, i: int, c: real)
    requires samples != []
    ensures var n := |samples| - 1;
            IsRunningTemperature(samples, target, i, c) <==>
            IsRunningTemperature(samples[..n], target, i, c)
            || (i == n && Temperature(samples[n]) == Some(c) && Run(samples, target).pump.Running())
  {
    var n := |samples| - 1;
    if 0 <= i < n { assert samples[..n][..i + 1] == samples[..i + 1]; }
    assert samples[..n + 1] == samples;
    hide Run;
  }

  /** The extremes are the lowest and the highest temperature met while the pump runs. */
  lemma {:induction false} ExtremesAreExtreme(samples: seq<Sample>, target: real)
    ensures IsLow(samples, target, Run(samples, target).heat.low)
    ensures IsHigh(samples, target, Run(samples, target).heat.high)
  {
    if samples != [] {
      var n := |samples| - 1;
      ExtremesAreExtreme(samples[..n], target);
      ExtremesStep(samples, target);
      hide Run;
      LowStep(samples, target);
      HighStep(samples, target);
    }
  }

  lemma LowStep(samples: seq<Sample>, target: real)
    requires samples != []
    requires var n := |samples| - 1;
             var low, low' := Run(samples[..n], target).heat.low, Run(samples, target).heat.low;
             var c := Temperature(samples[n]);
             && IsLow(samples[..n], target, low)
             && low' == if c.Some? && Run(samples, target).pump.Running()
                        then Some(if low.Some? then Min(low.value, c.value) else c.value) else low
    ensures IsLow(samples, target, Run(samples, target).heat.low)
  {
    hide Run, IsRunningTemperature;
    forall i, c
      ensures IsRunningTemperature(samples, target, i, c) <==>
              IsRunningTemperature(samples[..|samples| - 1], target, i, c)
              || (i == |samples| - 1 && Temperature(samples[i]) == Some(c) && Run(samples, target).pump.Running())
    {
      RunningPrefix(samples, target, i, c);
    }
    var n := |samples| - 1;
    var v, c := Run(samples[..n], target).heat.low, Temperature(samples[n]);
    if c.Some? && Run(samples, target).pump.Running() { assert IsRunningTemperature(samples, target, n, c.value); }
    if v.Some? {
      var i :| IsRunningTemperature(samples[..n], target, i, v.value);
      assert IsRunningTemperature(samples, target, i, v.value);
    }
  }

  lemma HighStep(samples: seq<Sample>, target: real)
    requires samples != []
    requires var n := |samples| - 1;
             var high, high' := Run(samples[..n], target).heat.high, Run(samples, target).heat.high;
             var c := Temperature(samples[n]);
             && IsHigh(samples[..n], target, high)
             && high' == if c.Some? && Run(samples, target).pump.Running()
                         then Some(if high.Some? then Max(high.value, c.value) else c.value) else high
    ensures IsHigh(samples, target, Run(samples, target).heat.high)
  {
    hide Run, IsRunningTemperature;
    forall i, c
      ensures IsRunningTemperature(samples, target, i, c) <==>
              IsRunningTemperature(samples[..|samples| - 1], target, i, c)
              || (i == |samples| - 1 && Temperature(samples[i]) == Some(c) && Run(samples, target).pump.Running())
    {
      RunningPrefix(samples, target, i, c);
    }
    var n := |samples| - 1;
    var v, c := Run(samples[..n], target).heat.high, Temperature(samples[n]);
    if c.Some? && Run(samples, target).pump.Running() { assert IsRunningTemperature(samples, target, n, c.value); }
    if v.Some? {
      var i :| IsRunningTemperature(samples[..n], target, i, v.value);
      assert IsRunningTemperature(samples, target, i, v.value);
    }
  }

  lemma ExtremesStep(samples: seq<Sample>, target: real)
    requires samples != []
    ensures var n := |samples| - 1;
            var h, h', c := Run(samples[..n], target).heat, Run(samples, target).heat, Temperature(samples[n]);
            if c.Some? && Run(samples, target).pump.Running() then
              && h'.low == Some(if h.low.Some? then Min(h.low.value, c.value) else c.value)
              && h'.high == Some(if h.high.Some? then Max(h.high.value, c.value) else c.value)
            else h'.low == h.low && h'.high == h.high
  {
  }

  // ---------- The drips ----------

  ghost predicate DripsAreSound(d: Drips, stop: Option<real>) {
    && (d.cupWeight.Some? ==> 0.0 <= d.gain <= d.cupWeight.value)
    && (d.cupWeight.None? ==> d.gain == 0.0)
    && (d.stopWeight.Some? ==> d.stopWeight.value >= 0.0)
    && (d.cupWeight.Some? && d.stopWeight.Some? ==> d.gain == Max(0.0, d.cupWeight.value - d.stopWeight.value))
    && (d.stopWeight.Some? ==> d.cupWeight.Some?)
    && (stop.None? ==> d.stopWeight.None? && d.gain == 0.0 && !d.done)
  }

  /** On every capture: no drip before the pump stops, and the drips are part of the weight in the cup. */
  lemma {:induction false} DripInvariant(samples: seq<Sample>, target: real)
    ensures DripsAreSound(Run(samples, target).drips, Run(samples, target).pump.stop)
  {
    if samples != [] {
      DripInvariant(samples[..|samples| - 1], target);
    }
  }

  /** Once the drips are over, the weight in the cup and the drip gain never change. */
  lemma {:induction false} DripsStayDone(samples: seq<Sample>, more: seq<Sample>, target: real)
    requires Run(samples, target).drips.done
    ensures Run(samples + more, target).drips == Run(samples, target).drips
  {
    if more == [] {
      ConcatNil(samples);
    } else {
      var m := more[..|more| - 1];
      assert (samples + more)[..|samples + more| - 1] == samples + m;
      DripsStayDone(samples, m, target);
    }
  }

  // ---------- The flow into the cup ----------

  /** Reading `j` is old enough for a rate ending at `t`. */
  predicate IsOld(p: Reading, t: Option<real>) {
    t.Some? && p.t.Some? && t.value - p.t.value >= RATE_SPAN_S
  }

  /** `j` is the latest reading old enough, with only usable, recent readings after it. */
  predicate IsRateBase(past: seq<Reading>, t: Option<real>, j: int) {
    && 0 <= j < |past| && IsOld(past[j], t)
    && (forall k :: j <= k < |past| ==> AtLeast(past[k].weight, 0.0))
    && forall k :: j < k < |past| ==> !IsOld(past[k], t)
  }

  /**
   The rate is the slope since the latest reading that is old enough; there is none when
   an unusable one is met first.
   */
  lemma {:induction false} RateIsSlope(past: seq<Reading>, t: Option<real>, weight: real)
    ensures RateSince(past, t, weight).Some? <==> exists j :: IsRateBase(past, t, j)
    ensures forall j :: IsRateBase(past, t, j) ==>
              RateSince(past, t, weight) == Some((weight - past[j].weight.value) / (t.value - past[j].t.value))
  {
    if past != [] {
      var n := |past| - 1;
      var q := past[..n];
      RateIsSlope(q, t, weight);
      assert forall k :: 0 <= k < n ==> q[k] == past[k];
      if IsOld(past[n], t) {
        assert AtLeast(past[n].weight, 0.0) ==> IsRateBase(past, t, n);
      } else if AtLeast(past[n].weight, 0.0) {
        forall j
          ensures IsRateBase(past, t, j) <==> IsRateBase(q, t, j)
        {
          if IsRateBase(q, t, j) { assert forall k :: j <= k < |past| ==> k == n || past[k] == q[k]; }
        }
      }
    }
  }

  // ---------- The two cup means ----------

  /** A sample both scripts use: valid scale, weight at least 0, a dedicated and usable boiler temperature. */
  predicate IsComplete(s: Sample) {
    && s.flags.scale && AtLeast(Number(s.weightG), 0.0)
    && s.boilerValid != Absent && BoilerUsable(s) && s.boilerC.Num?
  }

  /** Complete samples with the pump on from the first, which has a time. */
  predicate IsPouring(samples: seq<Sample>) {
    && (samples != [] ==> TimeS(samples[0]).Some?)
    && forall i :: 0 <= i < |samples| ==> IsComplete(samples[i]) && PumpOn(samples[i])
  }

  /** The books of the summary are those of the script, taken relative to the first weight. */
  ghost predicate Corresponds(st: State, us: seq<Cup.Usable>)
    requires us != []
  {
    var n := |us| - 1;
    && st.pump.Running()
    && st.scale.origin == Some(us[0].grams)
    && st.heat.last == Some(us[n].celsius)
    && st.heat.weightMax == Cup.Top(us) - us[0].grams
    && st.heat.weighted == Cup.Heat(us)
  }

  /** One more sample weighed: the rise of the maximum counts with the mean of the last two temperatures. */
  lemma WeighIsWarm(h: Heat, c: real, weight: real)
    requires h.last.Some?
    ensures var h', top := h.Weigh(c, Some(weight)), Max(h.weightMax, weight);
            && h'.weightMax == top && h'.last == h.last
            && h'.weighted == h.weighted + Warm(top - h.weightMax, h.last.value, c)
  {
    Cup.WarmNothing(h.last.value, c);
  }

  lemma PouringStep(st: State, us: seq<Cup.Usable>, s: Sample, target: real)
    requires us != [] && Corresponds(st, us) && IsComplete(s) && PumpOn(s)
    ensures Corresponds(Next(st, s, target), us + [Cup.Usable(s.weightG.x, s.boilerC.x)])
  {
    var u := Cup.Usable(s.weightG.x, s.boilerC.x);
    LatestReading(st.scale, s);
    Cup.MoreUsable(us, u);
    var seen := st.heat.(start := if st.heat.start.None? then Some(u.celsius) else st.heat.start);
    WeighIsWarm(seen.Extremes(u.celsius), u.celsius, u.grams - us[0].grams);
    hide Warm, Cup.Top, Cup.Heat, Heat.Weigh, Scale.Observe;
  }

  lemma PouringStart(s: Sample, target: real)
    requires IsComplete(s) && PumpOn(s) && TimeS(s).Some?
    ensures Corresponds(Next(INITIAL, s, target), [Cup.Usable(s.weightG.x, s.boilerC.x)])
  {
    LatestReading(INITIAL.scale, s);
    Cup.FirstUsable(Cup.Usable(s.weightG.x, s.boilerC.x));
  }

  lemma {:induction false} PouringRun(samples: seq<Sample>, target: real)
    requires samples != [] && IsPouring(samples)
    ensures var us := Cup.Usables(samples, Cup.Boiler);
            us.Ok? && us.value != [] && Corresponds(Run(samples, target), us.value)
    decreases |samples|
  {
    var n := |samples| - 1;
    var p, s := samples[..n], samples[n];
    if n == 0 {
      PouringStart(s, target);
      assert p == [];
      ConcatNil([Cup.Usable(s.weightG.x, s.boilerC.x)]);
    } else {
      PouringRun(p, target);
      PouringStep(Run(p, target), Cup.Usables(p, Cup.Boiler).value, s, target);
    }
  }

  /** The mean the report shows for a result of the script. */
  function Shown(m: Option<Cup.Mean>): Option<real> {
    if m.Some? && m.value.total > 0.5 then Some(m.value.celsius) else None
  }

  /** After the pump has stopped, the weighted mean is final. */
  lemma {:induction false} MeanIsFinal(samples: seq<Sample>, more: seq<Sample>, target: real)
    requires Run(samples, target).pump.stop.Some?
    ensures Run(samples + more, target).pump.stop == Run(samples, target).pump.stop
    ensures Run(samples + more, target).heat.cupMean == Run(samples, target).heat.cupMean
  {
    if more == [] {
      ConcatNil(samples);
    } else {
      var m := more[..|more| - 1];
      assert (samples + more)[..|samples + more| - 1] == samples + m;
      MeanIsFinal(samples, m, target);
    }
  }

  lemma {:induction false} AllInSomeRange(samples: seq<Sample>) returns (lo: real, hi: real)
    ensures InRange(samples, lo, hi)
  {
    lo, hi := 0.0, 0.0;
    if samples != [] {
      var n := |samples| - 1;
      lo, hi := AllInSomeRange(samples[..n]);
      if Temperature(samples[n]).Some? {
        var c := Temperature(samples[n]).value;
        lo, hi := Min(lo, c), Max(hi, c);
      }
      assert forall i :: 0 <= i < n ==> samples[..n][i] == samples[i];
    }
  }

  /**
   While the pump runs, the cup mean of the summary is that of the script over the
   same samples. The two agree exactly when nothing or more than half a gram was gained.
   */
  lemma PouringMeansAgree(samples: seq<Sample>, target: real)
    requires samples != [] && IsPouring(samples)
    ensures var c := Cup.CupWeighted(samples, Cup.Boiler);
            && c.Ok? && Run(samples, target).heat.cupMean == Shown(c.value)
            && (Run(samples, target).heat.cupMean == (if c.value.Some? then Some(c.value.value.celsius) else None)
                <==> c.value.None? || c.value.value.total > 0.5)
  {
    PouringRun(samples, target);
    var lo, hi := AllInSomeRange(samples);
    CupMeanInvariant(samples, target, lo, hi);
    var us, h := Cup.Usables(samples, Cup.Boiler).value, Run(samples, target).heat;
    Cup.CupMeanFrom(us, h.weightMax, h.weighted);
    hide Run, Cup.Usables, Cup.Top, Cup.Heat, Cup.CupMean, Cup.Between;
  }

  /**
   Over a whole capture whose pump stops after `n` samples, the summary shows the
   script's mean of the samples before the stop, which is where the script finds it.
   */
  lemma CupMeansAgree(samples: seq<Sample>, n: nat, target: real)
    requires 0 < n < |samples| && IsPouring(samples[..n])
    requires samples[n].pumpPct == Num(0.0) && TimeS(samples[n]).Some?
    ensures Cup.StopsAt(samples, n) && forall j :: j < n ==> !Cup.StopsAt(samples, j)
    ensures var c := Cup.CupWeighted(samples[..n], Cup.Boiler);
            c.Ok? && Run(samples, target).heat.cupMean == Shown(c.value)
  {
    hide Run, Cup.Usables, Cup.CupMean, IsPouring;
    StopIsFirst(samples, n);
    PouringMeansAgree(samples[..n], target);
    StoppedRun(samples, n, target);
    MeanIsFinal(samples[..n + 1], samples[n + 1..], target);
    assert samples[..n + 1] + samples[n + 1..] == samples;
  }

  lemma StoppedRun(samples: seq<Sample>, n: nat, target: real)
    requires 0 < n < |samples| && IsPouring(samples[..n])
    requires samples[n].pumpPct == Num(0.0) && TimeS(samples[n]).Some?
    ensures Run(samples[..n + 1], target).pump.stop.Some?
    ensures Run(samples[..n + 1], target).heat.cupMean == Run(samples[..n], target).heat.cupMean
  {
    PouringRun(samples[..n], target);
    RunMore(samples, n, target);
    StopKeepsMean(Run(samples[..n], target), samples[n], target);
    hide Run, Next, IsPouring;
  }

  lemma StopIsFirst(samples: seq<Sample>, n: nat)
    requires 0 < n < |samples| && IsPouring(samples[..n]) && samples[n].pumpPct == Num(0.0)
    ensures Cup.StopsAt(samples, n) && forall j :: j < n ==> !Cup.StopsAt(samples, j)
  {
    var p := samples[..n];
    forall j | 0 <= j < n
      ensures PumpOn(samples[j])
    {
      assert PumpOn(p[j]);
    }
  }

  lemma StopKeepsMean(st: State, s: Sample, target: real)
    requires st.pump.Running() && !PumpOn(s) && TimeS(s).Some?
    ensures Next(st, s, target).pump.stop.Some?
    ensures Next(st, s, target).heat.cupMean == st.heat.cupMean
  {
  }

  /** Counting the stop sample as well changes the script's result exactly when the cup gained weight at it. */
  lemma StopSampleCounts(samples: seq<Sample>, n: nat)
    requires 0 < n < |samples| && IsPouring(samples[..n]) && IsComplete(samples[n])
    ensures var before, after := Cup.Usables(samples[..n], Cup.Boiler), Cup.Usables(samples[..n + 1], Cup.Boiler);
            && before.Ok? && after.Ok? && before.value != []
            && (Cup.CupMean(after.value) == Cup.CupMean(before.value)
                <==> samples[n].weightG.x <= Cup.Top(before.value))
  {
    PouringRun(samples[..n], 0.0);
    Cup.UsablesMore(samples, n, Cup.Boiler);
    RiseMovesMean(Cup.Usables(samples[..n], Cup.Boiler).value, Cup.Usable(samples[n].weightG.x, samples[n].boilerC.x));
    hide Run, Cup.Usables, Cup.Top, Cup.CupMean, Corresponds;
  }

  lemma RiseMovesMean(us: seq<Cup.Usable>, u: Cup.Usable)
    requires us != []
    ensures Cup.CupMean(us + [u]) == Cup.CupMean(us) <==> u.grams <= Cup.Top(us)
  {
    hide Cup.Top, Cup.Heat, Warm, Cup.CupMean;
    var more, first := us + [u], us[0].grams;
    Cup.MoreUsable(us, u);
    Cup.TopAboveFirst(us);
    Cup.WarmNothing(us[|us| - 1].celsius, u.celsius);
    Cup.CupMeanFrom(us, Cup.Top(us) - first, Cup.Heat(us));
    Cup.CupMeanFrom(more, Cup.Top(more) - first, Cup.Heat(more));
    if u.grams <= Cup.Top(us) {
      assert Cup.Top(more) == Cup.Top(us) && Cup.Heat(more) == Cup.Heat(us);
    } else {
      assert Cup.CupMean(more).Some? && Cup.CupMean(more).value.total > Cup.Top(us) - first;
    }
  }

  // ---------- The script as it is called ----------

  /** The temperature of a mean, if there is one. */
  function Celsius(m: Option<Cup.Mean>): Option<real> {
    if m.Some? then Some(m.value.celsius) else None
  }

  /** The grams gained over the usable samples. */
  function Gained(us: seq<Cup.Usable>): (grams: real)
    requires us != []
    ensures grams >= 0.0
  {
    Cup.TopAboveFirst(us);
    Cup.Top(us) - us[0].grams
  }

  /** The stop sample leaves the script's mean where the summary has it. */
  predicate IsNeutral(us: seq<Cup.Usable>, u: Option<Cup.Usable>)
    requires us != []
  {
    if u.None? || u.value.grams <= Cup.Top(us) then Gained(us) == 0.0 || Gained(us) > 0.5
    else Gained(us) > 0.5 && (us[|us| - 1].celsius + u.value.celsius) / 2.0 == Cup.Heat(us) / Gained(us)
  }

  /** Adding a value to a weighted mean keeps it exactly when the value is the mean. */
  lemma MeanKeeps(sum: real, weight: real, extra: real, value: real)
    requires weight > 0.0 && extra > 0.0
    ensures (sum + extra * value) / (weight + extra) == sum / weight <==> value == sum / weight
  {
    var mean := sum / weight;
    assert sum == mean * weight;
    var all := (sum + extra * value) / (weight + extra);
    assert all * (weight + extra) == sum + extra * value;
    if all == mean {
      assert mean * weight + mean * extra == sum + extra * value;
      assert extra * (mean - value) == 0.0;
    }
    if value == mean {
      assert sum + extra * value == mean * (weight + extra);
    }
  }

  lemma NoRise(us: seq<Cup.Usable>, u: Cup.Usable)
    requires us != [] && u.grams <= Cup.Top(us)
    ensures Cup.CupMean(us + [u]) == Cup.CupMean(us)
  {
    RiseMovesMean(us, u);
    hide Cup.CupMean, Cup.Top;
  }

  lemma Rise(us: seq<Cup.Usable>, u: Cup.Usable, extra: real, value: real)
    requires us != [] && extra == u.grams - Cup.Top(us) > 0.0
    requires value == (us[|us| - 1].celsius + u.celsius) / 2.0
    ensures Cup.CupMean(us + [u])
         == Some(Cup.Mean(Gained(us) + extra, (Cup.Heat(us) + extra * value) / (Gained(us) + extra)))
  {
    hide Cup.Top, Cup.Heat, Warm, Cup.CupMean;
    var more := us + [u];
    Cup.MoreUsable(us, u);
    Cup.WarmIsMean(extra, us[|us| - 1].celsius, u.celsius);
    Cup.CupMeanFrom(more, Gained(us) + extra, Cup.Heat(us) + extra * value);
  }

  lemma MeanOf(us: seq<Cup.Usable>)
    requires us != []
    ensures Cup.CupMean(us) == if Gained(us) == 0.0 then None else Some(Cup.Mean(Gained(us), Cup.Heat(us) / Gained(us)))
  {
    Cup.TopAboveFirst(us);
    hide Cup.Top, Cup.Heat;
  }

  /** The summary's mean is that of the script over one more sample exactly when that sample is neutral. */
  lemma NeutralExactly(us: seq<Cup.Usable>, u: Option<Cup.Usable>)
    requires us != []
    ensures var all := if u.Some? then us + [u.value] else us;
            Shown(Cup.CupMean(us)) == Celsius(Cup.CupMean(all)) <==> IsNeutral(us, u)
  {
    MeanOf(us);
    hide Cup.CupMean, Cup.Top, Cup.Heat, Gained;
    if u.Some? && u.value.grams <= Cup.Top(us) {
      NoRise(us, u.value);
    } else if u.Some? {
      var extra, value := u.value.grams - Cup.Top(us), (us[|us| - 1].celsius + u.value.celsius) / 2.0;
      Rise(us, u.value, extra, value);
      if Gained(us) > 0.5 { MeanKeeps(Cup.Heat(us), Gained(us), extra, value); }
    }
  }

  /**
   The script is called with the sample at which the pump stops. The summary then shows
   the script's mean exactly when the stop sample is well-formed and neutral: it is
   unusable or does not exceed the maximum, and nothing or more than half a gram was
   gained before it; or it rises after more than half a gram, at exactly the mean so far.
   */
  lemma MeansAgreeExactly(samples: seq<Sample>, n: nat, target: real)
    requires 0 < n < |samples| && IsPouring(samples[..n])
    requires samples[n].pumpPct == Num(0.0) && TimeS(samples[n]).Some?
    ensures var us, u := Cup.Usables(samples[..n], Cup.Boiler), Cup.UsableOf(samples[n], Cup.Boiler);
            var c := Cup.CupWeighted(samples[..n + 1], Cup.Boiler);
            && us.Ok? && us.value != [] && (c.Ok? <==> u.Ok?)
            && (c.Ok? && Run(samples, target).heat.cupMean == Celsius(c.value) <==>
                  u.Ok? && IsNeutral(us.value, u.value))
  {
    var us, u := Cup.Usables(samples[..n], Cup.Boiler), Cup.UsableOf(samples[n], Cup.Boiler);
    PouringRun(samples[..n], target);
    CupMeansAgree(samples, n, target);
    Cup.UsablesMore(samples, n, Cup.Boiler);
    hide Run, IsPouring, IsNeutral, Cup.CupMean, Cup.Usables, Cup.UsableOf, Corresponds;
    if u.Ok? { NeutralExactly(us.value, u.value); }
  }

  // ---------- Two cups ----------

  /** A complete sample of a brew: time, pump command, grams and degrees. */
  function CupSample(t: real, pct: real, grams: real, celsius: real): Sample {
    Sample(Num(t * 1000.0), Named("infusion"), Flags(false, false, true, true), Num(pct), Num(grams),
           Absent, Absent, Bool(true), Absent, Num(celsius), Absent, Absent, Absent, Absent)
  }

  lemma CupSampleIsUsable(t: real, pct: real, grams: real, celsius: real)
    requires grams >= 0.0
    ensures var s := CupSample(t, pct, grams, celsius);
            && IsComplete(s) && TimeS(s) == Some(t) && (PumpOn(s) <==> pct > 0.0)
            && Cup.UsableOf(s, Cup.Boiler) == Ok(Some(Cup.Usable(grams, celsius)))
  {
  }

  /** Two poured samples, the first with an empty cup. */
  lemma TwoPoured(a: Sample, b: Sample, first: Cup.Usable, second: Cup.Usable)
    requires IsComplete(a) && IsComplete(b) && PumpOn(a) && PumpOn(b) && TimeS(a).Some?
    requires Cup.UsableOf(a, Cup.Boiler) == Ok(Some(first)) && Cup.UsableOf(b, Cup.Boiler) == Ok(Some(second))
    ensures IsPouring([a, b]) && Cup.Usables([a, b], Cup.Boiler) == Ok([first, second])
  {
    hide IsComplete, Cup.UsableOf;
    assert [a, b][..1] == [a] && [a, b][..2] == [a, b];
    Cup.NoUsables([a, b], Cup.Boiler);
    Cup.UsablesMore([a, b], 0, Cup.Boiler);
    Cup.UsablesMore([a, b], 1, Cup.Boiler);
    hide Cup.Usables;
    assert [] + [first] == [first] && [first] + [second] == [first, second];
  }

  lemma TwoUsables(first: Cup.Usable, second: Cup.Usable)
    requires first.grams == 0.0 <= second.grams
    ensures Gained([first, second]) == Cup.Top([first, second]) == second.grams
    ensures Cup.Heat([first, second]) == Warm(second.grams, first.celsius, second.celsius)
  {
    Cup.FirstUsable(first);
    Cup.MoreUsable([first], second);
    assert [first] + [second] == [first, second];
    hide Cup.Top, Cup.Heat, Warm;
  }

  /** With 0.4 grams in the cup the script has a mean and the summary has none. */
  lemma LightCupsDiffer(target: real)
    ensures var samples := [CupSample(0.0, 100.0, 0.0, 90.0), CupSample(1.0, 100.0, 0.4, 90.0)];
            && IsPouring(samples) && Run(samples, target).heat.cupMean.None?
            && Cup.CupWeighted(samples, Cup.Boiler) == Ok(Some(Cup.Mean(0.4, 90.0)))
  {
    var a, b := CupSample(0.0, 100.0, 0.0, 90.0), CupSample(1.0, 100.0, 0.4, 90.0);
    var us := [Cup.Usable(0.0, 90.0), Cup.Usable(0.4, 90.0)];
    CupSampleIsUsable(0.0, 100.0, 0.0, 90.0);
    CupSampleIsUsable(1.0, 100.0, 0.4, 90.0);
    hide CupSample, IsComplete;
    TwoPoured(a, b, us[0], us[1]);
    TwoUsables(us[0], us[1]);
    PouringMeansAgree([a, b], target);
    MeanOf(us);
    hide Run, Cup.Usables, Cup.CupMean, IsPouring;
    assert Warm(0.4, 90.0, 90.0) == 36.0;
  }

  /** The script's result over three samples, the last one with the stop. */
  lemma ThreePoured(samples: seq<Sample>, us: seq<Cup.Usable>, u: Cup.Usable, target: real)
    requires |samples| == 3 && IsPouring(samples[..2]) && Cup.Usables(samples[..2], Cup.Boiler) == Ok(us)
    requires samples[2].pumpPct == Num(0.0) && TimeS(samples[2]).Some?
    requires Cup.UsableOf(samples[2], Cup.Boiler) == Ok(Some(u)) && us != []
    ensures Run(samples, target).heat.cupMean == Shown(Cup.CupMean(us))
    ensures Cup.CupWeighted(samples, Cup.Boiler) == Ok(Cup.CupMean(us + [u]))
  {
    assert samples[..3] == samples;
    CupMeansAgree(samples, 2, target);
    Cup.UsablesMore(samples, 2, Cup.Boiler);
    hide Run, Cup.Usables, Cup.CupMean, Cup.UsableOf, IsPouring;
  }

  lemma GramAndRise(us: seq<Cup.Usable>, u: Cup.Usable)
    requires us == [Cup.Usable(0.0, 90.0), Cup.Usable(1.0, 90.0)] && u == Cup.Usable(2.0, 80.0)
    ensures Cup.CupMean(us) == Some(Cup.Mean(1.0, 90.0)) && Cup.CupMean(us + [u]) == Some(Cup.Mean(2.0, 87.5))
  {
    assert Warm(1.0, 90.0, 90.0) == 90.0;
    hide Warm, Cup.CupMean, Cup.Top, Cup.Heat;
    TwoUsables(us[0], us[1]);
    MeanOf(us);
    Rise(us, u, 1.0, 85.0);
  }

  /** One gram at 90 degrees, and one more at 80 with the stop: the summary shows 90, the script 87.5. */
  lemma RiseAtStopDiffers(target: real)
    ensures var samples := [CupSample(0.0, 100.0, 0.0, 90.0), CupSample(1.0, 100.0, 1.0, 90.0),
                            CupSample(2.0, 0.0, 2.0, 80.0)];
            && Run(samples, target).heat.cupMean == Some(90.0)
            && Cup.CupWeighted(samples, Cup.Boiler) == Ok(Some(Cup.Mean(2.0, 87.5)))
  {
    var a, b, c := CupSample(0.0, 100.0, 0.0, 90.0), CupSample(1.0, 100.0, 1.0, 90.0), CupSample(2.0, 0.0, 2.0, 80.0);
    var us, u := [Cup.Usable(0.0, 90.0), Cup.Usable(1.0, 90.0)], Cup.Usable(2.0, 80.0);
    CupSampleIsUsable(0.0, 100.0, 0.0, 90.0);
    CupSampleIsUsable(1.0, 100.0, 1.0, 90.0);
    CupSampleIsUsable(2.0, 0.0, 2.0, 80.0);
    assert c.pumpPct == Num(0.0) && [a, b, c][..2] == [a, b];
    GramAndRise(us, u);
    hide *;
    TwoPoured(a, b, us[0], us[1]);
    ThreePoured([a, b, c], us, u, target);
    assert Shown(Some(Cup.Mean(1.0, 90.0))) == Some(90.0) by { ShownAbove(); }
  }

  lemma ShownAbove()
    ensures Shown(Some(Cup.Mean(1.0, 90.0))) == Some(90.0)
  {
  }
}
