/**
 The infusion time and the two flow rates of a shot summary, tied to the capture
 and to the infusion segment.
 */
module ShotFlows {
  import opened Prelude
  import opened Samples
  import opened Shot
  import opened ShotMarks
  import opened ShotSegments

  /** The sample the infusion is counted from: the first at pressure, else the first brewing one. */
  function BeginMark(m: Marks): Mark {
    if m.Reached() then m.pressure else m.infusion
  }

  /** Where the infusion ends: at the stop of the pump, or now. */
  function Finish(st: State): Option<real> {
    if st.pump.stop.Some? then st.pump.stop else st.elapsed
  }

  ghost predicate SecondsAreRight(st: State) {
    var begin := BeginMark(st.marks).t;
    && Finish(st).Some?
    && st.flows.seconds == if begin.None? || (!st.marks.Reached() && st.pump.stop.None?) then None
                           else Some(Max(0.0, Finish(st).value - begin.value))
  }

  lemma FirstSeconds(s: Sample, target: real)
    requires TimeS(s).Some?
    ensures SecondsAreRight(Next(INITIAL, s, target))
  {
  }

  lemma NextSeconds(st: State, s: Sample, target: real)
    requires SecondsAreRight(st) && TimeS(s).Some?
    ensures SecondsAreRight(Next(st, s, target))
  {
  }

  lemma {:induction false} SecondsOfRun(samples: seq<Sample>, target: real)
    requires IsTimed(samples) && samples != []
    ensures SecondsAreRight(Run(samples, target))
  {
    var p := samples[..|samples| - 1];
    RunLast(samples, target);
    if p == [] {
      FirstSeconds(samples[0], target);
    } else {
      hide Run, Next, SecondsAreRight;
      SecondsOfRun(p, target);
      NextSeconds(Run(p, target), samples[|p|], target);
    }
  }

  /**
   On every timed capture, from the capture alone: the infusion is timed from the first
   sample at pressure, else from the first brewing one once the pump has stopped, to the
   stop of the pump or the last sample.
   */
  lemma InfusionSeconds(samples: seq<Sample>, target: real)
    requires IsTimed(samples) && samples != []
    ensures var reached, stop := PressureTime(samples, target), StopTime(samples);
            var begin := if reached.Some? then reached else BrewingTime(samples);
            var finish := if stop.Some? then stop else TimeS(samples[|samples| - 1]);
            && finish.Some? && Finish(Run(samples, target)) == finish
            && Run(samples, target).flows.seconds
               == if begin.None? || (reached.None? && stop.None?) then None
                  else Some(Max(0.0, finish.value - begin.value))
  {
    MarkTimes(samples, target);
    SecondsOfRun(samples, target);
    PumpTimes(samples, target);
    Elapsed(samples, target);
    hide Run, FirstTime, FirstOn, StopIndex;
  }

  /** At a sample without a time the infusion shows as no time at all, once at pressure and until the pump stops. */
  lemma NoTimeNoSeconds(samples: seq<Sample>, target: real)
    requires samples != [] && TimeS(samples[|samples| - 1]).None?
    requires Run(samples, target).marks.Reached() && Run(samples, target).pump.stop.None?
    ensures Run(samples, target).flows.seconds == Some(0.0)
  {
    RunLast(samples, target);
    hide Run;
  }

  /**
   On a brew whose pump stops exactly at the first cooldown sample, or that has seen
   neither, the infusion time is the length of the infusion segment.
   */
  lemma InfusionTimeIsSegment(samples: seq<Sample>, target: real)
    requires samples != [] && IsBrew(samples)
    requires ExpectedStart(samples, target, Infusion).Some? && StopTime(samples) == CooldownTime(samples)
    ensures var st := Run(samples, target);
            && Infusion in st.segments.start && Infusion in st.segments.end
            && st.flows.seconds == Some(Max(0.0, st.segments.end[Infusion] - st.segments.start[Infusion]))
  {
    hide *;
    BrewIsTimed(samples);
    FinishIsLastEnd(samples, target);
    SegmentsTile(samples, target);
    InfusionOpened(samples, target, Run(samples, target).segments, LastEnd(samples, target).value);
    InfusionBounds(samples, target, Run(samples, target).segments, LastEnd(samples, target).value);
    InfusionSeconds(samples, target);
  }

  lemma BrewIsTimed(samples: seq<Sample>)
    requires IsBrew(samples)
    ensures IsTimed(samples)
  {
  }

  lemma InfusionOpened(samples: seq<Sample>, target: real, segments: Segments, last: real)
    requires IsSegmented(samples, target, segments, last)
    ensures Infusion in segments.start <==> ExpectedStart(samples, target, Infusion).Some?
  {
    assert Get(segments.start, Infusion) == ExpectedStart(samples, target, Infusion);
    hide ExpectedStart;
  }

  /** The infusion is timed up to the first cooldown sample, or to the last end. */
  lemma FinishIsLastEnd(samples: seq<Sample>, target: real)
    requires samples != [] && IsBrew(samples) && StopTime(samples) == CooldownTime(samples)
    ensures Finish(Run(samples, target))
         == if CooldownTime(samples).Some? then CooldownTime(samples) else LastEnd(samples, target)
  {
    PumpTimes(samples, target);
    Elapsed(samples, target);
    if CooldownTime(samples).None? { NotDoneBefore(samples, target); }
    hide Run, CooldownTime, LastEnd, IsBrew, StopTime;
  }

  lemma Elapsed(samples: seq<Sample>, target: real)
    requires samples != []
    ensures Run(samples, target).elapsed == TimeS(samples[|samples| - 1])
  {
    RunLast(samples, target);
  }

  /** The infusion segment reaches from its mark to the drip or the last end. */
  lemma InfusionBounds(samples: seq<Sample>, target: real, segments: Segments, last: real)
    requires IsTimed(samples) && IsSegmented(samples, target, segments, last) && Infusion in segments.start
    ensures Infusion in segments.end
    ensures segments.end[Infusion] == if CooldownTime(samples).Some? then CooldownTime(samples).value else last
    ensures var reached := PressureTime(samples, target);
            && Some(segments.start[Infusion]) == (if reached.Some? then reached else BrewingTime(samples))
            && (reached.None? ==> StopTime(samples).Some?)
  {
    PumpTimes(samples, target);
    hide Run, FirstTime, HasRamp, StopTime;
    assert Get(segments.start, Infusion) == ExpectedStart(samples, target, Infusion);
    assert Get(segments.start, Drip) == ExpectedStart(samples, target, Drip);
  }

  lemma NotDoneBefore(samples: seq<Sample>, target: real)
    requires samples != [] && IsBrew(samples) && CooldownTime(samples).None?
    ensures LastEnd(samples, target) == TimeS(samples[|samples| - 1])
  {
    var p := samples[..|samples| - 1];
    BrewPrefix(samples);
    assert CooldownTime(p).None?;
    NotStoppedYet(p, target);
  }

  /** The change between two readings over the given time. */
  function RateOver(first: Option<real>, last: Option<real>, seconds: real): Option<real>
    requires seconds > 0.0
  {
    if first.None? || last.None? then None else Some((last.value - first.value) / seconds)
  }

  /** The rates over the infusion, once they are final. */
  ghost predicate RatesAreFinal(st: State) {
    var begin, seconds := BeginMark(st.marks), st.flows.seconds;
    && st.pump.stop.Some? && seconds.Some? && seconds.value >= 1.0
    && st.flows.cupGS == RateOver(begin.weight, st.marks.lastWeight, seconds.value)
    && st.flows.mlS == RateOver(begin.volume, st.marks.lastVolume, seconds.value)
  }

  /** A rate needs a reading to begin with, and the infusion to be timed. */
  ghost predicate RatesBegin(st: State) {
    var begin := BeginMark(st.marks);
    && (!st.marks.Reached() && st.pump.stop.None? ==> st.flows.cupGS.None? && st.flows.mlS.None?)
    && (begin.weight.None? ==> st.flows.cupGS.None?)
    && (begin.volume.None? ==> st.flows.mlS.None?)
    && (begin.weight.Some? ==> st.marks.lastWeight.Some?)
    && (begin.t.None? ==> begin == NO_MARK)
    && (st.marks.Reached() ==> st.marks.infusion.t.Some?)
    && (st.marks.infusion.weight.Some? ==> st.marks.lastWeight.Some?)
  }

  lemma BeginStep(st: State, s: Sample, target: real)
    requires TimeS(s).Some? && RatesBegin(st)
    requires IsBrewing(s) ==> st.pump.stop.None?
    ensures RatesBegin(Next(st, s, target))
  {
  }

  lemma RatesStep(st: State, s: Sample, target: real)
    requires TimeS(s).Some? && SecondsAreRight(st) && RatesBegin(st)
    requires st.flows.frozen ==> RatesAreFinal(st)
    requires IsBrewing(s) ==> st.pump.stop.None?
    ensures Next(st, s, target).flows.frozen ==> RatesAreFinal(Next(st, s, target))
  {
  }

  lemma {:induction false} BrewRates(samples: seq<Sample>, target: real)
    requires IsBrew(samples)
    ensures RatesBegin(Run(samples, target))
    ensures Run(samples, target).flows.frozen ==> RatesAreFinal(Run(samples, target))
  {
    if samples != [] {
      var p, s := samples[..|samples| - 1], samples[|samples| - 1];
      RunLast(samples, target);
      BrewPrefix(samples);
      BrewRates(p, target);
      if IsBrewing(s) {
        NoneLater(samples, Enters(Cooldown));
        NotStoppedYet(p, target);
      }
      if p != [] { SecondsOfRun(p, target); }
      hide Run, Next, SecondsAreRight, FirstTime, RatesAreFinal, RatesBegin;
      BeginStep(Run(p, target), s, target);
      if p == [] {
        FirstNotFrozen(s, target);
      } else {
        RatesStep(Run(p, target), s, target);
      }
    }
  }

  /** The sample the infusion is counted from. */
  function BeginIndex(samples: seq<Sample>, target: real): Option<nat> {
    var reached := FirstIndex(samples, Reaches(target));
    if reached.Some? then reached else FirstIndex(samples, Enters(Brewing))
  }

  /**
   On every brew, from the capture alone: the rates are frozen exactly when the pump has
   stopped after at least a second of infusion, and then they are the grams and the
   millilitres between the sample it is counted from and the last brewing ones, over its time.
   */
  lemma FrozenRates(samples: seq<Sample>, target: real)
    requires samples != [] && IsBrew(samples)
    ensures var flows, begin := Run(samples, target).flows, BeginIndex(samples, target);
            && (flows.frozen <==> HasStopped(samples) && AtLeast(flows.seconds, 1.0))
            && (flows.frozen ==>
                  && flows.cupGS == RateOver(WeightAt(samples, begin), WeightAt(samples, LastWeighed(samples)),
                                             flows.seconds.value)
                  && flows.mlS == RateOver(VolumeAt(samples, begin), LastVolume(samples), flows.seconds.value))
  {
    assert IsTimed(samples);
    BrewRates(samples, target);
    SecondsOfRun(samples, target);
    PumpTimes(samples, target);
    RunLast(samples, target);
    BeginIsMarked(samples, target);
    hide Run, Next, FirstTime, FirstIndex, HasStopped, StopIndex, LastWeighed, LastVolume, IsBrew, RatesBegin, RateOver;
    FreezesAtStop(Run(samples[..|samples| - 1], target), samples[|samples| - 1], target);
    hide SecondsAreRight, BeginMark, BeginIndex, WeightAt, VolumeAt;
  }

  lemma BeginIsMarked(samples: seq<Sample>, target: real)
    requires IsTimed(samples)
    ensures var marks := Run(samples, target).marks;
            && BeginMark(marks) == MarkAt(samples, BeginIndex(samples, target))
            && marks.lastWeight == WeightAt(samples, LastWeighed(samples)) && marks.lastVolume == LastVolume(samples)
            && BeginMark(marks).weight == WeightAt(samples, BeginIndex(samples, target))
            && BeginMark(marks).volume == VolumeAt(samples, BeginIndex(samples, target))
  {
    RunMarks(samples, target);
    FirstIndexIsFirst(samples, Reaches(target));
    hide Run, FirstIndex, LastWeighed, LastVolume, WeightAt;
  }

  lemma FreezesAtStop(st: State, s: Sample, target: real)
    requires TimeS(s).Some? && SecondsAreRight(Next(st, s, target))
    ensures var next := Next(st, s, target);
            next.pump.stop.Some? && AtLeast(next.flows.seconds, 1.0) ==> next.flows.frozen
  {
  }

  lemma FirstNotFrozen(s: Sample, target: real)
    ensures !Next(INITIAL, s, target).flows.frozen
  {
  }
}
