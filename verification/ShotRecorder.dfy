/** The loop of `shot_summary` over its own variables, proved to compute `Shot.Run`. */
module ShotRecorder {
  import opened Prelude
  import opened Samples
  import opened Shot

  class Recorder {
    const threshold: real

    var pumpStart: Option<real>
    var pumpStop: Option<real>

    var origin: Option<real>
    var window: seq<Reading>

    var lastTemperature: Option<real>
    var weightMax: real
    var weighted: real
    var weightSum: real
    var cupMean: Option<real>
    var startC: Option<real>
    var minC: Option<real>
    var maxC: Option<real>

    var current: Option<Segment>
    var start: Times
    var end: Times

    var pressureMark: Mark
    var infusionMark: Mark
    var lastWeight: Option<real>
    var lastVolume: Option<real>

    var cupWeight: Option<real>
    var stopWeight: Option<real>
    var dripGain: real
    var dripDone: bool

    var infusionS: Option<real>
    var cupGS: Option<real>
    var mlS: Option<real>
    var flowsFrozen: bool

    var elapsed: Option<real>

    /** The variables of the loop, gathered. */
    ghost function Current(): State
      reads this
    {
      State(Pump(pumpStart, pumpStop), Scale(origin, window),
            Heat(lastTemperature, weightMax, weighted, weightSum, cupMean, startC, minC, maxC),
            Segments(current, start, end), Marks(pressureMark, infusionMark, lastWeight, lastVolume),
            Drips(cupWeight, stopWeight, dripGain, dripDone), Flows(infusionS, cupGS, mlS, flowsFrozen), elapsed)
    }

    constructor (targetPressure: real)
      ensures Current() == INITIAL && threshold == targetPressure - 1.0
    {
      threshold := targetPressure - 1.0;
      pumpStart, pumpStop := None, None;
      origin, window := None, [];
      lastTemperature, weightMax, weighted, weightSum := None, 0.0, 0.0, 0.0;
      cupMean, startC, minC, maxC := None, None, None, None;
      current, start, end := None, map[], map[];
      pressureMark, infusionMark, lastWeight, lastVolume := NO_MARK, NO_MARK, None, Some(0.0);
      cupWeight, stopWeight, dripGain, dripDone := None, None, 0.0, false;
      infusionS, cupGS, mlS, flowsFrozen := None, None, None, false;
      elapsed := Some(0.0);
    }

    method ObservePump(on: bool, t: Option<real>) returns (running: bool)
      modifies `pumpStart, `pumpStop
      ensures Pump(pumpStart, pumpStop) == old(Pump(pumpStart, pumpStop)).Observe(on, t)
      ensures running == Pump(pumpStart, pumpStop).Running()
    {
      if on && pumpStart.None? { pumpStart := t; }
      running := pumpStart.Some? && pumpStop.None?;
      if !on && running { pumpStop := t; }
      running := pumpStart.Some? && pumpStop.None?;
    }

    method ObserveScale(s: Sample) returns (weight: Option<real>)
      modifies `origin, `window
      ensures Scale(origin, window) == old(Scale(origin, window)).Observe(s)
      ensures weight == Scale(origin, window).Latest()
    {
      weight := None;
      if Weight(s).Some? {
        if origin.None? { origin := Weight(s); }
        weight := Some(Weight(s).value - origin.value);
      }
      window := LastReadings(window + [Reading(TimeS(s), weight)]);
    }

    method CupRate() returns (rate: Option<real>)
      ensures rate == Scale(origin, window).Rate()
    {
      rate := None;
      var n := |window| - 1;
      if |window| >= 2 && AtLeast(window[n].weight, 0.0) {
        rate := RateBack(window[..n], window[n].t, window[n].weight.value);
      }
    }

    /** The search back through the window for a reading old enough. */
    static method RateBack(past: seq<Reading>, t: Option<real>, weight: real) returns (rate: Option<real>)
      ensures rate == RateSince(past, t, weight)
    {
      rate := None;
      var k := |past|;
      assert past[..k] == past;
      while k > 0
        invariant 0 <= k <= |past|
        invariant RateSince(past, t, weight) == RateSince(past[..k], t, weight)
      {
        var p := past[k - 1];
        assert past[..k][..k - 1] == past[..k - 1];
        if !AtLeast(p.weight, 0.0) { return; }
        if t.Some? && p.t.Some? && t.value - p.t.value >= RATE_SPAN_S {
          rate := Some((weight - p.weight.value) / (t.value - p.t.value));
          return;
        }
        k := k - 1;
      }
    }

    method ObserveTemperature(temperature: Option<real>, running: bool, weight: Option<real>)
      modifies `lastTemperature, `weightMax, `weighted, `weightSum, `cupMean, `startC, `minC, `maxC
      ensures Heat(lastTemperature, weightMax, weighted, weightSum, cupMean, startC, minC, maxC)
           == old(Heat(lastTemperature, weightMax, weighted, weightSum, cupMean, startC, minC, maxC))
              .Observe(temperature, running, weight)
    {
      hide Warm;
      if temperature.None? { return; }
      var c := temperature.value;
      if startC.None? { startC := temperature; }
      if running {
        minC := if minC.None? then temperature else Some(Min(minC.value, c));
        maxC := if maxC.None? then temperature else Some(Max(maxC.value, c));
        if weight.Some? && weight.value > weightMax {
          var previous := if lastTemperature.Some? then lastTemperature.value else c;
          var grams := weight.value - weightMax;
          weighted := weighted + Warm(grams, previous, c);
          weightSum := weightSum + grams;
          weightMax := weight.value;
          if weightSum > 0.5 { cupMean := Some(weighted / weightSum); }
        }
      }
      lastTemperature := temperature;
    }

    method ObserveMarks(s: Sample, weight: Option<real>)
      modifies `pressureMark, `infusionMark, `lastWeight, `lastVolume
      ensures Marks(pressureMark, infusionMark, lastWeight, lastVolume)
           == old(Marks(pressureMark, infusionMark, lastWeight, lastVolume)).Observe(s, weight, threshold)
    {
      if StageOf(s.mode) != Brewing { return; }
      var here := Mark(TimeS(s), weight, Number(s.volumeMl));
      if infusionMark.t.None? { infusionMark := here; }
      if pressureMark.t.None? && s.flags.pressure && AtLeast(Number(s.pressureBar), threshold) {
        pressureMark := here;
      }
      lastVolume := Number(s.volumeMl);
      if weight.Some? { lastWeight := weight; }
    }

    method OpenSegment(name: Segment, t: Option<real>)
      modifies `current, `start, `end
      ensures Segments(current, start, end) == old(Segments(current, start, end)).Open(name, t)
    {
      if current == Some(name) { return; }
      if current.Some? { end := Put(end, current.value, t); }
      current := Some(name);
      start := Put(start, name, t);
    }

    method ObserveSegments(stage: Stage, t: Option<real>)
      modifies `current, `start, `end
      ensures Segments(current, start, end)
           == NextSegments(old(Segments(current, start, end)), stage, t,
                           pumpStop.Some?, pressureMark.t.Some?, dripDone, false)
    {
      match stage {
        case Early(name) => OpenSegment(name, t);
        case Brewing => OpenSegment(if pressureMark.t.Some? then Infusion else Ramp, t);
        case Cooldown => if !dripDone { OpenSegment(Drip, t); }
        case Other =>
      }
      if current.Some? && !dripDone { end := Put(end, current.value, t); }
      if pumpStop.Some? && pressureMark.t.None? && Ramp in start && Infusion !in start {
        start := start[Infusion := start[Ramp]];
        end := Put(end, Infusion, Get(end, Ramp));
        start, end := start - {Ramp}, end - {Ramp};
      }
    }

    method ObserveDrips(weight: Option<real>, rate: Option<real>, t: Option<real>)
      modifies `cupWeight, `stopWeight, `dripGain, `dripDone, `end
      ensures Drips(cupWeight, stopWeight, dripGain, dripDone)
           == old(Drips(cupWeight, stopWeight, dripGain, dripDone)).Observe(weight, rate, pumpStop, t)
      ensures Segments(current, start, end)
           == if dripDone && !old(dripDone) then old(Segments(current, start, end)).CloseDrip(t)
              else old(Segments(current, start, end))
    {
      if dripDone { return; }
      if AtLeast(weight, 0.0) { cupWeight := weight; }
      if pumpStop.Some? {
        if stopWeight.None? { stopWeight := cupWeight; }
        if cupWeight.Some? && stopWeight.Some? { dripGain := Max(0.0, cupWeight.value - stopWeight.value); }
        if t.Some? && t.value > pumpStop.value && (rate.None? || rate.value <= 0.0) {
          dripDone := true;
          if Drip in start { end := Put(end, Drip, t); }
        }
      }
    }

    method ObserveFlows(t: Option<real>)
      modifies `infusionS, `cupGS, `mlS, `flowsFrozen
      ensures Flows(infusionS, cupGS, mlS, flowsFrozen)
           == old(Flows(infusionS, cupGS, mlS, flowsFrozen))
              .Observe(Marks(pressureMark, infusionMark, lastWeight, lastVolume), pumpStop, t)
    {
      var reached := pressureMark.t.Some?;
      var begin := if reached then pressureMark else infusionMark;
      if begin.t.Some? && (reached || pumpStop.Some?) {
        var finish := if pumpStop.Some? then pumpStop else t;
        var duration := if finish.Some? then Max(0.0, finish.value - begin.t.value) else 0.0;
        infusionS := Some(duration);
        if duration >= 1.0 && !flowsFrozen {
          if begin.weight.Some? && lastWeight.Some? {
            cupGS := Some((lastWeight.value - begin.weight.value) / duration);
          }
          if begin.volume.Some? {
            mlS := if lastVolume.Some? then Some((lastVolume.value - begin.volume.value) / duration) else None;
          }
          flowsFrozen := pumpStop.Some?;
        }
      }
    }

    /** The first half of a turn: what is measured. */
    method ObserveInputs(s: Sample) returns (weight: Option<real>, rate: Option<real>)
      modifies `pumpStart, `pumpStop, `origin, `window, `pressureMark, `infusionMark, `lastWeight, `lastVolume
      modifies `lastTemperature, `weightMax, `weighted, `weightSum, `cupMean, `startC, `minC, `maxC
      ensures Pump(pumpStart, pumpStop) == old(Pump(pumpStart, pumpStop)).Observe(PumpOn(s), TimeS(s))
      ensures Scale(origin, window) == old(Scale(origin, window)).Observe(s)
      ensures weight == Scale(origin, window).Latest() && rate == Scale(origin, window).Rate()
      ensures Heat(lastTemperature, weightMax, weighted, weightSum, cupMean, startC, minC, maxC)
           == old(Heat(lastTemperature, weightMax, weighted, weightSum, cupMean, startC, minC, maxC))
              .Observe(Temperature(s), Pump(pumpStart, pumpStop).Running(), weight)
      ensures Marks(pressureMark, infusionMark, lastWeight, lastVolume)
           == old(Marks(pressureMark, infusionMark, lastWeight, lastVolume)).Observe(s, weight, threshold)
    {
      hide Pump.Observe, Scale.Observe, Scale.Latest, Scale.Rate, Heat.Observe, Marks.Observe, Temperature, PumpOn;
      var running := ObservePump(PumpOn(s), TimeS(s));
      weight := ObserveScale(s);
      rate := CupRate();
      ObserveTemperature(Temperature(s), running, weight);
      ObserveMarks(s, weight);
    }

    /** The second half: what follows from it. */
    method ObserveResults(stage: Stage, weight: Option<real>, rate: Option<real>, t: Option<real>)
      modifies `current, `start, `end, `cupWeight, `stopWeight, `dripGain, `dripDone
      modifies `infusionS, `cupGS, `mlS, `flowsFrozen
      ensures Drips(cupWeight, stopWeight, dripGain, dripDone)
           == old(Drips(cupWeight, stopWeight, dripGain, dripDone)).Observe(weight, rate, pumpStop, t)
      ensures Segments(current, start, end)
           == NextSegments(old(Segments(current, start, end)), stage, t, pumpStop.Some?, pressureMark.t.Some?,
                           old(dripDone), dripDone && !old(dripDone))
      ensures Flows(infusionS, cupGS, mlS, flowsFrozen)
           == old(Flows(infusionS, cupGS, mlS, flowsFrozen))
              .Observe(Marks(pressureMark, infusionMark, lastWeight, lastVolume), pumpStop, t)
    {
      hide Drips.Observe, Flows.Observe, Segments.Enter, Segments.Extend, Segments.Relabel, Segments.CloseDrip;
      ObserveSegments(stage, t);
      ObserveDrips(weight, rate, t);
      ObserveFlows(t);
    }

    /** The measured parts of `now` follow from `before`. */
    static ghost predicate IsMeasured(before: State, now: State, s: Sample, threshold: real,
                                      weight: Option<real>, rate: Option<real>)
    {
      && now.pump == before.pump.Observe(PumpOn(s), TimeS(s))
      && now.scale == before.scale.Observe(s)
      && weight == now.scale.Latest() && rate == now.scale.Rate()
      && now.heat == before.heat.Observe(Temperature(s), now.pump.Running(), weight)
      && now.marks == before.marks.Observe(s, weight, threshold)
    }

    /** The other parts of `now` follow from `before` and the measured ones. */
    static ghost predicate IsConcluded(before: State, now: State, stage: Stage, t: Option<real>,
                                       weight: Option<real>, rate: Option<real>)
    {
      && now.drips == before.drips.Observe(weight, rate, now.pump.stop, t)
      && now.segments == NextSegments(before.segments, stage, t, now.pump.stop.Some?, now.marks.Reached(),
                                      before.drips.done, now.drips.done && !before.drips.done)
      && now.flows == before.flows.Observe(now.marks, now.pump.stop, t)
    }

    /** One turn of the loop. */
    method Observe(s: Sample)
      modifies this
      ensures IsNextState(old(Current()), s, threshold + 1.0, Current())
    {
      hide Pump.Observe, Scale.Observe, Scale.Latest, Scale.Rate;
      hide Heat.Observe, Marks.Observe, Drips.Observe, Flows.Observe;
      hide NextSegments, Temperature, PumpOn, TimeS, StageOf, IsNextState;
      ghost var before := Current();
      var weight, rate := ObserveInputs(s);
      ghost var middle := Current();
      ObserveResults(StageOf(s.mode), weight, rate, TimeS(s));
      elapsed := TimeS(s);
      ghost var now := Current();
      assert IsMeasured(before, middle, s, threshold, weight, rate);
      assert middle.segments == before.segments && middle.drips == before.drips && middle.flows == before.flows;
      assert now.pump == middle.pump && now.scale == middle.scale;
      assert now.heat == middle.heat && now.marks == middle.marks;
      assert IsConcluded(middle, now, StageOf(s.mode), TimeS(s), weight, rate);
      Compose(before, middle, now, s, threshold + 1.0, weight, rate);
    }

    static lemma Compose(before: State, middle: State, now: State, s: Sample, target: real,
                         weight: Option<real>, rate: Option<real>)
      requires IsMeasured(before, middle, s, target - 1.0, weight, rate)
      requires middle.segments == before.segments && middle.drips == before.drips && middle.flows == before.flows
      requires now.pump == middle.pump && now.scale == middle.scale
      requires now.heat == middle.heat && now.marks == middle.marks
      requires IsConcluded(middle, now, StageOf(s.mode), TimeS(s), weight, rate) && now.elapsed == TimeS(s)
      ensures IsNextState(before, s, target, now)
    {
    }
  }

  /** `shot_summary`. */
  method ShotSummary(samples: seq<Sample>, targetPressure: real) returns (shot: Recorder)
    ensures fresh(shot) && shot.Current() == Run(samples, targetPressure)
  {
    shot := new Recorder(targetPressure);
    for i := 0 to |samples|
      invariant fresh(shot) && shot.threshold == targetPressure - 1.0
      invariant shot.Current() == Run(samples[..i], targetPressure)
    {
      RunMore(samples, i, targetPressure);
      ghost var before := shot.Current();
      shot.Observe(samples[i]);
      NextIsNext(before, samples[i], targetPressure, shot.Current());
    }
    assert samples[..|samples|] == samples;
  }
}
