/**
 The shot summary, sample by sample: the pump clock, the scale, the weighted
 temperature, the segments, the marks of the infusion, the drips and the flows.
 `Next` is one turn of the loop, `Run` a whole capture.
 */
module Shot {
  import opened Prelude
  import opened Samples

  // ---------- Pump ----------

  datatype Pump = Pump(start: Option<real>, stop: Option<real>) {
    predicate Running() { start.Some? && stop.None? }

    function Observe(on: bool, t: Option<real>): Pump {
      var begun := if on && start.None? then Pump(t, stop) else this;
      if !on && begun.Running() then Pump(begun.start, t) else begun
    }
  }

  // ---------- Scale ----------

  datatype Reading = Reading(t: Option<real>, weight: Option<real>)

  const WINDOW := 32
  const RATE_SPAN_S := 1.999

  function LastReadings(window: seq<Reading>): seq<Reading> {
    if |window| <= WINDOW then window else window[|window| - WINDOW..]
  }

  /** Looks back from the end of `past` for a reading old enough, giving up at an unusable one. */
  function RateSince(past: seq<Reading>, t: Option<real>, weight: real): Option<real> {
    if past == [] then None
    else
      var p := past[|past| - 1];
      if !AtLeast(p.weight, 0.0) then None
      else if t.Some? && p.t.Some? && t.value - p.t.value >= RATE_SPAN_S then
        Some((weight - p.weight.value) / (t.value - p.t.value))
      else RateSince(past[..|past| - 1], t, weight)
  }

  datatype Scale = Scale(origin: Option<real>, window: seq<Reading>) {
    /** The weight relative to the first usable one. */
    function Observe(s: Sample): Scale {
      var o := if origin.None? then Weight(s) else origin;
      var w := match Weight(s) case None => None case Some(g) => Some(g - o.value);
      Scale(o, LastReadings(window + [Reading(TimeS(s), w)]))
    }

    function Latest(): Option<real> {
      if window == [] then None else window[|window| - 1].weight
    }

    /** The flow into the cup, in grams per second. */
    function Rate(): Option<real> {
      if |window| < 2 || !AtLeast(Latest(), 0.0) then None
      else RateSince(window[..|window| - 1], window[|window| - 1].t, Latest().value)
    }
  }

  // ---------- Temperature ----------

  datatype Heat = Heat(
    last: Option<real>, weightMax: real, weighted: real, weightSum: real,
    cupMean: Option<real>, start: Option<real>, low: Option<real>, high: Option<real>)
  {
    function Observe(temperature: Option<real>, running: bool, weight: Option<real>): Heat {
      if temperature.None? then this
      else
        var c := temperature.value;
        var seen := this.(start := if start.None? then Some(c) else start);
        (if running then seen.Extremes(c).Weigh(c, weight) else seen).(last := Some(c))
    }

    function Extremes(c: real): Heat {
      this.(low := if low.None? then Some(c) else Some(Min(low.value, c)),
            high := if high.None? then Some(c) else Some(Max(high.value, c)))
    }

    /** Grams beyond the running maximum count with the mean of the last two temperatures. */
    function Weigh(c: real, weight: Option<real>): Heat {
      if weight.None? || weight.value <= weightMax then this
      else
        var previous := if last.Some? then last.value else c;
        var grams := weight.value - weightMax;
        var sum := weightSum + grams;
        var total := weighted + Warm(grams, previous, c);
        this.(weightMax := weight.value, weighted := total, weightSum := sum,
              cupMean := if sum > 0.5 then Some(total / sum) else cupMean)
    }
  }

  // ---------- Segments ----------

  datatype Segment = Preheat | Filling | Preinfusion | Ramp | Infusion | Drip

  /** `SHOT_MODES`. */
  datatype Stage = Early(segment: Segment) | Brewing | Cooldown | Other

  function StageOf(mode: Mode): Stage {
    if !mode.Named? then Other
    else match mode.name
      case "thermal_preheat" => Early(Preheat)
      case "filling" => Early(Filling)
      case "preinfusion" => Early(Preinfusion)
      case "infusion" => Brewing
      case "ramp_down" => Brewing
      case "rampdown" => Brewing
      case "cooldown" => Cooldown
      case _ => Other
  }

  /** A dictionary of times, with NaN left out. */
  type Times = map<Segment, real>

  function Put(times: Times, name: Segment, t: Option<real>): Times {
    if t.Some? then times[name := t.value] else times - {name}
  }

  function Get(times: Times, name: Segment): Option<real> {
    if name in times then Some(times[name]) else None
  }

  datatype Segments = Segments(current: Option<Segment>, start: Times, end: Times) {
    function Open(name: Segment, t: Option<real>): Segments {
      if current == Some(name) then this
      else Segments(Some(name), Put(start, name, t),
                    if current.Some? then Put(end, current.value, t) else end)
    }

    function Enter(stage: Stage, reached: bool, dripDone: bool, t: Option<real>): Segments {
      match stage
      case Early(name) => Open(name, t)
      case Brewing => Open(if reached then Infusion else Ramp, t)
      case Cooldown => if dripDone then this else Open(Drip, t)
      case Other => this
    }

    function Extend(dripDone: bool, t: Option<real>): Segments {
      if current.Some? && !dripDone then this.(end := Put(end, current.value, t)) else this
    }

    /** Pressure was never reached: the ramp was the infusion. */
    function Relabel(stopped: bool, reached: bool): Segments {
      if stopped && !reached && Ramp in start && Infusion !in start then
        this.(start := start[Infusion := start[Ramp]] - {Ramp},
              end := Put(end, Infusion, Get(end, Ramp)) - {Ramp})
      else this
    }

    function CloseDrip(t: Option<real>): Segments {
      if Drip in start then this.(end := Put(end, Drip, t)) else this
    }
  }

  // ---------- Marks ----------

  datatype Mark = Mark(t: Option<real>, weight: Option<real>, volume: Option<real>)

  const NO_MARK := Mark(None, None, None)

  datatype Marks = Marks(pressure: Mark, infusion: Mark, lastWeight: Option<real>, lastVolume: Option<real>) {
    predicate Reached() { pressure.t.Some? }

    function Observe(s: Sample, weight: Option<real>, threshold: real): Marks {
      if StageOf(s.mode) != Brewing then this
      else
        var here := Mark(TimeS(s), weight, Number(s.volumeMl));
        Marks(
          if pressure.t.None? && s.flags.pressure && AtLeast(Number(s.pressureBar), threshold) then here else pressure,
          if infusion.t.None? then here else infusion,
          if weight.Some? then weight else lastWeight,
          Number(s.volumeMl))
    }
  }

  // ---------- Drips ----------

  datatype Drips = Drips(cupWeight: Option<real>, stopWeight: Option<real>, gain: real, done: bool) {
    function Observe(weight: Option<real>, rate: Option<real>, stop: Option<real>, t: Option<real>): Drips {
      if done then this
      else
        var weighed := this.(cupWeight := if AtLeast(weight, 0.0) then weight else cupWeight);
        if stop.None? then weighed
        else
          var base := if stopWeight.None? then weighed.cupWeight else stopWeight;
          Drips(
            weighed.cupWeight, base,
            if weighed.cupWeight.Some? && base.Some? then Max(0.0, weighed.cupWeight.value - base.value) else gain,
            t.Some? && t.value > stop.value && (rate.None? || rate.value <= 0.0))
    }
  }

  // ---------- Flows ----------

  datatype Flows = Flows(seconds: Option<real>, cupGS: Option<real>, mlS: Option<real>, frozen: bool) {
    function Observe(marks: Marks, stop: Option<real>, t: Option<real>): Flows {
      var begin := if marks.Reached() then marks.pressure else marks.infusion;
      if begin.t.None? || (!marks.Reached() && stop.None?) then this
      else
        var finish := if stop.Some? then stop else t;
        var duration := if finish.Some? then Max(0.0, finish.value - begin.t.value) else 0.0;
        var timed := this.(seconds := Some(duration));
        if duration < 1.0 || frozen then timed
        else timed.(
          cupGS := if begin.weight.Some? && marks.lastWeight.Some?
                   then Some((marks.lastWeight.value - begin.weight.value) / duration) else cupGS,
          mlS := if begin.volume.None? then mlS
                 else if marks.lastVolume.None? then None
                 else Some((marks.lastVolume.value - begin.volume.value) / duration),
          frozen := stop.Some?)
    }
  }

  // ---------- The whole summary ----------

  datatype State = State(
    pump: Pump, scale: Scale, heat: Heat, segments: Segments,
    marks: Marks, drips: Drips, flows: Flows, elapsed: Option<real>)

  const INITIAL := State(
    Pump(None, None),
    Scale(None, []),
    Heat(None, 0.0, 0.0, 0.0, None, None, None, None),
    Segments(None, map[], map[]),
    Marks(NO_MARK, NO_MARK, None, Some(0.0)),
    Drips(None, None, 0.0, false),
    Flows(None, None, None, false),
    Some(0.0))

  /** The segments after a sample; `done` says whether the drips ended before it, `ends` whether they end at it. */
  function NextSegments(segments: Segments, stage: Stage, t: Option<real>,
                        stopped: bool, reached: bool, done: bool, ends: bool): Segments {
    var here := segments.Enter(stage, reached, done, t).Extend(done, t).Relabel(stopped, reached);
    if ends then here.CloseDrip(t) else here
  }

  /** `next` is what one sample makes of `st`, part by part. */
  ghost predicate IsNextState(st: State, s: Sample, target: real, next: State) {
    var weight, t := next.scale.Latest(), TimeS(s);
    && next.pump == st.pump.Observe(PumpOn(s), t)
    && next.scale == st.scale.Observe(s)
    && next.heat == st.heat.Observe(Temperature(s), next.pump.Running(), weight)
    && next.marks == st.marks.Observe(s, weight, target - 1.0)
    && next.drips == st.drips.Observe(weight, next.scale.Rate(), next.pump.stop, t)
    && next.segments == NextSegments(st.segments, StageOf(s.mode), t, next.pump.stop.Some?, next.marks.Reached(),
                                     st.drips.done, next.drips.done && !st.drips.done)
    && next.flows == st.flows.Observe(next.marks, next.pump.stop, t)
    && next.elapsed == t
  }

  lemma NextIsNext(st: State, s: Sample, target: real, next: State)
    ensures IsNextState(st, s, target, next) <==> next == Next(st, s, target)
  {
  }

  /** One sample. */
  function Next(st: State, s: Sample, target: real): State {
    var t := TimeS(s);
    var pump := st.pump.Observe(PumpOn(s), t);
    var scale := st.scale.Observe(s);
    var weight := scale.Latest();
    var heat := st.heat.Observe(Temperature(s), pump.Running(), weight);
    var marks := st.marks.Observe(s, weight, target - 1.0);
    var drips := st.drips.Observe(weight, scale.Rate(), pump.stop, t);
    var segments := NextSegments(st.segments, StageOf(s.mode), t, pump.stop.Some?, marks.Reached(),
                                 st.drips.done, drips.done && !st.drips.done);
    State(pump, scale, heat, segments, marks, drips, st.flows.Observe(marks, pump.stop, t), t)
  }

  /** A capture, read up to its end. */
  function Run(samples: seq<Sample>, target: real): State {
    if samples == [] then INITIAL
    else Next(Run(samples[..|samples| - 1], target), samples[|samples| - 1], target)
  }

  lemma LatestReading(c: Scale, s: Sample)
    ensures c.Observe(s).Latest() ==
            if Weight(s).None? then None
            else Some(if c.origin.None? then 0.0 else Weight(s).value - c.origin.value)
    ensures c.Observe(s).origin == if c.origin.None? then Weight(s) else c.origin
  {
  }

  lemma RunLast(samples: seq<Sample>, target: real)
    requires samples != []
    ensures Run(samples, target) == Next(Run(samples[..|samples| - 1], target), samples[|samples| - 1], target)
  {
  }

  lemma RunMore(samples: seq<Sample>, n: nat, target: real)
    requires n < |samples|
    ensures Run(samples[..n + 1], target) == Next(Run(samples[..n], target), samples[n], target)
  {
    var more := samples[..n + 1];
    assert more[..n] == samples[..n] && more[n] == samples[n];
  }
}
