/**
 The temperature of a shot in terms of the capture: which readings it starts and ends with,
 and which grams the mean over the cup weighs with which temperatures.
 */
module ShotHeat {
  import opened Prelude
  import opened Samples
  import opened Shot
  import opened ShotMarks
  import opened ShotSegments

  /** The first sample with a valid temperature. */
  function FirstValid(samples: seq<Sample>): (i: Option<nat>)
    ensures i.Some? ==> i.value < |samples| && Temperature(samples[i.value]).Some?
    ensures forall j: nat | j < |samples| && (i.None? || j < i.value) :: Temperature(samples[j]).None?
  {
    if samples == [] then None
    else
      var n := |samples| - 1;
      var before := FirstValid(samples[..n]);
      assert forall j :: 0 <= j < n ==> samples[..n][j] == samples[j];
      if before.None? && Temperature(samples[n]).Some? then Some(n) else before
  }

  /** The last sample with a valid temperature. */
  function LastValid(samples: seq<Sample>): (i: Option<nat>)
    ensures i.Some? ==> i.value < |samples| && Temperature(samples[i.value]).Some?
    ensures forall j: nat | j < |samples| && (i.None? || j > i.value) :: Temperature(samples[j]).None?
  {
    if samples == [] then None
    else
      var n := |samples| - 1;
      assert forall j :: 0 <= j < n ==> samples[..n][j] == samples[j];
      if Temperature(samples[n]).Some? then Some(n) else LastValid(samples[..n])
  }

  /**
   What a sample shows: a boiler flagged valid, or one whose reading is 200 to 1000 ms old;
   without that flag the reading of an old capture, or what the flags say of it.
   */
  predicate Shows(s: Sample, c: real) {
    && Num(c) == (if s.boilerC != Absent then s.boilerC else s.legacyC)
    && match s.boilerValid
       case Absent => if s.legacyC != Absent then s.legacyC.Num? else s.flags.boiler
       case Bool(true) => true
       case _ => s.boilerAgeMs.Num? && 200.0 <= s.boilerAgeMs.x <= 1000.0 && s.boilerC.Num?
  }

  lemma TemperatureExactly(s: Sample, c: real)
    ensures Temperature(s) == Some(c) <==> Shows(s, c)
  {
  }

  function TemperatureAt(samples: seq<Sample>, i: Option<nat>): Option<real> {
    if i.Some? && i.value < |samples| then Temperature(samples[i.value]) else None
  }

  /** The pump still runs at the last sample, and its temperature and weight are known. */
  predicate Counts(samples: seq<Sample>) {
    && samples != [] && FirstOn(samples).Some? && StopIndex(samples).None?
    && Temperature(samples[|samples| - 1]).Some? && WeightAt(samples, Some(|samples| - 1)).Some?
  }

  /** The most that the cup has held at a sample that counts. */
  function TopWeight(samples: seq<Sample>): (top: real)
    ensures top >= 0.0
  {
    if samples == [] then 0.0
    else
      var top := TopWeight(samples[..|samples| - 1]);
      if Counts(samples) && WeightAt(samples, Some(|samples| - 1)).value > top
      then WeightAt(samples, Some(|samples| - 1)).value else top
  }

  /** The grams that the last sample adds to the most held so far. */
  function Rise(samples: seq<Sample>): real
    requires samples != []
  {
    TopWeight(samples) - TopWeight(samples[..|samples| - 1])
  }

  /** Halfway from the last temperature, if there is one, to the next. */
  function Halfway(last: Option<real>, c: real): real {
    if last.None? then c else last.value + (c - last.value) / 2.0
  }

  /** Halfway from the last valid temperature before the last sample, if there is one, to its own. */
  function HalfwayC(samples: seq<Sample>): real
    requires Counts(samples)
  {
    var before := samples[..|samples| - 1];
    Halfway(TemperatureAt(before, LastValid(before)), Temperature(samples[|samples| - 1]).value)
  }

  function Times(grams: real, celsius: real): real { grams * celsius }

  function Share(heat: real, grams: real): real
    requires grams > 0.0
  {
    heat / grams
  }

  /** Every rise times the temperature halfway. */
  function CupHeat(samples: seq<Sample>): real {
    if samples == [] then 0.0
    else CupHeat(samples[..|samples| - 1]) + if Counts(samples) then Times(Rise(samples), HalfwayC(samples)) else 0.0
  }

  /** The mean temperature in the cup, of more than half a gram. */
  function CupMeanC(samples: seq<Sample>): Option<real> {
    if TopWeight(samples) > 0.5 then Some(Share(CupHeat(samples), TopWeight(samples))) else None
  }

  /** The variables of the temperature are those of the capture. */
  ghost predicate IsHeatOf(samples: seq<Sample>, h: Heat) {
    && h.start == TemperatureAt(samples, FirstValid(samples))
    && h.last == TemperatureAt(samples, LastValid(samples))
    && h.weightMax == h.weightSum == TopWeight(samples)
    && h.weighted == CupHeat(samples)
    && h.cupMean == CupMeanC(samples)
  }

  lemma ValidMore(samples: seq<Sample>)
    requires samples != []
    ensures var p, n := samples[..|samples| - 1], |samples| - 1;
            var c := Temperature(samples[n]);
            && TemperatureAt(samples, FirstValid(samples))
                == (if TemperatureAt(p, FirstValid(p)).Some? then TemperatureAt(p, FirstValid(p)) else c)
            && TemperatureAt(samples, LastValid(samples)) == if c.Some? then c else TemperatureAt(p, LastValid(p))
  {
    hide Temperature;
  }

  lemma WarmIsHalfway(grams: real, last: real, c: real)
    ensures Warm(grams, last, c) == grams * (last + (c - last) / 2.0)
  {
    assert (last + c) / 2.0 == last + (c - last) / 2.0;
  }

  lemma TimesNothing()
    ensures forall celsius :: Times(0.0, celsius) == 0.0
  {
  }

  /** A weight above the maximum counts its rise; any other changes nothing. */
  lemma WeighIsRise(h: Heat, c: real, weight: Option<real>, rise: real)
    requires rise == if weight.Some? && weight.value > h.weightMax then weight.value - h.weightMax else 0.0
    ensures var w := h.Weigh(c, weight);
            && w.weightMax == h.weightMax + rise && w.weightSum == h.weightSum + rise
            && w.weighted == h.weighted + Times(rise, Halfway(h.last, c))
            && w.cupMean == (if rise > 0.0 && w.weightSum > 0.5
                             then Some(Share(w.weighted, w.weightSum)) else h.cupMean)
            && w.start == h.start && w.last == h.last
  {
    WarmIsHalfway(rise, if h.last.Some? then h.last.value else c, c);
    hide Warm;
  }

  /** What the last sample adds to the weight and the heat of the cup. */
  lemma CupMore(samples: seq<Sample>, rise: real, c: real)
    requires samples != []
    requires var top, weight := TopWeight(samples[..|samples| - 1]), WeightAt(samples, Some(|samples| - 1));
             rise == if Counts(samples) && weight.value > top then weight.value - top else 0.0
    requires Counts(samples) ==> c == HalfwayC(samples)
    ensures var p := samples[..|samples| - 1];
            && TopWeight(samples) == TopWeight(p) + rise
            && CupHeat(samples) == CupHeat(p) + Times(rise, c)
            && CupMeanC(samples) == if rise > 0.0 && TopWeight(samples) > 0.5
                                    then Some(Share(CupHeat(samples), TopWeight(samples))) else CupMeanC(p)
  {
    hide HalfwayC, WeightAt, Counts, Times, Share;
    TimesNothing();
  }

  /** What one sample makes of the variables. */
  lemma NextHeat(samples: seq<Sample>, h: Heat)
    requires samples != []
    requires var p := samples[..|samples| - 1]; IsHeatOf(p, h)
    ensures var n := |samples| - 1;
            IsHeatOf(samples, h.Observe(Temperature(samples[n]), FirstOn(samples).Some? && StopIndex(samples).None?,
                                        WeightAt(samples, Some(n))))
  {
    hide Temperature, FirstValid, LastValid, TemperatureAt, FirstOn, StopIndex, WeightAt;
    hide Heat.Weigh, Halfway, Times, Share, TopWeight, CupHeat, CupMeanC;
    ValidMore(samples);
    var n := |samples| - 1;
    var c, weight := Temperature(samples[n]), WeightAt(samples, Some(n));
    var halfway := if c.Some? then Halfway(h.last, c.value) else 0.0;
    var rise := if Counts(samples) && weight.value > h.weightMax then weight.value - h.weightMax else 0.0;
    CupMore(samples, rise, halfway);
    TimesNothing();
    if c.Some? {
      var seen := h.(start := if h.start.None? then c else h.start);
      WeighIsRise(seen.Extremes(c.value), c.value, weight,
                  if weight.Some? && weight.value > h.weightMax then weight.value - h.weightMax else 0.0);
    }
  }

  /**
   On every timed capture, from the capture alone: the first and the last valid temperature,
   and the mean over the cup, which weighs each rise of the cup's weight while the pump runs
   with the temperature halfway since the last valid one before it.
   */
  lemma {:induction false} HeatOfRun(samples: seq<Sample>, target: real)
    requires IsTimed(samples)
    ensures IsHeatOf(samples, Run(samples, target).heat)
  {
    if samples != [] {
      var p := samples[..|samples| - 1];
      HeatOfRun(p, target);
      PumpTimes(samples, target);
      RunOrigin(samples, target);
      RunLast(samples, target);
      NextHeat(samples, Run(p, target).heat);
      hide *;
    }
  }
}
