/**
 What the weighted means are worth: when the mean over the volume exists, and that both
 means are exact for a temperature that changes linearly with the volume or the grams.
 */
module MeanLaws {
  import opened Prelude
  import opened Samples
  import opened CupMeans

  // ---------- Which volumes have a mean ----------

  predicate HasBoiler(s: Sample) {
    && s.boilerC.Num?
    && (s.boilerValid == Bool(true) || (s.boilerAgeMs.Num? && 200.0 <= s.boilerAgeMs.x <= 1000.0))
  }

  /** What a sample counts with in the cup: a valid weight that is not negative, and the reading of the source. */
  predicate Counts(s: Sample, source: Source, u: Usable) {
    && s.flags.scale && s.weightG == Num(u.grams) && u.grams >= 0.0
    && match source
       case Boiler => HasBoiler(s) && s.boilerC == Num(u.celsius)
       case Scace => s.scaceC == Num(u.celsius)
  }

  /** A valid weight next to a reading that is there but no number. */
  predicate IsMalformed(s: Sample, source: Source) {
    && s.flags.scale && s.weightG.Num? && s.weightG.x >= 0.0
    && match source
       case Boiler => s.boilerValid == Bool(true) && !s.boilerC.Num?
       case Scace => s.scaceC.Bool? || s.scaceC.Junk?
  }

  /** Every sample counts, or is malformed, or is passed over. */
  lemma UsableExactly(s: Sample, source: Source)
    ensures forall u :: UsableOf(s, source) == Ok(Some(u)) <==> Counts(s, source, u)
    ensures UsableOf(s, source) == Err(BadNumber) <==> IsMalformed(s, source)
    ensures UsableOf(s, source).Err? ==> UsableOf(s, source).error == BadNumber
  {
  }

  /** The volume falls by a millionth of a millilitre at most; where it rises, both temperatures are usable. */
  predicate IsStep(a: Sample, b: Sample) {
    && a.volumeMl.Num? && b.volumeMl.Num?
    && b.volumeMl.x >= a.volumeMl.x - 0.000001
    && (b.volumeMl.x > a.volumeMl.x ==> HasBoiler(a) && HasBoiler(b))
  }

  predicate AreSteps(samples: seq<Sample>) {
    forall i :: 0 < i < |samples| ==> IsStep(samples[i - 1], samples[i])
  }

  predicate RisesAt(samples: seq<Sample>, i: int) {
    0 < i < |samples| && samples[i - 1].volumeMl.Num? && samples[i].volumeMl.Num?
    && samples[i].volumeMl.x > samples[i - 1].volumeMl.x
  }

  predicate Rises(samples: seq<Sample>) {
    exists i :: 0 < i < |samples| && RisesAt(samples, i)
  }

  lemma StepExactly(f: Flow, a: Sample, b: Sample)
    ensures FlowStep(f, a, b).Ok? <==> IsStep(a, b)
    ensures IsStep(a, b) ==>
              FlowStep(f, a, b).value.volume == f.volume + Max(b.volumeMl.x - a.volumeMl.x, 0.0)
  {
  }

  lemma StepsMore(samples: seq<Sample>)
    requires |samples| > 1
    ensures var n := |samples| - 1;
            && (AreSteps(samples) <==> AreSteps(samples[..n]) && IsStep(samples[n - 1], samples[n]))
            && (Rises(samples) <==> Rises(samples[..n]) || RisesAt(samples, n))
  {
    hide IsStep;
    var n := |samples| - 1;
    var before := samples[..n];
    assert forall i :: 0 <= i < n ==> before[i] == samples[i];
    assert forall i :: i < n ==> RisesAt(before, i) == RisesAt(samples, i);
  }

  lemma {:induction false} FlowExactly(samples: seq<Sample>)
    ensures FlowOf(samples).Ok? <==> AreSteps(samples)
    ensures AreSteps(samples) ==> FlowOf(samples).value.volume >= 0.0
    ensures AreSteps(samples) ==> (FlowOf(samples).value.volume > 0.0 <==> Rises(samples))
  {
    if |samples| > 1 {
      var n := |samples| - 1;
      FlowExactly(samples[..n]);
      StepsMore(samples);
      if FlowOf(samples[..n]).Ok? {
        StepExactly(FlowOf(samples[..n]).value, samples[n - 1], samples[n]);
      }
      hide AreSteps, IsStep, Rises, FlowStep, Warm;
    }
  }

  /**
   `volume_weighted_temperature` succeeds exactly when no step is in its way and the
   volume rises somewhere; otherwise it says which.
   */
  lemma VolumeMeanExactly(samples: seq<Sample>)
    ensures VolumeWeighted(samples).Ok? <==> AreSteps(samples) && Rises(samples)
    ensures VolumeWeighted(samples) == Err(NoVolume) <==> AreSteps(samples) && !Rises(samples)
  {
    FlowExactly(samples);
    FlowErrors(samples);
    hide FlowOf, AreSteps, Rises;
  }

  lemma {:induction false} FlowErrors(samples: seq<Sample>)
    ensures FlowOf(samples) != Err(NoVolume)
  {
    if |samples| > 1 {
      FlowErrors(samples[..|samples| - 1]);
      hide Warm, BoilerUsable;
    }
  }

  // ---------- Linear warming ----------

  /** A temperature that changes with `x` at a constant rate. */
  datatype Warming = Warming(atZero: real, rate: real) {
    function At(x: real): real { atZero + rate * x }

    /** The integral between two values of `x`. */
    function Integral(a: real, b: real): real { (b - a) * At((a + b) / 2.0) }
  }

  lemma WarmIsIntegral(w: Warming, a: real, b: real)
    ensures Warm(b - a, w.At(a), w.At(b)) == w.Integral(a, b)
  {
    WarmIsMean(b - a, w.At(a), w.At(b));
    assert (w.At(a) + w.At(b)) / 2.0 == w.At((a + b) / 2.0);
  }

  lemma IntegralJoins(w: Warming, a: real, b: real, c: real)
    ensures w.Integral(a, b) + w.Integral(b, c) == w.Integral(a, c)
  {
    IntegralSplit(w, a, b);
    IntegralSplit(w, b, c);
    IntegralSplit(w, a, c);
    hide Warming.Integral;
    Telescope(w.atZero, a, b, c);
    Telescope(w.rate / 2.0, a * a, b * b, c * c);
  }

  lemma Telescope(k: real, a: real, b: real, c: real)
    ensures k * (b - a) + k * (c - b) == k * (c - a)
  {
  }

  lemma IntegralSplit(w: Warming, a: real, b: real)
    ensures w.Integral(a, b) == w.atZero * (b - a) + w.rate / 2.0 * (b * b - a * a)
  {
    assert (b - a) * ((a + b) / 2.0) == (b * b - a * a) / 2.0;
    assert (b - a) * (w.rate * ((a + b) / 2.0)) == w.rate * ((b - a) * ((a + b) / 2.0));
  }

  lemma IntegralOfNothing(w: Warming, x: real)
    ensures w.Integral(x, x) == 0.0
  {
  }

  /** The mean over an interval is halfway between the temperatures at its ends. */
  lemma MeanIsHalfway(w: Warming, a: real, b: real)
    requires a < b
    ensures w.Integral(a, b) / (b - a) == (w.At(a) + w.At(b)) / 2.0
  {
    var mean := w.At((a + b) / 2.0);
    assert mean == (w.At(a) + w.At(b)) / 2.0;
    hide Warming.At;
    QuotientBetween((b - a) * mean, b - a, mean, mean);
  }

  // ---------- Over the volume ----------

  ghost predicate WarmsWithVolume(samples: seq<Sample>, w: Warming) {
    forall i :: 0 <= i < |samples| ==>
      samples[i].volumeMl.Num? && samples[i].boilerC == Num(w.At(samples[i].volumeMl.x))
  }

  predicate NeverFalls(samples: seq<Sample>) {
    forall i, j :: 0 <= i < j < |samples| && samples[i].volumeMl.Num? && samples[j].volumeMl.Num? ==>
      samples[i].volumeMl.x <= samples[j].volumeMl.x
  }

  /** One step of the flow while the temperature changes linearly. */
  lemma LinearStep(f: Flow, from: real, a: Sample, b: Sample, w: Warming)
    requires a.volumeMl.Num? && a.boilerC == Num(w.At(a.volumeMl.x))
    requires b.volumeMl.Num? && b.boilerC == Num(w.At(b.volumeMl.x))
    requires a.volumeMl.x <= b.volumeMl.x && FlowStep(f, a, b).Ok?
    requires f == Flow(a.volumeMl.x - from, w.Integral(from, a.volumeMl.x))
    ensures FlowStep(f, a, b).value == Flow(b.volumeMl.x - from, w.Integral(from, b.volumeMl.x))
  {
    hide Warming.At, Warming.Integral, Warm, BoilerUsable;
    WarmIsIntegral(w, a.volumeMl.x, b.volumeMl.x);
    IntegralJoins(w, from, a.volumeMl.x, b.volumeMl.x);
    IntegralOfNothing(w, a.volumeMl.x);
  }

  lemma {:induction false} FlowIsLinear(samples: seq<Sample>, w: Warming)
    requires samples != [] && FlowOf(samples).Ok? && WarmsWithVolume(samples, w) && NeverFalls(samples)
    ensures var f, from, to := FlowOf(samples).value, samples[0].volumeMl.x, samples[|samples| - 1].volumeMl.x;
            f == Flow(to - from, w.Integral(from, to))
  {
    hide Warming.At, Warming.Integral, FlowStep;
    IntegralOfNothing(w, samples[0].volumeMl.x);
    if |samples| > 1 {
      var n := |samples| - 1;
      FlowIsLinear(samples[..n], w);
      LinearStep(FlowOf(samples[..n]).value, samples[0].volumeMl.x, samples[n - 1], samples[n], w);
    }
  }

  /**
   While the temperature changes linearly with the volume, however unevenly it is sampled,
   its mean over the volume is halfway between the first and the last temperature.
   */
  lemma VolumeMeanOfLinear(samples: seq<Sample>, w: Warming)
    requires VolumeWeighted(samples).Ok? && WarmsWithVolume(samples, w) && NeverFalls(samples)
    ensures var first, last := samples[0], samples[|samples| - 1];
            VolumeWeighted(samples).value
              == Mean(last.volumeMl.x - first.volumeMl.x, (first.boilerC.x + last.boilerC.x) / 2.0)
  {
    hide Warming.At, Warming.Integral;
    FlowIsLinear(samples, w);
    MeanIsHalfway(w, samples[0].volumeMl.x, samples[|samples| - 1].volumeMl.x);
  }

  // ---------- Over the cup ----------

  ghost predicate WarmsWithGrams(us: seq<Usable>, w: Warming) {
    forall i :: 0 <= i < |us| ==> us[i].celsius == w.At(us[i].grams)
  }

  predicate NeverLighter(us: seq<Usable>) {
    forall i, j :: 0 <= i < j < |us| ==> us[i].grams <= us[j].grams
  }

  lemma {:induction false} HeatIsLinear(us: seq<Usable>, w: Warming)
    requires us != [] && WarmsWithGrams(us, w) && NeverLighter(us)
    ensures Top(us) == us[|us| - 1].grams && Heat(us) == w.Integral(us[0].grams, us[|us| - 1].grams)
  {
    hide Warming.At, Warming.Integral, Warm, Top, Heat;
    var n := |us| - 1;
    IntegralOfNothing(w, us[0].grams);
    if n == 0 {
      FirstUsable(us[0]);
      assert us == [us[0]];
    } else {
      var before := us[..n];
      HeatIsLinear(before, w);
      MoreUsable(before, us[n]);
      assert us == before + [us[n]];
      WarmIsIntegral(w, us[n - 1].grams, us[n].grams);
      IntegralJoins(w, us[0].grams, us[n - 1].grams, us[n].grams);
    }
  }

  /** The same over the cup, as long as the weight does not fall. */
  lemma CupMeanOfLinear(us: seq<Usable>, w: Warming)
    requires CupMean(us).Some? && WarmsWithGrams(us, w) && NeverLighter(us)
    ensures var first, last := us[0], us[|us| - 1];
            CupMean(us).value == Mean(last.grams - first.grams, (first.celsius + last.celsius) / 2.0)
  {
    hide Warming.At, Warming.Integral, Top, Heat;
    HeatIsLinear(us, w);
    MeanIsHalfway(w, us[0].grams, us[|us| - 1].grams);
  }
}
