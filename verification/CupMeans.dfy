/**
 Weighted mean temperatures of a capture: by the grams that reached the cup,
 with the weight taken as its running maximum, and by the volume that flowed.
 */
module CupMeans {
  import opened Prelude
  import opened Samples

  /** `ValueError`: a measurement is missing, the volume decreases, or nothing flowed. */
  datatype MeanError = BadNumber | VolumeDecreases | BadTemperature | NoVolume

  datatype Source = Boiler | Scace

  /** Grams and degrees of one usable sample. */
  datatype Usable = Usable(grams: real, celsius: real)

  datatype Mean = Mean(total: real, celsius: real)

  // ---------- Usable samples ----------

  /** `sample_temperature`: `None` where the source has no reading, an error where it is malformed. */
  function TemperatureOf(s: Sample, source: Source): Result<Option<real>, MeanError> {
    match source
    case Boiler =>
      if !BoilerUsable(s) then Ok(None)
      else if s.boilerC.Num? then Ok(Some(s.boilerC.x)) else Err(BadNumber)
    case Scace =>
      if s.scaceC == Absent || s.scaceC == Null then Ok(None)
      else if s.scaceC.Num? then Ok(Some(s.scaceC.x)) else Err(BadNumber)
  }

  /** What a sample contributes: nothing without a valid, non-negative weight or without a temperature. */
  function UsableOf(s: Sample, source: Source): Result<Option<Usable>, MeanError> {
    if !AtLeast(Weight(s), 0.0) then Ok(None)
    else match TemperatureOf(s, source)
      case Err(e) => Err(e)
      case Ok(None) => Ok(None)
      case Ok(Some(c)) => Ok(Some(Usable(Weight(s).value, c)))
  }

  function Extend(us: Result<seq<Usable>, MeanError>, u: Result<Option<Usable>, MeanError>):
    Result<seq<Usable>, MeanError>
  {
    if us.Err? then us
    else if u.Err? then Err(u.error)
    else if u.value.None? then us
    else Ok(us.value + [u.value.value])
  }

  /** The usable samples in order, or the first malformed one's error. */
  function Usables(samples: seq<Sample>, source: Source): Result<seq<Usable>, MeanError> {
    if samples == [] then Ok([])
    else Extend(Usables(samples[..|samples| - 1], source), UsableOf(samples[|samples| - 1], source))
  }

  // ---------- The mean over the cup ----------

  /** The running maximum of the weight. */
  function Top(us: seq<Usable>): real
    requires us != []
  {
    if |us| == 1 then us[0].grams else Max(Top(us[..|us| - 1]), us[|us| - 1].grams)
  }

  /** Each rise of the running maximum, times the mean of the two temperatures around it. */
  function Heat(us: seq<Usable>): real {
    if |us| <= 1 then 0.0
    else
      var before := us[..|us| - 1];
      Heat(before) + Warm(Top(us) - Top(before), us[|us| - 2].celsius, us[|us| - 1].celsius)
  }

  function CupMean(us: seq<Usable>): Option<Mean> {
    if us == [] || Top(us) <= us[0].grams then None
    else Some(Mean(Top(us) - us[0].grams, Heat(us) / (Top(us) - us[0].grams)))
  }

  function CupWeighted(samples: seq<Sample>, source: Source): Result<Option<Mean>, MeanError> {
    match Usables(samples, source) case Err(e) => Err(e) case Ok(us) => Ok(CupMean(us))
  }

  lemma UsablesMore(samples: seq<Sample>, n: nat, source: Source)
    requires n < |samples|
    ensures Usables(samples[..n + 1], source) == Extend(Usables(samples[..n], source), UsableOf(samples[n], source))
  {
    var more := samples[..n + 1];
    assert more[..n] == samples[..n] && more[n] == samples[n];
  }

  lemma {:induction false} ErrorStays(samples: seq<Sample>, n: nat, source: Source)
    requires n <= |samples| && Usables(samples[..n], source).Err?
    ensures Usables(samples, source) == Usables(samples[..n], source)
    decreases |samples| - n
  {
    if n < |samples| {
      UsablesMore(samples, n, source);
      ErrorStays(samples, n + 1, source);
    } else {
      assert samples[..n] == samples;
    }
  }

  lemma TopMore(us: seq<Usable>, u: Usable)
    requires us != []
    ensures Top(us + [u]) == Max(Top(us), u.grams)
  {
    assert (us + [u])[..|us|] == us;
  }

  lemma HeatMore(us: seq<Usable>, u: Usable)
    requires us != []
    ensures Heat(us + [u]) == Heat(us) + Warm(Top(us + [u]) - Top(us), us[|us| - 1].celsius, u.celsius)
  {
    hide Warm, Top;
    var more := us + [u];
    assert more[..|us|] == us && more[|us|] == u && more[|us| - 1] == us[|us| - 1];
    assert Heat(more)
        == Heat(more[..|us|]) + Warm(Top(more) - Top(more[..|us|]), more[|us| - 1].celsius, more[|us|].celsius);
    hide Heat;
  }

  /** What one more usable sample adds. */
  lemma MoreUsable(us: seq<Usable>, u: Usable)
    requires us != []
    ensures var more, top := us + [u], Max(Top(us), u.grams);
            && more[0] == us[0] && Top(more) == top
            && Heat(more) == Heat(us) + Warm(top - Top(us), us[|us| - 1].celsius, u.celsius)
  {
    hide Warm, Top, Heat;
    TopMore(us, u);
    HeatMore(us, u);
  }

  /** The variables of the loop after the usable samples `us`. */
  ghost predicate Books(us: seq<Usable>, top: Option<real>, last: real, grams: real, heat: real) {
    if us == [] then top.None? && grams == 0.0 && heat == 0.0
    else top == Some(Top(us)) && last == us[|us| - 1].celsius && grams == Top(us) - us[0].grams && heat == Heat(us)
  }

  lemma BooksStart(u: Usable)
    ensures Books([u], Some(u.grams), u.celsius, 0.0, 0.0)
  {
    FirstUsable(u);
  }

  lemma BooksMore(us: seq<Usable>, top: real, last: real, grams: real, heat: real, u: Usable)
    requires us != [] && Books(us, Some(top), last, grams, heat)
    ensures if u.grams > top
            then Books(us + [u], Some(u.grams), u.celsius, grams + (u.grams - top),
                       heat + Warm(u.grams - top, last, u.celsius))
            else Books(us + [u], Some(top), u.celsius, grams, heat)
  {
    MoreUsable(us, u);
    WarmNothing(last, u.celsius);
    hide Top, Heat, Warm;
  }

  lemma NoUsables(samples: seq<Sample>, source: Source)
    ensures Usables(samples[..0], source) == Ok([])
  {
  }

  lemma CupMeanFrom(us: seq<Usable>, grams: real, heat: real)
    requires if us == [] then grams == 0.0 else grams == Top(us) - us[0].grams && heat == Heat(us)
    ensures CupMean(us) == if grams <= 0.0 then None else Some(Mean(grams, heat / grams))
  {
  }

  lemma WarmNothing(a: real, b: real)
    ensures Warm(0.0, a, b) == 0.0
  {
  }

  lemma FirstUsable(u: Usable)
    ensures Top([u]) == u.grams && Heat([u]) == 0.0
  {
  }

  /** `cup_weighted_temperature`, with its loop up to and including `endIndex`. */
  method CupWeightedTemperature(samples: seq<Sample>, endIndex: int, source: Source)
    returns (r: Result<Option<Mean>, MeanError>)
    requires -1 <= endIndex < |samples|
    ensures r == CupWeighted(samples[..endIndex + 1], source)
  {
    var run := samples[..endIndex + 1];
    var cupG, temperatureCup := 0.0, 0.0;
    var topG: Option<real>, topTemperature := None, 0.0;
    ghost var us: seq<Usable> := [];
    NoUsables(run, source);
    hide Usables, Top, Heat, Warm, CupMean;
    for i := 0 to endIndex + 1
      invariant Usables(run[..i], source) == Ok(us)
      invariant us == [] <==> topG.None?
      invariant Books(us, topG, topTemperature, cupG, temperatureCup)
    {
      hide Books;
      UsablesMore(run, i, source);
      var s := run[i];
      var weight := Weight(s);
      if !AtLeast(weight, 0.0) { continue; }
      var t := TemperatureOf(s, source);
      if t.Err? {
        ErrorStays(run, i + 1, source);
        return Err(t.error);
      }
      if t.value.None? { continue; }
      var temperature := t.value.value;
      ghost var u := Usable(weight.value, temperature);
      if topG.None? {
        BooksStart(u);
        topG, topTemperature := weight, temperature;
        us := [u];
        continue;
      }
      BooksMore(us, topG.value, topTemperature, cupG, temperatureCup, u);
      if weight.value > topG.value {
        var delta := weight.value - topG.value;
        temperatureCup := temperatureCup + Warm(delta, topTemperature, temperature);
        cupG := cupG + delta;
        topG := weight;
      }
      topTemperature := temperature;
      us := us + [u];
    }
    assert run[..endIndex + 1] == run;
    CupMeanFrom(us, cupG, temperatureCup);
    if cupG <= 0.0 { return Ok(None); }
    return Ok(Some(Mean(cupG, temperatureCup / cupG)));
  }

  // ---------- Laws of the cup mean ----------

  predicate TopIsMax(us: seq<Usable>)
    requires us != []
  {
    (forall i :: 0 <= i < |us| ==> us[i].grams <= Top(us)) && exists i :: 0 <= i < |us| && us[i].grams == Top(us)
  }

  lemma {:induction false} TopIsMaximum(us: seq<Usable>)
    requires us != []
    ensures TopIsMax(us)
  {
    if |us| == 1 {
      assert us[0].grams == Top(us);
    } else {
      var before, last := us[..|us| - 1], us[|us| - 1];
      TopIsMaximum(before);
      assert forall i :: 0 <= i < |before| ==> us[i] == before[i];
      var k :| 0 <= k < |before| && before[k].grams == Top(before);
      assert us[k].grams == Top(before) && us[|us| - 1].grams == last.grams;
    }
  }

  lemma TopAboveFirst(us: seq<Usable>)
    requires us != []
    ensures Top(us) >= us[0].grams
  {
    TopIsMaximum(us);
    hide Top;
  }

  /** `sum` is `weight` times a value from `lo` to `hi`. */
  predicate Between(sum: real, weight: real, lo: real, hi: real) {
    lo * weight <= sum <= hi * weight
  }

  lemma ScaleOrder(w: real, a: real, b: real)
    requires w >= 0.0 && a <= b
    ensures w * a <= w * b
  {
  }

  /** A weighted sum of values in a range lies in the range times the weight. */
  lemma WeighBetween(sum: real, weight: real, extra: real, value: real, lo: real, hi: real)
    requires extra >= 0.0 && lo <= value <= hi && Between(sum, weight, lo, hi)
    ensures Between(sum + extra * value, weight + extra, lo, hi)
  {
    ScaleOrder(extra, lo, value);
    ScaleOrder(extra, value, hi);
  }

  lemma WarmBetween(sum: real, weight: real, extra: real, a: real, b: real, lo: real, hi: real)
    requires extra >= 0.0 && lo <= a <= hi && lo <= b <= hi && Between(sum, weight, lo, hi)
    ensures Between(sum + Warm(extra, a, b), weight + extra, lo, hi)
  {
    WeighBetween(sum, weight, extra, (a + b) / 2.0, lo, hi);
    WarmIsMean(extra, a, b);
    hide Warm, Between;
  }

  lemma WarmIsMean(grams: real, a: real, b: real)
    ensures Warm(grams, a, b) == grams * ((a + b) / 2.0)
  {
  }

  lemma MeanBetween(sum: real, weight: real, lo: real, hi: real)
    requires weight > 0.0 && Between(sum, weight, lo, hi)
    ensures lo <= sum / weight <= hi
  {
    QuotientBetween(sum, weight, lo, hi);
  }

  lemma {:induction false} HeatBetween(us: seq<Usable>, lo: real, hi: real)
    requires us != [] && forall i :: 0 <= i < |us| ==> lo <= us[i].celsius <= hi
    ensures Top(us) >= us[0].grams && Between(Heat(us), Top(us) - us[0].grams, lo, hi)
  {
    if |us| > 1 {
      var before, u := us[..|us| - 1], us[|us| - 1];
      HeatBetween(before, lo, hi);
      MoreUsable(before, u);
      assert us == before + [u];
      hide Top, Heat, Warm, Between;
      WarmBetween(Heat(before), Top(before) - us[0].grams, Top(us) - Top(before),
                  before[|before| - 1].celsius, u.celsius, lo, hi);
    } else {
      hide Top, Heat;
      FirstUsable(us[0]);
      assert us == [us[0]];
    }
  }

  lemma CupMeanExists(us: seq<Usable>)
    ensures CupMean(us).Some? <==> exists i :: 0 <= i < |us| && us[i].grams > us[0].grams
    ensures CupMean(us).Some? ==> CupMean(us).value.total == Top(us) - us[0].grams && TopIsMax(us)
  {
    if us != [] {
      TopIsMaximum(us);
      hide Top, Heat;
    }
  }

  lemma CupMeanBetween(us: seq<Usable>, lo: real, hi: real)
    requires forall i :: 0 <= i < |us| ==> lo <= us[i].celsius <= hi
    ensures CupMean(us).Some? ==> lo <= CupMean(us).value.celsius <= hi
  {
    if CupMean(us).Some? {
      HeatBetween(us, lo, hi);
      hide Top, Heat, Between;
      MeanBetween(Heat(us), Top(us) - us[0].grams, lo, hi);
    }
  }

  /** The grams are the highest usable weight minus the first; the mean lies among the usable temperatures. */
  lemma CupMeanLaws(samples: seq<Sample>, source: Source, lo: real, hi: real)
    requires var us := Usables(samples, source);
             us.Ok? && forall i :: 0 <= i < |us.value| ==> lo <= us.value[i].celsius <= hi
    ensures var us, r := Usables(samples, source).value, CupWeighted(samples, source);
            && r.Ok?
            && (r.value.Some? <==> exists i :: 0 <= i < |us| && us[i].grams > us[0].grams)
            && (r.value.Some? ==> r.value.value.total == Top(us) - us[0].grams && TopIsMax(us)
                                  && lo <= r.value.value.celsius <= hi)
  {
    CupMeanExists(Usables(samples, source).value);
    CupMeanBetween(Usables(samples, source).value, lo, hi);
    hide Usables, CupMean, TopIsMax;
  }

  lemma {:induction false} UsablesConcat(a: seq<Sample>, b: seq<Sample>, source: Source)
    requires Usables(a, source).Ok? && Usables(b, source).Ok?
    ensures Usables(a + b, source) == Ok(Usables(a, source).value + Usables(b, source).value)
    decreases |b|
  {
    if b == [] {
      ConcatNil(a);
      ConcatNil(Usables(a, source).value);
    } else {
      var c := b[..|b| - 1];
      assert (a + b)[..|a + b| - 1] == a + c;
      UsablesConcat(a, c, source);
      if UsableOf(b[|b| - 1], source).value.Some? {
        Associate(Usables(a, source).value, Usables(c, source).value, [UsableOf(b[|b| - 1], source).value.value]);
      }
    }
  }

  /** Samples without a usable weight and temperature make no difference, wherever they stand. */
  lemma UnusableIsIgnored(a: seq<Sample>, s: Sample, b: seq<Sample>, source: Source)
    requires Usables(a, source).Ok? && Usables(b, source).Ok? && UsableOf(s, source) == Ok(None)
    ensures CupWeighted(a + [s] + b, source) == CupWeighted(a + b, source)
  {
    assert Usables([s], source) == Ok([]) by { assert [s][..0] == []; }
    UsablesConcat(a, [s], source);
    ConcatNil(Usables(a, source).value);
    UsablesConcat(a + [s], b, source);
    UsablesConcat(a, b, source);
  }

  // ---------- Where the pump stops ----------

  /** The pump is at zero right after a positive command. */
  predicate StopsAt(samples: seq<Sample>, i: int) {
    0 < i < |samples| && samples[i].pumpPct == Num(0.0) && PumpOn(samples[i - 1])
  }

  predicate HasPump(samples: seq<Sample>, n: int) {
    forall i :: 0 <= i < n && i < |samples| ==> samples[i].pumpPct.Num?
  }

  /** `pump_stop_index`: the first stop, unless a malformed command comes before it. */
  method PumpStopIndex(samples: seq<Sample>) returns (r: Result<Option<nat>, MeanError>)
    ensures r.Ok? && r.value.Some? <==>
            exists i :: StopsAt(samples, i) && HasPump(samples, i) && forall j :: j < i ==> !StopsAt(samples, j)
    ensures r.Ok? && r.value.Some? ==> StopsAt(samples, r.value.value) && HasPump(samples, r.value.value)
                                       && forall j :: j < r.value.value ==> !StopsAt(samples, j)
    ensures r == Ok(None) <==> HasPump(samples, |samples|) && forall j :: !StopsAt(samples, j)
  {
    var wasRunning := false;
    for i := 0 to |samples|
      invariant wasRunning == (i > 0 && PumpOn(samples[i - 1]))
      invariant HasPump(samples, i) && forall j :: j < i ==> !StopsAt(samples, j)
    {
      var pump := samples[i].pumpPct;
      if !pump.Num? { return Err(BadNumber); }
      if wasRunning && pump.x == 0.0 {
        assert StopsAt(samples, i);
        return Ok(Some(i));
      }
      wasRunning := pump.x > 0.0;
    }
    return Ok(None);
  }

  /** The pump is at zero and ran at some time before. */
  predicate StopsAfterRun(samples: seq<Sample>, i: int) {
    0 < i < |samples| && samples[i].pumpPct == Num(0.0) && exists k :: 0 <= k < i && PumpOn(samples[k])
  }

  /** `first_pump_stop` of the report: the latch stays set, and malformed commands are passed over. */
  method FirstPumpStop(samples: seq<Sample>) returns (r: Option<nat>)
    ensures r.Some? ==> StopsAfterRun(samples, r.value) && forall j :: j < r.value ==> !StopsAfterRun(samples, j)
    ensures r.None? ==> forall j :: !StopsAfterRun(samples, j)
  {
    var wasRunning := false;
    for i := 0 to |samples|
      invariant wasRunning <==> exists k :: 0 <= k < i && PumpOn(samples[k])
      invariant forall j :: j < i ==> !StopsAfterRun(samples, j)
    {
      if wasRunning && samples[i].pumpPct == Num(0.0) { return Some(i); }
      wasRunning := wasRunning || PumpOn(samples[i]);
    }
    return None;
  }

  /** The two searches find the same first stop on every capture whose commands are non-negative numbers. */
  lemma {:induction false} FirstStopsAgree(samples: seq<Sample>, i: int)
    requires forall k :: 0 <= k < |samples| ==> samples[k].pumpPct.Num? && samples[k].pumpPct.x >= 0.0
    ensures (StopsAt(samples, i) && forall j :: j < i ==> !StopsAt(samples, j))
       <==> (StopsAfterRun(samples, i) && forall j :: j < i ==> !StopsAfterRun(samples, j))
  {
    forall m: int | StopsAfterRun(samples, m)
      ensures exists j :: j <= m && StopsAt(samples, j)
    {
      var k :| 0 <= k < m && PumpOn(samples[k]);
      var j := k + 1;
      while !StopsAt(samples, j)
        invariant k < j <= m && PumpOn(samples[j - 1])
        decreases m - j
      {
        assert samples[j].pumpPct.Num? && samples[j].pumpPct.x >= 0.0;
        assert j < m;
        j := j + 1;
      }
    }
    assert forall m :: StopsAt(samples, m) ==> StopsAfterRun(samples, m);
  }

  // ---------- The mean over the volume ----------

  const VOLUME_TOLERANCE := 0.000001

  datatype Flow = Flow(volume: real, heat: real)

  /** One step of the flow meter: small decreases count as nothing, larger ones are an error. */
  function FlowStep(f: Flow, a: Sample, b: Sample): Result<Flow, MeanError> {
    if !a.volumeMl.Num? || !b.volumeMl.Num? then Err(BadNumber)
    else
      var delta := b.volumeMl.x - a.volumeMl.x;
      if delta < -VOLUME_TOLERANCE then Err(VolumeDecreases)
      else if delta <= 0.0 then Ok(f)
      else if !BoilerUsable(a) || !BoilerUsable(b) then Err(BadTemperature)
      else if !a.boilerC.Num? || !b.boilerC.Num? then Err(BadNumber)
      else Ok(Flow(f.volume + delta, f.heat + Warm(delta, a.boilerC.x, b.boilerC.x)))
  }

  function FlowOf(samples: seq<Sample>): Result<Flow, MeanError> {
    if |samples| <= 1 then Ok(Flow(0.0, 0.0))
    else match FlowOf(samples[..|samples| - 1])
      case Err(e) => Err(e)
      case Ok(f) => FlowStep(f, samples[|samples| - 2], samples[|samples| - 1])
  }

  function VolumeWeighted(samples: seq<Sample>): Result<Mean, MeanError> {
    match FlowOf(samples)
    case Err(e) => Err(e)
    case Ok(f) => if f.volume <= 0.0 then Err(NoVolume) else Ok(Mean(f.volume, f.heat / f.volume))
  }

  lemma FlowMore(samples: seq<Sample>, n: nat)
    requires 1 <= n < |samples|
    ensures FlowOf(samples[..n + 1]) ==
            if FlowOf(samples[..n]).Err? then FlowOf(samples[..n])
            else FlowStep(FlowOf(samples[..n]).value, samples[n - 1], samples[n])
  {
    var more := samples[..n + 1];
    assert more[..n] == samples[..n] && more[n] == samples[n] && more[n - 1] == samples[n - 1];
  }

  lemma {:induction false} FlowErrorStays(samples: seq<Sample>, n: nat)
    requires 1 <= n <= |samples| && FlowOf(samples[..n]).Err?
    ensures FlowOf(samples) == FlowOf(samples[..n])
    decreases |samples| - n
  {
    if n < |samples| {
      FlowMore(samples, n);
      FlowErrorStays(samples, n + 1);
    } else {
      assert samples[..n] == samples;
    }
  }

  /** `volume_weighted_temperature`, with its loop over neighbouring samples up to `endIndex`. */
  method VolumeWeightedTemperature(samples: seq<Sample>, endIndex: int) returns (r: Result<Mean, MeanError>)
    requires 0 <= endIndex < |samples|
    ensures r == VolumeWeighted(samples[..endIndex + 1])
  {
    var run := samples[..endIndex + 1];
    var volume, heat := 0.0, 0.0;
    for i := 1 to endIndex + 1
      invariant FlowOf(run[..i]) == Ok(Flow(volume, heat))
    {
      FlowMore(run, i);
      var before, after := run[i - 1], run[i];
      hide FlowOf, Warm;
      if !before.volumeMl.Num? || !after.volumeMl.Num? { FlowErrorStays(run, i + 1); return Err(BadNumber); }
      var delta := after.volumeMl.x - before.volumeMl.x;
      if delta < -VOLUME_TOLERANCE { FlowErrorStays(run, i + 1); return Err(VolumeDecreases); }
      if delta <= 0.0 { continue; }
      if !BoilerUsable(before) || !BoilerUsable(after) { FlowErrorStays(run, i + 1); return Err(BadTemperature); }
      if !before.boilerC.Num? || !after.boilerC.Num? { FlowErrorStays(run, i + 1); return Err(BadNumber); }
      heat := heat + Warm(delta, before.boilerC.x, after.boilerC.x);
      volume := volume + delta;
    }
    assert run[..endIndex + 1] == run;
    if volume <= 0.0 { return Err(NoVolume); }
    return Ok(Mean(volume, heat / volume));
  }

  ghost predicate TemperaturesBetween(samples: seq<Sample>, lo: real, hi: real) {
    forall i :: 0 <= i < |samples| && samples[i].boilerC.Num? ==> lo <= samples[i].boilerC.x <= hi
  }

  lemma {:induction false} FlowBetween(samples: seq<Sample>, lo: real, hi: real)
    requires |samples| > 1 && FlowOf(samples).Ok? && TemperaturesBetween(samples, lo, hi)
    ensures var f, n := FlowOf(samples).value, |samples| - 1;
            && samples[0].volumeMl.Num? && samples[n].volumeMl.Num?
            && 0.0 <= f.volume - (samples[n].volumeMl.x - samples[0].volumeMl.x) <= n as real * VOLUME_TOLERANCE
            && Between(f.heat, f.volume, lo, hi)
  {
    var n := |samples| - 1;
    var before := samples[..n];
    if n > 1 {
      FlowBetween(before, lo, hi);
    }
    hide FlowOf, Warm, Between;
    assert FlowStep(FlowOf(before).value, samples[n - 1], samples[n]) == FlowOf(samples) by {
      FlowMore(samples, n);
      assert samples[..n + 1] == samples;
    }
    FlowStepBetween(FlowOf(before).value, samples[n - 1], samples[n], lo, hi);
  }

  lemma FlowStepBetween(f: Flow, a: Sample, b: Sample, lo: real, hi: real)
    requires FlowStep(f, a, b).Ok? && Between(f.heat, f.volume, lo, hi)
    requires a.boilerC.Num? ==> lo <= a.boilerC.x <= hi
    requires b.boilerC.Num? ==> lo <= b.boilerC.x <= hi
    ensures a.volumeMl.Num? && b.volumeMl.Num?
    ensures var g := FlowStep(f, a, b).value;
            && 0.0 <= g.volume - f.volume - (b.volumeMl.x - a.volumeMl.x) <= VOLUME_TOLERANCE
            && Between(g.heat, g.volume, lo, hi)
  {
    hide Warm, Between;
    if b.volumeMl.x > a.volumeMl.x {
      WarmBetween(f.heat, f.volume, b.volumeMl.x - a.volumeMl.x, a.boilerC.x, b.boilerC.x, lo, hi);
    }
  }

  /** The volume is what the flow meter gained, up to its tolerance per step; the mean lies among the temperatures. */
  lemma VolumeMeanLaws(samples: seq<Sample>, lo: real, hi: real)
    requires VolumeWeighted(samples).Ok? && TemperaturesBetween(samples, lo, hi)
    ensures var r, n := VolumeWeighted(samples).value, |samples| - 1;
            && n >= 1 && samples[0].volumeMl.Num? && samples[n].volumeMl.Num?
            && 0.0 <= r.total - (samples[n].volumeMl.x - samples[0].volumeMl.x) <= n as real * VOLUME_TOLERANCE
            && lo <= r.celsius <= hi
  {
    FlowBetween(samples, lo, hi);
    hide FlowOf, Between;
    MeanBetween(FlowOf(samples).value.heat, FlowOf(samples).value.volume, lo, hi);
  }
}
