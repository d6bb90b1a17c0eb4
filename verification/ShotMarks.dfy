/**
 The marks of an infusion in terms of the capture: weights relative to the first usable
 one, taken at the first and the last brewing samples.
 */
module ShotMarks {
  import opened Prelude
  import opened Samples
  import opened Shot
  import opened ShotSegments

  /** The first usable weight. */
  function Origin(samples: seq<Sample>): Option<real> {
    if samples == [] then None
    else
      var before := Origin(samples[..|samples| - 1]);
      if before.Some? then before else Weight(samples[|samples| - 1])
  }

  /** The weight of a sample, less the first usable one. */
  function WeightAt(samples: seq<Sample>, i: Option<nat>): Option<real> {
    if i.None? || i.value >= |samples| then None
    else if Weight(samples[i.value]).None? || Origin(samples[..i.value + 1]).None? then None
    else Some(Weight(samples[i.value]).value - Origin(samples[..i.value + 1]).value)
  }

  function VolumeAt(samples: seq<Sample>, i: Option<nat>): Option<real> {
    if i.None? || i.value >= |samples| then None else Number(samples[i.value].volumeMl)
  }

  /** The last brewing sample. */
  function LastBrewing(samples: seq<Sample>): Option<nat> {
    if samples == [] then None
    else if IsBrewing(samples[|samples| - 1]) then Some(|samples| - 1)
    else LastBrewing(samples[..|samples| - 1])
  }

  /** The last brewing sample with a usable weight. */
  function LastWeighed(samples: seq<Sample>): Option<nat> {
    if samples == [] then None
    else
      var s := samples[|samples| - 1];
      if IsBrewing(s) && Weight(s).Some? then Some(|samples| - 1) else LastWeighed(samples[..|samples| - 1])
  }

  ghost predicate IsLastBrewing(samples: seq<Sample>, i: Option<nat>) {
    match i
    case None => forall j :: 0 <= j < |samples| ==> !IsBrewing(samples[j])
    case Some(k) => k < |samples| && IsBrewing(samples[k]) && forall j :: k < j < |samples| ==> !IsBrewing(samples[j])
  }

  ghost predicate IsLastWeighed(samples: seq<Sample>, i: Option<nat>) {
    match i
    case None => forall j :: 0 <= j < |samples| && IsBrewing(samples[j]) ==> Weight(samples[j]).None?
    case Some(k) => && k < |samples| && IsBrewing(samples[k]) && Weight(samples[k]).Some?
                    && forall j :: k < j < |samples| && IsBrewing(samples[j]) ==> Weight(samples[j]).None?
  }

  lemma {:induction false} LastsAreLast(samples: seq<Sample>)
    ensures IsLastBrewing(samples, LastBrewing(samples)) && IsLastWeighed(samples, LastWeighed(samples))
  {
    if samples != [] {
      var p := samples[..|samples| - 1];
      LastsAreLast(p);
      assert forall j :: 0 <= j < |p| ==> p[j] == samples[j];
    }
  }

  /** What is marked at a sample. */
  function MarkAt(samples: seq<Sample>, i: Option<nat>): Mark {
    if i.None? then NO_MARK else Mark(TimeAt(samples, i), WeightAt(samples, i), VolumeAt(samples, i))
  }

  function LastVolume(samples: seq<Sample>): Option<real> {
    if LastBrewing(samples).None? then Some(0.0) else VolumeAt(samples, LastBrewing(samples))
  }

  lemma OriginMore(samples: seq<Sample>)
    requires samples != []
    ensures var p, n := samples[..|samples| - 1], |samples| - 1;
            var before, weight := Origin(p), Weight(samples[n]);
            && Origin(samples) == (if before.None? then weight else before)
            && WeightAt(samples, Some(n)) == if weight.None? then None
                                             else Some(if before.None? then 0.0 else weight.value - before.value)
  {
    assert samples[..|samples| - 1 + 1] == samples;
  }

  lemma {:induction false} RunOrigin(samples: seq<Sample>, target: real)
    ensures Run(samples, target).scale.origin == Origin(samples)
    ensures samples != [] ==> Run(samples, target).scale.Latest() == WeightAt(samples, Some(|samples| - 1))
  {
    if samples != [] {
      var p, n := samples[..|samples| - 1], |samples| - 1;
      RunOrigin(p, target);
      OriginMore(samples);
      RunLast(samples, target);
      LatestReading(Run(p, target).scale, samples[n]);
      hide Run, Scale.Observe, Scale.Latest, Origin, WeightAt;
    }
  }

  /** What is read at a sample does not depend on what comes after it. */
  lemma SameBefore(samples: seq<Sample>, i: Option<nat>)
    requires samples != [] && (i.Some? ==> i.value < |samples| - 1)
    ensures var p := samples[..|samples| - 1];
            && MarkAt(samples, i) == MarkAt(p, i) && WeightAt(samples, i) == WeightAt(p, i)
            && VolumeAt(samples, i) == VolumeAt(p, i)
  {
    if i.Some? { assert samples[..|samples| - 1][..i.value + 1] == samples[..i.value + 1]; }
  }

  lemma NextMarks(m: Marks, s: Sample, weight: Option<real>, target: real)
    requires TimeS(s).Some?
    ensures var next, here := m.Observe(s, weight, target - 1.0), Mark(TimeS(s), weight, Number(s.volumeMl));
            && next.pressure == (if m.pressure.t.None? && Happens(Reaches(target), s) then here else m.pressure)
            && next.infusion == (if m.infusion.t.None? && IsBrewing(s) then here else m.infusion)
            && next.lastWeight == (if IsBrewing(s) && weight.Some? then weight else m.lastWeight)
            && next.lastVolume == if IsBrewing(s) then Number(s.volumeMl) else m.lastVolume
  {
  }

  lemma MarkMore(samples: seq<Sample>, e: Event)
    requires samples != [] && IsTimed(samples)
    ensures var p, n := samples[..|samples| - 1], |samples| - 1;
            var s, m := samples[n], MarkAt(p, FirstIndex(p, e));
            MarkAt(samples, FirstIndex(samples, e))
            == if m.t.None? && Happens(e, s) then Mark(TimeS(s), WeightAt(samples, Some(n)), Number(s.volumeMl)) else m
  {
    var p := samples[..|samples| - 1];
    FirstIndexIsFirst(p, e);
    SameBefore(samples, FirstIndex(p, e));
    hide WeightAt, Happens;
  }

  lemma LastsMore(samples: seq<Sample>)
    requires samples != []
    ensures var p, n := samples[..|samples| - 1], |samples| - 1;
            var s, weight := samples[n], WeightAt(samples, Some(n));
            && WeightAt(samples, LastWeighed(samples))
               == (if IsBrewing(s) && weight.Some? then weight else WeightAt(p, LastWeighed(p)))
            && LastVolume(samples) == if IsBrewing(s) then Number(s.volumeMl) else LastVolume(p)
  {
    var p := samples[..|samples| - 1];
    LastsAreLast(p);
    OriginMore(samples);
    SameBefore(samples, LastWeighed(p));
    SameBefore(samples, LastBrewing(p));
    hide WeightAt, IsBrewing;
  }

  /**
   On every timed capture the marks are taken at the first sample at pressure and at the
   first brewing one, and the last weight and volume at the last brewing samples.
   */
  lemma {:induction false} RunMarks(samples: seq<Sample>, target: real)
    requires IsTimed(samples)
    ensures Run(samples, target).marks
         == Marks(MarkAt(samples, FirstIndex(samples, Reaches(target))),
                  MarkAt(samples, FirstIndex(samples, Enters(Brewing))),
                  WeightAt(samples, LastWeighed(samples)), LastVolume(samples))
  {
    if samples != [] {
      var p, n := samples[..|samples| - 1], |samples| - 1;
      RunMarks(p, target);
      RunOrigin(samples, target);
      RunLast(samples, target);
      NextMarks(Run(p, target).marks, samples[n], Run(samples, target).scale.Latest(), target);
      MarkMore(samples, Reaches(target));
      MarkMore(samples, Enters(Brewing));
      LastsMore(samples);
      hide Run, Marks.Observe, MarkAt, WeightAt, FirstIndex, LastWeighed, LastVolume, IsTimed;
    }
  }
}
