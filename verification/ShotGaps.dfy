/**
 When the pump stops before the cooldown, the segments of a shot may leave a gap.
 Exactly when they do is read off the capture: a stage entered once the drips are
 over is never ended, and a ramp renamed to the infusion is ended under its old name.
 */
module ShotGaps {
  import opened Prelude
  import opened Samples
  import opened Shot
  import opened ShotSegments

  // ---------- The condition ----------

  /** The pump stops before the first cooldown sample. */
  predicate StopsEarly(samples: seq<Sample>) {
    var stop, cool := StopIndex(samples), FirstIndex(samples, Enters(Cooldown));
    stop.Some? && (cool.None? || stop.value < cool.value)
  }

  lemma HeldExactly(samples: seq<Sample>)
    ensures IsPumpHeld(samples) <==> !StopsEarly(samples)
  {
    PumpIndices(samples);
    FirstIndexIsFirst(samples, Enters(Cooldown));
    var on, stop, cool := FirstOn(samples), StopIndex(samples), FirstIndex(samples, Enters(Cooldown));
    hide FirstOn, StopIndex, FirstIndex;
    if StopsEarly(samples) {
      assert PumpOn(samples[on.value]) && !PumpOn(samples[stop.value]);
    }
  }

  /** The last sample comes after the stop, with no flow left into the cup. */
  predicate IsDry(samples: seq<Sample>, target: real)
    requires samples != []
  {
    var t, stop, rate := TimeS(samples[|samples| - 1]), StopTime(samples), Run(samples, target).scale.Rate();
    t.Some? && stop.Some? && t.value > stop.value && (rate.None? || rate.value <= 0.0)
  }

  /** The sample at which the drips are over. */
  function DripsOver(samples: seq<Sample>, target: real): Option<nat> {
    if samples == [] then None
    else
      var n := |samples| - 1;
      var before := DripsOver(samples[..n], target);
      if before.None? && IsDry(samples, target) then Some(n) else before
  }

  /** The drips are over at the first dry sample, which comes after that of the stop. */
  lemma {:induction false} DripsAreOver(samples: seq<Sample>, target: real)
    requires IsTimed(samples)
    ensures Run(samples, target).drips.done <==> DripsOver(samples, target).Some?
    ensures DripsOver(samples, target).Some? ==>
              StopIndex(samples).Some? && StopIndex(samples).value < DripsOver(samples, target).value < |samples|
  {
    PumpTimes(samples, target);
    if samples != [] {
      var p := samples[..|samples| - 1];
      DripsAreOver(p, target);
      RunLast(samples, target);
      PumpIndices(samples);
      hide Run, IsFirstOn, IsStop;
    }
  }

  predicate IsBy(a: Option<nat>, i: nat) { a.Some? && a.value <= i }

  predicate IsAfter(a: Option<nat>, b: Option<nat>) { a.Some? && b.Some? && a.value > b.value }

  /** A stage before the cooldown is first entered once the drips are over. */
  ghost predicate EntersLate(samples: seq<Sample>, target: real) {
    exists g: Stage ::
      g != Cooldown && g != Other && IsAfter(FirstIndex(samples, Enters(g)), DripsOver(samples, target))
  }

  /** The sample at which an unreached ramp is renamed. */
  function RenameIndex(samples: seq<Sample>): Option<nat> {
    var stop, brew := StopIndex(samples), FirstIndex(samples, Enters(Brewing));
    if stop.None? || brew.None? then None else if brew.value < stop.value then stop else brew
  }

  /** The pressure is reached by the time a ramp would be renamed. */
  predicate KeepsName(samples: seq<Sample>, target: real) {
    var r := RenameIndex(samples);
    r.None? || IsBy(FirstIndex(samples, Reaches(target)), r.value)
  }

  /** A renamed ramp is ended once more: the capture goes on, and the drips were not over or pressure comes. */
  predicate LosesRamp(samples: seq<Sample>, target: real) {
    var r := RenameIndex(samples);
    && !KeepsName(samples, target) && r.value < |samples| - 1
    && (FirstIndex(samples, Reaches(target)).Some? || !IsBy(DripsOver(samples, target), r.value))
  }

  // ---------- One sample after the stop ----------

  /** What a capture has entered so far. */
  datatype Seen = Seen(early: set<Segment>, brewed: bool, reached: bool, cooled: bool) {
    function After(stage: Stage, reaches: bool): Seen {
      Seen(if stage.Early? then early + {stage.segment} else early,
           brewed || stage == Brewing, reached || reaches, cooled || stage == Cooldown)
    }

    /** The stage does not come before one already seen. */
    predicate Allows(stage: Stage) {
      match stage
      case Early(x) => Rank(x) < 3 && !brewed && !cooled && forall y :: y in early ==> Rank(y) <= Rank(x)
      case Brewing => !cooled
      case _ => true
    }
  }

  /** What every capture keeps once the pump has stopped early. */
  ghost predicate IsOpened(e: Segments, seen: Seen) {
    && (forall x :: Rank(x) < 3 ==> (x in e.start <==> x in seen.early))
    && (Infusion in e.start <==> seen.brewed)
    && (Ramp in e.start ==> seen.reached)
    && (Drip in e.start ==> seen.cooled)
    && (seen.brewed ==> e.current.Some? && Rank(e.current.value) >= 3)
    && match e.current
       case None => e.start == map[]
       case Some(Ramp) => Infusion in e.start
       case Some(x) => x in e.start && (x == Infusion ==> seen.reached)
  }

  lemma OpenedEarly(e: Segments, seen: Seen, x: Segment, t: real, done: bool, ends: bool)
    requires IsOpened(e, seen) && seen.Allows(Early(x))
    ensures IsOpened(NextSegments(e, Early(x), Some(t), true, seen.reached, done, ends), seen.After(Early(x), false))
  {
  }

  lemma OpenedBrewing(e: Segments, seen: Seen, reaches: bool, t: real, done: bool, ends: bool)
    requires IsOpened(e, seen) && seen.Allows(Brewing)
    ensures var after := seen.After(Brewing, reaches);
            IsOpened(NextSegments(e, Brewing, Some(t), true, after.reached, done, ends), after)
  {
    assert seen.brewed ==> e.current in {Some(Ramp), Some(Infusion)};
  }

  lemma OpenedQuiet(e: Segments, seen: Seen, stage: Stage, t: real, done: bool, ends: bool)
    requires IsOpened(e, seen) && stage in {Cooldown, Other}
    ensures IsOpened(NextSegments(e, stage, Some(t), true, seen.reached, done, ends), seen.After(stage, false))
  {
  }

  lemma OpenedStep(e: Segments, seen: Seen, stage: Stage, reaches: bool, t: real, done: bool, ends: bool)
    requires IsOpened(e, seen) && seen.Allows(stage) && (reaches ==> stage == Brewing)
    ensures var after := seen.After(stage, reaches);
            IsOpened(NextSegments(e, stage, Some(t), true, after.reached, done, ends), after)
  {
    if stage.Early? {
      OpenedEarly(e, seen, stage.segment, t, done, ends);
      hide NextSegments, IsOpened;
    } else if stage == Brewing {
      OpenedBrewing(e, seen, reaches, t, done, ends);
      hide NextSegments, IsOpened;
    } else {
      OpenedQuiet(e, seen, stage, t, done, ends);
      hide NextSegments, IsOpened;
    }
  }

  /** A tiled state with the ramp already renamed. */
  ghost predicate IsLoose(e: Segments, last: real) {
    IsTiled(e, last) && e.current == Some(Ramp) && Ramp !in e.start && Drip !in e.start
  }

  /** The ramp has an end but no start. */
  ghost predicate IsStuck(e: Segments) {
    Ramp in e.end && Ramp !in e.start
  }

  /** `x` was opened after the drips were over. */
  ghost predicate IsUnended(e: Segments, x: Segment) {
    && (Rank(x) < 3 || x == Infusion) && x in e.start && x !in e.end && Ramp !in e.start
    && (e.current == Some(x) || (x == Infusion && e.current == Some(Ramp)))
    && forall y :: y in e.end ==> Rank(y) < Rank(x)
  }

  ghost predicate IsWhole(e: Segments, last: real) {
    IsTiled(e, last) && IsCurrentLast(e)
  }

  function SegmentOf(stage: Stage, reached: bool): Segment
    requires stage != Other
  {
    match stage
    case Early(x) => x
    case Brewing => if reached then Infusion else Ramp
    case Cooldown => Drip
  }

  /** Before the drips are over, and with nothing to rename, the tiling goes on. */
  lemma WholeStep(e: Segments, stage: Stage, reached: bool, t: real, last: real, ends: bool)
    requires IsWhole(e, last)
    requires stage != Other ==> forall y :: y in e.start ==> Rank(y) <= Rank(SegmentOf(stage, reached))
    requires stage.Early? ==> Rank(stage.segment) < 3
    requires reached || (stage != Brewing && Ramp !in e.start)
    ensures IsWhole(NextSegments(e, stage, Some(t), true, reached, false, ends), t)
  {
    var here := if stage == Other then e.Extend(false, Some(t))
                else e.Open(SegmentOf(stage, reached), Some(t)).Extend(false, Some(t));
    if stage == Other {
      ExtendTiles(e, t, last);
    } else {
      CurrentIsNext(e, SegmentOf(stage, reached));
      OpenTiles(e, SegmentOf(stage, reached), t, last);
    }
    hide IsTiled, IsCurrentLast, IsNext;
    assert here.Relabel(true, reached) == here;
    if ends { ClosedIsWhole(here, t); }
  }

  lemma ClosedIsWhole(e: Segments, t: real)
    requires IsWhole(e, t)
    ensures e.CloseDrip(Some(t)) == e
  {
    if Drip in e.start {
      DripLast(e);
      CloseChangesNothing(e, t);
    }
  }

  /** The ramp is renamed at this sample, and stays the current segment under its old name. */
  lemma RenameStep(e: Segments, stage: Stage, t: real, last: real, ends: bool)
    requires IsWhole(e, last) && stage in {Brewing, Other} && Infusion !in e.start && Drip !in e.start
    requires stage == Other ==> Ramp in e.start
    ensures IsLoose(NextSegments(e, stage, Some(t), true, false, false, ends), t)
  {
    var here := (if stage == Other then e else e.Open(Ramp, Some(t))).Extend(false, Some(t));
    CurrentIsNext(e, Ramp);
    if stage == Other {
      ExtendTiles(e, t, last);
    } else {
      OpenTiles(e, Ramp, t, last);
    }
    RenamedTiles(here, t);
    hide IsTiled, IsCurrentLast, IsNext;
  }

  lemma RenamedTiles(e: Segments, t: real)
    requires IsTiled(e, t) && Ramp in e.start && Infusion !in e.start && Drip !in e.start
    ensures IsTiled(e.Relabel(true, false), t)
  {
    var r := e.Relabel(true, false);
    forall x | x in r.start
      ensures r.end[x] == NextStart(r.start, x, t)
    {
      if Rank(x) < 3 {
        NextStartRelabel(e.start, x, t);
      }
    }
  }

  /** A renamed ramp is left alone as long as the drips are over and the pressure does not come. */
  lemma LooseStep(e: Segments, seen: Seen, stage: Stage, reaches: bool, t: real, last: real, done: bool, ends: bool)
    requires IsOpened(e, seen) && seen.brewed && seen.Allows(stage) && (reaches ==> stage == Brewing)
    requires IsLoose(e, last) && !seen.reached && (done ==> !ends)
    ensures var next := NextSegments(e, stage, Some(t), true, reaches, done, ends);
            if done && !reaches then next == e else IsStuck(next)
  {
  }

  lemma StuckStep(e: Segments, seen: Seen, stage: Stage, reaches: bool, t: real, done: bool, ends: bool)
    requires IsOpened(e, seen) && seen.brewed && seen.Allows(stage) && IsStuck(e)
    requires reaches ==> stage == Brewing
    ensures IsStuck(NextSegments(e, stage, Some(t), true, seen.After(stage, reaches).reached, done, ends))
  {
  }

  /** Once the drips are over, a stage seen before changes nothing. */
  lemma QuietStep(e: Segments, seen: Seen, stage: Stage, reaches: bool, t: real, last: real)
    requires IsOpened(e, seen) && seen.Allows(stage) && IsWhole(e, last) && (reaches ==> stage == Brewing)
    requires seen.brewed ==> seen.reached
    requires stage.Early? ==> stage.segment in seen.early
    requires stage == Brewing ==> seen.brewed
    ensures NextSegments(e, stage, Some(t), true, seen.After(stage, reaches).reached, true, false) == e
  {
    if stage.Early? || stage == Brewing { CurrentIsNext(e, SegmentOf(stage, seen.reached)); }
    hide IsTiled;
  }

  lemma LateEarly(e: Segments, seen: Seen, x: Segment, t: real, last: real)
    requires IsOpened(e, seen) && seen.Allows(Early(x)) && IsWhole(e, last) && x !in seen.early
    ensures IsUnended(NextSegments(e, Early(x), Some(t), true, seen.reached, true, false), x)
  {
    hide NextStart;
  }

  lemma LateBrewing(e: Segments, seen: Seen, reached: bool, t: real, last: real)
    requires IsOpened(e, seen) && seen.Allows(Brewing) && IsWhole(e, last) && !seen.brewed
    ensures IsUnended(NextSegments(e, Brewing, Some(t), true, reached, true, false), Infusion)
  {
    hide NextStart;
  }

  /** A stage first entered once the drips are over gets no end. */
  lemma LateStep(e: Segments, seen: Seen, stage: Stage, reaches: bool, t: real, last: real)
    requires IsOpened(e, seen) && seen.Allows(stage) && IsWhole(e, last) && !seen.brewed && !seen.reached
    requires stage == Brewing || (stage.Early? && stage.segment !in seen.early)
    requires reaches ==> stage == Brewing
    ensures var next := NextSegments(e, stage, Some(t), true, seen.After(stage, reaches).reached, true, false);
            IsUnended(next, if stage.Early? then stage.segment else Infusion)
  {
    hide NextSegments, IsOpened, IsWhole, IsUnended;
    if stage == Brewing {
      LateBrewing(e, seen, reaches, t, last);
    } else {
      LateEarly(e, seen, stage.segment, t, last);
    }
  }

  lemma UnendedStep(e: Segments, x: Segment, seen: Seen, stage: Stage, reaches: bool, t: real)
    requires IsOpened(e, seen) && seen.Allows(stage) && IsUnended(e, x) && (reaches ==> stage == Brewing)
    ensures var next := NextSegments(e, stage, Some(t), true, seen.After(stage, reaches).reached, true, false);
            exists y :: IsUnended(next, y)
  {
    var next := NextSegments(e, stage, Some(t), true, seen.After(stage, reaches).reached, true, false);
    var y := match stage
      case Early(z) => z
      case Brewing => Infusion
      case _ => x;
    assert IsUnended(next, y);
  }

  lemma WholeNext(e: Segments, seen: Seen, stage: Stage, reaches: bool, t: real, last: real, ends: bool)
    requires IsOpened(e, seen) && seen.Allows(stage) && IsWhole(e, last) && (reaches ==> stage == Brewing)
    requires (seen.brewed ==> seen.reached) && (stage == Brewing ==> seen.After(stage, reaches).reached)
    ensures IsWhole(NextSegments(e, stage, Some(t), true, seen.After(stage, reaches).reached, false, ends), t)
  {
    var reached := seen.After(stage, reaches).reached;
    forall y | stage != Other && y in e.start
      ensures Rank(y) <= Rank(SegmentOf(stage, reached))
    {
    }
    hide NextSegments, IsWhole;
    WholeStep(e, stage, reached, t, last, ends);
  }

  lemma RenameNext(e: Segments, seen: Seen, stage: Stage, t: real, last: real, ends: bool)
    requires IsOpened(e, seen) && seen.Allows(stage) && IsWhole(e, last)
    requires stage == Brewing && !seen.brewed && !seen.reached
    ensures IsLoose(NextSegments(e, stage, Some(t), true, false, false, ends), t)
  {
    RenameStep(e, stage, t, last, ends);
  }

  /** What has become of the tiling: it holds, or it was lost for good. */
  datatype Fate = Whole | Renamed | Lost | Late

  ghost predicate Stands(e: Segments, fate: Fate, last: real) {
    match fate
    case Whole => IsWhole(e, last)
    case Renamed => IsLoose(e, last)
    case Lost => IsStuck(e)
    case Late => exists x :: IsUnended(e, x)
  }

  /** `stage` comes before the cooldown and was never seen. */
  predicate IsNew(seen: Seen, stage: Stage) {
    match stage
    case Early(x) => x !in seen.early
    case Brewing => !seen.brewed
    case _ => false
  }

  function NextFate(fate: Fate, seen: Seen, stage: Stage, reaches: bool, done: bool): Fate {
    match fate
    case Whole =>
      if done && IsNew(seen, stage) then Late
      else if stage == Brewing && !seen.brewed && !reaches then Renamed
      else Whole
    case Renamed => if done && !reaches then Renamed else Lost
    case _ => fate
  }

  predicate IsCoherent(fate: Fate, seen: Seen, done: bool) {
    match fate
    case Whole => seen.brewed <==> seen.reached
    case Renamed => seen.brewed && !seen.reached
    case Lost => seen.brewed
    case Late => done
  }

  lemma StandsStep(e: Segments, seen: Seen, stage: Stage, reaches: bool, t: real, last: real,
                   fate: Fate, done: bool, ends: bool)
    requires IsOpened(e, seen) && seen.Allows(stage) && (reaches ==> stage == Brewing)
    requires Stands(e, fate, last) && IsCoherent(fate, seen, done) && (done ==> !ends)
    ensures var next := NextSegments(e, stage, Some(t), true, seen.After(stage, reaches).reached, done, ends);
            Stands(next, NextFate(fate, seen, stage, reaches, done), if done then last else t)
  {
    hide NextSegments, IsOpened, IsWhole, IsLoose, IsStuck, IsUnended;
    match fate {
      case Late =>
        var x :| IsUnended(e, x);
        UnendedStep(e, x, seen, stage, reaches, t);
      case Lost => StuckStep(e, seen, stage, reaches, t, done, ends);
      case Renamed => LooseStep(e, seen, stage, reaches, t, last, done, ends);
      case Whole =>
        if done && IsNew(seen, stage) {
          LateStep(e, seen, stage, reaches, t, last);
        } else if done {
          QuietStep(e, seen, stage, reaches, t, last);
        } else if stage == Brewing && !seen.brewed && !reaches {
          RenameNext(e, seen, stage, t, last, ends);
        } else {
          WholeNext(e, seen, stage, reaches, t, last, ends);
        }
    }
  }

  /** What a capture keeps for each segment up to an early stop. */
  predicate IsWaitingAt(e: Segments, seen: Seen, x: Segment) {
    match x
    case Drip => x !in e.start && !seen.cooled
    case Infusion => x in e.start <==> seen.reached
    case Ramp => (x in e.start ==> seen.brewed) && (seen.brewed && !seen.reached ==> x in e.start)
    case _ => x in e.start <==> x in seen.early
  }

  ghost predicate IsWaiting(e: Segments, seen: Seen) {
    && (forall x :: Rank(x) < 3 ==> (x in e.start <==> x in seen.early))
    && (Infusion in e.start <==> seen.reached)
    && (Ramp in e.start ==> seen.brewed)
    && (seen.brewed && !seen.reached ==> Ramp in e.start)
    && (seen.reached ==> seen.brewed)
    && Drip !in e.start && !seen.cooled
  }

  lemma WaitingEach(e: Segments, seen: Seen)
    requires (seen.reached ==> seen.brewed) && forall x :: IsWaitingAt(e, seen, x)
    ensures IsWaiting(e, seen)
  {
    assert IsWaitingAt(e, seen, Ramp) && IsWaitingAt(e, seen, Infusion) && IsWaitingAt(e, seen, Drip);
    forall x | Rank(x) < 3
      ensures x in e.start <==> x in seen.early
    {
      assert IsWaitingAt(e, seen, x);
    }
  }

  lemma FirstOpenedEarly(e: Segments, seen: Seen, x: Segment, t: real, ends: bool)
    requires IsWaiting(e, seen) && IsCurrentLast(e) && seen.Allows(Early(x))
    ensures IsOpened(NextSegments(e, Early(x), Some(t), true, seen.reached, false, ends), seen.After(Early(x), false))
  {
  }

  lemma FirstOpenedBrewing(e: Segments, seen: Seen, reaches: bool, t: real, ends: bool)
    requires IsWaiting(e, seen) && IsCurrentLast(e)
    ensures var after := seen.After(Brewing, reaches);
            IsOpened(NextSegments(e, Brewing, Some(t), true, after.reached, false, ends), after)
  {
  }

  lemma FirstOpenedOther(e: Segments, seen: Seen, t: real, ends: bool)
    requires IsWaiting(e, seen) && IsCurrentLast(e)
    ensures IsOpened(NextSegments(e, Other, Some(t), true, seen.reached, false, ends), seen)
  {
  }

  lemma FirstOpened(e: Segments, seen: Seen, stage: Stage, reaches: bool, t: real, ends: bool)
    requires IsWaiting(e, seen) && IsCurrentLast(e) && seen.Allows(stage) && stage != Cooldown
    requires reaches ==> stage == Brewing
    ensures var after := seen.After(stage, reaches);
            IsOpened(NextSegments(e, stage, Some(t), true, after.reached, false, ends), after)
  {
    hide NextSegments, IsOpened, IsWaiting, IsCurrentLast;
    match stage {
      case Early(x) => FirstOpenedEarly(e, seen, x, t, ends);
      case Brewing => FirstOpenedBrewing(e, seen, reaches, t, ends);
      case Other => FirstOpenedOther(e, seen, t, ends);
    }
  }

  lemma FirstStop(e: Segments, seen: Seen, stage: Stage, reaches: bool, t: real, last: real, ends: bool)
    requires IsWaiting(e, seen) && IsWhole(e, last) && seen.Allows(stage) && stage != Cooldown
    requires reaches ==> stage == Brewing
    ensures var after := seen.After(stage, reaches);
            var next := NextSegments(e, stage, Some(t), true, after.reached, false, ends);
            if !after.brewed || after.reached then IsWhole(next, t) else IsLoose(next, t)
  {
    var after := seen.After(stage, reaches);
    if !after.brewed || after.reached {
      WholeStep(e, stage, after.reached, t, last, ends);
    } else {
      RenameStep(e, stage, t, last, ends);
    }
    hide NextSegments, IsTiled, IsCurrentLast;
  }

  // ---------- Whole captures ----------

  function SeenIn(samples: seq<Sample>, target: real): Seen {
    Seen((set x: Segment | FirstIndex(samples, Enters(Early(x))).Some?),
         FirstIndex(samples, Enters(Brewing)).Some?,
         FirstIndex(samples, Reaches(target)).Some?,
         FirstIndex(samples, Enters(Cooldown)).Some?)
  }

  lemma SeenMore(samples: seq<Sample>, target: real)
    requires samples != []
    ensures var s := samples[|samples| - 1];
            SeenIn(samples, target) ==
            SeenIn(samples[..|samples| - 1], target).After(StageOf(s.mode), Happens(Reaches(target), s))
  {
  }

  lemma SeenAllows(samples: seq<Sample>, target: real)
    requires samples != [] && IsInOrder(samples)
    ensures SeenIn(samples[..|samples| - 1], target).Allows(StageOf(samples[|samples| - 1].mode))
  {
    var p, g := samples[..|samples| - 1], StageOf(samples[|samples| - 1].mode);
    forall e: Event | FirstIndex(p, e).Some?
      ensures e.Enters? && e.stage != Other && g != Other ==> StageRank(e.stage) <= StageRank(g)
    {
      FirstIndexIsFirst(p, e);
      assert Happens(e, samples[FirstIndex(p, e).value]);
    }
    hide FirstIndex, IsInOrder;
  }

  lemma {:induction false} FirstTimeAt(samples: seq<Sample>, e: Event)
    requires IsTimed(samples)
    ensures FirstTime(samples, e) == TimeAt(samples, FirstIndex(samples, e))
    ensures FirstTime(samples, e).Some? <==> FirstIndex(samples, e).Some?
  {
    FirstIndexIsFirst(samples, e);
    if samples != [] {
      var p := samples[..|samples| - 1];
      FirstIndexIsFirst(p, e);
      FirstTimeAt(p, e);
    }
  }

  /** The segments of one more sample after an early stop. */
  lemma SegmentsMore(samples: seq<Sample>, target: real)
    requires samples != [] && IsTimed(samples) && StopsEarly(samples)
    ensures var p, s := samples[..|samples| - 1], samples[|samples| - 1];
            var done := Run(p, target).drips.done;
            Run(samples, target).segments
            == NextSegments(Run(p, target).segments, StageOf(s.mode), TimeS(s), true, SeenIn(samples, target).reached,
                            done, Run(samples, target).drips.done && !done)
  {
    PumpTimes(samples, target);
    MarkTimes(samples, target);
    FirstTimeAt(samples, Reaches(target));
    RunLast(samples, target);
    hide Run, FirstTime, FirstIndex, NextSegments;
  }

  lemma StopMore(samples: seq<Sample>)
    requires samples != []
    ensures var p := samples[..|samples| - 1];
            if StopsEarly(p) then StopsEarly(samples) && StopIndex(samples) == StopIndex(p)
            else StopsEarly(samples) ==>
              && StopIndex(p).None? && StopIndex(samples) == Some(|p|)
              && FirstIndex(samples, Enters(Cooldown)).None?
  {
    var p := samples[..|samples| - 1];
    PumpIndices(p);
    FirstIndexIsFirst(p, Enters(Cooldown));
    hide IsFirstOn, FirstOn;
  }

  lemma IndexMore(samples: seq<Sample>, e: Event)
    requires samples != []
    ensures var p := samples[..|samples| - 1];
            FirstIndex(samples, e) ==
            if FirstIndex(p, e).None? && Happens(e, samples[|p|]) then Some(|p|) else FirstIndex(p, e)
    ensures FirstIndex(samples, e).Some? ==> FirstIndex(samples, e).value < |samples|
  {
    FirstIndexIsFirst(samples, e);
  }

  lemma OverMore(samples: seq<Sample>, target: real)
    requires samples != [] && IsTimed(samples)
    ensures var p := samples[..|samples| - 1];
            && (DripsOver(p, target).Some? <==> Run(p, target).drips.done)
            && (DripsOver(p, target).Some? ==> DripsOver(samples, target) == DripsOver(p, target))
            && (DripsOver(samples, target).Some? && DripsOver(p, target).None? ==>
                  DripsOver(samples, target) == Some(|p|))
            && (DripsOver(p, target).Some? ==> DripsOver(p, target).value < |p|)
  {
    DripsAreOver(samples[..|samples| - 1], target);
  }

  lemma LateMore(samples: seq<Sample>, target: real)
    requires samples != [] && IsTimed(samples)
    ensures var p, g := samples[..|samples| - 1], StageOf(samples[|samples| - 1].mode);
            EntersLate(samples, target) <==>
            || EntersLate(p, target)
            || (Run(p, target).drips.done && g != Cooldown && g != Other && FirstIndex(p, Enters(g)).None?)
  {
    var p, g := samples[..|samples| - 1], StageOf(samples[|samples| - 1].mode);
    OverMore(samples, target);
    forall h: Stage
      ensures FirstIndex(samples, Enters(h)) ==
              if FirstIndex(p, Enters(h)).None? && h == g then Some(|p|) else FirstIndex(p, Enters(h))
      ensures FirstIndex(p, Enters(h)).Some? ==> FirstIndex(p, Enters(h)).value < |p|
    {
      IndexMore(samples, Enters(h));
      FirstIndexIsFirst(p, Enters(h));
    }
    hide Run, FirstIndex, DripsOver;
    if EntersLate(p, target) {
      var h: Stage :| h != Cooldown && h != Other && IsAfter(FirstIndex(p, Enters(h)), DripsOver(p, target));
      assert IsAfter(FirstIndex(samples, Enters(h)), DripsOver(samples, target));
    }
    if Run(p, target).drips.done && g != Cooldown && g != Other && FirstIndex(p, Enters(g)).None? {
      assert IsAfter(FirstIndex(samples, Enters(g)), DripsOver(samples, target));
    }
    if EntersLate(samples, target) {
      var h: Stage :|
        h != Cooldown && h != Other && IsAfter(FirstIndex(samples, Enters(h)), DripsOver(samples, target));
      assert IsAfter(FirstIndex(p, Enters(h)), DripsOver(p, target)) || h == g;
    }
  }

  lemma StopWithin(samples: seq<Sample>)
    ensures StopIndex(samples).Some? ==> StopIndex(samples).value < |samples|
    ensures StopsEarly(samples) ==> samples != []
  {
    PumpIndices(samples);
  }

  /** The sample at which a ramp is renamed, with one more sample after the stop. */
  lemma RenameMore(samples: seq<Sample>)
    requires samples != [] && StopIndex(samples[..|samples| - 1]).Some?
    requires StopIndex(samples) == StopIndex(samples[..|samples| - 1])
    ensures var p := samples[..|samples| - 1];
            var brew := FirstIndex(p, Enters(Brewing)).Some?;
            && (RenameIndex(p).Some? <==> brew) && (brew ==> RenameIndex(p).value < |p|)
            && RenameIndex(samples)
               == if brew then RenameIndex(p)
                  else if FirstIndex(samples, Enters(Brewing)).Some? then Some(|p|) else None
  {
    var p := samples[..|samples| - 1];
    StopWithin(p);
    IndexMore(samples, Enters(Brewing));
    FirstIndexIsFirst(p, Enters(Brewing));
    hide FirstIndex, StopIndex, Happens, IsFirst;
  }

  /** With one more sample, when the pump had stopped and the brewing had begun before it. */
  lemma NameMoreBrewed(samples: seq<Sample>, target: real)
    requires samples != [] && IsTimed(samples) && StopIndex(samples[..|samples| - 1]).Some?
    requires StopIndex(samples) == StopIndex(samples[..|samples| - 1])
    requires SeenIn(samples[..|samples| - 1], target).brewed
    ensures var p := samples[..|samples| - 1];
            var seen, now := SeenIn(p, target), SeenIn(samples, target);
            if KeepsName(p, target) then seen.reached && KeepsName(samples, target)
            else
              && !KeepsName(samples, target) && (!LosesRamp(p, target) ==> !seen.reached)
              && (LosesRamp(samples, target) <==> LosesRamp(p, target) || now.reached || !Run(p, target).drips.done)
  {
    var p := samples[..|samples| - 1];
    RenameMore(samples);
    IndexMore(samples, Reaches(target));
    FirstIndexIsFirst(p, Reaches(target));
    OverMore(samples, target);
    hide Run, FirstIndex, DripsOver, RenameIndex, StopIndex, IsTimed, Happens;
  }

  /** With one more sample, when the pump had stopped before it and the brewing had not begun. */
  lemma NameMoreFresh(samples: seq<Sample>, target: real)
    requires samples != [] && StopIndex(samples[..|samples| - 1]).Some?
    requires StopIndex(samples) == StopIndex(samples[..|samples| - 1])
    requires !SeenIn(samples[..|samples| - 1], target).brewed
    ensures var p, now := samples[..|samples| - 1], SeenIn(samples, target);
            && KeepsName(p, target) && !LosesRamp(samples, target)
            && (KeepsName(samples, target) <==> !now.brewed || now.reached)
  {
    RenameMore(samples);
    IndexMore(samples, Reaches(target));
    hide Run, FirstIndex, DripsOver, RenameIndex, StopIndex, Happens;
  }

  ghost function FateOf(samples: seq<Sample>, target: real): Fate {
    if EntersLate(samples, target) then Late
    else if KeepsName(samples, target) then Whole
    else if LosesRamp(samples, target) then Lost
    else Renamed
  }

  /** Where the segments of a capture stand after an early stop. */
  ghost predicate IsFated(samples: seq<Sample>, target: real, e: Segments, last: real) {
    IsOpened(e, SeenIn(samples, target)) && Stands(e, FateOf(samples, target), last)
  }

  lemma WaitingAt(samples: seq<Sample>, target: real, e: Segments, x: Segment)
    requires IsTimed(samples) && Get(e.start, x) == ExpectedStart(samples, target, x) && !HasStopped(samples)
    requires FirstIndex(samples, Enters(Cooldown)).None?
    ensures IsWaitingAt(e, SeenIn(samples, target), x)
  {
    FirstTimeAt(samples, Enters(Early(x)));
    FirstTimeAt(samples, Enters(Cooldown));
    FirstTimeAt(samples, Enters(Brewing));
    FirstTimeAt(samples, Reaches(target));
    RampIsBrewing(samples, target);
    hide FirstTime, FirstIndex, HasRamp, HasStopped, TimeAt, Happens;
  }

  lemma WaitingRun(samples: seq<Sample>, target: real, e: Segments)
    requires IsBrew(samples) && StartsAsExpected(samples, target, e.start)
    requires FirstIndex(samples, Enters(Cooldown)).None?
    ensures IsWaiting(e, SeenIn(samples, target))
    ensures !Run(samples, target).drips.done
  {
    FirstTimeAt(samples, Enters(Cooldown));
    NotStoppedYet(samples, target);
    ReachedIsBrewed(samples, target);
    assert IsTimed(samples);
    hide Run, IsBrew, IsTimed, FirstTime, FirstIndex, SeenIn, ExpectedStart, HasStopped, IsWaitingAt, IsWaiting;
    forall x: Segment
      ensures IsWaitingAt(e, SeenIn(samples, target), x)
    {
      WaitingAt(samples, target, e, x);
    }
    WaitingEach(e, SeenIn(samples, target));
  }

  lemma RenameAtStop(samples: seq<Sample>)
    requires samples != [] && StopIndex(samples) == Some(|samples| - 1)
    ensures RenameIndex(samples) ==
            if FirstIndex(samples, Enters(Brewing)).Some? then Some(|samples| - 1) else None
  {
    IndexMore(samples, Enters(Brewing));
    hide FirstIndex, StopIndex;
  }

  lemma NameAtStop(samples: seq<Sample>, target: real)
    requires samples != [] && IsTimed(samples)
    requires StopsEarly(samples) && !StopsEarly(samples[..|samples| - 1])
    requires !Run(samples[..|samples| - 1], target).drips.done
    ensures var now := SeenIn(samples, target);
            && !EntersLate(samples, target) && !LosesRamp(samples, target)
            && (KeepsName(samples, target) <==> !now.brewed || now.reached)
  {
    var p := samples[..|samples| - 1];
    StopMore(samples);
    RenameAtStop(samples);
    IndexMore(samples, Reaches(target));
    LateMore(samples, target);
    DripsAreOver(p, target);
    assert !EntersLate(p, target);
    hide Run, FirstIndex, DripsOver, StopIndex, RenameIndex, EntersLate, Happens;
  }

  /** Up to an early stop the pump is held. */
  lemma WaitingBefore(samples: seq<Sample>, target: real)
    requires samples != [] && IsTimed(samples) && IsInOrder(samples)
    requires StopsEarly(samples) && !StopsEarly(samples[..|samples| - 1])
    ensures var p := samples[..|samples| - 1];
            var e, last := Run(p, target).segments, LastEnd(p, target);
            && last.Some? && IsWhole(e, last.value) && IsWaiting(e, SeenIn(p, target))
            && !Run(p, target).drips.done
  {
    var p := samples[..|samples| - 1];
    StopMore(samples);
    PumpIndices(samples);
    HeldExactly(p);
    SegmentsTile(p, target);
    hide Run, FirstIndex, LastEnd, IsTiled, IsCurrentLast, IsWaiting;
    WaitingRun(p, target, Run(p, target).segments);
  }

  lemma FateAtStop(samples: seq<Sample>, target: real)
    requires samples != [] && IsTimed(samples) && IsInOrder(samples)
    requires StopsEarly(samples) && !StopsEarly(samples[..|samples| - 1])
    ensures IsFated(samples, target, Run(samples, target).segments, TimeS(samples[|samples| - 1]).value)
  {
    var p, s := samples[..|samples| - 1], samples[|samples| - 1];
    var e, seen := Run(p, target).segments, SeenIn(p, target);
    StopMore(samples);
    WaitingBefore(samples, target);
    SeenMore(samples, target);
    SeenAllows(samples, target);
    var reaches, ends := Happens(Reaches(target), s), Run(samples, target).drips.done;
    FirstOpened(e, seen, StageOf(s.mode), reaches, TimeS(s).value, ends);
    FirstStop(e, seen, StageOf(s.mode), reaches, TimeS(s).value, LastEnd(p, target).value, ends);
    SegmentsMore(samples, target);
    NameAtStop(samples, target);
    hide Run, FirstIndex, StopIndex, IsTimed, IsInOrder, IsBrew, NextSegments, IsOpened, IsWaiting, IsTiled;
    hide SeenIn, EntersLate, KeepsName, LosesRamp, IsCurrentLast;
  }

  lemma FateCoherent(samples: seq<Sample>, target: real)
    requires samples != [] && IsTimed(samples) && StopsEarly(samples[..|samples| - 1])
    ensures var p := samples[..|samples| - 1];
            IsCoherent(FateOf(p, target), SeenIn(p, target), Run(p, target).drips.done)
  {
    var p := samples[..|samples| - 1];
    StopMore(samples);
    if SeenIn(p, target).brewed { NameMoreBrewed(samples, target); } else { NameMoreFresh(samples, target); }
    DripsAreOver(p, target);
    ReachedIsBrewed(p, target);
    assert EntersLate(p, target) ==> Run(p, target).drips.done;
    hide Run, FirstIndex, StopIndex, IsTimed, SeenIn, EntersLate, KeepsName, LosesRamp, DripsOver;
  }

  lemma NewIsFirst(samples: seq<Sample>, target: real, g: Stage)
    ensures IsNew(SeenIn(samples, target), g) <==>
            g != Cooldown && g != Other && FirstIndex(samples, Enters(g)).None?
  {
  }

  lemma FateMore(samples: seq<Sample>, target: real)
    requires samples != [] && IsTimed(samples) && StopsEarly(samples[..|samples| - 1])
    requires SeenIn(samples[..|samples| - 1], target).Allows(StageOf(samples[|samples| - 1].mode))
    ensures var p, s := samples[..|samples| - 1], samples[|samples| - 1];
            var fate, seen, done := FateOf(p, target), SeenIn(p, target), Run(p, target).drips.done;
            FateOf(samples, target) == NextFate(fate, seen, StageOf(s.mode), Happens(Reaches(target), s), done)
  {
    var p, g := samples[..|samples| - 1], StageOf(samples[|samples| - 1].mode);
    StopMore(samples);
    SeenMore(samples, target);
    LateMore(samples, target);
    if SeenIn(p, target).brewed { NameMoreBrewed(samples, target); } else { NameMoreFresh(samples, target); }
    NewIsFirst(p, target, g);
    ReachedIsBrewed(p, target);
    hide Run, FirstIndex, StopIndex, IsTimed, SeenIn, EntersLate, KeepsName, LosesRamp, DripsOver;
  }

  lemma ReachedIsBrewed(samples: seq<Sample>, target: real)
    ensures SeenIn(samples, target).reached ==> SeenIn(samples, target).brewed
  {
    FirstIndexIsFirst(samples, Reaches(target));
    FirstIndexIsFirst(samples, Enters(Brewing));
  }

  lemma FateStep(samples: seq<Sample>, target: real, last: real)
    requires samples != [] && IsTimed(samples) && IsInOrder(samples) && StopsEarly(samples[..|samples| - 1])
    requires var p := samples[..|samples| - 1]; IsFated(p, target, Run(p, target).segments, last)
    ensures var p, s := samples[..|samples| - 1], samples[|samples| - 1];
            IsFated(samples, target, Run(samples, target).segments,
                    if Run(p, target).drips.done then last else TimeS(s).value)
  {
    var p, s := samples[..|samples| - 1], samples[|samples| - 1];
    var e, seen, reaches := Run(p, target).segments, SeenIn(p, target), Happens(Reaches(target), s);
    var done := Run(p, target).drips.done;
    var ends := Run(samples, target).drips.done && !done;
    StopMore(samples);
    SeenMore(samples, target);
    SeenAllows(samples, target);
    SegmentsMore(samples, target);
    FateCoherent(samples, target);
    FateMore(samples, target);
    OpenedStep(e, seen, StageOf(s.mode), reaches, TimeS(s).value, done, ends);
    StandsStep(e, seen, StageOf(s.mode), reaches, TimeS(s).value, last, FateOf(p, target), done, ends);
    hide Run, FirstIndex, StopIndex, IsInOrder, NextSegments, IsOpened, Stands, SeenIn, FateOf, NextFate;
  }

  lemma LastEndMore(samples: seq<Sample>, target: real)
    requires samples != []
    ensures LastEnd(samples, target) ==
            if Run(samples[..|samples| - 1], target).drips.done then LastEnd(samples[..|samples| - 1], target)
            else TimeS(samples[|samples| - 1])
    ensures StopsEarly(samples[..|samples| - 1]) ==> |samples| > 1
    ensures !StopsEarly(samples[..|samples| - 1]) && IsTimed(samples) && StopsEarly(samples) ==>
              !Run(samples[..|samples| - 1], target).drips.done
  {
    StopMore(samples);
    if IsTimed(samples) { DripsAreOver(samples[..|samples| - 1], target); }
    hide Run;
  }

  lemma {:induction false} FateRun(samples: seq<Sample>, target: real)
    requires samples != [] && IsTimed(samples) && IsInOrder(samples) && StopsEarly(samples)
    ensures LastEnd(samples, target).Some?
    ensures IsFated(samples, target, Run(samples, target).segments, LastEnd(samples, target).value)
  {
    var p := samples[..|samples| - 1];
    StopMore(samples);
    LastEndMore(samples, target);
    hide Run, LastEnd, FirstIndex, StopIndex, IsFated;
    if StopsEarly(p) {
      FateRun(p, target);
      FateStep(samples, target, LastEnd(p, target).value);
    } else {
      FateAtStop(samples, target);
    }
  }

  /**
   On every timed capture in order, the segments tile the time exactly when the pump
   does not stop early, or nothing is entered once the drips are over and no renamed
   ramp is ended again.
   */
  lemma TilesExactly(samples: seq<Sample>, target: real)
    requires samples != [] && IsTimed(samples) && IsInOrder(samples)
    ensures LastEnd(samples, target).Some?
    ensures IsTiled(Run(samples, target).segments, LastEnd(samples, target).value) <==>
            || IsPumpHeld(samples)
            || (!EntersLate(samples, target) && !LosesRamp(samples, target))
  {
    HeldExactly(samples);
    if StopsEarly(samples) {
      FateRun(samples, target);
      StandsTiled(Run(samples, target).segments, FateOf(samples, target), LastEnd(samples, target).value);
    } else {
      SegmentsTile(samples, target);
    }
    hide Run, IsTiled, IsCurrentLast, Stands, IsOpened, EntersLate, StopsEarly;
  }

  lemma StandsTiled(e: Segments, fate: Fate, last: real)
    requires Stands(e, fate, last)
    ensures IsTiled(e, last) <==> fate in {Whole, Renamed}
  {
    hide NextStart;
  }

  /** Every stage before the cooldown is first entered by the first brewing sample. */
  lemma FirstByBrewing(samples: seq<Sample>, g: Stage)
    requires IsInOrder(samples) && g != Cooldown && g != Other
    ensures var first, brew := FirstIndex(samples, Enters(g)), FirstIndex(samples, Enters(Brewing));
            first.Some? && brew.Some? ==> first.value <= brew.value
  {
    FirstIndexIsFirst(samples, Enters(g));
    FirstIndexIsFirst(samples, Enters(Brewing));
    hide FirstIndex;
  }

  /**
   A pump that stops early, but not before the first brewing sample: the segments tile
   the time exactly when the pressure was reached by then, or the capture ends there.
   */
  lemma BrewingStopTilesExactly(samples: seq<Sample>, target: real)
    requires samples != [] && IsTimed(samples) && IsInOrder(samples) && !IsPumpHeld(samples)
    requires StopIndex(samples).Some? && IsBy(FirstIndex(samples, Enters(Brewing)), StopIndex(samples).value)
    ensures LastEnd(samples, target).Some?
    ensures IsTiled(Run(samples, target).segments, LastEnd(samples, target).value) <==>
            var stop := StopIndex(samples).value;
            stop == |samples| - 1 || IsBy(FirstIndex(samples, Reaches(target)), stop)
  {
    TilesExactly(samples, target);
    DripsAreOver(samples, target);
    StopWithin(samples);
    forall g: Stage | g != Cooldown && g != Other
      ensures !IsAfter(FirstIndex(samples, Enters(g)), DripsOver(samples, target))
    {
      FirstByBrewing(samples, g);
    }
    hide Run, FirstIndex, DripsOver, StopIndex, IsPumpHeld, IsTiled, LastEnd, FirstOn;
  }

  // ---------- An early stop ----------

  /** A brewing sample with nothing but its time, its pump command and its pressure. */
  function PumpSample(t: real, pct: real, bar: Json): Sample {
    Sample(Num(t * 1000.0), Named("infusion"), Flags(bar.Num?, false, false, false), Num(pct),
           Absent, Absent, bar, Absent, Absent, Absent, Absent, Absent, Absent, Absent)
  }

  lemma EarlyStop(samples: seq<Sample>, bar: Json)
    requires samples == [PumpSample(0.0, 100.0, bar), PumpSample(1.0, 0.0, bar), PumpSample(2.0, 0.0, bar)]
    ensures IsTimed(samples) && IsInOrder(samples) && !IsPumpHeld(samples)
    ensures StopIndex(samples) == Some(1) && FirstIndex(samples, Enters(Brewing)) == Some(0)
    ensures FirstIndex(samples, Reaches(9.0)) == if AtLeast(Number(bar), 8.0) then Some(0) else None
  {
    assert forall i :: 0 <= i < 3 ==> IsBrewing(samples[i]) && !IsCooldown(samples[i]);
    assert PumpOn(samples[0]) && !PumpOn(samples[1]);
    PumpIndices(samples);
    FirstIndexIsFirst(samples, Enters(Brewing));
    FirstIndexIsFirst(samples, Reaches(9.0));
    hide FirstIndex, FirstOn, StopIndex, PumpSample;
    assert Happens(Reaches(9.0), samples[0]) <==> AtLeast(Number(bar), 8.0);
  }

  /**
   Three brewing samples whose pump stops at the second: without pressure the segments
   leave a gap, at 9 bar they do not.
   */
  lemma EarlyStopLeavesGap(bar: Json)
    ensures var samples := [PumpSample(0.0, 100.0, bar), PumpSample(1.0, 0.0, bar), PumpSample(2.0, 0.0, bar)];
            && IsTimed(samples) && IsInOrder(samples) && !IsPumpHeld(samples) && LastEnd(samples, 9.0).Some?
            && (IsTiled(Run(samples, 9.0).segments, LastEnd(samples, 9.0).value) <==> AtLeast(Number(bar), 8.0))
  {
    var samples := [PumpSample(0.0, 100.0, bar), PumpSample(1.0, 0.0, bar), PumpSample(2.0, 0.0, bar)];
    EarlyStop(samples, bar);
    BrewingStopTilesExactly(samples, 9.0);
    hide PumpSample, Run, IsTimed, IsInOrder, IsPumpHeld, IsTiled, LastEnd, FirstIndex, StopIndex;
  }
}
