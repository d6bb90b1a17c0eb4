/**
 The segments of a shot. On every capture that follows the brewing protocol they
 start where the capture first enters them and tile the time without a gap,
 whether or not the pressure was ever reached.
 */
module ShotSegments {
  import opened Prelude
  import opened Samples
  import opened Shot

  // ---------- The protocol ----------

  function Rank(x: Segment): nat {
    match x
    case Preheat => 0
    case Filling => 1
    case Preinfusion => 2
    case Ramp => 3
    case Infusion => 4
    case Drip => 5
  }

  function StageRank(g: Stage): nat {
    match g
    case Early(x) => Rank(x)
    case Brewing => 3
    case Cooldown => 5
    case Other => 0
  }

  predicate IsCooldown(s: Sample) { StageOf(s.mode) == Cooldown }

  predicate IsBrewing(s: Sample) { StageOf(s.mode) == Brewing }

  /** Every sample has a time. */
  predicate IsTimed(samples: seq<Sample>) {
    forall i :: 0 <= i < |samples| ==> TimeS(samples[i]).Some?
  }

  /** Modes come in the order of the brew; modes that belong to no segment may come anywhere. */
  predicate IsInOrder(samples: seq<Sample>) {
    forall i, j :: 0 <= i < j < |samples| ==>
      StageOf(samples[i].mode) == Other || StageOf(samples[j].mode) == Other
      || StageRank(StageOf(samples[i].mode)) <= StageRank(StageOf(samples[j].mode))
  }

  /** Once started, the pump stays on up to the first cooldown sample. */
  predicate IsPumpHeld(samples: seq<Sample>) {
    forall i, j :: 0 <= i < j < |samples| && PumpOn(samples[i]) && !PumpOn(samples[j]) ==>
      exists k :: 0 <= k <= j && IsCooldown(samples[k])
  }

  predicate IsBrew(samples: seq<Sample>) {
    IsTimed(samples) && IsInOrder(samples) && IsPumpHeld(samples)
  }

  lemma BrewPrefix(samples: seq<Sample>)
    requires samples != [] && IsBrew(samples)
    ensures IsBrew(samples[..|samples| - 1])
  {
    var p := samples[..|samples| - 1];
    forall i, j | 0 <= i < j < |p| && PumpOn(p[i]) && !PumpOn(p[j])
      ensures exists k :: 0 <= k <= j && IsCooldown(p[k])
    {
      assert samples[i] == p[i] && samples[j] == p[j];
      var k :| 0 <= k <= j && IsCooldown(samples[k]);
      assert p[k] == samples[k];
    }
  }

  // ---------- First times ----------

  /** A sample of some stage, or a brewing sample with valid pressure within 1 bar of the target. */
  datatype Event = Enters(stage: Stage) | Reaches(target: real)

  predicate Happens(e: Event, s: Sample) {
    match e
    case Enters(stage) => StageOf(s.mode) == stage
    case Reaches(target) => IsBrewing(s) && s.flags.pressure && AtLeast(Number(s.pressureBar), target - 1.0)
  }

  /** The time of the first sample at which `e` happens. */
  function FirstTime(samples: seq<Sample>, e: Event): Option<real> {
    if samples == [] then None
    else
      var s := samples[|samples| - 1];
      var before := FirstTime(samples[..|samples| - 1], e);
      if before.Some? then before else if Happens(e, s) then TimeS(s) else None
  }

  ghost predicate IsFirst(samples: seq<Sample>, e: Event, i: int) {
    0 <= i < |samples| && Happens(e, samples[i]) && forall j :: 0 <= j < i ==> !Happens(e, samples[j])
  }

  lemma {:induction false} FirstTimeIsFirst(samples: seq<Sample>, e: Event)
    requires IsTimed(samples)
    ensures FirstTime(samples, e).None? <==> forall i :: 0 <= i < |samples| ==> !Happens(e, samples[i])
    ensures FirstTime(samples, e).Some? ==>
              exists i :: IsFirst(samples, e, i) && TimeS(samples[i]) == FirstTime(samples, e)
  {
    if samples != [] {
      var q := samples[..|samples| - 1];
      FirstTimeIsFirst(q, e);
      assert forall j :: 0 <= j < |q| ==> samples[j] == q[j];
      if FirstTime(q, e).Some? {
        var i :| IsFirst(q, e, i) && TimeS(q[i]) == FirstTime(q, e);
        assert IsFirst(samples, e, i);
      } else if Happens(e, samples[|q|]) {
        assert IsFirst(samples, e, |q|);
      }
    }
  }

  /** The first sample at which `e` happens. */
  function FirstIndex(samples: seq<Sample>, e: Event): Option<nat> {
    if samples == [] then None
    else
      var n := |samples| - 1;
      var before := FirstIndex(samples[..n], e);
      if before.None? && Happens(e, samples[n]) then Some(n) else before
  }

  lemma {:induction false} FirstIndexIsFirst(samples: seq<Sample>, e: Event)
    ensures FirstIndex(samples, e).None? <==> forall i :: 0 <= i < |samples| ==> !Happens(e, samples[i])
    ensures FirstIndex(samples, e).Some? ==> IsFirst(samples, e, FirstIndex(samples, e).value)
  {
    if samples != [] {
      var q := samples[..|samples| - 1];
      FirstIndexIsFirst(q, e);
      assert forall j :: 0 <= j < |q| ==> samples[j] == q[j];
    }
  }

  function PressureTime(samples: seq<Sample>, target: real): Option<real> {
    FirstTime(samples, Reaches(target))
  }

  function BrewingTime(samples: seq<Sample>): Option<real> {
    FirstTime(samples, Enters(Brewing))
  }

  function CooldownTime(samples: seq<Sample>): Option<real> {
    FirstTime(samples, Enters(Cooldown))
  }

  // ---------- The pump ----------

  /** The first sample with the pump on. */
  function FirstOn(samples: seq<Sample>): Option<nat> {
    if samples == [] then None
    else
      var n := |samples| - 1;
      var before := FirstOn(samples[..n]);
      if before.None? && PumpOn(samples[n]) then Some(n) else before
  }

  /** The first sample with the pump off after it was on. */
  function StopIndex(samples: seq<Sample>): Option<nat> {
    if samples == [] then None
    else
      var n := |samples| - 1;
      var before := StopIndex(samples[..n]);
      if before.None? && FirstOn(samples[..n]).Some? && !PumpOn(samples[n]) then Some(n) else before
  }

  predicate HasStopped(samples: seq<Sample>) {
    StopIndex(samples).Some?
  }

  ghost predicate IsFirstOn(samples: seq<Sample>, i: Option<nat>) {
    match i
    case None => forall j :: 0 <= j < |samples| ==> !PumpOn(samples[j])
    case Some(k) => k < |samples| && PumpOn(samples[k]) && forall j :: 0 <= j < k ==> !PumpOn(samples[j])
  }

  /** From `on` on, the pump stays on up to the stop, or to the end. */
  ghost predicate IsStop(samples: seq<Sample>, on: Option<nat>, i: Option<nat>) {
    match i
    case None => on.Some? ==> forall j :: on.value <= j < |samples| ==> PumpOn(samples[j])
    case Some(k) => && on.Some? && on.value < k < |samples| && !PumpOn(samples[k])
                    && forall j :: on.value <= j < k ==> PumpOn(samples[j])
  }

  /** The two indices are those of the first sample with the pump on and of the first one off after it. */
  lemma {:induction false} PumpIndices(samples: seq<Sample>)
    ensures IsFirstOn(samples, FirstOn(samples))
    ensures IsStop(samples, FirstOn(samples), StopIndex(samples))
  {
    if samples != [] {
      var p := samples[..|samples| - 1];
      PumpIndices(p);
      assert forall j :: 0 <= j < |p| ==> p[j] == samples[j];
    }
  }

  /** The time of a sample, if there is one. */
  function TimeAt(samples: seq<Sample>, i: Option<nat>): Option<real> {
    if i.Some? && i.value < |samples| then TimeS(samples[i.value]) else None
  }

  function StopTime(samples: seq<Sample>): Option<real> {
    TimeAt(samples, StopIndex(samples))
  }

  /** On every timed capture the pump starts at the first sample with it on and stops at the first one off after it. */
  lemma {:induction false} PumpTimes(samples: seq<Sample>, target: real)
    requires IsTimed(samples)
    ensures Run(samples, target).pump == Pump(TimeAt(samples, FirstOn(samples)), StopTime(samples))
    ensures FirstOn(samples).Some? <==> Run(samples, target).pump.start.Some?
    ensures HasStopped(samples) <==> Run(samples, target).pump.stop.Some?
  {
    PumpIndices(samples);
    if samples != [] {
      var p := samples[..|samples| - 1];
      PumpIndices(p);
      PumpTimes(p, target);
      RunLast(samples, target);
      hide Run, IsFirstOn, IsStop;
      assert TimeAt(samples, FirstOn(p)) == TimeAt(p, FirstOn(p));
      assert TimeAt(samples, StopIndex(p)) == TimeAt(p, StopIndex(p));
    }
  }

  /** Some brewing sample came before the pressure was reached. */
  predicate HasRamp(samples: seq<Sample>, target: real) {
    samples != [] &&
    (HasRamp(samples[..|samples| - 1], target)
     || (IsBrewing(samples[|samples| - 1]) && PressureTime(samples, target).None?))
  }

  /** Where each segment must start, read off the capture. */
  function ExpectedStart(samples: seq<Sample>, target: real, x: Segment): Option<real> {
    var reached := PressureTime(samples, target);
    var stopped := HasStopped(samples);
    match x
    case Ramp =>
      if reached.Some? then if HasRamp(samples, target) then BrewingTime(samples) else None
      else if stopped then None else BrewingTime(samples)
    case Infusion =>
      if reached.Some? then reached else if stopped then BrewingTime(samples) else None
    case Drip => CooldownTime(samples)
    case _ => FirstTime(samples, Enters(Early(x)))
  }

  // ---------- Tiling ----------

  function Following(x: Segment): Segment
    requires x != Drip
  {
    match x
    case Preheat => Filling
    case Filling => Preinfusion
    case Preinfusion => Ramp
    case Ramp => Infusion
    case Infusion => Drip
  }

  /** The start of the next opened segment after `x`, or `last` when there is none. */
  function NextStart(start: Times, x: Segment, last: real): real
    decreases 5 - Rank(x)
  {
    if x == Drip then last
    else
      var y := Following(x);
      if y in start then start[y] else NextStart(start, y, last)
  }

  /** Every opened segment ends where the next one starts, and the last one at `last`. */
  ghost predicate IsTiled(segments: Segments, last: real) {
    && segments.start.Keys == segments.end.Keys
    && forall x :: x in segments.start ==> segments.end[x] == NextStart(segments.start, x, last)
  }

  /** The current segment is the last one opened. */
  ghost predicate IsCurrentLast(segments: Segments) {
    && (segments.current.None? ==> segments.start == map[])
    && (segments.current.Some? ==> segments.current.value in segments.start)
    && forall x :: x in segments.start ==> segments.current.Some? && Rank(x) <= Rank(segments.current.value)
  }

  lemma {:induction false} NextStartTop(start: Times, x: Segment, last: real)
    requires forall y :: y in start ==> Rank(y) <= Rank(x)
    ensures NextStart(start, x, last) == last
    decreases 5 - Rank(x)
  {
    if x != Drip {
      assert Following(x) !in start;
      NextStartTop(start, Following(x), last);
    }
  }

  lemma {:induction false} NextStartPut(start: Times, x: Segment, name: Segment, t: real)
    requires forall y :: y in start ==> Rank(y) < Rank(name)
    requires Rank(x) < Rank(name)
    ensures NextStart(start[name := t], x, t) == NextStart(start, x, t)
    decreases 5 - Rank(x)
  {
    var y := Following(x);
    if y == name {
      NextStartTop(start, y, t);
    } else if y !in start {
      NextStartPut(start, y, name, t);
    }
  }

  /** Opening a later segment at `t`. */
  lemma OpenNew(segments: Segments, name: Segment, t: real, last: real)
    requires IsTiled(segments, last) && IsCurrentLast(segments)
    requires segments.current != Some(name) && forall y :: y in segments.start ==> Rank(y) < Rank(name)
    ensures var r := segments.Open(name, Some(t)).Extend(false, Some(t));
            IsTiled(r, t) && IsCurrentLast(r) && r.current == Some(name) && r.start == segments.start[name := t]
  {
    var r := segments.Open(name, Some(t)).Extend(false, Some(t));
    NextStartTop(r.start, name, t);
    forall x | x in r.start && x != name
      ensures r.end[x] == NextStart(r.start, x, t)
    {
      NextStartPut(segments.start, x, name, t);
      if segments.current == Some(x) {
        NextStartTop(segments.start, x, t);
      } else {
        NextStartLast(segments.start, x, segments.current.value, t, last);
      }
    }
  }

  lemma ExtendTiles(segments: Segments, t: real, last: real)
    requires IsTiled(segments, last) && IsCurrentLast(segments)
    ensures var r := segments.Extend(false, Some(t));
            IsTiled(r, t) && IsCurrentLast(r) && r.current == segments.current && r.start == segments.start
  {
    if segments.current.Some? {
      var name := segments.current.value;
      var r := segments.Extend(false, Some(t));
      NextStartTop(r.start, name, t);
      forall x | x in r.start && x != name
        ensures r.end[x] == NextStart(r.start, x, t)
      {
        NextStartLast(r.start, x, name, t, last);
      }
    }
  }

  /** Opening a later segment, or staying in the current one, and extending it to `t`. */
  lemma OpenTiles(segments: Segments, name: Segment, t: real, last: real)
    requires IsTiled(segments, last) && IsCurrentLast(segments) && IsNext(segments, name)
    ensures var r := segments.Open(name, Some(t)).Extend(false, Some(t));
            && IsTiled(r, t) && IsCurrentLast(r) && r.current == Some(name)
            && r.start == if segments.current == Some(name) then segments.start else segments.start[name := t]
  {
    hide IsTiled, IsCurrentLast;
    if segments.current == Some(name) {
      ExtendTiles(segments, t, last);
    } else {
      OpenNew(segments, name, t, last);
    }
  }

  /** `name` is the current segment, or comes after every opened one. */
  ghost predicate IsNext(segments: Segments, name: Segment) {
    segments.current == Some(name) || forall y :: y in segments.start ==> Rank(y) < Rank(name)
  }

  /** Before the last opened segment, the end of the capture plays no part. */
  lemma {:induction false} NextStartLast(start: Times, x: Segment, c: Segment, t: real, u: real)
    requires c in start && Rank(x) < Rank(c)
    ensures NextStart(start, x, t) == NextStart(start, x, u)
    decreases 5 - Rank(x)
  {
    var y := Following(x);
    if y !in start {
      NextStartLast(start, y, c, t, u);
    }
  }

  lemma {:induction false} NextStartRelabel(start: Times, x: Segment, last: real)
    requires Ramp in start && Infusion !in start && Rank(x) < 3
    ensures NextStart(start[Infusion := start[Ramp]] - {Ramp}, x, last) == NextStart(start, x, last)
    decreases 5 - Rank(x)
  {
    var y := Following(x);
    if y != Ramp && y !in start {
      NextStartRelabel(start, y, last);
    }
  }

  /** Renaming the ramp keeps the tiling, since nothing lies between the two names. */
  lemma RelabelTiles(segments: Segments, stopped: bool, reached: bool, last: real)
    requires IsTiled(segments, last) && IsCurrentLast(segments) && segments.current != Some(Ramp)
    ensures var r := segments.Relabel(stopped, reached);
            IsTiled(r, last) && IsCurrentLast(r) && r.current == segments.current
  {
    var r := segments.Relabel(stopped, reached);
    if r != segments {
      assert segments.current == Some(Drip);
      forall x | x in r.start
        ensures r.end[x] == NextStart(r.start, x, last)
      {
        if Rank(x) < 3 {
          NextStartRelabel(segments.start, x, last);
        } else if x == Infusion {
          assert NextStart(segments.start, Ramp, last) == NextStart(segments.start, Infusion, last);
        }
      }
    }
  }

  // ---------- Whole runs ----------

  /** The marks of the infusion are the first brewing sample and the first one at pressure. */
  lemma {:induction false} MarkTimes(samples: seq<Sample>, target: real)
    requires IsTimed(samples)
    ensures Run(samples, target).marks.pressure.t == PressureTime(samples, target)
    ensures Run(samples, target).marks.infusion.t == BrewingTime(samples)
  {
    if samples != [] {
      MarkTimes(samples[..|samples| - 1], target);
    }
  }

  lemma {:induction false} RampIsBrewing(samples: seq<Sample>, target: real)
    requires IsTimed(samples)
    ensures HasRamp(samples, target) ==> BrewingTime(samples).Some?
    ensures PressureTime(samples, target).None? && BrewingTime(samples).Some? ==> HasRamp(samples, target)
  {
    if samples != [] {
      RampIsBrewing(samples[..|samples| - 1], target);
    }
  }

  lemma {:induction false} StartedWasOn(samples: seq<Sample>, target: real)
    requires Run(samples, target).pump.start.Some?
    ensures exists i :: 0 <= i < |samples| && PumpOn(samples[i])
  {
    var p, s := samples[..|samples| - 1], samples[|samples| - 1];
    if Run(p, target).pump.start.Some? {
      StartedWasOn(p, target);
      var i :| 0 <= i < |p| && PumpOn(p[i]);
      assert PumpOn(samples[i]);
    } else {
      assert PumpOn(s);
    }
  }

  lemma CooldownSeen(samples: seq<Sample>, k: nat)
    requires IsTimed(samples) && k < |samples| && IsCooldown(samples[k])
    ensures CooldownTime(samples).Some?
  {
    FirstTimeIsFirst(samples, Enters(Cooldown));
  }

  /** A pump found off after it started is found so in the cooldown. */
  lemma StoppedInCooldown(samples: seq<Sample>, target: real)
    requires samples != [] && IsBrew(samples) && !PumpOn(samples[|samples| - 1])
    requires Run(samples[..|samples| - 1], target).pump.start.Some?
    ensures CooldownTime(samples).Some?
  {
    var p := samples[..|samples| - 1];
    BrewPrefix(samples);
    StartedWasOn(p, target);
    var i :| 0 <= i < |p| && PumpOn(p[i]);
    assert PumpOn(samples[i]);
    var k :| 0 <= k <= |p| && IsCooldown(samples[k]);
    CooldownSeen(samples, k);
  }

  /** Before the first cooldown sample the pump has not stopped and the drips are not over. */
  lemma {:induction false} NotStoppedYet(samples: seq<Sample>, target: real)
    requires IsBrew(samples) && CooldownTime(samples).None?
    ensures Run(samples, target).pump.stop.None? && !Run(samples, target).drips.done && !HasStopped(samples)
  {
    PumpTimes(samples, target);
    if samples != [] {
      var p := samples[..|samples| - 1];
      BrewPrefix(samples);
      NotStoppedYet(p, target);
      if !PumpOn(samples[|p|]) && Run(p, target).pump.start.Some? { StoppedInCooldown(samples, target); }
      hide IsBrew, FirstTime;
    }
  }

  /** Nothing later in the protocol was seen before the last sample. */
  lemma NoneLater(samples: seq<Sample>, e: Event)
    requires samples != [] && IsBrew(samples)
    requires var g := StageOf(samples[|samples| - 1].mode);
             g != Other && StageRank(if e.Enters? then e.stage else Brewing) > StageRank(g)
    ensures FirstTime(samples[..|samples| - 1], e).None?
  {
    BrewPrefix(samples);
    FirstTimeIsFirst(samples[..|samples| - 1], e);
  }

  /** The last end: the present, or the sample at which the drips were over. */
  function LastEnd(samples: seq<Sample>, target: real): Option<real> {
    if samples == [] then None
    else
      var p := samples[..|samples| - 1];
      if Run(p, target).drips.done then LastEnd(p, target) else TimeS(samples[|samples| - 1])
  }

  ghost predicate StartsAsExpected(samples: seq<Sample>, target: real, start: Times) {
    forall x :: Get(start, x) == ExpectedStart(samples, target, x)
  }

  ghost predicate IsSegmented(samples: seq<Sample>, target: real, segments: Segments, last: real) {
    IsTiled(segments, last) && IsCurrentLast(segments) && StartsAsExpected(samples, target, segments.start)
  }

  /** A sample that enters some other segment changes nothing for `y`, unless the pump stops. */
  lemma ExpectedKept(samples: seq<Sample>, target: real, y: Segment)
    requires samples != []
    requires var g := StageOf(samples[|samples| - 1].mode);
             g != Early(y) && (g == Brewing ==> Rank(y) < 3 || y == Drip) && (g == Cooldown ==> y != Drip)
    requires HasStopped(samples) == HasStopped(samples[..|samples| - 1])
    ensures ExpectedStart(samples, target, y) == ExpectedStart(samples[..|samples| - 1], target, y)
  {
    hide Run;
  }

  lemma CurrentIsNext(segments: Segments, x: Segment)
    requires IsCurrentLast(segments) && forall y :: y in segments.start ==> Rank(y) <= Rank(x)
    ensures IsNext(segments, x)
    ensures segments.current == Some(x) <==> x in segments.start
  {
  }

  lemma OpenStarts(segments: Segments, name: Segment, t: real, y: Segment)
    requires IsCurrentLast(segments) && forall y :: y in segments.start ==> Rank(y) <= Rank(name)
    ensures Get(segments.Open(name, Some(t)).start, y) ==
            if y == name && name !in segments.start then Some(t) else Get(segments.start, y)
  {
    CurrentIsNext(segments, name);
  }

  lemma NoneOpenedAfterEarly(samples: seq<Sample>, target: real, segments: Segments, x: Segment, y: Segment)
    requires samples != [] && IsBrew(samples) && Rank(x) < 3 && StageOf(samples[|samples| - 1].mode) == Early(x)
    requires StartsAsExpected(samples[..|samples| - 1], target, segments.start)
    requires !HasStopped(samples[..|samples| - 1])
    requires y in segments.start
    ensures Rank(y) <= Rank(x)
  {
    var p := samples[..|samples| - 1];
    assert Get(segments.start, y) == ExpectedStart(p, target, y);
    if Rank(x) < Rank(y) < 3 { NoneLaterEarly(samples, y); }
    NoneLater(samples, Enters(Cooldown));
    NoneLater(samples, Enters(Brewing));
    NoneLater(samples, Reaches(target));
  }

  lemma EarlyStep(samples: seq<Sample>, target: real, segments: Segments, x: Segment)
    requires samples != [] && IsBrew(samples) && Rank(x) < 3 && StageOf(samples[|samples| - 1].mode) == Early(x)
    requires var p := samples[..|samples| - 1]; StartsAsExpected(p, target, segments.start) && IsCurrentLast(segments)
    ensures IsNext(segments, x)
    ensures var t := TimeS(samples[|samples| - 1]).value;
            StartsAsExpected(samples, target, segments.Open(x, Some(t)).start)
  {
    var p, t := samples[..|samples| - 1], TimeS(samples[|samples| - 1]).value;
    NoneLater(samples, Enters(Cooldown));
    BrewPrefix(samples);
    NotStoppedYet(p, target);
    NotStoppedYet(samples, target);
    hide Run, IsBrew, IsCurrentLast;
    forall y | y in segments.start
      ensures Rank(y) <= Rank(x)
    {
      NoneOpenedAfterEarly(samples, target, segments, x, y);
    }
    CurrentIsNext(segments, x);
    forall y
      ensures Get(segments.Open(x, Some(t)).start, y) == ExpectedStart(samples, target, y)
    {
      OpenStarts(segments, x, t, y);
      assert Get(segments.start, y) == ExpectedStart(p, target, y);
      if y != x { ExpectedKept(samples, target, y); }
    }
  }

  lemma NoneLaterEarly(samples: seq<Sample>, y: Segment)
    requires samples != [] && IsBrew(samples) && Rank(y) < 3
    requires var g := StageOf(samples[|samples| - 1].mode); g.Early? && Rank(g.segment) < Rank(y)
    ensures ExpectedStart(samples[..|samples| - 1], 0.0, y).None?
  {
    NoneLater(samples, Enters(Early(y)));
  }

  /** What a brewing sample adds while the pump has not stopped. */
  lemma BrewingExpected(samples: seq<Sample>, target: real)
    requires samples != [] && IsTimed(samples) && IsBrewing(samples[|samples| - 1])
    requires !HasStopped(samples) && !HasStopped(samples[..|samples| - 1])
    ensures var p, t := samples[..|samples| - 1], TimeS(samples[|samples| - 1]);
            var ramp, infusion := ExpectedStart(p, target, Ramp), ExpectedStart(p, target, Infusion);
            && ExpectedStart(samples, target, Infusion)
               == (if infusion.Some? || PressureTime(samples, target).None? then infusion else t)
            && ExpectedStart(samples, target, Ramp)
               == if ramp.Some? || PressureTime(samples, target).Some? then ramp else t
  {
    RampIsBrewing(samples[..|samples| - 1], target);
    hide Run;
  }

  function BrewingSegment(samples: seq<Sample>, target: real): Segment {
    if PressureTime(samples, target).Some? then Infusion else Ramp
  }

  lemma NoneOpenedAfterBrewing(samples: seq<Sample>, target: real, segments: Segments, y: Segment)
    requires samples != [] && IsBrew(samples) && IsBrewing(samples[|samples| - 1])
    requires StartsAsExpected(samples[..|samples| - 1], target, segments.start)
    requires !HasStopped(samples[..|samples| - 1])
    requires y in segments.start
    ensures Rank(y) <= Rank(BrewingSegment(samples, target))
  {
    NoneLater(samples, Enters(Cooldown));
    hide Run, IsBrew, HasRamp;
    assert Get(segments.start, y) == ExpectedStart(samples[..|samples| - 1], target, y);
  }

  /** A brewing sample opens the ramp, or the infusion once the pressure is reached. */
  lemma BrewingStep(samples: seq<Sample>, target: real, segments: Segments)
    requires samples != [] && IsBrew(samples) && IsBrewing(samples[|samples| - 1])
    requires var p := samples[..|samples| - 1]; StartsAsExpected(p, target, segments.start) && IsCurrentLast(segments)
    ensures var t := TimeS(samples[|samples| - 1]).value;
            var name := BrewingSegment(samples, target);
            IsNext(segments, name) && StartsAsExpected(samples, target, segments.Open(name, Some(t)).start)
  {
    var p, t := samples[..|samples| - 1], TimeS(samples[|samples| - 1]).value;
    var name := BrewingSegment(samples, target);
    NoneLater(samples, Enters(Cooldown));
    BrewPrefix(samples);
    NotStoppedYet(p, target);
    NotStoppedYet(samples, target);
    BrewingExpected(samples, target);
    hide Run, IsBrew, FirstTime, HasRamp, IsCurrentLast, BrewingSegment, ExpectedStart;
    forall y | y in segments.start
      ensures Rank(y) <= Rank(name)
    {
      NoneOpenedAfterBrewing(samples, target, segments, y);
    }
    CurrentIsNext(segments, name);
    forall y
      ensures Get(segments.Open(name, Some(t)).start, y) == ExpectedStart(samples, target, y)
    {
      OpenStarts(segments, name, t, y);
      BrewingStepAt(samples, target, segments, y, t);
    }
  }

  lemma BrewingStepAt(samples: seq<Sample>, target: real, segments: Segments, y: Segment, t: real)
    requires samples != [] && IsTimed(samples)
    requires IsBrewing(samples[|samples| - 1]) && TimeS(samples[|samples| - 1]) == Some(t)
    requires StartsAsExpected(samples[..|samples| - 1], target, segments.start)
    requires !HasStopped(samples) && !HasStopped(samples[..|samples| - 1])
    ensures ExpectedStart(samples, target, y) ==
            if y == BrewingSegment(samples, target) && y !in segments.start then Some(t) else Get(segments.start, y)
  {
    BrewingExpected(samples, target);
    var p := samples[..|samples| - 1];
    if Rank(y) < 3 || y == Drip { ExpectedKept(samples, target, y); }
    assert Get(segments.start, y) == ExpectedStart(p, target, y);
    assert PressureTime(p, target).Some? ==> PressureTime(samples, target).Some?;
    hide Run, HasRamp, FirstTime;
  }

  lemma QuietExpected(samples: seq<Sample>, target: real, y: Segment)
    requires samples != [] && StageOf(samples[|samples| - 1].mode) in {Cooldown, Other} && y != Drip
    ensures var p := samples[..|samples| - 1];
            && PressureTime(samples, target) == PressureTime(p, target)
            && BrewingTime(samples) == BrewingTime(p)
            && HasRamp(samples, target) == HasRamp(p, target)
            && (Rank(y) < 3 ==> ExpectedStart(samples, target, y) == ExpectedStart(p, target, y))
  {
    hide Run;
  }

  /** The starts after relabelling, segment by segment. */
  lemma RelabelStarts(e: Segments, stopped: bool, reached: bool, y: Segment)
    ensures Get(e.Relabel(stopped, reached).start, y) ==
            if stopped && !reached && Ramp in e.start && Infusion !in e.start then
              (if y == Ramp then None else if y == Infusion then Get(e.start, Ramp) else Get(e.start, y))
            else Get(e.start, y)
  {
  }

  /** The pump may stop from the first cooldown sample on, and then an unreached ramp becomes the infusion. */
  lemma StopStep(samples: seq<Sample>, target: real, segments: Segments, entered: Segments)
    requires samples != [] && StageOf(samples[|samples| - 1].mode) in {Cooldown, Other}
    requires StartsAsExpected(samples[..|samples| - 1], target, segments.start)
    requires forall y :: Get(entered.start, y) ==
                         if y == Drip then CooldownTime(samples) else Get(segments.start, y)
    ensures var stopped := HasStopped(samples);
            var reached := PressureTime(samples, target).Some?;
            StartsAsExpected(samples, target, entered.Relabel(stopped, reached).start)
  {
    var stopped, reached := HasStopped(samples), PressureTime(samples, target).Some?;
    forall y
      ensures Get(entered.Relabel(stopped, reached).start, y) == ExpectedStart(samples, target, y)
    {
      StopStepAt(samples, target, segments, entered, stopped, reached, y);
    }
  }

  lemma StopStepAt(samples: seq<Sample>, target: real, segments: Segments, entered: Segments,
                   stopped: bool, reached: bool, y: Segment)
    requires samples != [] && StageOf(samples[|samples| - 1].mode) in {Cooldown, Other}
    requires StartsAsExpected(samples[..|samples| - 1], target, segments.start)
    requires forall y :: Get(entered.start, y) ==
                         if y == Drip then CooldownTime(samples) else Get(segments.start, y)
    requires stopped == HasStopped(samples) && reached == PressureTime(samples, target).Some?
    requires HasStopped(samples[..|samples| - 1]) ==> stopped
    ensures Get(entered.Relabel(stopped, reached).start, y) == ExpectedStart(samples, target, y)
  {
    RelabelStarts(entered, stopped, reached, y);
    if y != Drip { QuietExpected(samples, target, y); }
    hide Run, FirstTime, HasRamp, Segments.Relabel;
    var p := samples[..|samples| - 1];
    assert Get(segments.start, y) == ExpectedStart(p, target, y);
    assert Get(segments.start, Ramp) == ExpectedStart(p, target, Ramp);
    assert Get(segments.start, Infusion) == ExpectedStart(p, target, Infusion);
    assert Get(entered.start, y) == if y == Drip then CooldownTime(samples) else Get(segments.start, y);
    assert Get(entered.start, Ramp) == Get(segments.start, Ramp);
    assert Get(entered.start, Infusion) == Get(segments.start, Infusion);
  }

  lemma {:induction false} DoneIsStopped(samples: seq<Sample>, target: real)
    ensures Run(samples, target).drips.done ==> Run(samples, target).pump.stop.Some?
  {
    if samples != [] {
      DoneIsStopped(samples[..|samples| - 1], target);
    }
  }

  /** The segments after entering the stage of the last sample and extending to it. */
  function Entered(samples: seq<Sample>, target: real): Segments
    requires samples != []
  {
    var st, s := Run(samples[..|samples| - 1], target), samples[|samples| - 1];
    st.segments.Enter(StageOf(s.mode), Run(samples, target).marks.Reached(), st.drips.done, TimeS(s))
      .Extend(st.drips.done, TimeS(s))
  }

  lemma SegmentsOfRun(samples: seq<Sample>, target: real)
    requires samples != []
    ensures var p, st := samples[..|samples| - 1], Run(samples, target);
            var here := Entered(samples, target).Relabel(st.pump.stop.Some?, st.marks.Reached());
            st.segments == if st.drips.done && !Run(p, target).drips.done
                           then here.CloseDrip(TimeS(samples[|samples| - 1])) else here
  {
  }

  lemma CloseChangesNothing(segments: Segments, t: real)
    requires IsTiled(segments, t) && segments.current == Some(Drip) && Drip in segments.start
    ensures segments.CloseDrip(Some(t)) == segments
  {
    assert segments.end[Drip] == t;
  }

  /** Entering a stage before the cooldown. */
  lemma EnterBrew(samples: seq<Sample>, target: real, last: real)
    requires samples != [] && IsBrew(samples) && StageOf(samples[|samples| - 1].mode) !in {Cooldown, Other}
    requires IsSegmented(samples[..|samples| - 1], target, Run(samples[..|samples| - 1], target).segments, last)
    ensures CooldownTime(samples).None?
    ensures IsSegmented(samples, target, Entered(samples, target), TimeS(samples[|samples| - 1]).value)
  {
    var p, s := samples[..|samples| - 1], samples[|samples| - 1];
    var segments := Run(p, target).segments;
    var name := match StageOf(s.mode)
      case Early(x) => x
      case _ => if PressureTime(samples, target).Some? then Infusion else Ramp;
    NoneLater(samples, Enters(Cooldown));
    BrewPrefix(samples);
    NotStoppedYet(p, target);
    MarkTimes(samples, target);
    if StageOf(s.mode).Early? {
      EarlyStep(samples, target, segments, name);
    } else {
      BrewingStep(samples, target, segments);
    }
    OpenTiles(segments, name, TimeS(s).value, last);
    hide Run, FirstTime, HasRamp, IsTiled, IsCurrentLast, IsBrew;
    assert Entered(samples, target) == segments.Open(name, TimeS(s)).Extend(false, TimeS(s));
  }

  lemma CooldownMore(samples: seq<Sample>)
    requires samples != []
    ensures var p, s := samples[..|samples| - 1], samples[|samples| - 1];
            CooldownTime(samples) == if CooldownTime(p).None? && IsCooldown(s) then TimeS(s) else CooldownTime(p)
  {
  }

  lemma EnteredQuiet(samples: seq<Sample>, target: real)
    requires samples != [] && StageOf(samples[|samples| - 1].mode) in {Cooldown, Other}
    requires !Run(samples[..|samples| - 1], target).drips.done
    ensures var s, segments := samples[|samples| - 1], Run(samples[..|samples| - 1], target).segments;
            Entered(samples, target) ==
            (if IsCooldown(s) then segments.Open(Drip, TimeS(s)) else segments).Extend(false, TimeS(s))
  {
  }

  /** From the cooldown on, while the drips are not over; other modes only extend the current segment. */
  lemma EnterQuiet(samples: seq<Sample>, target: real, last: real)
    requires samples != [] && IsBrew(samples) && StageOf(samples[|samples| - 1].mode) in {Cooldown, Other}
    requires !Run(samples[..|samples| - 1], target).drips.done
    requires IsSegmented(samples[..|samples| - 1], target, Run(samples[..|samples| - 1], target).segments, last)
    ensures var e, segments := Entered(samples, target), Run(samples[..|samples| - 1], target).segments;
            && IsTiled(e, TimeS(samples[|samples| - 1]).value) && IsCurrentLast(e)
            && forall y :: Get(e.start, y) == if y == Drip then CooldownTime(samples) else Get(segments.start, y)
  {
    var p, s := samples[..|samples| - 1], samples[|samples| - 1];
    var segments := Run(p, target).segments;
    EnteredQuiet(samples, target);
    CooldownMore(samples);
    assert Get(segments.start, Drip) == ExpectedStart(p, target, Drip);
    CurrentIsNext(segments, Drip);
    hide Run, HasRamp, FirstTime, IsBrew, IsTiled, IsCurrentLast, IsNext, StartsAsExpected, Entered;
    hide Segments.Open, Segments.Extend;
    if IsCooldown(s) {
      OpenTiles(segments, Drip, TimeS(s).value, last);
    } else {
      ExtendTiles(segments, TimeS(s).value, last);
    }
  }

  /** While the drips are not over, the segments run up to the last sample. */
  lemma OpenStep(samples: seq<Sample>, target: real, last: real)
    requires samples != [] && IsBrew(samples) && !Run(samples[..|samples| - 1], target).drips.done
    requires IsSegmented(samples[..|samples| - 1], target, Run(samples[..|samples| - 1], target).segments, last)
    ensures IsSegmented(samples, target, Run(samples, target).segments, TimeS(samples[|samples| - 1]).value)
  {
    var p, s := samples[..|samples| - 1], samples[|samples| - 1];
    var st, t := Run(samples, target), TimeS(s).value;
    SegmentsOfRun(samples, target);
    MarkTimes(samples, target);
    DoneIsStopped(samples, target);
    PumpTimes(samples, target);
    if CooldownTime(samples).None? { NotStoppedYet(samples, target); }
    var e := Entered(samples, target);
    if StageOf(s.mode) !in {Cooldown, Other} {
      EnterBrew(samples, target, last);
    } else {
      EnterQuiet(samples, target, last);
      StopStep(samples, target, Run(p, target).segments, e);
      hide Run, FirstTime, HasRamp, IsTiled, IsCurrentLast, IsBrew, Entered;
      if CooldownTime(samples).Some? {
        assert Get(e.start, Drip) == CooldownTime(samples);
        DripLast(e);
        RelabelTiles(e, st.pump.stop.Some?, st.marks.Reached(), t);
        var here := e.Relabel(st.pump.stop.Some?, st.marks.Reached());
        if st.drips.done {
          DripLast(here);
          CloseChangesNothing(here, t);
        }
      }
    }
  }

  lemma DripLast(segments: Segments)
    requires IsCurrentLast(segments) && Drip in segments.start
    ensures segments.current == Some(Drip)
  {
  }

  lemma DoneExpected(samples: seq<Sample>, target: real)
    requires samples != [] && IsBrew(samples) && Run(samples[..|samples| - 1], target).drips.done
    ensures StageOf(samples[|samples| - 1].mode) in {Cooldown, Other}
    ensures CooldownTime(samples) == CooldownTime(samples[..|samples| - 1])
  {
    var p := samples[..|samples| - 1];
    BrewPrefix(samples);
    if CooldownTime(p).None? { NotStoppedYet(p, target); }
    hide Run, IsBrew;
    if StageOf(samples[|p|].mode) !in {Cooldown, Other} { NoneLater(samples, Enters(Cooldown)); }
  }

  lemma DoneIsQuiet(samples: seq<Sample>, target: real)
    requires samples != [] && Run(samples[..|samples| - 1], target).drips.done
    requires StageOf(samples[|samples| - 1].mode) in {Cooldown, Other}
    ensures Run(samples, target).drips.done
    ensures Entered(samples, target) == Run(samples[..|samples| - 1], target).segments
  {
  }

  lemma RelabelledOnce(samples: seq<Sample>, target: real, segments: Segments, reached: bool)
    requires StartsAsExpected(samples, target, segments.start)
    requires HasStopped(samples) && reached == PressureTime(samples, target).Some?
    ensures segments.Relabel(true, reached) == segments
  {
    assert Get(segments.start, Ramp) == ExpectedStart(samples, target, Ramp);
  }

  /** Once the drips are over, nothing changes any more. */
  lemma DoneStep(samples: seq<Sample>, target: real, last: real)
    requires samples != [] && IsBrew(samples) && Run(samples[..|samples| - 1], target).drips.done
    requires IsSegmented(samples[..|samples| - 1], target, Run(samples[..|samples| - 1], target).segments, last)
    ensures Run(samples, target).segments == Run(samples[..|samples| - 1], target).segments
    ensures IsSegmented(samples, target, Run(samples, target).segments, last)
  {
    var p := samples[..|samples| - 1];
    var segments := Run(p, target).segments;
    DoneExpected(samples, target);
    DoneIsQuiet(samples, target);
    DoneIsStopped(p, target);
    PumpTimes(p, target);
    PumpTimes(samples, target);
    MarkTimes(samples, target);
    SegmentsOfRun(samples, target);
    QuietExpected(samples, target, Ramp);
    RelabelledOnce(p, target, segments, PressureTime(p, target).Some?);
    hide Run, FirstTime, HasRamp, IsTiled, IsCurrentLast, IsBrew, Entered, Segments.Relabel;
    assert Get(segments.start, Drip) == ExpectedStart(p, target, Drip) == CooldownTime(samples);
    StopStep(samples, target, segments, segments);
  }

  /**
   On every capture that follows the protocol, after each sample: the segments start
   where the capture first enters them, each opened one ends where the next starts,
   and the last one ends at the sample, or where the drips were over.
   */
  lemma {:induction false} SegmentsTile(samples: seq<Sample>, target: real)
    requires samples != [] && IsBrew(samples)
    ensures LastEnd(samples, target).Some?
    ensures IsSegmented(samples, target, Run(samples, target).segments, LastEnd(samples, target).value)
    decreases |samples|
  {
    var p := samples[..|samples| - 1];
    BrewPrefix(samples);
    if p == [] {
      assert IsSegmented(p, target, INITIAL.segments, 0.0);
      OpenStep(samples, target, 0.0);
    } else {
      SegmentsTile(p, target);
      if Run(p, target).drips.done {
        DoneStep(samples, target, LastEnd(p, target).value);
      } else {
        OpenStep(samples, target, LastEnd(p, target).value);
      }
    }
  }

  // ---------- No time is lost ----------

  /** The time spent in `x` and the segments after it. */
  function LengthFrom(segments: Segments, x: Segment): real
    requires segments.start.Keys == segments.end.Keys
    decreases 5 - Rank(x)
  {
    (if x in segments.start then segments.end[x] - segments.start[x] else 0.0)
    + if x == Drip then 0.0 else LengthFrom(segments, Following(x))
  }

  /** The start of the first opened segment from `x` on. */
  function FirstStart(start: Times, x: Segment, last: real): real {
    if x in start then start[x] else NextStart(start, x, last)
  }

  lemma {:induction false} LengthIsSpan(segments: Segments, x: Segment, last: real)
    requires IsTiled(segments, last)
    ensures LengthFrom(segments, x) == last - FirstStart(segments.start, x, last)
    decreases 5 - Rank(x)
  {
    if x != Drip { LengthIsSpan(segments, Following(x), last); }
  }

  /** The six segments together last from the first one opened to the last end. */
  lemma SegmentsLastTheShot(samples: seq<Sample>, target: real)
    requires samples != [] && IsBrew(samples)
    ensures var segments, last := Run(samples, target).segments, LastEnd(samples, target);
            && last.Some? && segments.start.Keys == segments.end.Keys
            && LengthFrom(segments, Preheat) == last.value - FirstStart(segments.start, Preheat, last.value)
  {
    SegmentsTile(samples, target);
    LengthIsSpan(Run(samples, target).segments, Preheat, LastEnd(samples, target).value);
  }
}
