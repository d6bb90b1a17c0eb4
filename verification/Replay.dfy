/**
 The replay of a captured infusion: a control task every tick, holding the last
 valid pressure for a while, and one output row for each captured sample.
 */
module Replay {
  import opened Prelude
  import opened PressureControl

  datatype Sample = Sample(tMs: int, pressureBar: real, valid: bool, observedPct: int)

  /** `simulated` is the controller the row was written with. */
  datatype Row = Row(tMs: int, pressureBar: real, valid: bool, observedPct: int, simulated: Pi)

  predicate IsSorted(samples: seq<Sample>) {
    forall i, j :: 0 <= i <= j < |samples| ==> samples[i].tMs <= samples[j].tMs
  }

  function First(samples: seq<Sample>): int
    requires samples != []
  {
    samples[0].tMs
  }

  function Last(samples: seq<Sample>): int
    requires samples != []
  {
    samples[|samples| - 1].tMs
  }

  function TickTime(samples: seq<Sample>, p: Parameters, k: nat): int
    requires samples != []
  {
    First(samples) + k * p.tickMs
  }

  // ---------- What the controller sees at a tick ----------

  /** The latest valid sample at or before `now`. */
  function LatestValid(samples: seq<Sample>, now: int): Option<nat> {
    if samples == [] then None
    else
      var n := |samples| - 1;
      if samples[n].valid && samples[n].tMs <= now then Some(n) else LatestValid(samples[..n], now)
  }

  /** Sample `k` is valid and not after `now`, and every later one is invalid or after `now`. */
  predicate IsLatestValid(samples: seq<Sample>, now: int, k: nat) {
    && k < |samples| && samples[k].valid && samples[k].tMs <= now
    && forall i :: k < i < |samples| ==> !(samples[i].valid && samples[i].tMs <= now)
  }

  lemma {:induction false} LatestValidIsLatest(samples: seq<Sample>, now: int)
    ensures LatestValid(samples, now).None?
            <==> forall i :: 0 <= i < |samples| ==> !(samples[i].valid && samples[i].tMs <= now)
    ensures LatestValid(samples, now).Some? ==> IsLatestValid(samples, now, LatestValid(samples, now).value)
  {
    if samples != [] {
      var n := |samples| - 1;
      LatestValidIsLatest(samples[..n], now);
      assert forall i :: 0 <= i < n ==> samples[..n][i] == samples[i];
    }
  }

  /** The controller and the time of its last update. */
  datatype Task = Task(pi: Pi, lastControlMs: int)

  /** The update due at `now`: a control period has passed and the pressure is fresh enough. */
  function Due(samples: seq<Sample>, p: Parameters, task: Task, now: int): Option<Input> {
    var latest := LatestValid(samples, now);
    LatestValidIsLatest(samples, now);
    if now - task.lastControlMs >= p.controlPeriodMs && latest.Some?
       && now - samples[latest.value].tMs <= p.holdMs
    then Some(Input(samples[latest.value].pressureBar, Least(now - task.lastControlMs, p.maxIntegrationMs)))
    else None
  }

  function Least(a: int, b: int): int {
    if a <= b then a else b
  }

  function TaskStep(samples: seq<Sample>, p: Parameters, task: Task, now: int): Task {
    match Due(samples, p, task, now)
    case None => task
    case Some(u) => Task(Next(task.pi, p, u.pressure, u.elapsedMs), now)
  }

  /** The task before tick `k`. */
  function Before(samples: seq<Sample>, p: Parameters, k: nat): Task
    requires samples != []
  {
    if k == 0 then Task(InitialPi(p), First(samples))
    else TaskStep(samples, p, Before(samples, p, k - 1), TickTime(samples, p, k - 1))
  }

  /** The task after tick `k`. */
  function After(samples: seq<Sample>, p: Parameters, k: nat): Task
    requires samples != []
  {
    Before(samples, p, k + 1)
  }

  // ---------- What is written ----------

  /** Ticks run from the first to the last captured time. */
  predicate IsTick(samples: seq<Sample>, p: Parameters, k: nat)
    requires samples != []
  {
    TickTime(samples, p, k) <= Last(samples)
  }

  function RowAt(s: Sample, pi: Pi): Row {
    Row(s.tMs, s.pressureBar, s.valid, s.observedPct, pi)
  }

  /** `k` is the first tick at or after the sample's time. */
  ghost predicate IsFirstTickFrom(samples: seq<Sample>, p: Parameters, i: nat, k: nat)
    requires i < |samples|
  {
    && IsTick(samples, p, k) && TickTime(samples, p, k) >= samples[i].tMs
    && forall m: nat :: m < k ==> TickTime(samples, p, m) < samples[i].tMs
  }

  /** `k` is the last tick of all, and it comes before the sample. */
  ghost predicate IsLastTickBefore(samples: seq<Sample>, p: Parameters, i: nat, k: nat)
    requires i < |samples|
  {
    && IsTick(samples, p, k) && !IsTick(samples, p, k + 1)
    && TickTime(samples, p, k) < samples[i].tMs
  }

  /** Row `i` shows the controller after the first tick at or after sample `i`, or after the last tick. */
  ghost predicate IsRow(samples: seq<Sample>, p: Parameters, i: nat, row: Row)
    requires i < |samples|
  {
    exists k: nat ::
      (IsFirstTickFrom(samples, p, i, k) || IsLastTickBefore(samples, p, i, k))
      && row == RowAt(samples[i], After(samples, p, k).pi)
  }

  ghost predicate AreRows(samples: seq<Sample>, p: Parameters, rows: seq<Row>) {
    |rows| == |samples| && forall i :: 0 <= i < |samples| ==> IsRow(samples, p, i, rows[i])
  }

  // ---------- The loop ----------

  /** `n` is the number of samples at or before `now`. */
  predicate IsUpTo(samples: seq<Sample>, n: int, now: int) {
    && 0 <= n <= |samples|
    && (forall i :: 0 <= i < n ==> samples[i].tMs <= now)
    && (n < |samples| ==> samples[n].tMs > now)
  }

  /** The latest valid one among the first `n` samples, whatever their times. */
  function LatestAmong(samples: seq<Sample>, n: nat): Option<nat>
    requires n <= |samples|
  {
    if n == 0 then None else if samples[n - 1].valid then Some(n - 1) else LatestAmong(samples, n - 1)
  }

  lemma {:induction false} LatestAmongIsLatest(samples: seq<Sample>, n: nat)
    requires n <= |samples|
    ensures LatestAmong(samples, n).None? <==> forall i :: 0 <= i < n ==> !samples[i].valid
    ensures LatestAmong(samples, n).Some? ==>
              var k := LatestAmong(samples, n).value;
              k < n && samples[k].valid && forall i :: k < i < n ==> !samples[i].valid
  {
    if n > 0 { LatestAmongIsLatest(samples, n - 1); }
  }

  /** On sorted times, what the advancing index holds is the latest valid sample. */
  lemma HeldIsLatest(samples: seq<Sample>, n: nat, now: int)
    requires IsSorted(samples) && IsUpTo(samples, n, now)
    ensures LatestAmong(samples, n) == LatestValid(samples, now)
  {
    LatestAmongIsLatest(samples, n);
    LatestValidIsLatest(samples, now);
    hide LatestAmong, LatestValid;
    assert forall i :: n <= i < |samples| ==> samples[i].tMs > now;
  }

  /** The index and the held sample of the loop, on sorted times. */
  ghost predicate IsHeld(samples: seq<Sample>, index: int, held: Option<nat>) {
    0 <= index < |samples| && held == LatestAmong(samples, index + 1)
  }

  /** Moves to the last sample at or before `now`, remembering the last valid one passed. */
  method Advance(samples: seq<Sample>, index: nat, held: Option<nat>, now: int)
    returns (index': nat, held': Option<nat>)
    requires IsHeld(samples, index, held)
    ensures index <= index' && IsHeld(samples, index', held')
    ensures forall i :: index < i <= index' ==> samples[i].tMs <= now
    ensures index' + 1 < |samples| ==> samples[index' + 1].tMs > now
  {
    index', held' := index, held;
    while index' + 1 < |samples| && samples[index' + 1].tMs <= now
      invariant index <= index' && IsHeld(samples, index', held')
      invariant forall i :: index < i <= index' ==> samples[i].tMs <= now
    {
      index' := index' + 1;
      if samples[index'].valid { held' := Some(index'); }
    }
  }

  /** The rows `from` up to `to`, all written with the same controller. */
  function RowsWith(samples: seq<Sample>, from: nat, to: nat, pi: Pi): seq<Row>
    requires from <= to <= |samples|
  {
    seq(to - from, i requires 0 <= i < to - from => RowAt(samples[from + i], pi))
  }

  /** The rows of the samples not after `now` are added, and no others. */
  ghost predicate AreEmitted(samples: seq<Sample>, rows: seq<Row>, rows': seq<Row>, now: int, pi: Pi) {
    && |rows| <= |rows'| <= |samples| && rows' == rows + RowsWith(samples, |rows|, |rows'|, pi)
    && (forall i :: |rows| <= i < |rows'| ==> samples[i].tMs <= now)
    && (|rows'| < |samples| ==> samples[|rows'|].tMs > now)
  }

  /** Writes a row for every sample in turn, up to the first one after `now`. */
  method Emit(samples: seq<Sample>, rows: seq<Row>, now: int, pi: Pi) returns (rows': seq<Row>)
    requires |rows| <= |samples|
    ensures |rows'| <= |samples| && AreEmitted(samples, rows, rows', now, pi)
  {
    rows' := rows;
    while |rows'| < |samples| && samples[|rows'|].tMs <= now
      invariant |rows| <= |rows'| <= |samples| && rows' == rows + RowsWith(samples, |rows|, |rows'|, pi)
      invariant forall i :: |rows| <= i < |rows'| ==> samples[i].tMs <= now
      decreases |samples| - |rows'|
    {
      rows' := rows' + [RowAt(samples[|rows'|], pi)];
    }
  }

  /** The rows written before tick `k`: one for each sample up to the tick before. */
  ghost predicate RowsBefore(samples: seq<Sample>, p: Parameters, rows: seq<Row>, k: nat)
    requires samples != []
  {
    && |rows| <= |samples|
    && (if k == 0 then rows == [] else IsUpTo(samples, |rows|, TickTime(samples, p, k - 1)))
    && forall i :: 0 <= i < |rows| ==> IsRow(samples, p, i, rows[i])
  }

  lemma TickMonotone(samples: seq<Sample>, p: Parameters, m: nat, k: nat)
    requires samples != [] && p.tickMs > 0 && m <= k
    ensures TickTime(samples, p, m) <= TickTime(samples, p, k)
  {
    assert (k - m) * p.tickMs >= 0;
    assert k * p.tickMs == m * p.tickMs + (k - m) * p.tickMs;
  }

  /** A sample between two ticks is first met at the second. */
  lemma FirstTickIs(samples: seq<Sample>, p: Parameters, i: nat, k: nat)
    requires i < |samples| && p.tickMs > 0 && IsTick(samples, p, k)
    requires samples[i].tMs <= TickTime(samples, p, k) && (k > 0 ==> samples[i].tMs > TickTime(samples, p, k - 1))
    ensures IsFirstTickFrom(samples, p, i, k)
  {
    forall m: nat | m < k
      ensures TickTime(samples, p, m) < samples[i].tMs
    {
      TickMonotone(samples, p, m, k - 1);
    }
  }

  lemma EmitTick(samples: seq<Sample>, p: Parameters, rows: seq<Row>, rows': seq<Row>, k: nat)
    requires samples != [] && IsSorted(samples) && p.tickMs > 0 && IsTick(samples, p, k)
    requires RowsBefore(samples, p, rows, k)
    requires AreEmitted(samples, rows, rows', TickTime(samples, p, k), After(samples, p, k).pi)
    ensures RowsBefore(samples, p, rows', k + 1)
  {
    hide After, TickTime, LatestValid;
    forall i | |rows| <= i < |rows'|
      ensures IsRow(samples, p, i, rows'[i])
    {
      FirstTickIs(samples, p, i, k);
      assert rows'[i] == RowAt(samples[i], After(samples, p, k).pi);
    }
    if k > 0 { TickMonotone(samples, p, k - 1, k); }
  }

  lemma EmitRest(samples: seq<Sample>, p: Parameters, rows: seq<Row>, k: nat)
    requires samples != [] && IsSorted(samples) && IsTick(samples, p, k) && !IsTick(samples, p, k + 1)
    requires RowsBefore(samples, p, rows, k + 1)
    ensures AreRows(samples, p, rows + RowsWith(samples, |rows|, |samples|, After(samples, p, k).pi))
  {
    hide After, TickTime, LatestValid;
    var all := rows + RowsWith(samples, |rows|, |samples|, After(samples, p, k).pi);
    forall i | 0 <= i < |samples|
      ensures IsRow(samples, p, i, all[i])
    {
      if i >= |rows| {
        assert IsLastTickBefore(samples, p, i, k);
        assert all[i] == RowAt(samples[i], After(samples, p, k).pi);
      }
    }
  }

  /** One turn of the control task, from the held sample. */
  lemma TaskStepFromHeld(samples: seq<Sample>, p: Parameters, index: nat, held: Option<nat>, task: Task, now: int)
    requires IsSorted(samples) && IsHeld(samples, index, held) && samples[index].tMs <= now
    requires index + 1 < |samples| ==> samples[index + 1].tMs > now
    ensures held.Some? ==> held.value < |samples|
    ensures TaskStep(samples, p, task, now) ==
            if now - task.lastControlMs >= p.controlPeriodMs && held.Some? && now - samples[held.value].tMs <= p.holdMs
            then Task(Next(task.pi, p, samples[held.value].pressureBar,
                           Least(now - task.lastControlMs, p.maxIntegrationMs)), now)
            else task
  {
    assert IsUpTo(samples, index + 1, now);
    HeldIsLatest(samples, index + 1, now);
    LatestValidIsLatest(samples, now);
    hide Next, LatestValid, LatestAmong;
  }

  /** What a control step makes of the controller at `now`, with the sample that is held. */
  method Control(controller: Controller, samples: seq<Sample>, held: Option<nat>, lastControl: int, now: int)
    returns (last: int)
    requires held.Some? ==> held.value < |samples|
    modifies controller
    ensures var p, task := controller.params, Task(old(controller.State()), lastControl);
            Task(controller.State(), last) ==
            if now - lastControl >= p.controlPeriodMs && held.Some? && now - samples[held.value].tMs <= p.holdMs
            then Task(Next(task.pi, p, samples[held.value].pressureBar,
                           Least(now - lastControl, p.maxIntegrationMs)), now)
            else task
  {
    var p := controller.params;
    last := lastControl;
    if now - lastControl >= p.controlPeriodMs && held.Some? && now - samples[held.value].tMs <= p.holdMs {
      controller.Update(samples[held.value].pressureBar, Least(now - lastControl, p.maxIntegrationMs));
      last := now;
    }
  }

  /** `replay`. On sorted captures, the rows are those of the specification. */
  method ReplayCapture(samples: seq<Sample>, p: Parameters) returns (rows: seq<Row>)
    requires samples != [] && p.tickMs > 0
    ensures IsSorted(samples) ==> AreRows(samples, p, rows)
  {
    var controller := new Controller.Initial(p);
    var first, last := samples[0].tMs, samples[|samples| - 1].tMs;
    var index: nat := 0;
    var held: Option<nat> := if samples[0].valid then Some(0) else None;
    var lastControl := first;
    rows := [];
    var now := first;
    ghost var k: nat := 0;
    StartOfTask(samples, p, rows, held);
    hide *;
    while now <= last
      invariant now == TickTime(samples, p, k) && (k > 0 ==> IsTick(samples, p, k - 1))
      invariant fresh(controller) && controller.params == p
      invariant IsHeld(samples, index, held) && |rows| <= |samples|
      invariant IsSorted(samples) ==> samples[index].tMs <= now
      invariant IsSorted(samples) ==> Task(controller.State(), lastControl) == Before(samples, p, k)
      invariant IsSorted(samples) ==> RowsBefore(samples, p, rows, k)
      decreases last - now
    {
      ghost var task, written := Task(controller.State(), lastControl), rows;
      index, held := Advance(samples, index, held, now);
      if IsSorted(samples) { TaskStepFromHeld(samples, p, index, held, task, now); }
      HeldIsIndex(samples, index, held);
      lastControl := Control(controller, samples, held, lastControl, now);
      rows := Emit(samples, rows, now, controller.State());
      NextTick(samples, p, k);
      if IsSorted(samples) {
        BeforeNext(samples, p, k);
        EmitTick(samples, p, written, rows, k);
      }
      now := now + p.tickMs;
      k := k + 1;
    }
    ghost var written := rows;
    rows := EmitAll(samples, rows, controller.State());
    if IsSorted(samples) {
      NextTick(samples, p, k);
      NextTick(samples, p, k - 1);
      EmitRest(samples, p, written, k - 1);
    }
  }

  lemma StartOfTask(samples: seq<Sample>, p: Parameters, rows: seq<Row>, held: Option<nat>)
    requires samples != [] && rows == [] && held == if samples[0].valid then Some(0) else None
    ensures Before(samples, p, 0) == Task(InitialPi(p), samples[0].tMs) && TickTime(samples, p, 0) == samples[0].tMs
    ensures RowsBefore(samples, p, rows, 0) && IsHeld(samples, 0, held)
    ensures IsSorted(samples) ==> samples[0].tMs <= samples[|samples| - 1].tMs
  {
  }

  lemma NextTick(samples: seq<Sample>, p: Parameters, k: nat)
    requires samples != []
    ensures TickTime(samples, p, k + 1) == TickTime(samples, p, k) + p.tickMs
    ensures IsTick(samples, p, k) <==> TickTime(samples, p, k) <= samples[|samples| - 1].tMs
    ensures After(samples, p, k) == Before(samples, p, k + 1)
  {
  }

  lemma BeforeNext(samples: seq<Sample>, p: Parameters, k: nat)
    requires samples != []
    ensures Before(samples, p, k + 1) == TaskStep(samples, p, Before(samples, p, k), TickTime(samples, p, k))
  {
  }

  lemma HeldIsIndex(samples: seq<Sample>, index: nat, held: Option<nat>)
    requires IsHeld(samples, index, held)
    ensures held.Some? ==> held.value < |samples|
  {
    LatestAmongIsLatest(samples, index + 1);
  }

  /** The last rows: a sample may come after the last tick. */
  method EmitAll(samples: seq<Sample>, rows: seq<Row>, pi: Pi) returns (rows': seq<Row>)
    requires |rows| <= |samples|
    ensures rows' == rows + RowsWith(samples, |rows|, |samples|, pi)
  {
    rows' := rows;
    while |rows'| < |samples|
      invariant |rows| <= |rows'| <= |samples| && rows' == rows + RowsWith(samples, |rows|, |rows'|, pi)
      decreases |samples| - |rows'|
    {
      rows' := rows' + [RowAt(samples[|rows'|], pi)];
    }
  }

  // ---------- What the updates amount to ----------

  /** The control updates before tick `k`, in order. */
  function Updates(samples: seq<Sample>, p: Parameters, k: nat): seq<Input>
    requires samples != []
  {
    if k == 0 then []
    else
      var u := Due(samples, p, Before(samples, p, k - 1), TickTime(samples, p, k - 1));
      Updates(samples, p, k - 1) + if u.Some? then [u.value] else []
  }

  function Total(inputs: seq<Input>): int {
    if inputs == [] then 0 else Total(inputs[..|inputs| - 1]) + inputs[|inputs| - 1].elapsedMs
  }

  /** The controller has run over exactly the updates, and they integrate over no more time than has passed. */
  lemma {:induction false} ControllerRunsUpdates(samples: seq<Sample>, p: Parameters, k: nat)
    requires samples != []
    ensures Before(samples, p, k).pi == Run(p, Updates(samples, p, k))
    ensures Total(Updates(samples, p, k)) <= Before(samples, p, k).lastControlMs - First(samples)
  {
    if k > 0 {
      ControllerRunsUpdates(samples, p, k - 1);
      var u := Due(samples, p, Before(samples, p, k - 1), TickTime(samples, p, k - 1));
      var before := Updates(samples, p, k - 1);
      if u.Some? {
        assert (before + [u.value])[..|before|] == before;
      } else {
        ConcatNil(before);
      }
    } else {
      assert Run(p, []) == InitialPi(p);
    }
  }

  /** The last update is a tick at most as late as the one before `k`. */
  lemma {:induction false} LastControlIsPast(samples: seq<Sample>, p: Parameters, k: nat)
    requires samples != [] && p.tickMs > 0
    ensures First(samples) <= Before(samples, p, k).lastControlMs <= TickTime(samples, p, if k == 0 then 0 else k - 1)
  {
    if k > 0 {
      LastControlIsPast(samples, p, k - 1);
      TickMonotone(samples, p, 0, k - 1);
      if k > 1 { TickMonotone(samples, p, k - 2, k - 1); }
    }
  }

  /**
   The ticks are every `tickMs` from the first captured time to the last, and the first task
   has its last update there.
   */
  lemma TicksExactly(samples: seq<Sample>, p: Parameters, k: nat)
    requires samples != []
    ensures TickTime(samples, p, k) == samples[0].tMs + k * p.tickMs
    ensures IsTick(samples, p, k) <==> samples[0].tMs + k * p.tickMs <= samples[|samples| - 1].tMs
    ensures Before(samples, p, 0) == Task(InitialPi(p), samples[0].tMs)
  {
  }

  /**
   At a tick the controller is updated exactly if a control period has passed and the latest
   valid pressure is fresh; it integrates over the time since its last update, up to a limit.
   */
  lemma UpdatesExactly(samples: seq<Sample>, p: Parameters, k: nat)
    requires samples != []
    ensures var now, before, after := TickTime(samples, p, k), Before(samples, p, k), After(samples, p, k);
            var elapsed := now - before.lastControlMs;
            var integrated := if elapsed <= p.maxIntegrationMs then elapsed else p.maxIntegrationMs;
            && ((forall i: nat :: !IsLatestValid(samples, now, i)) ==> after == before)
            && forall i: nat :: IsLatestValid(samples, now, i) ==>
                 after == if elapsed >= p.controlPeriodMs && now - samples[i].tMs <= p.holdMs
                          then Task(Next(before.pi, p, samples[i].pressureBar, integrated), now) else before
  {
    hide LatestValid, Next, TickTime, IsLatestValid;
    var now := TickTime(samples, p, k);
    LatestValidIsLatest(samples, now);
    BeforeNext(samples, p, k);
    forall i: nat | IsLatestValid(samples, now, i)
      ensures LatestValid(samples, now) == Some(i)
    {
      OneLatest(samples, now, i);
    }
  }

  lemma OneLatest(samples: seq<Sample>, now: int, i: nat)
    requires IsLatestValid(samples, now, i)
    ensures LatestValid(samples, now) == Some(i)
  {
    LatestValidIsLatest(samples, now);
    hide LatestValid;
  }

  /** An update comes a control period after the one before, and uses the latest valid pressure, not too old. */
  lemma UpdateIsDue(samples: seq<Sample>, p: Parameters, k: nat)
    requires samples != []
    ensures var now, before := TickTime(samples, p, k), Before(samples, p, k);
            After(samples, p, k) != before ==>
              && After(samples, p, k).lastControlMs == now >= before.lastControlMs + p.controlPeriodMs
              && exists i: nat ::
                   && IsLatestValid(samples, now, i) && now - samples[i].tMs <= p.holdMs
                   && After(samples, p, k).pi == Next(before.pi, p, samples[i].pressureBar,
                                                      Least(now - before.lastControlMs, p.maxIntegrationMs))
  {
    hide IsLatestValid, Next, TickTime, Before, After;
    UpdatesExactly(samples, p, k);
  }

  /** The integration times of all updates sum to at most the span of the capture. */
  lemma IntegrationWithinSpan(samples: seq<Sample>, p: Parameters, k: nat)
    requires samples != [] && p.tickMs > 0 && k > 0 && IsTick(samples, p, k - 1)
    ensures Total(Updates(samples, p, k)) <= Last(samples) - First(samples)
  {
    ControllerRunsUpdates(samples, p, k);
    LastControlIsPast(samples, p, k);
  }

  /** In every row of a replay with whole bounds, the integral and the command lie within the pump's range. */
  lemma RowsAreWithinRange(samples: seq<Sample>, p: Parameters, rows: seq<Row>)
    requires AreRows(samples, p, rows) && IsOrdered(p) && IsWhole(p.pumpFloorPct) && IsWhole(p.pumpInitialPct)
    ensures forall i :: 0 <= i < |rows| ==>
              && p.pumpFloorPct <= rows[i].simulated.integralPct <= p.pumpInitialPct
              && p.pumpFloorPct <= rows[i].simulated.commandPct as real <= p.pumpInitialPct
  {
    forall i | 0 <= i < |rows|
      ensures && p.pumpFloorPct <= rows[i].simulated.integralPct <= p.pumpInitialPct
              && p.pumpFloorPct <= rows[i].simulated.commandPct as real <= p.pumpInitialPct
    {
      assert IsRow(samples, p, i, rows[i]);
      var k: nat :| (IsFirstTickFrom(samples, p, i, k) || IsLastTickBefore(samples, p, i, k))
                    && rows[i] == RowAt(samples[i], After(samples, p, k).pi);
      ControllerRunsUpdates(samples, p, k + 1);
      RunBetweenWholeBounds(p, Updates(samples, p, k + 1));
    }
  }
}
