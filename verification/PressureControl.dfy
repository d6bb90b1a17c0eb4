/**
 The PI pressure controller of the brew replay: activation near the target,
 clamping to the pump's range, and an anti-windup that freezes the integral.
 */
module PressureControl {
  import opened Prelude

  datatype Parameters = Parameters(
    targetBar: real, pumpInitialPct: real, pumpFloorPct: real, kp: real, ki: real, marginBar: real,
    controlPeriodMs: int, maxIntegrationMs: int, tickMs: int, holdMs: int)

  /** `clamp`. */
  function Clamp(value: real, low: real, high: real): real {
    var m := if value <= high then value else high;
    if low >= m then low else m
  }

  /** `math.floor(x + 0.5)`: halves go up. */
  function RoundHalfUp(x: real): int {
    (x + 0.5).Floor
  }

  datatype Pi = Pi(commandPct: int, integralPct: real, active: bool)

  function InitialPi(p: Parameters): Pi {
    var command := RoundHalfEven(p.pumpInitialPct);
    Pi(command, command as real, false)
  }

  function Error(p: Parameters, pressure: real): real {
    p.targetBar - pressure
  }

  function Proportional(p: Parameters, error: real): real {
    p.kp * error
  }

  function Increment(p: Parameters, error: real, elapsedMs: int): real {
    p.ki * error * elapsedMs as real / 1000.0
  }

  /** The integral after a control step of an active controller. */
  function NextIntegral(p: Parameters, integral: real, error: real, elapsedMs: int): real {
    var candidate := integral + Increment(p, error, elapsedMs);
    var output := Proportional(p, error) + candidate;
    if (output > p.pumpInitialPct && error > 0.0) || (output < p.pumpFloorPct && error < 0.0) then integral
    else Clamp(candidate, p.pumpFloorPct, p.pumpInitialPct)
  }

  function Command(p: Parameters, integral: real, error: real): int {
    RoundHalfUp(Clamp(Proportional(p, error) + integral, p.pumpFloorPct, p.pumpInitialPct))
  }

  /** The controller after one control step. */
  function Next(pi: Pi, p: Parameters, pressure: real, elapsedMs: int): Pi {
    var error := Error(p, pressure);
    if !pi.active && pressure < p.targetBar - p.marginBar then pi
    else
      var integral :=
        if pi.active then NextIntegral(p, pi.integralPct, error, elapsedMs)
        else Clamp(pi.commandPct as real - Proportional(p, error), p.pumpFloorPct, p.pumpInitialPct);
      Pi(Command(p, integral, error), integral, true)
  }

  class Controller {
    const params: Parameters
    var commandPct: int
    var integralPct: real
    var active: bool

    function State(): Pi
      reads this
    {
      Pi(commandPct, integralPct, active)
    }

    constructor Initial(p: Parameters)
      ensures params == p && State() == InitialPi(p)
    {
      params := p;
      var command := RoundHalfEven(p.pumpInitialPct);
      commandPct, integralPct, active := command, command as real, false;
    }

    /** `Controller.update`. */
    method Update(pressureBar: real, elapsedMs: int)
      modifies this
      ensures State() == Next(old(State()), params, pressureBar, elapsedMs)
    {
      hide Proportional, Increment, Clamp, RoundHalfUp;
      var p := params;
      var error := p.targetBar - pressureBar;
      if !active && pressureBar >= p.targetBar - p.marginBar {
        active := true;
        integralPct := Clamp(commandPct as real - Proportional(p, error), p.pumpFloorPct, p.pumpInitialPct);
      } else if active {
        var proportional := Proportional(p, error);
        var candidate := integralPct + Increment(p, error, elapsedMs);
        var output := proportional + candidate;
        var windsUpHigh := output > p.pumpInitialPct && error > 0.0;
        var windsUpLow := output < p.pumpFloorPct && error < 0.0;
        if !windsUpHigh && !windsUpLow {
          integralPct := Clamp(candidate, p.pumpFloorPct, p.pumpInitialPct);
        }
      }
      if active {
        commandPct := RoundHalfUp(Clamp(Proportional(p, error) + integralPct, p.pumpFloorPct, p.pumpInitialPct));
      }
    }
  }

  // ---------- Runs ----------

  /** One control step: the pressure it saw and the time it integrates over. */
  datatype Input = Input(pressure: real, elapsedMs: int)

  function Run(p: Parameters, inputs: seq<Input>): Pi {
    if inputs == [] then InitialPi(p)
    else
      var last := inputs[|inputs| - 1];
      Next(Run(p, inputs[..|inputs| - 1]), p, last.pressure, last.elapsedMs)
  }

  predicate IsWhole(x: real) {
    x == x.Floor as real
  }

  predicate IsOrdered(p: Parameters) {
    p.pumpFloorPct <= p.pumpInitialPct
  }

  lemma RoundMonotone(x: real, y: real)
    requires x <= y
    ensures RoundHalfUp(x) <= RoundHalfUp(y)
  {
  }

  /** A controller before activation has its first command; afterwards it stays within the pump's range. */
  predicate IsWithin(p: Parameters, pi: Pi) {
    if !pi.active then pi == InitialPi(p)
    else p.pumpFloorPct <= pi.integralPct <= p.pumpInitialPct
         && RoundHalfUp(p.pumpFloorPct) <= pi.commandPct <= RoundHalfUp(p.pumpInitialPct)
  }

  lemma NextWithin(pi: Pi, p: Parameters, pressure: real, elapsedMs: int)
    requires IsOrdered(p) && IsWithin(p, pi)
    ensures IsWithin(p, Next(pi, p, pressure, elapsedMs))
    ensures pi.active ==> Next(pi, p, pressure, elapsedMs).active
  {
    hide Proportional, Increment, RoundHalfUp, RoundHalfEven;
    var r, error := Next(pi, p, pressure, elapsedMs), Error(p, pressure);
    if r.active {
      var out := Clamp(Proportional(p, error) + r.integralPct, p.pumpFloorPct, p.pumpInitialPct);
      RoundMonotone(p.pumpFloorPct, out);
      RoundMonotone(out, p.pumpInitialPct);
    }
  }

  /** On every run, and activation never reverts. */
  lemma {:induction false} RunWithin(p: Parameters, inputs: seq<Input>)
    requires IsOrdered(p)
    ensures IsWithin(p, Run(p, inputs))
    ensures forall k :: 0 <= k <= |inputs| && Run(p, inputs[..k]).active ==> Run(p, inputs).active
  {
    if inputs != [] {
      var n := |inputs| - 1;
      RunWithin(p, inputs[..n]);
      NextWithin(Run(p, inputs[..n]), p, inputs[n].pressure, inputs[n].elapsedMs);
      forall k | 0 <= k <= |inputs| && Run(p, inputs[..k]).active
        ensures Run(p, inputs).active
      {
        if k <= n { assert inputs[..n][..k] == inputs[..k]; } else { assert inputs[..k] == inputs; }
      }
    }
  }

  /** With whole bounds, the integral and the command stay between them from the start. */
  lemma RunBetweenWholeBounds(p: Parameters, inputs: seq<Input>)
    requires IsOrdered(p) && IsWhole(p.pumpFloorPct) && IsWhole(p.pumpInitialPct)
    ensures var pi := Run(p, inputs);
            && p.pumpFloorPct <= pi.integralPct <= p.pumpInitialPct
            && p.pumpFloorPct <= pi.commandPct as real <= p.pumpInitialPct
  {
    RunWithin(p, inputs);
    RoundWhole(p.pumpFloorPct);
    RoundWhole(p.pumpInitialPct);
    hide Run, RoundHalfUp, RoundHalfEven, IsWhole;
  }

  lemma RoundWhole(x: real)
    requires IsWhole(x)
    ensures RoundHalfUp(x) as real == x && RoundHalfEven(x) as real == x
  {
    RoundInt(x.Floor);
  }

  lemma RoundInt(n: int)
    ensures RoundHalfUp(n as real) == n && RoundHalfEven(n as real) == n
  {
  }

  // ---------- One step ----------

  /** The integral step of an active controller, whose integral is within bounds. */
  lemma IntegralNeverAgainstError(pi: Pi, p: Parameters, pressure: real, elapsedMs: int)
    requires IsOrdered(p) && p.ki >= 0.0 && elapsedMs >= 0
    requires pi.active && p.pumpFloorPct <= pi.integralPct <= p.pumpInitialPct
    ensures var r, e := Next(pi, p, pressure, elapsedMs), Error(p, pressure);
            var candidate := pi.integralPct + Increment(p, e, elapsedMs);
            && (e > 0.0 ==> r.integralPct >= pi.integralPct)
            && (e < 0.0 ==> r.integralPct <= pi.integralPct)
            && (e == 0.0 ==> r.integralPct == pi.integralPct)
            && (r.integralPct > pi.integralPct ==> Proportional(p, e) + candidate <= p.pumpInitialPct)
            && (r.integralPct < pi.integralPct ==> Proportional(p, e) + candidate >= p.pumpFloorPct)
  {
    var e := Error(p, pressure);
    StepSign(p, e, elapsedMs);
    hide Proportional, Increment, RoundHalfUp;
  }

  lemma StepSign(p: Parameters, e: real, ms: int)
    requires p.ki >= 0.0 && ms >= 0
    ensures e > 0.0 ==> Increment(p, e, ms) >= 0.0
    ensures e < 0.0 ==> Increment(p, e, ms) <= 0.0
    ensures e == 0.0 ==> Increment(p, e, ms) == 0.0
  {
    var m := ms as real;
    if e > 0.0 {
      assert p.ki * e >= 0.0;
      assert (p.ki * e) * m >= 0.0;
    } else if e < 0.0 {
      assert p.ki * e <= 0.0;
      assert (p.ki * e) * m <= 0.0;
    }
  }

  /**
   The step that activates the controller keeps its command exactly when the
   pressure is not more than half a percent of proportional action above the
   target, or the pump has a single speed; the integral may clamp or not.
   */
  lemma ActivationIsSmooth(p: Parameters, inputs: seq<Input>, pressure: real, elapsedMs: int)
    requires IsOrdered(p) && IsWhole(p.pumpFloorPct) && IsWhole(p.pumpInitialPct) && p.kp >= 0.0
    requires var pi := Run(p, inputs); !pi.active && Next(pi, p, pressure, elapsedMs).active
    ensures Next(Run(p, inputs), p, pressure, elapsedMs).commandPct == Run(p, inputs).commandPct
            <==> pressure <= p.targetBar || p.kp * (pressure - p.targetBar) <= 0.5 || p.pumpFloorPct == p.pumpInitialPct
  {
    RunWithin(p, inputs);
    var e := Error(p, pressure);
    ActivationCommand(p, e);
    RoundWhole(p.pumpInitialPct);
    ErrorSign(p, pressure);
    hide Run, Proportional, Command, RoundHalfEven, IsWhole, Error;
  }

  lemma ErrorSign(p: Parameters, pressure: real)
    requires p.kp >= 0.0
    ensures var x := Proportional(p, Error(p, pressure));
            && (pressure <= p.targetBar ==> x >= 0.0)
            && p.kp * (pressure - p.targetBar) == -x
  {
    var e := Error(p, pressure);
    assert p.kp * e == -(p.kp * (pressure - p.targetBar));
    if e >= 0.0 { assert p.kp * e >= 0.0; }
  }

  /** The command right after activation, from the first command of the pump. */
  lemma ActivationCommand(p: Parameters, e: real)
    requires IsOrdered(p) && IsWhole(p.pumpFloorPct) && IsWhole(p.pumpInitialPct)
    ensures var x := Proportional(p, e);
            var integral := Clamp(p.pumpInitialPct - x, p.pumpFloorPct, p.pumpInitialPct);
            Command(p, integral, e) == RoundHalfUp(p.pumpInitialPct)
            <==> x >= -0.5 || p.pumpFloorPct == p.pumpInitialPct
  {
    hide Proportional;
    var x, floor, initial := Proportional(p, e), p.pumpFloorPct, p.pumpInitialPct;
    ActivationClamp(floor.Floor, initial.Floor, x);
    RoundFrom(initial.Floor, Clamp(x + Clamp(initial - x, floor, initial), floor, initial));
    hide Clamp, RoundHalfUp;
  }

  lemma ActivationClamp(a: int, b: int, x: real)
    requires a as real <= b as real
    ensures var out := Clamp(x + Clamp(b as real - x, a as real, b as real), a as real, b as real);
            out <= b as real && (out >= b as real - 0.5 <==> x >= -0.5 || a as real == b as real)
  {
  }

  /** A value up to a whole number rounds to it exactly from half below. */
  lemma RoundFrom(n: int, x: real)
    requires x <= n as real
    ensures RoundHalfUp(x) == RoundHalfUp(n as real) <==> x >= n as real - 0.5
  {
    RoundInt(n);
    assert (x + 0.5).Floor as real <= x + 0.5;
  }

  /** First seen 0.1 bar above the target, at 15 percent per bar, the controller drops its command from 100 to 99. */
  lemma ActivationMayDrop()
    ensures var p := Parameters(9.0, 100.0, 50.0, 15.0, 3.0, 3.0, 200, 400, 50, 300);
            && InitialPi(p).commandPct == 100
            && Next(InitialPi(p), p, 9.1, 200).active && Next(InitialPi(p), p, 9.1, 200).commandPct == 99
  {
    var p := Parameters(9.0, 100.0, 50.0, 15.0, 3.0, 3.0, 200, 400, 50, 300);
    RoundInt(100);
    assert Error(p, 9.1) == -0.1 && Proportional(p, -0.1) == -1.5;
    RoundInt(99);
  }

  // ---------- Steps without a bound in the way ----------

  /** The sum of (target - pressure) over time, in bar milliseconds. */
  function BarMs(p: Parameters, inputs: seq<Input>): real {
    if inputs == [] then 0.0
    else
      var last := inputs[|inputs| - 1];
      BarMs(p, inputs[..|inputs| - 1]) + (p.targetBar - last.pressure) * last.elapsedMs as real
  }

  /** What the integral would be after these steps from `first`, if nothing stopped it. */
  function FreeIntegral(p: Parameters, first: real, inputs: seq<Input>): real {
    first + p.ki * BarMs(p, inputs) / 1000.0
  }

  /** What the output would be at the last of these steps. */
  function FreeOutput(p: Parameters, first: real, inputs: seq<Input>): real
    requires inputs != []
  {
    p.kp * (p.targetBar - inputs[|inputs| - 1].pressure) + FreeIntegral(p, first, inputs)
  }

  /** After no step does the integral or the output leave the pump's range. */
  predicate IsFree(p: Parameters, first: real, inputs: seq<Input>) {
    forall k :: 0 < k <= |inputs| ==>
      && p.pumpFloorPct <= FreeIntegral(p, first, inputs[..k]) <= p.pumpInitialPct
      && p.pumpFloorPct <= FreeOutput(p, first, inputs[..k]) <= p.pumpInitialPct
  }

  /** The whole number nearest to `x`; of two, the greater. */
  predicate IsNearest(n: int, x: real) {
    x - 0.5 < n as real <= x + 0.5
  }

  lemma IncrementIs(p: Parameters, pressure: real, ms: int, sum: real, all: real)
    requires all == sum + (p.targetBar - pressure) * ms as real
    ensures p.ki * all / 1000.0 == p.ki * sum / 1000.0 + Increment(p, Error(p, pressure), ms)
  {
    var e := p.targetBar - pressure;
    assert p.ki * (sum + e * ms as real) == p.ki * sum + p.ki * e * ms as real;
  }

  lemma FreeStep(pi: Pi, p: Parameters, pressure: real, elapsedMs: int, integral: real)
    requires pi.active && integral == pi.integralPct + Increment(p, Error(p, pressure), elapsedMs)
    requires p.pumpFloorPct <= integral <= p.pumpInitialPct
    requires p.pumpFloorPct <= p.kp * (p.targetBar - pressure) + integral <= p.pumpInitialPct
    ensures var next := Next(pi, p, pressure, elapsedMs);
            && next.active && next.integralPct == integral
            && IsNearest(next.commandPct, p.kp * (p.targetBar - pressure) + integral)
  {
    hide Increment;
  }

  lemma RunMore(p: Parameters, before: seq<Input>, inputs: seq<Input>)
    requires inputs != []
    ensures var n := |inputs| - 1;
            Run(p, before + inputs) == Next(Run(p, before + inputs[..n]), p, inputs[n].pressure, inputs[n].elapsedMs)
  {
    var n := |inputs| - 1;
    var all := before + inputs;
    assert all[..|all| - 1] == before + inputs[..n] && all[|all| - 1] == inputs[n];
    hide Next;
  }

  lemma FreeIntegralMore(p: Parameters, first: real, inputs: seq<Input>)
    requires inputs != []
    ensures var n := |inputs| - 1;
            FreeIntegral(p, first, inputs)
            == FreeIntegral(p, first, inputs[..n]) + Increment(p, Error(p, inputs[n].pressure), inputs[n].elapsedMs)
  {
    var n := |inputs| - 1;
    var before, all := BarMs(p, inputs[..n]), BarMs(p, inputs);
    IncrementIs(p, inputs[n].pressure, inputs[n].elapsedMs, before, all);
    hide Increment, BarMs;
    assert FreeIntegral(p, first, inputs) == first + p.ki * all / 1000.0;
    assert FreeIntegral(p, first, inputs[..n]) == first + p.ki * before / 1000.0;
  }

  lemma FreeAt(p: Parameters, first: real, inputs: seq<Input>)
    requires inputs != [] && IsFree(p, first, inputs)
    ensures p.pumpFloorPct <= FreeIntegral(p, first, inputs) <= p.pumpInitialPct
    ensures p.pumpFloorPct <= FreeOutput(p, first, inputs) <= p.pumpInitialPct
  {
    hide FreeIntegral, FreeOutput;
    assert inputs[..|inputs|] == inputs;
  }

  lemma FreePrefix(p: Parameters, first: real, inputs: seq<Input>)
    requires inputs != [] && IsFree(p, first, inputs)
    ensures IsFree(p, first, inputs[..|inputs| - 1])
  {
    hide FreeIntegral, FreeOutput;
    var rest := inputs[..|inputs| - 1];
    forall k | 0 < k <= |rest|
      ensures p.pumpFloorPct <= FreeIntegral(p, first, rest[..k]) <= p.pumpInitialPct
      ensures p.pumpFloorPct <= FreeOutput(p, first, rest[..k]) <= p.pumpInitialPct
    {
      assert rest[..k] == inputs[..k];
    }
  }

  /**
   Once the controller is active, and as long as neither the integral nor the output meets a
   bound of the pump: the integral grows by ki times the error summed over time, and the
   command is the whole number nearest to kp times the last error plus the integral.
   */
  lemma {:induction false} FreeRunIntegrates(p: Parameters, before: seq<Input>, inputs: seq<Input>)
    requires Run(p, before).active && IsFree(p, Run(p, before).integralPct, inputs)
    ensures var first, pi := Run(p, before).integralPct, Run(p, before + inputs);
            && pi.active && pi.integralPct - first == p.ki * BarMs(p, inputs) / 1000.0
            && (inputs != [] ==>
                  IsNearest(pi.commandPct,
                            p.kp * (p.targetBar - inputs[|inputs| - 1].pressure) + pi.integralPct))
    decreases |inputs|
  {
    hide Run, Next, Increment, IsFree;
    if inputs == [] {
      ConcatNil(before);
      assert BarMs(p, inputs) == 0.0 && p.ki * 0.0 == 0.0;
    } else {
      var n, first := |inputs| - 1, Run(p, before).integralPct;
      FreePrefix(p, first, inputs);
      FreeAt(p, first, inputs);
      FreeIntegralMore(p, first, inputs);
      FreeRunIntegrates(p, before, inputs[..n]);
      RunMore(p, before, inputs);
      FreeStep(Run(p, before + inputs[..n]), p, inputs[n].pressure, inputs[n].elapsedMs,
               FreeIntegral(p, first, inputs));
    }
  }

  lemma IntegralIs(p: Parameters, integral: real, e: real, elapsedMs: int)
    requires IsOrdered(p)
    ensures var candidate, next := integral + Increment(p, e, elapsedMs), NextIntegral(p, integral, e, elapsedMs);
            var output := Proportional(p, e) + candidate;
            if (e > 0.0 && output > p.pumpInitialPct) || (e < 0.0 && output < p.pumpFloorPct) then next == integral
            else next == if candidate <= p.pumpFloorPct then p.pumpFloorPct
                         else if candidate >= p.pumpInitialPct then p.pumpInitialPct else candidate
  {
    hide Increment, Proportional;
  }

  lemma CommandIsNearest(p: Parameters, integral: real, e: real)
    requires IsOrdered(p)
    ensures var x, n := Proportional(p, e) + integral, Command(p, integral, e);
            IsNearest(n, if x <= p.pumpFloorPct then p.pumpFloorPct
                         else if x >= p.pumpInitialPct then p.pumpInitialPct else x)
  {
    hide Proportional;
  }

  /**
   With a bound in the way: the integral stays when the output would leave the range on the
   side of the error, and otherwise moves as far as the range lets it; the command is the
   whole number nearest to the output within the range.
   */
  lemma StepExactly(pi: Pi, p: Parameters, pressure: real, elapsedMs: int, e: real, rise: real, pull: real)
    requires IsOrdered(p) && pi.active && e == p.targetBar - pressure
    requires rise == p.ki * e * elapsedMs as real / 1000.0 && pull == p.kp * e
    ensures var next, candidate := Next(pi, p, pressure, elapsedMs), pi.integralPct + rise;
            var held := || (e > 0.0 && pull + candidate > p.pumpInitialPct)
                        || (e < 0.0 && pull + candidate < p.pumpFloorPct);
            && (held ==> next.integralPct == pi.integralPct)
            && (!held ==> && (candidate <= p.pumpFloorPct ==> next.integralPct == p.pumpFloorPct)
                          && (candidate >= p.pumpInitialPct ==> next.integralPct == p.pumpInitialPct)
                          && (p.pumpFloorPct <= candidate <= p.pumpInitialPct ==> next.integralPct == candidate))
            && var output := pull + next.integralPct;
               && (output <= p.pumpFloorPct ==> IsNearest(next.commandPct, p.pumpFloorPct))
               && (output >= p.pumpInitialPct ==> IsNearest(next.commandPct, p.pumpInitialPct))
               && (p.pumpFloorPct <= output <= p.pumpInitialPct ==> IsNearest(next.commandPct, output))
  {
    TermsAre(p, e, elapsedMs);
    hide Increment, Proportional;
    IntegralIs(p, pi.integralPct, e, elapsedMs);
    CommandIsNearest(p, NextIntegral(p, pi.integralPct, e, elapsedMs), e);
    hide NextIntegral, Command, IsNearest;
  }

  lemma TermsAre(p: Parameters, e: real, elapsedMs: int)
    ensures Increment(p, e, elapsedMs) == p.ki * e * elapsedMs as real / 1000.0 && Proportional(p, e) == p.kp * e
  {
  }

  // ---------- Activation ----------

  /**
   The controller is active exactly once some pressure was within the margin of the target
   or above it; until then it keeps the whole number nearest to the first command.
   */
  lemma {:induction false} ActiveExactly(p: Parameters, inputs: seq<Input>)
    ensures var pi, first := Run(p, inputs), p.pumpInitialPct;
            && (pi.active <==> exists k :: 0 <= k < |inputs| && inputs[k].pressure >= p.targetBar - p.marginBar)
            && (!pi.active ==> && pi.integralPct == pi.commandPct as real
                               && first - 0.5 <= pi.commandPct as real <= first + 0.5
                               && (pi.commandPct % 2 == 1 ==>
                                     first - 0.5 < pi.commandPct as real < first + 0.5))
  {
    if inputs != [] {
      var n := |inputs| - 1;
      ActiveExactly(p, inputs[..n]);
      assert forall k :: 0 <= k < n ==> inputs[..n][k] == inputs[k];
      hide Command, NextIntegral, Proportional, Clamp, RoundHalfEven;
    }
  }

  /** The step that activates it takes the integral that would keep the command, as far as the range lets it. */
  lemma ActivationExactly(pi: Pi, p: Parameters, pressure: real, elapsedMs: int, pull: real)
    requires IsOrdered(p) && !pi.active && pressure >= p.targetBar - p.marginBar
    requires pull == p.kp * (p.targetBar - pressure)
    ensures var next, kept := Next(pi, p, pressure, elapsedMs), pi.commandPct as real - pull;
            && next.active
            && (kept <= p.pumpFloorPct ==> next.integralPct == p.pumpFloorPct)
            && (kept >= p.pumpInitialPct ==> next.integralPct == p.pumpInitialPct)
            && (p.pumpFloorPct <= kept <= p.pumpInitialPct ==> next.integralPct == kept)
            && var output := pull + next.integralPct;
               && (output <= p.pumpFloorPct ==> IsNearest(next.commandPct, p.pumpFloorPct))
               && (output >= p.pumpInitialPct ==> IsNearest(next.commandPct, p.pumpInitialPct))
               && (p.pumpFloorPct <= output <= p.pumpInitialPct ==> IsNearest(next.commandPct, output))
  {
    assert Proportional(p, Error(p, pressure)) == pull;
    hide Proportional, Error;
  }
}
