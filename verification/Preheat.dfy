/**
 The boiler scenarios: heating that follows the flow, a preheat before the brew, the
 heating held back during the infusion until it has repaid the preheat, and heating
 that runs ahead of the flow.
 */
module Preheat {
  import opened Prelude
  import LagFilter

  const DT := LagFilter.DT
  const HOLD_PCT := 3.5
  const WATER_DELTA_K := 70.5

  /** When the repayment starts: never, with the infusion, or once its flow has dropped. */
  datatype Repay = Never | AtInfusion | BelowFlow

  /** One mode and one flow for each step of the capture; with a lead, the heating runs that much ahead. */
  datatype Scenario = Scenario(
    modes: seq<string>, flow: seq<real>, preheatS: real, preheatPct: real, capPct: real,
    cutS: real, leadS: Option<real>, repay: Repay, repayFlowMlS: real)

  datatype Error = NoBrew | NoInfusion | NegativePreheat

  /** The commands of the preheat and of the brew, and what is left to repay. */
  datatype Plan = Plan(pre: seq<real>, cmd: seq<real>, debtKj: real)

  predicate IsScenario(s: Scenario) {
    |s.modes| == |s.flow|
  }

  /** `need_pct`: what holds the boiler and heats the water let in. */
  function NeedPct(flowMlS: real, capPct: real): (need: real)
    ensures need <= capPct
  {
    var need := HOLD_PCT + flowMlS * 4.18 * WATER_DELTA_K / 12.0;
    if need < capPct then need else capPct
  }

  predicate Flowing(mode: string) {
    mode == "filling" || mode == "preinfusion" || mode == "infusion"
  }

  /** The first step after the capture's own preheat. */
  function BrewStart(modes: seq<string>): (i: nat)
    ensures i <= |modes| && forall k :: 0 <= k < i ==> modes[k] == "thermal_preheat"
    ensures i < |modes| ==> modes[i] != "thermal_preheat"
  {
    if modes == [] || modes[0] != "thermal_preheat" then 0 else 1 + BrewStart(modes[1..])
  }

  /** The last step of infusion, or -1. */
  function LastInfusion(modes: seq<string>): (i: int)
    ensures -1 <= i < |modes| && (i >= 0 ==> modes[i] == "infusion")
    ensures forall k :: i < k < |modes| ==> modes[k] != "infusion"
  {
    if modes == [] then -1
    else if modes[|modes| - 1] == "infusion" then |modes| - 1
    else LastInfusion(modes[..|modes| - 1])
  }

  function Brew(s: Scenario): (b: Scenario)
    requires IsScenario(s)
    ensures IsScenario(b)
  {
    var i := BrewStart(s.modes);
    s.(modes := s.modes[i..], flow := s.flow[i..])
  }

  function PreheatSteps(s: Scenario): int {
    RoundHalfEven(s.preheatS / DT)
  }

  /** The last step that may still heat, when the heating is cut before the pump stops. */
  function LastHeated(stop: int, cutS: real): int {
    stop - Truncate(cutS / DT)
  }

  /** The command that the flow asks for at one step, up to the cut before the pump stops. */
  function Demand(b: Scenario, j: nat): (pct: real)
    requires IsScenario(b) && j < |b.modes|
    ensures pct <= b.capPct || pct == 0.0
  {
    if Flowing(b.modes[j]) && j <= LastHeated(LastInfusion(b.modes), b.cutS) then NeedPct(b.flow[j], b.capPct)
    else 0.0
  }

  function Demands(b: Scenario): (d: seq<real>)
    requires IsScenario(b)
    ensures |d| == |b.modes| && forall j :: 0 <= j < |d| ==> d[j] == Demand(b, j)
  {
    seq(|b.modes|, j requires 0 <= j < |b.modes| => Demand(b, j))
  }

  function Sum(x: seq<real>): real {
    if x == [] then 0.0 else Sum(x[..|x| - 1]) + x[|x| - 1]
  }

  /** The energy of one second at one percent of 12 W per percent, in kilojoules, times `pct`. */
  function Kj(pct: real): real {
    pct * 12.0 * DT / 1000.0
  }

  function EnergyKj(cmd: seq<real>): real {
    Kj(Sum(cmd))
  }

  function DebtKj(b: Scenario): real {
    if b.repay.Never? then 0.0 else b.preheatS * b.preheatPct * 12.0 / 1000.0
  }

  predicate Triggers(b: Scenario, j: nat)
    requires IsScenario(b) && j < |b.modes|
  {
    !b.repay.Never? && b.modes[j] == "infusion" && (b.repay.AtInfusion? || b.flow[j] < b.repayFlowMlS)
  }

  /** The first step from `j` on that starts the repayment, or the number of steps. */
  function RepayFrom(b: Scenario, j: nat): (from: nat)
    requires IsScenario(b) && j <= |b.modes|
    ensures j <= from <= |b.modes| && (from < |b.modes| ==> Triggers(b, from))
    ensures forall k :: j <= k < from ==> !Triggers(b, k)
    decreases |b.modes| - j
  {
    if j == |b.modes| || Triggers(b, j) then j else RepayFrom(b, j + 1)
  }

  /** What holding the demand back from step `from` to step `j` saves. */
  function SavedKj(d: seq<real>, from: nat, j: nat): real
    requires from <= j <= |d|
  {
    EnergyKj(d[from..j])
  }

  /** The first step from `j` on by which the debt has been saved, or the number of steps. */
  function RepayUntil(d: seq<real>, debtKj: real, from: nat, j: nat): (until: nat)
    requires from <= j <= |d|
    ensures j <= until <= |d| && (until < |d| ==> SavedKj(d, from, until) >= debtKj)
    ensures forall k :: j <= k < until ==> SavedKj(d, from, k) < debtKj
    decreases |d| - j
  {
    if j == |d| || SavedKj(d, from, j) >= debtKj then j else RepayUntil(d, debtKj, from, j + 1)
  }

  /** The demand, except where it is held back. */
  function HeldBack(d: seq<real>, from: nat, until: nat): (cmd: seq<real>)
    requires from <= until <= |d|
    ensures |cmd| == |d| && forall j :: 0 <= j < |d| ==> cmd[j] == if from <= j < until then 0.0 else d[j]
  {
    d[..from] + seq(until - from, _ => 0.0) + d[until..]
  }

  /** The commands of a brew: the demand is held back from the trigger until the debt is saved. */
  function BrewPlan(b: Scenario): Plan
    requires IsScenario(b) && PreheatSteps(b) >= 0
  {
    var d := Demands(b);
    var from := RepayFrom(b, 0);
    var until := RepayUntil(d, DebtKj(b), from, from);
    Plan(seq(PreheatSteps(b), _ => b.preheatPct), HeldBack(d, from, until), DebtKj(b) - SavedKj(d, from, until))
  }

  /** What the flow of step `k` asks for, with no cut; past the end, nothing. */
  function Need(b: Scenario, k: nat): real
    requires IsScenario(b)
  {
    if k < |b.flow| && Flowing(b.modes[k]) then NeedPct(b.flow[k], b.capPct) else 0.0
  }

  function Needs(b: Scenario, from: nat, to: nat): (d: seq<real>)
    requires IsScenario(b) && from <= to
    ensures |d| == to - from && forall i :: 0 <= i < |d| ==> d[i] == Need(b, from + i)
  {
    seq(to - from, i requires 0 <= i < to - from => Need(b, from + i))
  }

  function LeadSteps(leadS: real): int {
    Truncate(leadS / DT)
  }

  /** The commands that run `n` steps ahead of the flow: the first `n` needs are the preheat. */
  function LeadPlan(b: Scenario, n: nat): Plan
    requires IsScenario(b)
  {
    Plan(Needs(b, 0, n), Needs(b, n, n + |b.flow|), 0.0)
  }

  function Planned(s: Scenario): Result<Plan, Error>
    requires IsScenario(s)
  {
    var b := Brew(s);
    if b.modes == [] then Err(NoBrew)
    else if LastInfusion(b.modes) < 0 then Err(NoInfusion)
    else match s.leadS
      case None => if PreheatSteps(s) < 0 then Err(NegativePreheat) else Ok(BrewPlan(b))
      case Some(lead) => if LeadSteps(lead) < 0 then Err(NegativePreheat) else Ok(LeadPlan(b, LeadSteps(lead)))
  }

  /** The step up to which the demand has been saved before step `j`. */
  function SavedUpTo(from: nat, until: nat, j: nat): nat
    requires from <= until
  {
    if j <= from then from else if j <= until then j else until
  }

  /** What is left to repay before step `j`. */
  function DebtAt(b: Scenario, j: nat): real
    requires IsScenario(b)
  {
    var d := Demands(b);
    var from := RepayFrom(b, 0);
    DebtKj(b) - SavedKj(d, from, SavedUpTo(from, RepayUntil(d, DebtKj(b), from, from), j))
  }

  /** Whether the demand of step `j` is held back. */
  predicate IsHeld(b: Scenario, j: nat)
    requires IsScenario(b)
  {
    var from := RepayFrom(b, 0);
    from <= j < RepayUntil(Demands(b), DebtKj(b), from, from)
  }

  /** The command of step `j`: the demand, unless it is held back. */
  function CommandAt(b: Scenario, j: nat): real
    requires IsScenario(b) && j < |b.modes|
  {
    if IsHeld(b, j) then 0.0 else Demands(b)[j]
  }

  lemma DebtStep(b: Scenario, j: nat)
    requires IsScenario(b) && j < |b.modes|
    ensures CommandAt(b, j) == if IsHeld(b, j) then 0.0 else Demands(b)[j]
    ensures IsHeld(b, j) <==> RepayFrom(b, 0) <= j && DebtAt(b, j) > 0.0
    ensures DebtAt(b, j + 1) == if IsHeld(b, j) then DebtAt(b, j) - Kj(Demands(b)[j]) else DebtAt(b, j)
  {
    var d := Demands(b);
    var from := RepayFrom(b, 0);
    SavedNothing(d, from);
    if from <= j { SavedMore(d, from, j); }
    hide DebtKj, SavedKj, Kj, Demands;
  }

  /** The loop of `scenario` over the steps of the brew. */
  method HoldBack(b: Scenario, stop: int) returns (cmd: array<real>, debtKj: real)
    requires IsScenario(b) && stop == LastInfusion(b.modes) && PreheatSteps(b) >= 0
    ensures fresh(cmd) && cmd[..] == BrewPlan(b).cmd && debtKj == BrewPlan(b).debtKj
  {
    var n := |b.modes|;
    assert n == |b.flow|;
    hide *;
    cmd := new real[n](_ => 0.0);
    debtKj := DebtKj(b);
    var repaying := false;
    DebtStart(b);
    for j := 0 to n
      invariant repaying <==> RepayFrom(b, 0) < j
      invariant debtKj == DebtAt(b, j)
      invariant forall i :: 0 <= i < j ==> cmd[i] == CommandAt(b, i)
      invariant forall i :: j <= i < n ==> cmd[i] == 0.0
    {
      if Flowing(b.modes[j]) && j <= LastHeated(stop, b.cutS) {
        cmd[j] := NeedPct(b.flow[j], b.capPct);
      }
      assert cmd[j] == Demands(b)[j] by { DemandIs(b, j); }
      if b.modes[j] == "infusion" && (b.repay.AtInfusion? || b.flow[j] < b.repayFlowMlS) {
        repaying := repaying || !b.repay.Never?;
      }
      TriggerStep(b, j);
      DebtStep(b, j);
      if repaying && debtKj > 0.0 {
        debtKj := debtKj - Kj(cmd[j]);
        cmd[j] := 0.0;
      }
    }
    PlanHoldsBack(b, cmd[..]);
  }

  lemma DemandIs(b: Scenario, j: nat)
    requires IsScenario(b) && j < |b.modes|
    ensures Demands(b)[j] == if Flowing(b.modes[j]) && j <= LastHeated(LastInfusion(b.modes), b.cutS)
                             then NeedPct(b.flow[j], b.capPct) else 0.0
  {
  }

  lemma TriggerStep(b: Scenario, j: nat)
    requires IsScenario(b) && j < |b.modes|
    ensures RepayFrom(b, 0) <= j <==> RepayFrom(b, 0) < j || Triggers(b, j)
    ensures Triggers(b, j) <==> && !b.repay.Never? && b.modes[j] == "infusion"
                                && (b.repay.AtInfusion? || b.flow[j] < b.repayFlowMlS)
  {
  }

  lemma DebtStart(b: Scenario)
    requires IsScenario(b)
    ensures DebtAt(b, 0) == DebtKj(b)
  {
    SavedNothing(Demands(b), RepayFrom(b, 0));
  }

  lemma PlanHoldsBack(b: Scenario, cmd: seq<real>)
    requires IsScenario(b) && PreheatSteps(b) >= 0
    requires |cmd| == |b.modes| && forall i :: 0 <= i < |cmd| ==> cmd[i] == CommandAt(b, i)
    ensures cmd == BrewPlan(b).cmd && BrewPlan(b).debtKj == DebtAt(b, |b.modes|)
  {
  }

  lemma SavedNothing(d: seq<real>, from: nat)
    requires from <= |d|
    ensures SavedKj(d, from, from) == 0.0
  {
  }

  lemma SavedMore(d: seq<real>, from: nat, j: nat)
    requires from <= j < |d|
    ensures SavedKj(d, from, j + 1) == SavedKj(d, from, j) + Kj(d[j])
  {
    assert d[from..j + 1] == d[from..j] + [d[j]];
    assert (d[from..j] + [d[j]])[..j - from] == d[from..j];
  }

  /** The needs of `n` steps from `from` on. */
  method Ahead(b: Scenario, from: nat, n: nat) returns (cmd: array<real>)
    requires IsScenario(b)
    ensures fresh(cmd) && cmd[..] == Needs(b, from, from + n)
  {
    cmd := new real[n](_ => 0.0);
    for j := 0 to n
      invariant forall i :: 0 <= i < j ==> cmd[i] == Need(b, from + i)
      invariant forall i :: j <= i < n ==> cmd[i] == 0.0
    {
      if from + j < |b.flow| && Flowing(b.modes[from + j]) {
        cmd[j] := NeedPct(b.flow[from + j], b.capPct);
      }
    }
  }

  /** `scenario`, as far as its commands. */
  method RunScenario(s: Scenario) returns (r: Result<Plan, Error>)
    requires IsScenario(s)
    ensures r == Planned(s)
  {
    var i0 := 0;
    while i0 < |s.modes| && s.modes[i0] == "thermal_preheat"
      invariant 0 <= i0 <= |s.modes| && forall k :: 0 <= k < i0 ==> s.modes[k] == "thermal_preheat"
    {
      i0 := i0 + 1;
    }
    assert i0 == BrewStart(s.modes);
    if i0 == |s.modes| { return Err(NoBrew); }
    var b := Brew(s);
    var stop := LastInfusion(b.modes);
    if stop < 0 { return Err(NoInfusion); }
    if s.leadS.Some? {
      var n0 := LeadSteps(s.leadS.value);
      if n0 < 0 { return Err(NegativePreheat); }
      var cmd := Ahead(b, n0, |b.flow|);
      var pre := Ahead(b, 0, n0);
      return Ok(Plan(pre[..], cmd[..], 0.0));
    }
    if PreheatSteps(s) < 0 { return Err(NegativePreheat); }
    var cmd, debtKj := HoldBack(b, stop);
    r := Ok(Plan(seq(PreheatSteps(s), _ => s.preheatPct), cmd[..], debtKj));
  }

  // ---------- Energy ----------

  lemma {:induction false} SumConcat(x: seq<real>, y: seq<real>)
    ensures Sum(x + y) == Sum(x) + Sum(y)
  {
    if y == [] {
      assert x + y == x;
    } else {
      var last := |y| - 1;
      assert (x + y)[..|x| + last] == x + y[..last];
      SumConcat(x, y[..last]);
    }
  }

  lemma {:induction false} SumRepeated(n: nat, pct: real)
    ensures Sum(seq(n, _ => pct)) == n as real * pct
  {
    if n > 0 {
      assert seq(n, _ => pct)[..n - 1] == seq(n - 1, _ => pct);
      SumRepeated(n - 1, pct);
    }
  }

  lemma EnergyConcat(x: seq<real>, y: seq<real>)
    ensures EnergyKj(x + y) == EnergyKj(x) + EnergyKj(y)
  {
    SumConcat(x, y);
    hide Sum;
  }

  /** The energy of `n` steps at one command. */
  function StepsKj(n: int, pct: real): real {
    n as real * DT * pct * 12.0 / 1000.0
  }

  lemma EnergyRepeated(n: nat, pct: real)
    ensures EnergyKj(seq(n, _ => pct)) == StepsKj(n, pct)
  {
    SumRepeated(n, pct);
    hide Sum;
  }

  /** Holding back saves exactly the demand held back. */
  lemma HeldBackSaves(d: seq<real>, from: nat, until: nat)
    requires from <= until <= |d|
    ensures EnergyKj(HeldBack(d, from, until)) == EnergyKj(d) - SavedKj(d, from, until)
  {
    var zeros := seq(until - from, _ => 0.0);
    EnergyRepeated(until - from, 0.0);
    EnergyConcat(d[..from] + zeros, d[until..]);
    EnergyConcat(d[..from], zeros);
    assert d == d[..from] + d[from..until] + d[until..];
    EnergyConcat(d[..from] + d[from..until], d[until..]);
    EnergyConcat(d[..from], d[from..until]);
    hide EnergyKj;
  }

  function PlanKj(p: Plan): real {
    EnergyKj(p.pre + p.cmd)
  }

  /** The same scenario without a preheat or a lead. */
  function Plain(s: Scenario): Scenario {
    s.(preheatS := 0.0, leadS := None, repay := Never)
  }

  lemma BrewEnergy(b: Scenario)
    requires IsScenario(b) && PreheatSteps(b) >= 0
    ensures PlanKj(BrewPlan(b))
         == StepsKj(PreheatSteps(b), b.preheatPct) + EnergyKj(Demands(b)) + BrewPlan(b).debtKj - DebtKj(b)
  {
    var d := Demands(b);
    var from := RepayFrom(b, 0);
    var until := RepayUntil(d, DebtKj(b), from, from);
    HeldBackSaves(d, from, until);
    EnergyRepeated(PreheatSteps(b), b.preheatPct);
    EnergyConcat(seq(PreheatSteps(b), _ => b.preheatPct), HeldBack(d, from, until));
    hide EnergyKj, StepsKj, DebtKj, SavedKj, PreheatSteps, Demands, RepayFrom, RepayUntil, HeldBack;
  }

  lemma PlainPlan(s: Scenario)
    requires IsScenario(s) && Planned(s).Ok?
    ensures Planned(Plain(s)).Ok? && PlanKj(Planned(Plain(s)).value) == EnergyKj(Demands(Brew(s)))
  {
    var p := Brew(Plain(s));
    assert PreheatSteps(p) == 0 && DebtKj(p) == 0.0 && RepayFrom(p, 0) == |p.modes|;
    assert StepsKj(0, p.preheatPct) == 0.0;
    PlainDemands(s);
    BrewEnergy(p);
    SavedNothing(Demands(p), |p.modes|);
    hide EnergyKj, Demands, PreheatSteps, PlanKj, StepsKj, DebtKj, SavedKj, RepayFrom, HeldBack;
  }

  lemma PlainDemands(s: Scenario)
    requires IsScenario(s)
    ensures Demands(Brew(Plain(s))) == Demands(Brew(s))
  {
  }

  /**
   A repaid run costs what the run without preheat costs, plus what is left to repay, up
   to the rounding of the preheat to whole steps; so exactly that when, and only when, the
   preheat is a whole number of steps (or commands nothing).
   */
  lemma PreheatBalance(s: Scenario)
    requires IsScenario(s) && Planned(s).Ok? && s.leadS.None? && !s.repay.Never?
    ensures Planned(Plain(s)).Ok?
    ensures var p := Planned(s).value; var plain := PlanKj(Planned(Plain(s)).value);
            && PlanKj(p) == plain + p.debtKj + StepsKj(PreheatSteps(s), s.preheatPct) - DebtKj(s)
            && (PlanKj(p) == plain + p.debtKj <==> PreheatSteps(s) as real * DT == s.preheatS || s.preheatPct == 0.0)
  {
    PlainPlan(s);
    BrewEnergy(Brew(s));
    Rounding(s);
    hide EnergyKj, Demands, PreheatSteps, PlanKj, BrewPlan, StepsKj, DebtKj;
    assert DebtKj(Brew(s)) == DebtKj(s) && PreheatSteps(Brew(s)) == PreheatSteps(s) by { SameDebt(s); }
  }

  lemma SameDebt(s: Scenario)
    requires IsScenario(s)
    ensures DebtKj(Brew(s)) == DebtKj(s) && PreheatSteps(Brew(s)) == PreheatSteps(s)
  {
  }

  lemma Rounding(s: Scenario)
    requires !s.repay.Never?
    ensures StepsKj(PreheatSteps(s), s.preheatPct) == DebtKj(s)
       <==> PreheatSteps(s) as real * DT == s.preheatS || s.preheatPct == 0.0
  {
    var t, p := PreheatSteps(s) as real * DT, s.preheatPct;
    hide PreheatSteps;
    assert StepsKj(PreheatSteps(s), p) - DebtKj(s) == (t - s.preheatS) * p * 12.0 / 1000.0;
  }

  lemma KjOrder(x: real, y: real)
    requires x <= y
    ensures Kj(x) <= Kj(y)
  {
  }

  /** The demand from the trigger on covers the debt at some step. */
  predicate IsCovered(b: Scenario)
    requires IsScenario(b)
  {
    exists k :: RepayFrom(b, 0) <= k <= |b.modes| && SavedKj(Demands(b), RepayFrom(b, 0), k) >= DebtKj(b)
  }

  lemma DebtIsRepaid(b: Scenario)
    requires IsScenario(b) && PreheatSteps(b) >= 0
    ensures BrewPlan(b).debtKj <= 0.0 <==> IsCovered(b)
  {
    var d := Demands(b);
    var from := RepayFrom(b, 0);
    var until := RepayUntil(d, DebtKj(b), from, from);
    assert BrewPlan(b).debtKj == DebtKj(b) - SavedKj(d, from, until);
    hide BrewPlan, SavedKj, DebtKj, Demands, RepayFrom, RepayUntil, HeldBack, PreheatSteps, IsScenario;
    if IsCovered(b) {
      var k :| from <= k <= |b.modes| && SavedKj(d, from, k) >= DebtKj(b);
      assert k >= until;
    } else {
      assert SavedKj(d, from, until) < DebtKj(b);
    }
  }

  lemma DebtOvershoot(b: Scenario)
    requires IsScenario(b) && PreheatSteps(b) >= 0 && DebtKj(b) >= 0.0 && b.capPct > 0.0
    ensures BrewPlan(b).debtKj > -Kj(b.capPct)
  {
    var d := Demands(b);
    var from := RepayFrom(b, 0);
    var until := RepayUntil(d, DebtKj(b), from, from);
    SavedNothing(d, from);
    assert Kj(b.capPct) > 0.0;
    if until > from {
      SavedMore(d, from, until - 1);
      KjOrder(d[until - 1], b.capPct);
      assert SavedKj(d, from, until - 1) < DebtKj(b);
    }
    hide Kj, SavedKj, DebtKj;
  }

  /**
   For a preheat of whole steps, the debt overshoots by less than one step at the cap, and
   a run costs at most what it costs without preheat (and less than one step less) exactly
   when the demand after the trigger covers the preheat.
   */
  lemma RepaidWithinOneStep(s: Scenario)
    requires IsScenario(s) && Planned(s).Ok? && s.leadS.None? && !s.repay.Never?
    requires PreheatSteps(s) as real * DT == s.preheatS && s.preheatPct >= 0.0 && s.capPct > 0.0
    ensures Planned(Plain(s)).Ok?
    ensures var p := Planned(s).value; var plain := PlanKj(Planned(Plain(s)).value);
            && p.debtKj > -Kj(s.capPct)
            && (p.debtKj <= 0.0 <==> plain - Kj(s.capPct) < PlanKj(p) <= plain)
            && (p.debtKj <= 0.0 <==> IsCovered(Brew(s)))
  {
    PreheatBalance(s);
    SameDebt(s);
    DebtIsPositive(s);
    DebtIsRepaid(Brew(s));
    DebtOvershoot(Brew(s));
    hide IsCovered, EnergyKj, Demands, PreheatSteps, PlanKj, BrewPlan, StepsKj, DebtKj, Kj, SavedKj, RepayFrom;
  }

  lemma DebtIsPositive(s: Scenario)
    requires PreheatSteps(s) >= 0 && PreheatSteps(s) as real * DT == s.preheatS && s.preheatPct >= 0.0
    ensures DebtKj(s) >= 0.0
  {
    assert s.preheatS >= 0.0;
    LagFilter.Increase(0.0, s.preheatS, s.preheatPct);
    hide PreheatSteps;
  }

  // ---------- Heating ahead of the flow ----------

  /** The command of a need is issued exactly `n` steps before its water, and no need is left out. */
  lemma LeadIsShift(b: Scenario, n: nat)
    requires IsScenario(b)
    ensures var p := LeadPlan(b, n);
            && |p.pre| == n && |p.cmd| == |b.flow|
            && p.pre + p.cmd == Needs(b, 0, |b.flow|) + seq(n, _ => 0.0)
  {
    var all := LeadPlan(b, n).pre + LeadPlan(b, n).cmd;
    forall k | 0 <= k < |b.flow| + n
      ensures all[k] == Need(b, k)
    {
    }
    assert all == Needs(b, 0, |b.flow|) + seq(n, _ => 0.0);
  }

  lemma DemandsAreNeeds(b: Scenario)
    requires IsScenario(b) && b.cutS == 0.0 && LastInfusion(b.modes) >= 0
    ensures var stop := LastInfusion(b.modes) + 1;
            Demands(b) == Needs(b, 0, stop) + seq(|b.flow| - stop, _ => 0.0)
  {
    var stop := LastInfusion(b.modes) + 1;
    assert LastHeated(stop - 1, 0.0) == stop - 1;
    forall k | 0 <= k < |b.flow|
      ensures Demands(b)[k] == if k < stop then Need(b, k) else 0.0
    {
    }
    hide LastHeated;
  }

  /**
   Running ahead costs what the run without preheat and without cut costs, plus the needs
   of the flow that comes after the last infusion step, whatever the lead.
   */
  lemma LeadBalance(s: Scenario)
    requires IsScenario(s) && Planned(s).Ok? && s.leadS.Some?
    ensures var plain := Planned(Plain(s).(cutS := 0.0));
            var b := Brew(s);
            && plain.Ok?
            && PlanKj(Planned(s).value)
               == PlanKj(plain.value) + EnergyKj(Needs(b, LastInfusion(b.modes) + 1, |b.flow|))
  {
    var b, n, uncut := Brew(s), LeadSteps(s.leadS.value), Plain(s).(cutS := 0.0);
    var stop := LastInfusion(b.modes) + 1;
    assert uncut == Plain(uncut);
    PlainPlan(uncut);
    LeadIsShift(b, n);
    DemandsAreNeeds(Brew(uncut));
    NeedsSplit(b, Brew(uncut), stop);
    EnergyRepeated(n, 0.0);
    EnergyRepeated(|b.flow| - stop, 0.0);
    EnergyConcat(Needs(b, 0, |b.flow|), seq(n, _ => 0.0));
    EnergyConcat(Needs(b, 0, stop), Needs(b, stop, |b.flow|));
    EnergyConcat(Needs(b, 0, stop), seq(|b.flow| - stop, _ => 0.0));
    hide EnergyKj, Demands, BrewPlan;
  }

  lemma NeedsSplit(b: Scenario, u: Scenario, stop: nat)
    requires IsScenario(b) && IsScenario(u) && stop <= |b.flow|
    requires u.modes == b.modes && u.flow == b.flow && u.capPct == b.capPct
    ensures Needs(u, 0, stop) == Needs(b, 0, stop)
    ensures Needs(b, 0, |b.flow|) == Needs(b, 0, stop) + Needs(b, stop, |b.flow|)
  {
  }
}
