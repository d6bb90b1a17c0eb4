/**
 What the commands of the boiler scenarios are worth, told from the scenario alone: which
 steps are held back, and that the demand holds the boiler and heats the water let in.
 */
module HeatBalance {
  import opened Prelude
  import opened Preheat

  // ---------- The heat of the water ----------

  /** The flow of step `j` is heated: water is let in, and the cut has not come yet. */
  predicate IsHeated(b: Scenario, j: nat) {
    && j < |b.modes|
    && b.modes[j] in ["filling", "preinfusion", "infusion"]
    && j <= LastInfusion(b.modes) - Truncate(b.cutS / 0.1)
  }

  /** The watts that hold the boiler and warm the flow by 70.5 K. */
  function Watts(flowMlS: real): real {
    42.0 + 4.18 * 70.5 * flowMlS
  }

  /** The heating cannot follow the flow of step `j`, at 12 W per percent. */
  predicate IsCapped(b: Scenario, j: nat)
    requires IsScenario(b)
  {
    IsHeated(b, j) && Watts(b.flow[j]) > 12.0 * b.capPct
  }

  /** The seconds heated before step `n`. */
  function HeatedS(b: Scenario, n: nat): real {
    if n == 0 then 0.0 else HeatedS(b, n - 1) + if IsHeated(b, n - 1) then 0.1 else 0.0
  }

  /** The water let in while it is heated. */
  function HeatedMl(b: Scenario, n: nat): real
    requires IsScenario(b)
  {
    if n == 0 then 0.0 else HeatedMl(b, n - 1) + if IsHeated(b, n - 1) then 0.1 * b.flow[n - 1] else 0.0
  }

  /** The energy of the demand of step `j`, in joules. */
  lemma DemandExactly(b: Scenario, j: nat)
    requires IsScenario(b) && j < |b.modes|
    ensures 1000.0 * Kj(Demands(b)[j]) <= (if IsHeated(b, j) then 0.1 * Watts(b.flow[j]) else 0.0)
    ensures 1000.0 * Kj(Demands(b)[j]) == (if IsHeated(b, j) then 0.1 * Watts(b.flow[j]) else 0.0) <==> !IsCapped(b, j)
  {
    DemandIs(b, j);
    hide Demands, LastInfusion, Truncate;
  }

  lemma EnergyMore(x: seq<real>, n: nat)
    requires n < |x|
    ensures EnergyKj(x[..n + 1]) == EnergyKj(x[..n]) + Kj(x[n])
  {
    assert x[..n + 1][..n] == x[..n];
  }

  lemma {:induction false} DemandBalance(b: Scenario, n: nat)
    requires IsScenario(b) && n <= |b.modes|
    ensures var heatJ := 42.0 * HeatedS(b, n) + 4.18 * 70.5 * HeatedMl(b, n);
            var spentJ := 1000.0 * EnergyKj(Demands(b)[..n]);
            && spentJ <= heatJ && (spentJ == heatJ <==> forall j :: 0 <= j < n ==> !IsCapped(b, j))
  {
    hide IsCapped, IsHeated, Kj, Demands;
    if n > 0 {
      DemandBalance(b, n - 1);
      DemandExactly(b, n - 1);
      EnergyMore(Demands(b), n - 1);
      hide EnergyKj;
    } else {
      EnergyOfNothing(Demands(b));
    }
  }

  lemma EnergyOfNothing(x: seq<real>)
    ensures EnergyKj(x[..0]) == 0.0
  {
  }

  /**
   Without a preheat, a run spends at most what holds the boiler while it is heated, and
   warms the water let in by 70.5 K; and exactly that as long as the cap is in no step's way.
   */
  lemma HeatsTheWater(s: Scenario)
    requires IsScenario(s) && Planned(s).Ok?
    ensures Planned(Plain(s)).Ok?
    ensures var b, n := Brew(s), |Brew(s).modes|;
            var heatJ := 42.0 * HeatedS(b, n) + 4.18 * 70.5 * HeatedMl(b, n);
            var spentJ := 1000.0 * PlanKj(Planned(Plain(s)).value);
            && spentJ <= heatJ && (spentJ == heatJ <==> forall j :: 0 <= j < n ==> !IsCapped(b, j))
  {
    var b := Brew(s);
    PlainPlan(s);
    DemandBalance(b, |b.modes|);
    assert Demands(b)[..|b.modes|] == Demands(b);
    hide Planned, PlanKj, EnergyKj, IsCapped, Demands, Plain;
  }

  // ---------- The steps held back ----------

  /** The scenario starts to repay at step `from`. */
  predicate StartsAt(b: Scenario, from: nat)
    requires IsScenario(b)
  {
    && from < |b.modes| && b.modes[from] == "infusion"
    && match b.repay case Never => false case AtInfusion => true case BelowFlow => b.flow[from] < b.repayFlowMlS
  }

  predicate IsStart(b: Scenario, from: nat)
    requires IsScenario(b)
  {
    StartsAt(b, from) && forall k :: 0 <= k < from ==> !StartsAt(b, k)
  }

  /** From its start to step `j`, the demand is less than what `preheatS` seconds of preheat took. */
  predicate Owes(b: Scenario, from: nat, j: nat)
    requires IsScenario(b) && from <= j <= |b.modes|
  {
    0.1 * Sum(Demands(b)[from..j]) < b.preheatS * b.preheatPct
  }

  /** The demand of step `j` is held back exactly when, ever since the repayment began, the preheat is still owed. */
  lemma HeldExactly(b: Scenario, j: nat)
    requires IsScenario(b) && PreheatSteps(b) >= 0 && j < |b.modes|
    ensures BrewPlan(b).cmd[j] == if IsHeld(b, j) then 0.0 else Demands(b)[j]
    ensures IsHeld(b, j) <==>
            exists from: nat :: IsStart(b, from) && from <= j && forall k :: from <= k <= j ==> Owes(b, from, k)
  {
    var d := Demands(b);
    var from := RepayFrom(b, 0);
    var until := RepayUntil(d, DebtKj(b), from, from);
    assert forall k: nat | k < |b.modes| :: StartsAt(b, k) == Triggers(b, k);
    hide Demands, RepayFrom, RepayUntil, Sum, Triggers, PreheatSteps;
    if from < |b.modes| {
      assert IsStart(b, from);
      forall k: nat | from <= k <= |b.modes|
        ensures Owes(b, from, k) <==> SavedKj(d, from, k) < DebtKj(b)
      {
      }
    }
  }

  // ---------- Which scenarios run ----------

  /** Each error is raised for its own scenarios: no brew, no infusion, a preheat of less than no step. */
  lemma RunsExactly(s: Scenario)
    requires IsScenario(s)
    ensures Planned(s) == Err(NoBrew) <==> forall i :: 0 <= i < |s.modes| ==> s.modes[i] == "thermal_preheat"
    ensures Planned(s) == Err(NoInfusion)
       <==> "infusion" !in s.modes && exists i :: 0 <= i < |s.modes| && s.modes[i] != "thermal_preheat"
    ensures Planned(s) == Err(NegativePreheat)
       <==> "infusion" in s.modes
            && match s.leadS case None => s.preheatS < -0.05 case Some(lead) => lead <= -0.1
  {
    var from := BrewStart(s.modes);
    var b := Brew(s);
    InfusionIsBrewed(s.modes, from);
    assert LastInfusion(b.modes) < 0 <==> "infusion" !in b.modes;
    assert PreheatSteps(s) < 0 <==> s.preheatS < -0.05 by { StepsBelowNothing(s.preheatS); }
    hide BrewStart, LastInfusion, BrewPlan, LeadPlan, PreheatSteps;
  }

  lemma InfusionIsBrewed(modes: seq<string>, from: nat)
    requires from <= |modes| && forall k :: 0 <= k < from ==> modes[k] == "thermal_preheat"
    ensures "infusion" in modes <==> "infusion" in modes[from..]
  {
    if "infusion" in modes {
      var i :| 0 <= i < |modes| && modes[i] == "infusion";
      assert i >= from && modes[from..][i - from] == "infusion";
    }
  }

  lemma StepsBelowNothing(preheatS: real)
    ensures RoundHalfEven(preheatS / 0.1) < 0 <==> preheatS < -0.05
  {
    assert preheatS / 0.1 == 10.0 * preheatS;
  }

  /** The preheat is its command for the nearest number of steps of 0.1 s; with a lead, the steps within it. */
  lemma PreheatExactly(s: Scenario)
    requires IsScenario(s) && Planned(s).Ok?
    ensures var p := Planned(s).value;
            && |p.cmd| == |Brew(s).modes|
            && match s.leadS
               case None =>
                 && 10.0 * s.preheatS - 0.5 <= |p.pre| as real <= 10.0 * s.preheatS + 0.5
                 && forall i :: 0 <= i < |p.pre| ==> p.pre[i] == s.preheatPct
               case Some(lead) =>
                 && (if lead > 0.0 then |p.pre| as real <= 10.0 * lead < |p.pre| as real + 1.0 else p.pre == [])
                 && p.debtKj == 0.0
  {
    assert s.preheatS / 0.1 == 10.0 * s.preheatS;
    if s.leadS.Some? { assert s.leadS.value / 0.1 == 10.0 * s.leadS.value; }
    hide BrewStart, LastInfusion, HeldBack, RepayFrom, RepayUntil, Demands, DebtKj, SavedKj, Need;
  }
}
