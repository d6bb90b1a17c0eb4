/** The boiler model's lag: a dead time and a chain of first-order filters. */
module LagFilter {
  import opened Prelude

  const DT := 0.1

  /** The filter's weight for a time constant. */
  function Alpha(tauS: real): real
    requires tauS + DT != 0.0
  {
    DT / (tauS + DT)
  }

  /** How many of `n` values Python's slice `x[:m]` keeps; a negative `m` counts from the end. */
  function SliceEnd(n: nat, m: int): (kept: nat)
    ensures kept <= n
  {
    var end := if m < 0 then n + m else m;
    if end < 0 then 0 else if end > n then n else end
  }

  /** The signal `k` steps later, starting with its first value held. */
  function Delayed(x: seq<real>, k: nat): (y: seq<real>)
    requires x != []
    ensures |y| == k + SliceEnd(|x|, |x| - k)
    ensures forall i :: 0 <= i < |y| ==> y[i] == if i < k then x[0] else x[i - k]
  {
    seq(k, _ => x[0]) + x[..SliceEnd(|x|, |x| - k)]
  }

  /** One filtered value: the one before, moved towards the input. */
  function Filtered(y: seq<real>, a: real, i: nat): real
    requires i < |y|
  {
    if i == 0 then y[0]
    else
      var before := Filtered(y, a, i - 1);
      before + Move(a, y[i], before)
  }

  function Move(a: real, target: real, from: real): real {
    Scaled(a, target - from)
  }

  function Scaled(a: real, d: real): real {
    a * d
  }

  function Smoothed(y: seq<real>, a: real): (z: seq<real>)
    ensures |z| == |y| && forall i :: 0 <= i < |y| ==> z[i] == Filtered(y, a, i)
  {
    seq(|y|, i requires 0 <= i < |y| => Filtered(y, a, i))
  }

  function Chain(y: seq<real>, a: real, order: nat): (z: seq<real>)
    ensures |z| == |y|
  {
    if order == 0 then y else Smoothed(Chain(y, a, order - 1), a)
  }

  /** The dead time in steps; a negative one counts as none. */
  function DeadSteps(deadS: real): nat {
    var k := RoundHalfEven(deadS / DT);
    if k > 0 then k else 0
  }

  /** A dead time not longer than the signal. */
  predicate FitsIn(x: seq<real>, deadS: real) {
    x != [] && DeadSteps(deadS) <= |x|
  }

  function Lag(x: seq<real>, deadS: real, tauS: real, order: nat): seq<real>
    requires x != [] && tauS + DT != 0.0
  {
    Chain(Delayed(x, DeadSteps(deadS)), Alpha(tauS), order)
  }

  /** One pass of the filter, filling a new array from left to right. */
  method FilterOnce(y: array<real>, a: real) returns (z: array<real>)
    requires y.Length > 0
    ensures fresh(z) && z[..] == Smoothed(y[..], a)
  {
    z := new real[y.Length];
    z[0] := y[0];
    for i := 1 to y.Length
      invariant forall j :: 0 <= j < i ==> z[j] == Filtered(y[..], a, j)
    {
      z[i] := z[i - 1] + Move(a, y[i], z[i - 1]);
    }
  }

  /** The passes of the filter, each over the array left by the one before. */
  method FilterTimes(x: seq<real>, a: real, order: nat) returns (z: seq<real>)
    requires x != []
    ensures z == Chain(x, a, order)
  {
    var y := new real[|x|](i requires 0 <= i < |x| => x[i]);
    assert y[..] == x;
    hide Smoothed, Filtered;
    for n := 0 to order
      invariant y.Length > 0 && y[..] == Chain(x, a, n)
    {
      y := FilterOnce(y, a);
    }
    z := y[..];
  }

  /** `NoSample`: IndexError, for the first value of an empty signal. */
  datatype Error = NoSample

  /** `lag`. An empty signal is given back only when nothing looks at its first value. */
  method LagSignal(x: seq<real>, deadS: real, tauS: real, order: nat) returns (r: Result<seq<real>, Error>)
    requires tauS + DT != 0.0
    ensures r == if x != [] then Ok(Lag(x, deadS, tauS, order))
                 else if DeadSteps(deadS) > 0 || order > 0 then Err(NoSample)
                 else Ok([])
  {
    var k := RoundHalfEven(deadS / DT);
    if x == [] {
      if k > 0 || order > 0 { return Err(NoSample); }
      return Ok([]);
    }
    var delayed := if k > 0 then seq(k, _ => x[0]) + x[..SliceEnd(|x|, |x| - k)] else x;
    assert delayed == Delayed(x, DeadSteps(deadS));
    hide Delayed, Chain, DeadSteps, RoundHalfEven, SliceEnd;
    var z := FilterTimes(delayed, DT / (tauS + DT), order);
    r := Ok(z);
  }

  // ---------- Laws ----------

  predicate IsBetween(x: seq<real>, lo: real, hi: real) {
    forall i :: 0 <= i < |x| ==> lo <= x[i] <= hi
  }

  predicate IsRising(x: seq<real>) {
    forall i :: 0 < i < |x| ==> x[i - 1] <= x[i]
  }

  predicate IsBelow(x: seq<real>, y: seq<real>) {
    |x| == |y| && forall i :: 0 <= i < |x| ==> x[i] <= y[i]
  }

  /** One value of a combination of two signals. */
  function Mix(s: real, x: real, t: real, y: real): real {
    s * x + t * y
  }

  function Combined(s: real, x: seq<real>, t: real, y: seq<real>): (z: seq<real>)
    requires |x| == |y|
    ensures |z| == |x| && forall i :: 0 <= i < |x| ==> z[i] == Mix(s, x[i], t, y[i])
  {
    seq(|x|, i requires 0 <= i < |x| => Mix(s, x[i], t, y[i]))
  }

  lemma AlphaIsWeight(tauS: real)
    requires tauS > 0.0
    ensures 0.0 < Alpha(tauS) < 1.0
  {
    Quotient(DT, tauS + DT);
  }

  lemma Quotient(x: real, y: real)
    requires y > 0.0
    ensures x / y * y == x
    ensures 0.0 < x < y ==> 0.0 < x / y < 1.0
  {
    var q := x / y;
    if q <= 0.0 { Increase(q, 0.0, y); }
    if q >= 1.0 { Increase(1.0, q, y); }
  }

  lemma LargerTauSmallerAlpha(tauS: real, tauS': real)
    requires 0.0 < tauS <= tauS'
    ensures Alpha(tauS') <= Alpha(tauS)
  {
    var a, b := Alpha(tauS), Alpha(tauS');
    Quotient(DT, tauS + DT);
    Quotient(DT, tauS' + DT);
    if b > a {
      Increase(a, b, tauS + DT);
      Increase(tauS + DT, tauS' + DT, b);
    }
  }

  lemma Increase(a: real, b: real, c: real)
    requires 0.0 <= c && a <= b
    ensures a * c <= b * c && c * a <= c * b
    ensures a < b && c > 0.0 ==> a * c < b * c
  {
    assert (b - a) * c >= 0.0;
  }

  lemma Part(a: real, d: real)
    requires 0.0 <= a <= 1.0 && 0.0 <= d
    ensures 0.0 <= Scaled(a, d) <= d
  {
    Increase(0.0, a, d);
    Increase(a, 1.0, d);
  }

  lemma Negate(a: real, d: real)
    ensures Scaled(a, -d) == -Scaled(a, d)
  {
  }

  lemma Rise(a: real, target: real, from: real)
    requires 0.0 <= a <= 1.0 && from <= target
    ensures 0.0 <= Move(a, target, from) <= target - from
  {
    Part(a, target - from);
    hide Scaled;
  }

  lemma MoveBack(a: real, target: real, from: real)
    ensures Move(a, target, from) == -Move(a, from, target)
  {
    Negate(a, target - from);
    assert from - target == -(target - from);
    hide Scaled;
  }

  /** Moving part of the way stays between the two values. */
  lemma MoveBetween(a: real, from: real, target: real)
    requires 0.0 <= a <= 1.0
    ensures from <= target ==> from <= from + Move(a, target, from) <= target
    ensures from >= target ==> target <= from + Move(a, target, from) <= from
  {
    hide Move;
    if from <= target { Rise(a, target, from); }
    if from >= target {
      Rise(a, from, target);
      MoveBack(a, target, from);
    }
  }

  lemma {:induction false} FilteredBetween(y: seq<real>, a: real, i: nat, lo: real, hi: real)
    requires i < |y| && 0.0 <= a <= 1.0 && IsBetween(y, lo, hi)
    ensures lo <= Filtered(y, a, i) <= hi
  {
    if i > 0 {
      FilteredBetween(y, a, i - 1, lo, hi);
      MoveBetween(a, Filtered(y, a, i - 1), y[i]);
      hide Move;
    }
  }

  lemma {:induction false} FilteredRises(y: seq<real>, a: real, i: nat)
    requires i < |y| && 0.0 <= a <= 1.0 && IsRising(y)
    ensures Filtered(y, a, i) <= y[i]
    ensures i > 0 ==> Filtered(y, a, i - 1) <= Filtered(y, a, i)
  {
    if i > 0 {
      FilteredRises(y, a, i - 1);
      assert y[i - 1] <= y[i];
      MoveBetween(a, Filtered(y, a, i - 1), y[i]);
      hide Move;
    }
  }

  lemma MoveIsLinear(a: real, s: real, t: real, x: real, y: real, p: real, q: real)
    ensures Move(a, s * x + t * y, s * p + t * q) == s * Move(a, x, p) + t * Move(a, y, q)
  {
    assert s * x + t * y - (s * p + t * q) == s * (x - p) + t * (y - q);
    assert a * (s * (x - p)) == s * (a * (x - p));
    assert a * (t * (y - q)) == t * (a * (y - q));
  }

  lemma MixMoves(a: real, s: real, t: real, x: real, y: real, p: real, q: real)
    ensures Mix(s, p, t, q) + Move(a, Mix(s, x, t, y), Mix(s, p, t, q))
         == Mix(s, p + Move(a, x, p), t, q + Move(a, y, q))
  {
    MoveIsLinear(a, s, t, x, y, p, q);
    Distribute(s, p, Move(a, x, p));
    Distribute(t, q, Move(a, y, q));
    hide Move;
  }

  lemma {:induction false} FilteredIsLinear(s: real, x: seq<real>, t: real, y: seq<real>, a: real, i: nat)
    requires i < |x| == |y|
    ensures Filtered(Combined(s, x, t, y), a, i) == Mix(s, Filtered(x, a, i), t, Filtered(y, a, i))
  {
    if i > 0 {
      FilteredIsLinear(s, x, t, y, a, i - 1);
      MixMoves(a, s, t, x[i], y[i], Filtered(x, a, i - 1), Filtered(y, a, i - 1));
    }
    hide Move, Mix;
  }

  lemma Distribute(s: real, p: real, m: real)
    ensures s * (p + m) == s * p + s * m
  {
  }

  /** Moving is a weighted mean of where one is and where one goes. */
  lemma MoveIsMean(a: real, target: real, from: real)
    ensures from + Move(a, target, from) == Mix(1.0 - a, from, a, target)
  {
    Distribute(a, target, -from);
    Distribute(from, 1.0, -a);
  }

  lemma MixOrder(s: real, p: real, q: real, t: real, y: real, w: real)
    requires 0.0 <= s && 0.0 <= t && p <= q && y <= w
    ensures Mix(s, p, t, y) <= Mix(s, q, t, w)
  {
    Increase(p, q, s);
    Increase(y, w, t);
  }

  lemma MoveFaster(a: real, b: real, target: real, from: real)
    requires a <= b && from <= target
    ensures Move(a, target, from) <= Move(b, target, from)
  {
    MoreIsMore(a, b, target - from);
    hide Scaled;
  }

  lemma MoreIsMore(a: real, b: real, d: real)
    requires a <= b && 0.0 <= d
    ensures Scaled(a, d) <= Scaled(b, d)
  {
    Increase(a, b, d);
  }

  /** A weaker filter of a smaller value stays below, when the value has room to rise. */
  lemma MoveOrder(a: real, b: real, y: real, w: real, p: real, q: real)
    requires 0.0 <= a <= b <= 1.0 && p <= q && y <= w && p <= y
    ensures p + Move(a, y, p) <= q + Move(b, w, q)
  {
    MoveFaster(a, b, y, p);
    MoveIsMean(b, y, p);
    MoveIsMean(b, w, q);
    MixOrder(1.0 - b, p, q, b, y, w);
    hide Move, Mix;
  }

  lemma {:induction false} FilteredOrder(y: seq<real>, w: seq<real>, a: real, b: real, i: nat)
    requires i < |y| && IsBelow(y, w) && IsRising(y) && 0.0 <= a <= b <= 1.0
    ensures Filtered(y, a, i) <= Filtered(w, b, i)
  {
    if i > 0 {
      FilteredOrder(y, w, a, b, i - 1);
      FilteredRises(y, a, i - 1);
      assert y[i - 1] <= y[i];
      MoveOrder(a, b, y[i], w[i], Filtered(y, a, i - 1), Filtered(w, b, i - 1));
      hide Move;
    }
  }

  lemma SmoothedLaws(z: seq<real>, a: real, lo: real, hi: real)
    requires 0.0 <= a <= 1.0 && IsBetween(z, lo, hi)
    ensures IsBetween(Smoothed(z, a), lo, hi)
    ensures IsRising(z) ==> IsRising(Smoothed(z, a)) && IsBelow(Smoothed(z, a), z)
  {
    forall i | 0 <= i < |z|
      ensures lo <= Filtered(z, a, i) <= hi
      ensures IsRising(z) ==> Filtered(z, a, i) <= z[i] && (i > 0 ==> Filtered(z, a, i - 1) <= Filtered(z, a, i))
    {
      FilteredBetween(z, a, i, lo, hi);
      if IsRising(z) { FilteredRises(z, a, i); }
    }
    var r := Smoothed(z, a);
    forall i | 0 <= i < |z| && IsRising(z)
      ensures r[i] <= z[i] && (i > 0 ==> r[i - 1] <= r[i])
    {
      assert Filtered(z, a, i) <= z[i];
    }
  }

  lemma IsBelowThrough(x: seq<real>, y: seq<real>, z: seq<real>)
    requires IsBelow(x, y) && IsBelow(y, z)
    ensures IsBelow(x, z)
  {
    forall i | 0 <= i < |x|
      ensures x[i] <= z[i]
    {
      assert y[i] <= z[i];
    }
  }

  lemma {:induction false} ChainLaws(y: seq<real>, a: real, order: nat, lo: real, hi: real)
    requires 0.0 <= a <= 1.0 && IsBetween(y, lo, hi)
    ensures IsBetween(Chain(y, a, order), lo, hi)
    ensures IsRising(y) ==> IsRising(Chain(y, a, order)) && IsBelow(Chain(y, a, order), y)
  {
    if order > 0 {
      ChainLaws(y, a, order - 1, lo, hi);
      var z := Chain(y, a, order - 1);
      SmoothedLaws(z, a, lo, hi);
      if IsRising(y) { IsBelowThrough(Smoothed(z, a), z, y); }
    }
  }

  lemma {:induction false} ChainOrder(y: seq<real>, w: seq<real>, a: real, b: real, order: nat, lo: real, hi: real)
    requires IsBelow(y, w) && IsRising(y) && 0.0 <= a <= b <= 1.0 && IsBetween(y, lo, hi)
    ensures IsBelow(Chain(y, a, order), Chain(w, b, order))
  {
    if order > 0 {
      ChainOrder(y, w, a, b, order - 1, lo, hi);
      ChainLaws(y, a, order - 1, lo, hi);
      var p, q := Chain(y, a, order - 1), Chain(w, b, order - 1);
      forall i | 0 <= i < |y|
        ensures Smoothed(p, a)[i] <= Smoothed(q, b)[i]
      {
        FilteredOrder(p, q, a, b, i);
      }
    }
  }

  lemma SmoothedIsLinear(s: real, p: seq<real>, t: real, q: seq<real>, a: real)
    requires |p| == |q|
    ensures Smoothed(Combined(s, p, t, q), a) == Combined(s, Smoothed(p, a), t, Smoothed(q, a))
  {
    forall i | 0 <= i < |p|
      ensures Smoothed(Combined(s, p, t, q), a)[i] == Mix(s, Filtered(p, a, i), t, Filtered(q, a, i))
    {
      FilteredIsLinear(s, p, t, q, a, i);
      hide Filtered, Mix;
    }
    hide Filtered, Mix;
  }

  lemma {:induction false} ChainIsLinear(s: real, x: seq<real>, t: real, y: seq<real>, a: real, order: nat)
    requires |x| == |y|
    ensures Chain(Combined(s, x, t, y), a, order) == Combined(s, Chain(x, a, order), t, Chain(y, a, order))
  {
    if order > 0 {
      ChainIsLinear(s, x, t, y, a, order - 1);
      var p, q := Chain(x, a, order - 1), Chain(y, a, order - 1);
      SmoothedIsLinear(s, p, t, q, a);
    }
  }

  lemma {:induction false} RisingOrder(x: seq<real>, i: nat, j: nat)
    requires IsRising(x) && i <= j < |x|
    ensures x[i] <= x[j]
  {
    if i < j { RisingOrder(x, i, j - 1); }
  }

  lemma DelayedRises(x: seq<real>, k: nat)
    requires x != [] && IsRising(x)
    ensures IsRising(Delayed(x, k)) && (k <= |x| ==> IsBelow(Delayed(x, k), x))
  {
    var y := Delayed(x, k);
    forall i | 0 <= i < |y|
      ensures i > 0 ==> y[i - 1] <= y[i]
      ensures i < |x| ==> y[i] <= x[i]
    {
      if i < |x| { RisingOrder(x, if i < k then 0 else i - k, i); }
    }
  }

  /**
   For any dead time, any positive time constant and any order: the output stays in the
   range of the input; a rising input gives a rising output, and a slower filter stays
   below a faster one. The output is as long as the input exactly when the dead time is
   not longer, and then a rising input is never overtaken.
   */
  lemma LagLaws(x: seq<real>, deadS: real, tauS: real, order: nat, lo: real, hi: real)
    requires x != [] && tauS > 0.0 && IsBetween(x, lo, hi)
    ensures var r := Lag(x, deadS, tauS, order);
            && (|r| == |x| <==> FitsIn(x, deadS)) && IsBetween(r, lo, hi)
            && (IsRising(x) ==> IsRising(r) && (FitsIn(x, deadS) ==> IsBelow(r, x))
                                && forall slower :: slower >= tauS ==> IsBelow(Lag(x, deadS, slower, order), r))
  {
    var y := Delayed(x, DeadSteps(deadS));
    AlphaIsWeight(tauS);
    assert IsBetween(y, lo, hi);
    ChainLaws(y, Alpha(tauS), order, lo, hi);
    if IsRising(x) {
      DelayedRises(x, DeadSteps(deadS));
      forall slower | slower >= tauS
        ensures IsBelow(Lag(x, deadS, slower, order), Lag(x, deadS, tauS, order))
      {
        AlphaIsWeight(slower);
        LargerTauSmallerAlpha(tauS, slower);
        hide Alpha;
        ChainOrder(y, y, Alpha(slower), Alpha(tauS), order, lo, hi);
      }
    }
  }

  lemma DelayedIsLinear(s: real, x: seq<real>, t: real, y: seq<real>, k: nat)
    requires x != [] && |x| == |y|
    ensures Delayed(Combined(s, x, t, y), k) == Combined(s, Delayed(x, k), t, Delayed(y, k))
  {
    forall i | 0 <= i < k + SliceEnd(|x|, |x| - k)
      ensures Delayed(Combined(s, x, t, y), k)[i] == Combined(s, Delayed(x, k), t, Delayed(y, k))[i]
    {
      hide Mix;
    }
  }

  /** The lag of a combination of signals is the combination of their lags. */
  lemma LagIsLinear(s: real, x: seq<real>, t: real, y: seq<real>, deadS: real, tauS: real, order: nat)
    requires x != [] && |x| == |y| && tauS + DT != 0.0
    ensures Lag(Combined(s, x, t, y), deadS, tauS, order)
         == Combined(s, Lag(x, deadS, tauS, order), t, Lag(y, deadS, tauS, order))
  {
    var k := DeadSteps(deadS);
    DelayedIsLinear(s, x, t, y, k);
    ChainIsLinear(s, Delayed(x, k), t, Delayed(y, k), Alpha(tauS), order);
  }

  // ---------- The filter as an equation ----------

  lemma AlphaTimes(tauS: real, w: real, d: real)
    requires tauS + 0.1 != 0.0 && w == Alpha(tauS)
    ensures (tauS + 0.1) * (w * d) == 0.1 * d
  {
    assert w * (tauS + 0.1) == 0.1;
    assert (tauS + 0.1) * (w * d) == (w * (tauS + 0.1)) * d;
  }

  /** One filtered value as the solution of an equation between rates. */
  lemma FilteredSolves(y: seq<real>, tauS: real, i: nat, z: real, before: real)
    requires 0 < i < |y| && tauS + 0.1 != 0.0
    requires z == Filtered(y, Alpha(tauS), i) && before == Filtered(y, Alpha(tauS), i - 1)
    ensures tauS * (z - before) == 0.1 * (y[i] - z)
  {
    AlphaTimes(tauS, Alpha(tauS), y[i] - before);
    hide Filtered, Alpha;
    var step := z - before;
    assert step == Alpha(tauS) * (y[i] - before) by { FilteredStep(y, Alpha(tauS), i); }
    Distribute(step, tauS, 0.1);
  }

  lemma FilteredStep(y: seq<real>, a: real, i: nat)
    requires 0 < i < |y|
    ensures Filtered(y, a, i) - Filtered(y, a, i - 1) == a * (y[i] - Filtered(y, a, i - 1))
  {
  }

  /**
   The lag of any order is its input put through the first-order equation once more:
   tau times the change of the output is one step of 0.1 s times what is missing to the
   input. It starts at the first value, and of order nothing it is the delayed signal.
   */
  lemma LagSolves(x: seq<real>, deadS: real, tauS: real, order: nat, i: nat)
    requires x != [] && tauS + 0.1 != 0.0
    requires order > 0 && i < |Lag(x, deadS, tauS, order)|
    ensures |Lag(x, deadS, tauS, order)| == |Lag(x, deadS, tauS, order - 1)|
    ensures var y, z := Lag(x, deadS, tauS, order - 1), Lag(x, deadS, tauS, order);
            if i == 0 then z[0] == y[0] else tauS * (z[i] - z[i - 1]) == 0.1 * (y[i] - z[i])
  {
    hide Alpha, Filtered, Delayed;
    LagMore(x, deadS, tauS, order, i);
    hide Lag;
    var y, a := Lag(x, deadS, tauS, order - 1), Alpha(tauS);
    if i > 0 {
      LagMore(x, deadS, tauS, order, i - 1);
      FilteredSolves(y, tauS, i, Filtered(y, a, i), Filtered(y, a, i - 1));
    } else {
      FilteredStart(y, a);
    }
  }

  lemma LagMore(x: seq<real>, deadS: real, tauS: real, order: nat, i: nat)
    requires x != [] && tauS + 0.1 != 0.0 && order > 0 && i < |Lag(x, deadS, tauS, order)|
    ensures var y := Lag(x, deadS, tauS, order - 1);
            && |Lag(x, deadS, tauS, order)| == |y|
            && Lag(x, deadS, tauS, order)[i] == Filtered(y, Alpha(tauS), i)
  {
    hide Alpha, Filtered, Delayed;
  }

  lemma FilteredStart(y: seq<real>, a: real)
    requires y != []
    ensures Filtered(y, a, 0) == y[0]
  {
  }

  /**
   The dead time is that many steps of 0.1 s, to the nearest one. A dead time longer than the
   signal makes it longer: the slice that should cut it counts from the end.
   */
  lemma LagOfNothing(x: seq<real>, deadS: real, tauS: real, i: nat)
    requires x != [] && tauS + 0.1 != 0.0 && i < |Lag(x, deadS, tauS, 0)|
    ensures var k := DeadSteps(deadS);
            && Lag(x, deadS, tauS, 0)[i] == (if i < k then x[0] else x[i - k])
            && |Lag(x, deadS, tauS, 0)| == (if k <= |x| then |x| else if k <= 2 * |x| then 2 * |x| else k)
            && (deadS >= 0.0 ==> 10.0 * deadS - 0.5 <= k as real <= 10.0 * deadS + 0.5)
            && (deadS <= 0.0 ==> k == 0)
  {
    assert deadS / 0.1 == 10.0 * deadS;
  }

  function Power(r: real, n: nat): real {
    if n == 0 then 1.0 else r * Power(r, n - 1)
  }

  lemma {:induction false} StepShrinks(y: seq<real>, tauS: real, i: nat)
    requires i < |y| && tauS + 0.1 != 0.0
    requires y[0] == 0.0 && forall j :: 0 < j < |y| ==> y[j] == 1.0
    ensures 1.0 - Filtered(y, Alpha(tauS), i) == Power(tauS / (tauS + 0.1), i)
  {
    if i > 0 {
      StepShrinks(y, tauS, i - 1);
      var r, before := tauS / (tauS + 0.1), Filtered(y, Alpha(tauS), i - 1);
      FilteredStep(y, Alpha(tauS), i);
      OtherWeight(tauS);
      assert 1.0 - Filtered(y, Alpha(tauS), i) == (1.0 - Alpha(tauS)) * (1.0 - before);
      hide Filtered, Alpha;
    }
  }

  /** After a unit step, what is missing to one shrinks by tau / (tau + 0.1) with every step of 0.1 s. */
  lemma StepResponse(x: seq<real>, tauS: real, i: nat)
    requires i < |x| && tauS + 0.1 != 0.0
    requires x[0] == 0.0 && forall j :: 0 < j < |x| ==> x[j] == 1.0
    ensures |Lag(x, 0.0, tauS, 1)| == |x|
    ensures 1.0 - Lag(x, 0.0, tauS, 1)[i] == Power(tauS / (tauS + 0.1), i)
  {
    assert DeadSteps(0.0) == 0;
    assert Delayed(x, 0) == x;
    StepShrinks(x, tauS, i);
    hide Alpha, Power;
    LagMore(x, 0.0, tauS, 1, i);
  }

  lemma OtherWeight(tauS: real)
    requires tauS + 0.1 != 0.0
    ensures 1.0 - Alpha(tauS) == tauS / (tauS + 0.1)
  {
    assert (tauS + 0.1) / (tauS + 0.1) == 1.0;
  }
}
