/**
 The centred derivative of the weight over a time window: a sweep with two
 pointers, and what it computes on sorted times.
 */
module WeightFlow {
  import opened Prelude

  /** A weight, or `None` where it is masked. */
  type Weights = seq<Option<real>>

  predicate IsSorted(times: seq<real>) {
    forall i, j :: 0 <= i <= j < |times| ==> times[i] <= times[j]
  }

  /** Sample `j` lies within half a window of sample `i`. */
  predicate IsNear(times: seq<real>, half: real, i: nat, j: int)
    requires i < |times|
  {
    0 <= j < |times| && times[i] - half <= times[j] <= times[i] + half
  }

  /** `[a, b)` holds exactly the samples near `i`. */
  ghost predicate IsWindow(times: seq<real>, half: real, i: nat, a: int, b: int)
    requires i < |times|
  {
    0 <= a <= i < b <= |times| && forall j :: 0 <= j < |times| ==> (IsNear(times, half, i, j) <==> a <= j < b)
  }

  predicate IsUnmasked(weights: Weights, a: int, b: int) {
    0 <= a <= b <= |weights| && forall j :: a <= j < b ==> weights[j].Some?
  }

  /** The end-to-end slope over `[a, b)`. */
  function Slope(times: seq<real>, weights: Weights, a: int, b: int): real
    requires |times| == |weights| && IsUnmasked(weights, a, b) && a < b && times[b - 1] != times[a]
  {
    (weights[b - 1].value - weights[a].value) / (times[b - 1] - times[a])
  }

  /**
   The flow at sample `i`: the slope over all samples near it, when there is one on
   each side, some time between the outermost two, and no masked weight.
   */
  ghost predicate IsFlow(times: seq<real>, weights: Weights, half: real, i: nat, flow: Option<real>)
    requires i < |times| == |weights|
  {
    exists a, b :: IsWindow(times, half, i, a, b) &&
      if a < i < b - 1 && IsUnmasked(weights, a, b) && times[b - 1] > times[a]
      then flow == Some(Slope(times, weights, a, b))
      else flow.None?
  }

  /** A pointer that stops at the first sample from `start` on that is not before `bound`. */
  method AdvanceLeft(times: seq<real>, start: nat, bound: real) returns (left: nat)
    requires start <= |times|
    ensures start <= left <= |times| && (left < |times| ==> times[left] >= bound)
    ensures forall j :: start <= j < left ==> times[j] < bound
  {
    left := start;
    while left < |times| && times[left] < bound
      invariant start <= left <= |times|
      invariant forall j :: start <= j < left ==> times[j] < bound
    {
      left := left + 1;
    }
  }

  /** A pointer that stops at the first sample from `start` on that is after `bound`. */
  method AdvanceRight(times: seq<real>, start: nat, bound: real) returns (right: nat)
    requires start <= |times|
    ensures start <= right <= |times| && (right < |times| ==> times[right] > bound)
    ensures forall j :: start <= j < right ==> times[j] <= bound
  {
    right := start;
    while right < |times| && times[right] <= bound
      invariant start <= right <= |times|
      invariant forall j :: start <= j < right ==> times[j] <= bound
    {
      right := right + 1;
    }
  }

  /** On sorted times, the two pointers enclose exactly the near samples. */
  lemma PointersAreWindow(times: seq<real>, half: real, i: nat, left: nat, right: nat)
    requires i < |times| && IsSorted(times) && half > 0.0 && left <= |times| && right <= |times|
    requires forall j :: 0 <= j < left ==> times[j] < times[i] - half
    requires left < |times| ==> times[left] >= times[i] - half
    requires forall j :: 0 <= j < right ==> times[j] <= times[i] + half
    requires right < |times| ==> times[right] > times[i] + half
    ensures IsWindow(times, half, i, left, right)
  {
  }

  /** The flow at sample `i` between the two pointers. */
  method FlowAt(times: seq<real>, weights: Weights, i: nat, left: nat, right: nat) returns (flow: Option<real>)
    requires i < |times| == |weights| && left <= |times| && right <= |times|
    ensures if left < i < right - 1 && IsUnmasked(weights, left, right) && times[right - 1] > times[left]
            then flow == Some(Slope(times, weights, left, right)) else flow.None?
  {
    flow := None;
    var last := right - 1;
    if left < i < last && IsUnmasked(weights, left, right) {
      var elapsed := times[last] - times[left];
      if elapsed > 0.0 { flow := Some((weights[last].value - weights[left].value) / elapsed); }
    }
  }

  /** `weight_flow_g_s`; `None` for the error of a window that is not positive. */
  method WeightFlowGS(times: seq<real>, weights: Weights, window: real) returns (r: Option<seq<Option<real>>>)
    requires |times| == |weights|
    ensures r.None? <==> window <= 0.0
    ensures r.Some? ==> |r.value| == |times|
    ensures r.Some? && IsSorted(times) ==>
              forall i :: 0 <= i < |times| ==> IsFlow(times, weights, window / 2.0, i, r.value[i])
  {
    if window <= 0.0 { return None; }
    var half := window / 2.0;
    var flow: seq<Option<real>> := seq(|times|, _ => None);
    var left, right := 0, 0;
    hide IsFlow, IsWindow, IsUnmasked, Slope;
    for i := 0 to |times|
      invariant |flow| == |times| && 0 <= left <= |times| && 0 <= right <= |times|
      invariant IsSorted(times) ==> ArePassed(times, left, right, i, half)
      invariant forall k :: i <= k < |times| ==> flow[k].None?
      invariant IsSorted(times) ==> forall k :: 0 <= k < i ==> IsFlow(times, weights, half, k, flow[k])
    {
      ghost var before := flow;
      if IsSorted(times) { StillPassed(times, left, right, i, half); }
      hide IsSorted;
      left := AdvanceLeft(times, left, times[i] - half);
      right := AdvanceRight(times, right, times[i] + half);
      if IsSorted(times) { PointersAreWindow(times, half, i, left, right); }
      var here := FlowAt(times, weights, i, left, right);
      if here.Some? { flow := flow[i := here]; }
      if IsSorted(times) { FlowIs(times, weights, half, i, left, right, flow[i]); }
      assert forall k :: 0 <= k < |times| && k != i ==> flow[k] == before[k];
    }
    return Some(flow);
  }

  /** Before sample `i`, the pointers have passed only what lies before its window, and what it may hold. */
  predicate ArePassed(times: seq<real>, left: nat, right: nat, i: nat, half: real)
    requires i <= |times| && left <= |times| && right <= |times|
  {
    if i == 0 then left == right == 0
    else (forall j :: 0 <= j < left ==> times[j] < times[i - 1] - half)
         && forall j :: 0 <= j < right ==> times[j] <= times[i - 1] + half
  }

  lemma StillPassed(times: seq<real>, left: nat, right: nat, i: nat, half: real)
    requires IsSorted(times) && i < |times| && left <= |times| && right <= |times|
    requires ArePassed(times, left, right, i, half)
    ensures forall j :: 0 <= j < left ==> times[j] < times[i] - half
    ensures forall j :: 0 <= j < right ==> times[j] <= times[i] + half
  {
    assert i > 0 ==> times[i - 1] <= times[i];
  }

  lemma FlowIs(times: seq<real>, weights: Weights, half: real, i: nat, a: int, b: int, flow: Option<real>)
    requires i < |times| == |weights| && IsWindow(times, half, i, a, b)
    requires if a < i < b - 1 && IsUnmasked(weights, a, b) && times[b - 1] > times[a]
             then flow == Some(Slope(times, weights, a, b))
             else flow.None?
    ensures IsFlow(times, weights, half, i, flow)
  {
  }

  // ---------- Laws of the derivative ----------

  /** Between neighbours from `a` to `b`, the weight rises by at least `lo` and at most `hi` grams a second. */
  predicate SlopesBetween(times: seq<real>, weights: Weights, a: int, b: int, lo: real, hi: real)
    requires |times| == |weights| && IsUnmasked(weights, a, b)
  {
    forall j :: a <= j < b - 1 ==>
      lo * (times[j + 1] - times[j]) <= weights[j + 1].value - weights[j].value <= hi * (times[j + 1] - times[j])
  }

  lemma {:induction false} RiseBetween(times: seq<real>, weights: Weights, a: int, b: int, lo: real, hi: real)
    requires |times| == |weights| && IsUnmasked(weights, a, b) && a < b && SlopesBetween(times, weights, a, b, lo, hi)
    ensures lo * (times[b - 1] - times[a]) <= weights[b - 1].value - weights[a].value <= hi * (times[b - 1] - times[a])
    decreases b - a
  {
    if a + 1 < b {
      RiseBetween(times, weights, a, b - 1, lo, hi);
      Chain(lo, times[b - 2] - times[a], times[b - 1] - times[b - 2]);
      Chain(hi, times[b - 2] - times[a], times[b - 1] - times[b - 2]);
    }
  }

  lemma Chain(m: real, x: real, y: real)
    ensures m * (x + y) == m * x + m * y
  {
  }

  /** Two windows of the same sample are the same. */
  lemma WindowIsUnique(times: seq<real>, half: real, i: nat, a: int, b: int, c: int, d: int)
    requires i < |times| && IsWindow(times, half, i, a, b) && IsWindow(times, half, i, c, d)
    ensures a == c && b == d
  {
    assert IsNear(times, half, i, a) && IsNear(times, half, i, c);
    assert IsNear(times, half, i, b - 1) && IsNear(times, half, i, d - 1);
  }

  /** Wherever the flow is defined, it lies between the bounds of the neighbouring slopes in its window. */
  lemma FlowBetweenSlopes(times: seq<real>, weights: Weights, half: real, i: nat, flow: Option<real>,
                          a: int, b: int, lo: real, hi: real)
    requires i < |times| == |weights| && IsFlow(times, weights, half, i, flow) && flow.Some?
    requires IsWindow(times, half, i, a, b)
    requires IsUnmasked(weights, a, b) ==> SlopesBetween(times, weights, a, b, lo, hi)
    ensures IsUnmasked(weights, a, b) && a < i < b - 1 && lo <= flow.value <= hi
  {
    var c, d :| IsWindow(times, half, i, c, d) &&
      if c < i < d - 1 && IsUnmasked(weights, c, d) && times[d - 1] > times[c]
      then flow == Some(Slope(times, weights, c, d))
      else flow.None?;
    WindowIsUnique(times, half, i, a, b, c, d);
    RiseBetween(times, weights, a, b, lo, hi);
    QuotientBetween(weights[b - 1].value - weights[a].value, times[b - 1] - times[a], lo, hi);
  }

  /** A flow is defined although the window is not full: samples on both sides are enough. */
  lemma EdgesAreNotMasked()
    ensures var times, weights := [0.0, 1.0, 2.0], [Some(0.0), Some(1.0), Some(2.0)];
            IsFlow(times, weights, 5.0, 1, Some(1.0))
  {
    var times, weights := [0.0, 1.0, 2.0], [Some(0.0), Some(1.0), Some(2.0)];
    assert IsWindow(times, 5.0, 1, 0, 3);
    assert Slope(times, weights, 0, 3) == 1.0;
  }
}
