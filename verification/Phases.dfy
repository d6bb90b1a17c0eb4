/**
 The phases of a capture: runs of samples with the same mode, their times and
 their energy; and the plot's own grouping of the same modes.
 */
module Phases {
  import opened Prelude
  import opened Samples

  // ---------- Runs of equal keys ----------

  /** The samples from `start` up to but not including `stop`. */
  datatype Run = Run(start: nat, stop: nat)

  /** Maximal runs of equal keys. */
  function Runs<K(==)>(keys: seq<K>): (runs: seq<Run>)
    ensures keys != [] ==> runs != []
  {
    if keys == [] then []
    else if |keys| == 1 then [Run(0, 1)]
    else
      var n := |keys| - 1;
      var before := Runs(keys[..n]);
      NextRuns(before, n, keys[n] != keys[n - 1])
  }

  /** With key `n`, another run starts, or the last one grows. */
  function NextRuns(before: seq<Run>, n: nat, changes: bool): (runs: seq<Run>)
    requires before != []
    ensures runs != []
  {
    if changes then before + [Run(n, n + 1)] else before[..|before| - 1] + [Run(before[|before| - 1].start, n + 1)]
  }

  lemma LastRun<K(!new)>(keys: seq<K>)
    requires |keys| > 1
    ensures var n := |keys| - 1; Runs(keys) == NextRuns(Runs(keys[..n]), n, keys[n] != keys[n - 1])
  {
  }

  ghost predicate IsRun<K(!new)>(keys: seq<K>, r: Run) {
    r.start < r.stop <= |keys| && forall i :: r.start <= i < r.stop ==> keys[i] == keys[r.start]
  }

  /** Each run starts where the one before stops, with another key. */
  ghost predicate IsJoint<K(!new)>(keys: seq<K>, a: Run, b: Run) {
    a.stop == b.start && 0 < b.start < |keys| && keys[b.start] != keys[b.start - 1]
  }

  /** Runs that cover the first keys, up to where the last one stops. */
  ghost predicate AreRuns<K(!new)>(keys: seq<K>, runs: seq<Run>) {
    && (runs != [] ==> runs[0].start == 0)
    && (forall k :: 0 <= k < |runs| ==> IsRun(keys, runs[k]))
    && forall k :: 0 < k < |runs| ==> IsJoint(keys, runs[k - 1], runs[k])
  }

  function Covered(runs: seq<Run>): nat {
    if runs == [] then 0 else runs[|runs| - 1].stop
  }

  lemma RunGrows<K(!new)>(keys: seq<K>, r: Run)
    requires IsRun(keys, r) && r.stop < |keys| && keys[r.stop] == keys[r.stop - 1]
    ensures IsRun(keys, Run(r.start, r.stop + 1))
  {
  }

  lemma RunsOfPrefix<K(!new)>(keys: seq<K>, n: nat, runs: seq<Run>)
    requires n <= |keys| && AreRuns(keys[..n], runs)
    ensures AreRuns(keys, runs)
  {
    forall k | 0 <= k < |runs|
      ensures IsRun(keys, runs[k])
    {
      assert IsRun(keys[..n], runs[k]);
      assert forall i :: 0 <= i < n ==> keys[..n][i] == keys[i];
    }
    forall k | 0 < k < |runs|
      ensures IsJoint(keys, runs[k - 1], runs[k])
    {
      assert IsJoint(keys[..n], runs[k - 1], runs[k]);
    }
  }

  lemma AddRun<K(!new)>(keys: seq<K>, runs: seq<Run>, r: Run)
    requires AreRuns(keys, runs) && runs != [] && IsRun(keys, r) && IsJoint(keys, runs[|runs| - 1], r)
    ensures AreRuns(keys, runs + [r])
  {
    hide IsRun, IsJoint;
  }

  lemma GrowLast<K(!new)>(keys: seq<K>, runs: seq<Run>)
    requires AreRuns(keys, runs) && runs != []
    requires var r := runs[|runs| - 1]; r.stop < |keys| && keys[r.stop] == keys[r.stop - 1]
    ensures var r := runs[|runs| - 1]; AreRuns(keys, runs[..|runs| - 1] + [Run(r.start, r.stop + 1)])
  {
    var m := |runs| - 1;
    var r := runs[m];
    assert IsRun(keys, r);
    RunGrows(keys, r);
    if m > 0 { assert IsJoint(keys, runs[m - 1], r); }
    hide IsRun;
  }

  /** On any sequence: the runs cover it, each has one key, and neighbours differ. */
  lemma {:induction false} RunsAreRuns<K(!new)>(keys: seq<K>)
    ensures AreRuns(keys, Runs(keys)) && Covered(Runs(keys)) == |keys|
  {
    if |keys| > 1 {
      var n := |keys| - 1;
      var before := Runs(keys[..n]);
      RunsAreRuns(keys[..n]);
      RunsOfPrefix(keys, n, before);
      if keys[n] != keys[n - 1] {
        assert IsRun(keys, Run(n, n + 1)) && IsJoint(keys, before[|before| - 1], Run(n, n + 1));
        hide IsRun, IsJoint;
        AddRun(keys, before, Run(n, n + 1));
      } else {
        hide IsRun, IsJoint, AreRuns;
        GrowLast(keys, before);
      }
    }
  }

  /** The key of every run, as often as the run is long. */
  function Expand<K>(keys: seq<K>, runs: seq<Run>): seq<K>
    requires forall k :: 0 <= k < |runs| ==> runs[k].start < |keys| && runs[k].start <= runs[k].stop
  {
    if runs == [] then []
    else
      var r := runs[|runs| - 1];
      Expand(keys, runs[..|runs| - 1]) + seq(r.stop - r.start, _ => keys[r.start])
  }

  predicate CanExpand<K>(keys: seq<K>, runs: seq<Run>) {
    forall k :: 0 <= k < |runs| ==> runs[k].start < |keys| && runs[k].start <= runs[k].stop
  }

  lemma RunsCanExpand<K(!new)>(keys: seq<K>, runs: seq<Run>)
    requires AreRuns(keys, runs)
    ensures CanExpand(keys, runs)
  {
    forall k | 0 <= k < |runs|
      ensures runs[k].start < |keys| && runs[k].start <= runs[k].stop
    {
      assert IsRun(keys, runs[k]);
    }
  }

  lemma {:induction false} ExpandRuns<K(!new)>(keys: seq<K>, runs: seq<Run>)
    requires AreRuns(keys, runs)
    ensures CanExpand(keys, runs) && Covered(runs) <= |keys| && Expand(keys, runs) == keys[..Covered(runs)]
  {
    RunsCanExpand(keys, runs);
    if runs != [] {
      var m := |runs| - 1;
      var r := runs[m];
      assert IsRun(keys, r);
      ExpandRuns(keys, runs[..m]);
      assert m > 0 ==> IsJoint(keys, runs[m - 1], r);
      assert keys[r.start..r.stop] == seq(r.stop - r.start, _ => keys[r.start]);
      assert keys[..r.stop] == keys[..r.start] + keys[r.start..r.stop];
    }
  }

  /** Run-length decoding undoes the encoding. */
  lemma RunsExpand<K(!new)>(keys: seq<K>)
    ensures AreRuns(keys, Runs(keys)) && CanExpand(keys, Runs(keys)) && Expand(keys, Runs(keys)) == keys
  {
    RunsAreRuns(keys);
    ExpandRuns(keys, Runs(keys));
    assert keys[..|keys|] == keys;
  }

  // ---------- The phases of the report ----------

  /** `sample.get("mode")`: a missing mode is like a null one. */
  function Key(m: Mode): Option<string> {
    if m.Named? then Some(m.name) else None
  }

  /** `str(sample.get("mode", ""))`. */
  function Text(m: Mode): string {
    match m case NoMode => "" case NullMode => "None" case Named(name) => name
  }

  function Keys(samples: seq<Sample>): (keys: seq<Option<string>>)
    ensures |keys| == |samples| && forall i :: 0 <= i < |samples| ==> keys[i] == Key(samples[i].mode)
  {
    seq(|samples|, i requires 0 <= i < |samples| => Key(samples[i].mode))
  }

  function Texts(samples: seq<Sample>): (texts: seq<string>)
    ensures |texts| == |samples| && forall i :: 0 <= i < |samples| ==> texts[i] == Text(samples[i].mode)
  {
    seq(|samples|, i requires 0 <= i < |samples| => Text(samples[i].mode))
  }

  datatype Phase = Phase(first: nat, last: nat, startS: Option<real>, endS: Option<real>, mode: string)

  /** The phase of run `k`: it lasts until the next one starts, the last one to the end of the capture. */
  function PhaseOf(samples: seq<Sample>, duration: real, runs: seq<Run>, k: nat): Phase
    requires k < |runs| && forall j :: 0 <= j < |runs| ==> runs[j].start < runs[j].stop <= |samples|
  {
    Phase(runs[k].start, runs[k].stop - 1, TimeS(samples[runs[k].start]),
          if k + 1 < |runs| then TimeS(samples[runs[k + 1].start]) else Some(duration),
          Text(samples[runs[k].start].mode))
  }

  predicate FitIn(runs: seq<Run>, n: nat) {
    forall j :: 0 <= j < |runs| ==> runs[j].start < runs[j].stop <= n
  }

  lemma RunsFit<K(!new)>(keys: seq<K>)
    ensures FitIn(Runs(keys), |keys|)
  {
    RunsAreRuns(keys);
    forall j | 0 <= j < |Runs(keys)|
      ensures Runs(keys)[j].start < Runs(keys)[j].stop <= |keys|
    {
      assert IsRun(keys, Runs(keys)[j]);
    }
  }

  /** The ranges are the runs of the modes with their times. */
  ghost predicate ArePhases(samples: seq<Sample>, duration: real, ranges: seq<Phase>) {
    var runs := Runs(Keys(samples));
    && FitIn(runs, |samples|) && |ranges| == |runs|
    && forall k :: 0 <= k < |runs| ==> ranges[k] == PhaseOf(samples, duration, runs, k)
  }

  /** `transition_indices`. */
  function Transitions(samples: seq<Sample>): seq<nat> {
    if |samples| <= 1 then []
    else
      var n := |samples| - 1;
      Transitions(samples[..n]) + if Key(samples[n].mode) != Key(samples[n - 1].mode) then [n] else []
  }

  /** The runs of the first `n` samples meet at the transitions. */
  predicate MeetAt(runs: seq<Run>, ts: seq<nat>, n: nat) {
    && |runs| == |ts| + 1 && runs[0].start == 0 && runs[|ts|].stop == n
    && forall k :: 0 <= k < |ts| ==> runs[k].stop == ts[k] == runs[k + 1].start
  }

  lemma MeetNext(runs: seq<Run>, ts: seq<nat>, n: nat, changes: bool)
    requires MeetAt(runs, ts, n)
    ensures MeetAt(NextRuns(runs, n, changes), if changes then ts + [n] else ts, n + 1)
  {
  }

  /** The transitions are where one run stops and the next starts. */
  lemma {:induction false} TransitionsAreJoints(samples: seq<Sample>)
    requires samples != []
    ensures MeetAt(Runs(Keys(samples)), Transitions(samples), |samples|)
  {
    var n := |samples| - 1;
    if n > 0 {
      TransitionsAreJoints(samples[..n]);
      LastTransition(samples);
      var changes := Key(samples[n].mode) != Key(samples[n - 1].mode);
      MeetNext(Runs(Keys(samples[..n])), Transitions(samples[..n]), n, changes);
      hide MeetAt, NextRuns, Runs, Transitions, Keys;
    }
  }

  /** The last sample starts another run exactly when it is a transition. */
  lemma LastTransition(samples: seq<Sample>)
    requires |samples| > 1
    ensures var n := |samples| - 1; var changes := Key(samples[n].mode) != Key(samples[n - 1].mode);
            && Runs(Keys(samples)) == NextRuns(Runs(Keys(samples[..n])), n, changes)
            && Transitions(samples) == if changes then Transitions(samples[..n]) + [n] else Transitions(samples[..n])
  {
    var n := |samples| - 1;
    assert Keys(samples)[..n] == Keys(samples[..n]);
    ConcatNil(Transitions(samples[..n]));
    hide NextRuns;
  }

  lemma RunBetween(runs: seq<Run>, ts: seq<nat>, n: nat, k: nat)
    requires MeetAt(runs, ts, n) && k <= |ts|
    ensures runs[k].start == if k == 0 then 0 else ts[k - 1]
    ensures runs[k].stop == if k < |ts| then ts[k] else n
    ensures k < |ts| ==> runs[k + 1].start == ts[k]
  {
    assert k > 0 ==> runs[k - 1].stop == ts[k - 1] == runs[k].start;
  }

  /** `phase_ranges`, with its loop over the starts and ends of the phases. */
  method PhaseRanges(samples: seq<Sample>, duration: real) returns (ranges: seq<Phase>)
    requires samples != []
    ensures ArePhases(samples, duration, ranges)
  {
    var ts := Transitions(samples);
    ghost var runs := Runs(Keys(samples));
    TransitionsAreJoints(samples);
    RunsFit(Keys(samples));
    assert |runs| == |ts| + 1;
    hide Transitions, Runs, MeetAt;
    ranges := [];
    for k := 0 to |ts| + 1
      invariant |ranges| == k
      invariant forall j :: 0 <= j < k ==> ranges[j] == PhaseOf(samples, duration, runs, j)
    {
      RunBetween(runs, ts, |samples|, k);
      assert runs[k].start < runs[k].stop <= |samples|;
      assert k < |ts| ==> runs[k + 1].start < runs[k + 1].stop <= |samples|;
      var start: nat := if k == 0 then 0 else ts[k - 1];
      var end: nat := if k < |ts| then ts[k] - 1 else |samples| - 1;
      var endS := if k < |ts| then TimeS(samples[ts[k]]) else Some(duration);
      ranges := ranges + [Phase(start, end, TimeS(samples[start]), endS, Text(samples[start].mode))];
    }
  }

  predicate IsTimed(samples: seq<Sample>, times: seq<real>) {
    |times| == |samples| && forall i :: 0 <= i < |samples| ==> TimeS(samples[i]) == Some(times[i])
  }

  /** The length of the first `m` phases. */
  function Length(ranges: seq<Phase>, m: nat): real
    requires m <= |ranges| && forall k :: 0 <= k < m ==> ranges[k].startS.Some? && ranges[k].endS.Some?
  {
    if m == 0 then 0.0 else Length(ranges, m - 1) + ranges[m - 1].endS.value - ranges[m - 1].startS.value
  }

  /** Together the phases last from the first sample to the end of the capture. */
  lemma {:induction false} PhasesLastTheCapture(
      samples: seq<Sample>, times: seq<real>, duration: real, ranges: seq<Phase>, m: nat)
    requires samples != [] && IsTimed(samples, times) && ArePhases(samples, duration, ranges) && m <= |ranges|
    ensures forall k :: 0 <= k < m ==> ranges[k].startS.Some? && ranges[k].endS.Some?
    ensures m > 0 ==> Length(ranges, m) == (if m < |ranges| then times[ranges[m].first] else duration) - times[0]
  {
    var runs := Runs(Keys(samples));
    RunsAreRuns(Keys(samples));
    hide Runs, IsRun, IsJoint;
    forall k | 0 <= k < m
      ensures ranges[k].startS.Some? && ranges[k].endS.Some?
    {
      assert ranges[k] == PhaseOf(samples, duration, runs, k);
    }
    if m > 0 {
      PhasesLastTheCapture(samples, times, duration, ranges, m - 1);
      assert ranges[m - 1] == PhaseOf(samples, duration, runs, m - 1);
      if m < |ranges| { assert ranges[m] == PhaseOf(samples, duration, runs, m); }
    }
  }

  // ---------- The plot's grouping ----------

  datatype Span = Span(startS: real, endS: real, mode: string)

  function SpanOf(texts: seq<string>, times: seq<real>, endS: real, runs: seq<Run>, k: nat): Span
    requires k < |runs| && FitIn(runs, |texts|) && |times| == |texts|
  {
    Span(times[runs[k].start],
         if k + 1 < |runs| then times[runs[k + 1].start] else Max(endS, times[|times| - 1]),
         texts[runs[k].start])
  }

  ghost predicate AreSpans(texts: seq<string>, times: seq<real>, endS: real, spans: seq<Span>) {
    var runs := Runs(texts);
    && FitIn(runs, |texts|) && |times| == |texts| && |spans| == |runs|
    && forall k :: 0 <= k < |runs| ==> spans[k] == SpanOf(texts, times, endS, runs, k)
  }

  /** The spans closed before sample `i`, and the one being built. */
  ghost predicate AreClosed(texts: seq<string>, times: seq<real>, spans: seq<Span>, startS: real, mode: string, i: nat)
    requires 0 < i <= |texts| == |times|
  {
    var runs := Runs(texts[..i]);
    && FitIn(runs, i) && |runs| == |spans| + 1
    && startS == times[runs[|spans|].start] && mode == texts[runs[|spans|].start] == texts[i - 1]
    && forall k :: 0 <= k < |spans| ==>
         spans[k] == Span(times[runs[k].start], times[runs[k + 1].start], texts[runs[k].start])
  }

  lemma CloseStep(texts: seq<string>, times: seq<real>, spans: seq<Span>, startS: real, mode: string, i: nat)
    requires 0 < i < |texts| == |times| && AreClosed(texts, times, spans, startS, mode, i)
    ensures if texts[i] != mode
            then AreClosed(texts, times, spans + [Span(startS, times[i], mode)], times[i], texts[i], i + 1)
            else AreClosed(texts, times, spans, startS, mode, i + 1)
  {
    var before := Runs(texts[..i]);
    var more := texts[..i + 1];
    assert more[..i] == texts[..i] && more[i] == texts[i] && more[i - 1] == texts[i - 1];
    RunsFit(more);
    assert Runs(more) == if texts[i] != texts[i - 1] then before + [Run(i, i + 1)]
                         else before[..|before| - 1] + [Run(before[|before| - 1].start, i + 1)];
    hide Runs;
  }

  /** `phase_spans`. */
  method PhaseSpans(samples: seq<Sample>, times: seq<real>, endS: real) returns (spans: seq<Span>)
    requires |times| == |samples|
    ensures samples == [] || samples[0].mode == NoMode ==> spans == []
    ensures samples != [] && samples[0].mode != NoMode ==> AreSpans(Texts(samples), times, endS, spans)
  {
    spans := [];
    if samples == [] || samples[0].mode == NoMode { return; }
    var startS, mode := times[0], Text(samples[0].mode);
    ghost var texts := Texts(samples);
    assert texts[..1] == [texts[0]];
    hide Texts;
    for i := 1 to |samples|
      invariant AreClosed(texts, times, spans, startS, mode, i)
    {
      CloseStep(texts, times, spans, startS, mode, i);
      hide AreClosed;
      var next := Text(samples[i].mode);
      if next != mode {
        spans := spans + [Span(startS, times[i], mode)];
        startS := times[i];
        mode := next;
      }
    }
    assert texts[..|texts|] == texts;
    hide Runs;
    spans := spans + [Span(startS, Max(endS, times[|times| - 1]), mode)];
  }

  predicate AllNamed(samples: seq<Sample>) {
    forall i :: 0 <= i < |samples| ==> samples[i].mode.Named?
  }

  /** Runs depend only on which neighbouring keys are equal. */
  lemma {:induction false} SameRuns<K(!new), L(!new)>(keys: seq<K>, others: seq<L>)
    requires |keys| == |others|
    requires forall i :: 0 < i < |keys| ==> (keys[i] == keys[i - 1] <==> others[i] == others[i - 1])
    ensures Runs(keys) == Runs(others)
  {
    if |keys| > 1 {
      var n := |keys| - 1;
      SameRuns(keys[..n], others[..n]);
      LastRun(keys);
      LastRun(others);
      hide Runs, NextRuns;
    }
  }

  ghost predicate SameIntervals(ranges: seq<Phase>, spans: seq<Span>) {
    |ranges| == |spans| && forall k :: 0 <= k < |spans| ==>
      && ranges[k].startS == Some(spans[k].startS) && ranges[k].endS == Some(spans[k].endS)
      && ranges[k].mode == spans[k].mode
  }

  /** Report and plot show the same intervals exactly when the capture does not end before its last sample. */
  lemma SpansAreRanges(samples: seq<Sample>, times: seq<real>, duration: real, ranges: seq<Phase>, spans: seq<Span>)
    requires samples != [] && AllNamed(samples) && IsTimed(samples, times)
    requires ArePhases(samples, duration, ranges) && AreSpans(Texts(samples), times, duration, spans)
    ensures SameIntervals(ranges, spans) <==> duration >= times[|times| - 1]
  {
    SameRuns(Keys(samples), Texts(samples));
    var runs := Runs(Keys(samples));
    assert runs != [];
    forall k | 0 <= k < |runs|
      ensures ranges[k].startS == Some(spans[k].startS) && ranges[k].mode == spans[k].mode
      ensures ranges[k].endS == Some(spans[k].endS) <==> k + 1 < |runs| || duration >= times[|times| - 1]
    {
      IntervalOf(samples, times, duration, runs, k);
    }
    hide Runs, Keys, Texts, PhaseOf, SpanOf;
    assert ranges[|runs| - 1].endS == Some(spans[|runs| - 1].endS) <==> duration >= times[|times| - 1];
  }

  lemma IntervalOf(samples: seq<Sample>, times: seq<real>, duration: real, runs: seq<Run>, k: nat)
    requires AllNamed(samples) && IsTimed(samples, times) && FitIn(runs, |samples|) && k < |runs|
    ensures var r, s := PhaseOf(samples, duration, runs, k), SpanOf(Texts(samples), times, duration, runs, k);
            && r.startS == Some(s.startS) && r.mode == s.mode
            && (r.endS == Some(s.endS) <==> k + 1 < |runs| || duration >= times[|times| - 1])
  {
  }

  // ---------- Energy ----------

  const HEATER_W := 1200.0

  /** How long sample `i` is held: until the next one, or to `endS`. */
  function HeldS(samples: seq<Sample>, i: nat, endS: Option<real>): Option<real>
    requires i < |samples|
  {
    var next := if i + 1 < |samples| then TimeS(samples[i + 1]) else endS;
    var here := TimeS(samples[i]);
    if next.Some? && here.Some? && next.value - here.value > 0.0 then Some(next.value - here.value) else None
  }

  function PercentSeconds(power: real, heldS: real): real {
    power * heldS
  }

  function HeaterKj(heldS: real): real {
    HEATER_W * heldS / 1000.0
  }

  function CommandAt(samples: seq<Sample>, i: nat, endS: Option<real>): real
    requires i < |samples|
  {
    var power, held := Number(samples[i].heatingPct), HeldS(samples, i, endS);
    if power.Some? && held.Some? then PercentSeconds(power.value, held.value) else 0.0
  }

  function SsrAt(samples: seq<Sample>, i: nat, endS: Option<real>): real
    requires i < |samples|
  {
    var held := HeldS(samples, i, endS);
    if samples[i].heaterOn == Bool(true) && held.Some? then HeaterKj(held.value) else 0.0
  }

  /** The commanded percent-seconds of the samples from `a` up to `b`. */
  function CommandSum(samples: seq<Sample>, a: nat, b: nat, endS: Option<real>): real
    requires a <= b <= |samples|
  {
    if a == b then 0.0 else CommandSum(samples, a, b - 1, endS) + CommandAt(samples, b - 1, endS)
  }

  function SsrSum(samples: seq<Sample>, a: nat, b: nat, endS: Option<real>): real
    requires a <= b <= |samples|
  {
    if a == b then 0.0 else SsrSum(samples, a, b - 1, endS) + SsrAt(samples, b - 1, endS)
  }

  /** Some sample from `a` up to `b` says whether the heater is on. */
  predicate KnowsHeater(samples: seq<Sample>, a: nat, b: nat) {
    exists i :: a <= i < b && i < |samples| && samples[i].heaterOn.Bool?
  }

  /** The heater's energy, unknown without any heater reading. */
  function Ssr(samples: seq<Sample>, a: nat, b: nat, endS: Option<real>): Option<real>
    requires a <= b <= |samples|
  {
    if KnowsHeater(samples, a, b) then Some(SsrSum(samples, a, b, endS)) else None
  }

  /** `phase_energy`, over the samples from `start` to `end` inclusive. */
  method PhaseEnergy(samples: seq<Sample>, start: nat, end: nat, endS: Option<real>)
    returns (commandPctS: real, ssrKj: Option<real>)
    requires start <= end < |samples|
    ensures commandPctS == CommandSum(samples, start, end + 1, endS) && ssrKj == Ssr(samples, start, end + 1, endS)
  {
    hide PercentSeconds, HeaterKj, HeldS;
    commandPctS := 0.0;
    ssrKj := if KnowsHeater(samples, start, end + 1) then Some(0.0) else None;
    for i := start to end + 1
      invariant commandPctS == CommandSum(samples, start, i, endS)
      invariant ssrKj == if KnowsHeater(samples, start, end + 1) then Some(SsrSum(samples, start, i, endS)) else None
    {
      hide KnowsHeater;
      var held := HeldS(samples, i, endS);
      var power := Number(samples[i].heatingPct);
      if power.Some? && held.Some? { commandPctS := commandPctS + PercentSeconds(power.value, held.value); }
      if samples[i].heaterOn == Bool(true) && held.Some? && ssrKj.Some? {
        ssrKj := Some(ssrKj.value + HeaterKj(held.value));
      }
    }
  }

  /** The sums over the first `m` phases, each with its own end. */
  function CommandOfPhases(samples: seq<Sample>, duration: real, runs: seq<Run>, m: nat): real
    requires m <= |runs| && FitIn(runs, |samples|)
  {
    if m == 0 then 0.0
    else CommandOfPhases(samples, duration, runs, m - 1)
         + CommandSum(samples, runs[m - 1].start, runs[m - 1].stop, PhaseOf(samples, duration, runs, m - 1).endS)
  }

  /** `None` as soon as one phase has no heater reading, as NaN spreads over a sum. */
  function SsrOfPhases(samples: seq<Sample>, duration: real, runs: seq<Run>, m: nat): Option<real>
    requires m <= |runs| && FitIn(runs, |samples|)
  {
    if m == 0 then Some(0.0)
    else
      var before := SsrOfPhases(samples, duration, runs, m - 1);
      var last := Ssr(samples, runs[m - 1].start, runs[m - 1].stop, PhaseOf(samples, duration, runs, m - 1).endS);
      if before.Some? && last.Some? then Some(before.value + last.value) else None
  }

  /** Before the last sample, the end of the phase plays no part. */
  lemma {:induction false} SumsIgnoreEnd(samples: seq<Sample>, a: nat, b: nat, x: Option<real>, y: Option<real>)
    requires a <= b <= |samples| && (b < |samples| || x == y)
    ensures CommandSum(samples, a, b, x) == CommandSum(samples, a, b, y)
    ensures SsrSum(samples, a, b, x) == SsrSum(samples, a, b, y)
    decreases b - a
  {
    if a < b && x != y {
      SumsIgnoreEnd(samples, a, b - 1, x, y);
      assert HeldS(samples, b - 1, x) == HeldS(samples, b - 1, y);
      hide HeldS, PercentSeconds, HeaterKj;
    }
  }

  lemma {:induction false} SumsJoin(samples: seq<Sample>, a: nat, b: nat, c: nat, endS: Option<real>)
    requires a <= b <= c <= |samples|
    ensures CommandSum(samples, a, c, endS) == CommandSum(samples, a, b, endS) + CommandSum(samples, b, c, endS)
    ensures SsrSum(samples, a, c, endS) == SsrSum(samples, a, b, endS) + SsrSum(samples, b, c, endS)
    decreases c - b
  {
    if b < c { SumsJoin(samples, a, b, c - 1, endS); }
  }

  /** The runs given are those of the capture. */
  ghost predicate AreRunsOf(samples: seq<Sample>, runs: seq<Run>) {
    AreRuns(Keys(samples), runs) && FitIn(runs, |samples|) && Covered(runs) == |samples|
  }

  lemma RunsOfSamples(samples: seq<Sample>)
    ensures AreRunsOf(samples, Runs(Keys(samples)))
  {
    RunsAreRuns(Keys(samples));
    RunsFit(Keys(samples));
  }

  /** Where the first `m` runs stop. */
  function StopAfter(runs: seq<Run>, m: nat): nat
    requires m <= |runs|
  {
    if m == 0 then 0 else runs[m - 1].stop
  }

  lemma JointStops(samples: seq<Sample>, runs: seq<Run>, m: nat)
    requires AreRunsOf(samples, runs) && m < |runs|
    ensures runs[m].start == StopAfter(runs, m) && runs[m].stop <= |samples|
    ensures m + 1 < |runs| ==> runs[m].stop < |samples|
    ensures m + 1 == |runs| ==> runs[m].stop == |samples|
  {
    if m > 0 { assert IsJoint(Keys(samples), runs[m - 1], runs[m]); }
    if m + 1 < |runs| { assert IsJoint(Keys(samples), runs[m], runs[m + 1]); }
  }

  lemma {:induction false} PhaseCommands(samples: seq<Sample>, duration: real, runs: seq<Run>, m: nat)
    requires AreRunsOf(samples, runs) && m <= |runs|
    ensures StopAfter(runs, m) <= |samples|
    ensures CommandOfPhases(samples, duration, runs, m) == CommandSum(samples, 0, StopAfter(runs, m), Some(duration))
  {
    if m > 0 {
      PhaseCommands(samples, duration, runs, m - 1);
      JointStops(samples, runs, m - 1);
      LastPhaseSums(samples, duration, runs, m - 1);
      hide AreRuns, CommandSum, PhaseOf;
    }
  }

  lemma {:induction false} PhaseSsrs(samples: seq<Sample>, duration: real, runs: seq<Run>, m: nat)
    requires AreRunsOf(samples, runs) && m <= |runs|
    ensures StopAfter(runs, m) <= |samples|
    ensures SsrOfPhases(samples, duration, runs, m).Some? <==>
              forall k :: 0 <= k < m ==> KnowsHeater(samples, runs[k].start, runs[k].stop)
    ensures SsrOfPhases(samples, duration, runs, m).Some? ==>
              SsrOfPhases(samples, duration, runs, m).value == SsrSum(samples, 0, StopAfter(runs, m), Some(duration))
  {
    if m > 0 {
      PhaseSsrs(samples, duration, runs, m - 1);
      JointStops(samples, runs, m - 1);
      LastPhaseSums(samples, duration, runs, m - 1);
      hide AreRuns, KnowsHeater, SsrSum, PhaseOf;
    }
  }

  /** A phase's own sums, with its own end, are what it adds to the sums from the start. */
  lemma LastPhaseSums(samples: seq<Sample>, duration: real, runs: seq<Run>, k: nat)
    requires AreRunsOf(samples, runs) && k < |runs|
    requires StopAfter(runs, k) == runs[k].start <= runs[k].stop <= |samples|
    requires k + 1 < |runs| ==> runs[k].stop < |samples|
    ensures var r, endS, all := runs[k], PhaseOf(samples, duration, runs, k).endS, Some(duration);
            && CommandSum(samples, 0, r.stop, all)
                == CommandSum(samples, 0, r.start, all) + CommandSum(samples, r.start, r.stop, endS)
            && SsrSum(samples, 0, r.stop, all)
                == SsrSum(samples, 0, r.start, all) + SsrSum(samples, r.start, r.stop, endS)
  {
    hide AreRuns, CommandSum, SsrSum;
    var r := runs[k];
    SumsIgnoreEnd(samples, r.start, r.stop, PhaseOf(samples, duration, runs, k).endS, Some(duration));
    SumsJoin(samples, 0, r.start, r.stop, Some(duration));
  }

  /** Summed over the phases, the command is that of the whole capture. */
  lemma CommandIsConserved(samples: seq<Sample>, duration: real)
    requires samples != []
    ensures var runs := Runs(Keys(samples));
            && FitIn(runs, |samples|)
            && CommandOfPhases(samples, duration, runs, |runs|) == CommandSum(samples, 0, |samples|, Some(duration))
  {
    RunsOfSamples(samples);
    PhaseCommands(samples, duration, Runs(Keys(samples)), |Runs(Keys(samples))|);
  }

  /** The phase some sample lies in. */
  lemma {:induction false} PhaseOfSample(samples: seq<Sample>, runs: seq<Run>, m: nat, i: nat) returns (k: nat)
    requires AreRunsOf(samples, runs) && m <= |runs| && i < StopAfter(runs, m)
    ensures k < m && runs[k].start <= i < runs[k].stop
  {
    JointStops(samples, runs, m - 1);
    if i >= runs[m - 1].start { k := m - 1; } else { k := PhaseOfSample(samples, runs, m - 1, i); }
  }

  /**
   The heater's energy adds up over the phases exactly when every phase has a heater
   reading or none has: a phase without one makes the sum unknown.
   */
  lemma SsrIsConserved(samples: seq<Sample>, duration: real)
    requires samples != []
    ensures var runs := Runs(Keys(samples));
            && FitIn(runs, |samples|)
            && (SsrOfPhases(samples, duration, runs, |runs|) == Ssr(samples, 0, |samples|, Some(duration))
                <==> (forall k :: 0 <= k < |runs| ==> KnowsHeater(samples, runs[k].start, runs[k].stop))
                     || forall k :: 0 <= k < |runs| ==> !KnowsHeater(samples, runs[k].start, runs[k].stop))
  {
    var runs := Runs(Keys(samples));
    RunsOfSamples(samples);
    assert runs != [];
    PhaseSsrs(samples, duration, runs, |runs|);
    if KnowsHeater(samples, 0, |samples|) {
      var i: nat :| i < |samples| && samples[i].heaterOn.Bool?;
      var k := PhaseOfSample(samples, runs, |runs|, i);
      assert KnowsHeater(samples, runs[k].start, runs[k].stop);
    } else {
      assert forall k :: 0 <= k < |runs| ==> !KnowsHeater(samples, runs[k].start, runs[k].stop);
    }
    hide Runs, CommandOfPhases, SsrOfPhases, SsrSum, CommandSum, AreRunsOf;
  }

  /** The times do not run backwards, and the last sample is not after the end. */
  predicate RunsForward(samples: seq<Sample>, times: seq<real>, endS: real) {
    && IsTimed(samples, times)
    && (forall i, j :: 0 <= i < j < |times| ==> times[i] <= times[j])
    && (forall i :: 0 <= i < |times| ==> times[i] <= endS)
  }

  /** When the samples before `b` are over. */
  function OverAt(times: seq<real>, b: nat, endS: real): real
    requires b <= |times|
  {
    if b < |times| then times[b] else endS
  }

  /** A command of `p` percent, and a heater of 1.2 kW that is on exactly where it says so. */
  lemma HeldSums(samples: seq<Sample>, times: seq<real>, i: nat, endS: real)
    requires RunsForward(samples, times, endS) && i < |samples|
    ensures var lasts := OverAt(times, i + 1, endS) - times[i];
            && CommandAt(samples, i, Some(endS))
                == (if samples[i].heatingPct.Num? then samples[i].heatingPct.x * lasts else 0.0)
            && SsrAt(samples, i, Some(endS)) == (if samples[i].heaterOn == Bool(true) then 1.2 * lasts else 0.0)
  {
    var lasts := OverAt(times, i + 1, endS) - times[i];
    assert HeldS(samples, i, Some(endS)) == if lasts > 0.0 then Some(lasts) else None;
    if samples[i].heatingPct.Num? { TimesZero(samples[i].heatingPct.x); }
    hide HeldS, RunsForward;
  }

  lemma TimesZero(x: real)
    ensures x * 0.0 == 0.0
  {
  }

  /** The command and the heater are the same at all samples from `a` up to `b`. */
  predicate IsSteady(samples: seq<Sample>, a: nat, b: nat, command: Json, heater: Json) {
    forall i :: a <= i < b && i < |samples| ==> samples[i].heatingPct == command && samples[i].heaterOn == heater
  }

  /**
   While command and heater stay the same, the command is its percentage times the
   seconds, and a heater that is on takes 1.2 kJ each second, however often it is sampled.
   */
  lemma {:induction false} SteadySums(
      samples: seq<Sample>, times: seq<real>, a: nat, b: nat, endS: real, command: Json, heater: Json)
    requires RunsForward(samples, times, endS) && a < b <= |samples| && IsSteady(samples, a, b, command, heater)
    ensures var lasts := OverAt(times, b, endS) - times[a];
            && CommandSum(samples, a, b, Some(endS)) == (if command.Num? then command.x * lasts else 0.0)
            && SsrSum(samples, a, b, Some(endS)) == (if heater == Bool(true) then 1.2 * lasts else 0.0)
    decreases b - a
  {
    hide CommandAt, SsrAt;
    HeldSums(samples, times, b - 1, endS);
    if a + 1 < b {
      SteadySums(samples, times, a, b - 1, endS, command, heater);
      var before, last := times[b - 1] - times[a], OverAt(times, b, endS) - times[b - 1];
      if command.Num? { Distribute(command.x, before, last); }
      hide CommandSum, SsrSum, RunsForward;
    }
  }

  lemma Distribute(x: real, a: real, b: real)
    ensures x * a + x * b == x * (a + b)
  {
  }

  // ---------- Captures on which the two differ ----------

  /** A sample with a time, a mode, a command and maybe a heater reading. */
  function HeatSample(t: real, mode: string, heater: Json): Sample {
    Sample(Num(t * 1000.0), Named(mode), Flags(false, false, false, false), Absent, Absent, Absent, Absent,
           Absent, Absent, Absent, Absent, Absent, Num(50.0), heater)
  }

  lemma RunsOfTwo<K(!new)>(a: K, b: K)
    requires a != b
    ensures Runs([a, b]) == [Run(0, 1), Run(1, 2)]
  {
    LastRun([a, b]);
    assert [a, b][..1] == [a];
  }

  lemma KeysOfTwo(a: Sample, b: Sample)
    ensures Keys([a, b]) == [Key(a.mode), Key(b.mode)]
  {
  }

  /** With a heater reading in one phase only, the phases' sum is unknown and the capture's is not. */
  lemma SsrMayBeLost()
    ensures var samples := [HeatSample(0.0, "filling", Bool(true)), HeatSample(1.0, "infusion", Absent)];
            var runs := Runs(Keys(samples));
            && FitIn(runs, 2) && SsrOfPhases(samples, 2.0, runs, |runs|).None? && Ssr(samples, 0, 2, Some(2.0)).Some?
  {
    var a, b := HeatSample(0.0, "filling", Bool(true)), HeatSample(1.0, "infusion", Absent);
    var samples := [a, b];
    KeysOfTwo(a, b);
    RunsOfTwo(Key(a.mode), Key(b.mode));
    RunsOfSamples(samples);
    var runs := Runs(Keys(samples));
    PhaseSsrs(samples, 2.0, runs, 2);
    assert samples[0].heaterOn == Bool(true) && samples[1].heaterOn == Absent;
    assert !KnowsHeater(samples, runs[1].start, runs[1].stop);
    assert KnowsHeater(samples, 0, 2);
    hide SsrOfPhases, SsrSum;
  }

  lemma PhasesOfOne(s: Sample, duration: real)
    ensures ArePhases([s], duration, [Phase(0, 0, TimeS(s), Some(duration), Text(s.mode))])
  {
    assert Keys([s]) == [Key(s.mode)];
  }

  lemma SpansOfOne(text: string, t: real, endS: real)
    ensures AreSpans([text], [t], endS, [Span(t, Max(endS, t), text)])
  {
  }

  /** A capture said to end before its only sample: the report's phase ends there, the plot's at the sample. */
  lemma ShortDurationDiffers()
    ensures var samples := [HeatSample(1.0, "infusion", Absent)];
            var ranges, spans := [Phase(0, 0, Some(1.0), Some(0.5), "infusion")], [Span(1.0, 1.0, "infusion")];
            && ArePhases(samples, 0.5, ranges) && AreSpans(Texts(samples), [1.0], 0.5, spans)
            && !SameIntervals(ranges, spans)
  {
    var s := HeatSample(1.0, "infusion", Absent);
    PhasesOfOne(s, 0.5);
    SpansOfOne("infusion", 1.0, 0.5);
    assert Texts([s]) == ["infusion"] && TimeS(s) == Some(1.0) && Max(0.5, 1.0) == 1.0;
    var ranges, spans := [Phase(0, 0, Some(1.0), Some(0.5), "infusion")], [Span(1.0, 1.0, "infusion")];
    assert ranges[0].endS != Some(spans[0].endS);
  }
}
