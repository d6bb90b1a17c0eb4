/**
 Capture samples: JSON objects whose measurements may be absent, null or
 malformed. Floats are reals; `None` stands for NaN.
 */
module Samples {
  import opened Prelude

  /** A JSON value as the analysis scripts tell values apart; `Junk` is any other one. */
  datatype Json = Absent | Null | Bool(b: bool) | Num(x: real) | Junk

  /** The bits 0x01, 0x02, 0x04 and 0x08 of the `flags` field. */
  datatype Flags = Flags(pressure: bool, flow: bool, scale: bool, boiler: bool)

  /** The `mode` field: missing, null or a string. */
  datatype Mode = NoMode | NullMode | Named(name: string)

  datatype Sample = Sample(
    tMs: Json,
    mode: Mode,
    flags: Flags,
    pumpPct: Json,
    weightG: Json,
    volumeMl: Json,
    pressureBar: Json,
    boilerValid: Json,
    boilerAgeMs: Json,
    boilerC: Json,
    legacyC: Json,
    scaceC: Json,
    heatingPct: Json,
    heaterOn: Json)

  /** `number(value)`. */
  function Number(v: Json): Option<real> {
    if v.Num? then Some(v.x) else None
  }

  /** `number(sample.get("t_ms")) / 1000`. */
  function TimeS(s: Sample): Option<real> {
    match Number(s.tMs) case None => None case Some(ms) => Some(ms / 1000.0)
  }

  const BOILER_STALE_AFTER_MS := 200.0
  const BOILER_TOLERATED_AGE_MS := 1000.0

  /** `boiler_temperature_usable`: flagged valid, or a finite reading only just stale. */
  predicate BoilerUsable(s: Sample) {
    || s.boilerValid == Bool(true)
    || (s.boilerAgeMs.Num? && BOILER_STALE_AFTER_MS <= s.boilerAgeMs.x <= BOILER_TOLERATED_AGE_MS && s.boilerC.Num?)
  }

  /** `valid(sample, "boiler")`: a v1 capture has a temperature without a flag of its own. */
  predicate ValidBoiler(s: Sample) {
    if s.boilerValid != Absent then BoilerUsable(s)
    else if s.legacyC != Absent then s.legacyC.Num?
    else s.flags.boiler
  }

  /** The boiler temperature where it is valid and finite. */
  function Temperature(s: Sample): Option<real> {
    if ValidBoiler(s) then Number(if s.boilerC != Absent then s.boilerC else s.legacyC) else None
  }

  /** The weight where the scale is valid and the value finite. */
  function Weight(s: Sample): Option<real> {
    if s.flags.scale then Number(s.weightG) else None
  }

  predicate PumpOn(s: Sample) {
    s.pumpPct.Num? && s.pumpPct.x > 0.0
  }

  function Min(a: real, b: real): real { if a <= b then a else b }

  function Max(a: real, b: real): real { if a >= b then a else b }

  /** An option that holds a value at least the bound. */
  predicate AtLeast(v: Option<real>, bound: real) { v.Some? && v.value >= bound }

  /** Grams that count with the mean of two temperatures. */
  function Warm(grams: real, a: real, b: real): real {
    grams * (a + b) / 2.0
  }
}
