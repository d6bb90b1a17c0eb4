/** Small datatypes shared by every module. */
module Prelude {

  /** `None` stands for Python's `None`, and for NaN where a measurement is missing. */
  datatype Option<+T> = None | Some(value: T)

  /** `Err` stands for a raised exception. */
  datatype Result<+T, +E> = Ok(value: T) | Err(error: E)

  /** The parts one after the other. */
  function Concat<T>(parts: seq<seq<T>>): seq<T> {
    if parts == [] then [] else parts[0] + Concat(parts[1..])
  }

  lemma Associate<T>(a: seq<T>, b: seq<T>, c: seq<T>)
    ensures a + (b + c) == (a + b) + c
  {
  }

  lemma ConcatNil<T>(a: seq<T>)
    ensures a + [] == a && [] + a == a
  {
  }

  lemma QuotientBetween(sum: real, weight: real, lo: real, hi: real)
    requires weight > 0.0 && lo * weight <= sum <= hi * weight
    ensures lo <= sum / weight <= hi
  {
    assert sum / weight - lo == (sum - lo * weight) / weight;
    assert hi - sum / weight == (hi * weight - sum) / weight;
  }

  /** Python's `round(x)`: halves go to the even neighbour. */
  function RoundHalfEven(x: real): int {
    var below := x.Floor;
    var rest := x - below as real;
    if rest < 0.5 || (rest == 0.5 && below % 2 == 0) then below else below + 1
  }

  /** Python's `int(x)`: towards zero. */
  function Truncate(x: real): int {
    if x >= 0.0 then x.Floor else -((-x).Floor)
  }
}
