/**
 Python's decimal notation for numbers: `str(int)`, `int(text)`, `repr(float)` and
 `float(text)`, over ASCII digits and with floats as exact decimals.
 */
module Numerals {
  import opened Prelude
  import opened Lexing

  predicate IsDigit(c: char) {
    '0' <= c <= '9'
  }

  predicate AllDigits(s: string) {
    forall i :: 0 <= i < |s| ==> IsDigit(s[i])
  }

  function DigitChar(d: nat): (c: char)
    requires d < 10
    ensures IsDigit(c) && c as int - '0' as int == d
  {
    ('0' as int + d) as char
  }

  /** The decimal digits of a natural number, without leading zeros. */
  function NatText(n: nat): (s: string)
    ensures s != [] && AllDigits(s)
  {
    if n < 10 then [DigitChar(n)] else NatText(n / 10) + [DigitChar(n % 10)]
  }

  function DigitsValue(s: string): nat
    requires AllDigits(s)
  {
    if s == [] then 0
    else 10 * DigitsValue(s[..|s| - 1]) + (s[|s| - 1] as int - '0' as int)
  }

  lemma {:induction false} NatTextValue(n: nat)
    ensures DigitsValue(NatText(n)) == n
  {
    if n >= 10 {
      NatTextValue(n / 10);
      assert NatText(n)[..|NatText(n)| - 1] == NatText(n / 10);
    }
  }

  /** Digits, with single underscores allowed between them; returned without the underscores. */
  function ReadDigits(s: string): (r: Option<string>)
    ensures r.Some? ==> r.value != [] && AllDigits(r.value) && s != [] && IsDigit(s[0])
  {
    if s == [] || !IsDigit(s[0]) then None
    else if |s| == 1 then Some(s)
    else
      match ReadDigits(if s[1] == '_' then s[2..] else s[1..])
      case None => None
      case Some(rest) => Some([s[0]] + rest)
  }

  lemma {:induction false} ReadPlainDigits(s: string)
    requires s != [] && AllDigits(s)
    ensures ReadDigits(s) == Some(s)
  {
    if |s| > 1 {
      assert IsDigit(s[1]);
      ReadPlainDigits(s[1..]);
      assert [s[0]] + s[1..] == s;
    }
  }

  predicate HasSign(s: string) {
    s != [] && (s[0] == '+' || s[0] == '-')
  }

  predicate IsNegative(s: string) {
    s != [] && s[0] == '-'
  }

  function Unsigned(s: string): string {
    if HasSign(s) then s[1..] else s
  }

  /** `int(text)`; `None` for its ValueError. */
  function ReadInt(s: string): (r: Option<int>)
  {
    match ReadDigits(Unsigned(s))
    case None => None
    case Some(digits) =>
      var v: int := DigitsValue(digits);
      Some(if IsNegative(s) then -v else v)
  }

  /** `str(n)`. */
  function IntText(n: int): (s: string)
  {
    if n < 0 then "-" + NatText(-n) else NatText(n)
  }

  lemma ReadIntText(n: int)
    ensures ReadInt(IntText(n)) == Some(n)
  {
    var digits := NatText(if n < 0 then -n else n);
    ReadPlainDigits(digits);
    NatTextValue(if n < 0 then -n else n);
    assert Unsigned(IntText(n)) == digits;
  }

  // ---------- Floats ----------

  /**
   The float `(-1)^negative * digits / 10^scale`. `scale` is at least 1 and as
   small as possible, so every value has one representation, and `-0.0` one of its own.
   */
  datatype Decimal = Decimal(negative: bool, digits: nat, scale: nat) {
    predicate Valid() {
      scale >= 1 && (scale == 1 || digits % 10 != 0)
    }
  }

  type Float = d: Decimal | d.Valid() witness Decimal(false, 0, 1)

  function Pow10(k: nat): (p: nat)
    ensures p >= 1
  {
    if k == 0 then 1 else 10 * Pow10(k - 1)
  }

  /** The float of value `n / 10^scale`, for a scale of either sign. */
  function Normal(negative: bool, n: nat, scale: int): (d: Decimal)
    ensures d.Valid()
    decreases if scale > 1 then scale else 0
  {
    if scale < 1 then Decimal(negative, n * Pow10(1 - scale), 1)
    else if scale == 1 || n % 10 != 0 then Decimal(negative, n, scale)
    else Normal(negative, n / 10, scale - 1)
  }

  function IndexOf(s: string, p: char -> bool): (i: nat)
    ensures i <= |s|
    ensures forall j :: 0 <= j < i ==> !p(s[j])
    ensures i < |s| ==> p(s[i])
  {
    if s == [] || p(s[0]) then 0 else 1 + IndexOf(s[1..], p)
  }

  predicate IsExponentMark(c: char) { c == 'e' || c == 'E' }

  predicate IsDot(c: char) { c == '.' }

  /** Digits that may be missing on one side of the point. */
  function ReadPart(s: string): Option<string> {
    if s == [] then Some([]) else ReadDigits(s)
  }

  /** `fraction` digits stand after the point; `tail` is empty or an exponent with its mark. */
  function FloatOfParts(negative: bool, whole: string, fraction: string, tail: string): (r: Option<Decimal>)
    ensures r.Some? ==> r.value.Valid()
  {
    match (ReadPart(whole), ReadPart(fraction))
    case (Some(w), Some(f)) =>
      if w + f == [] then None
      else if tail == [] then Some(Normal(negative, DigitsValue(w + f), |f|))
      else (match ReadInt(tail[1..])
            case None => None
            case Some(x) => Some(Normal(negative, DigitsValue(w + f), |f| - x)))
    case _ => None
  }

  /**
   `float(text)` on text that holds a point: sign, digits around the point with
   at least one on some side, and an optional exponent. `None` for its ValueError.
   */
  function ReadFloat(s: string): (r: Option<Decimal>)
    ensures r.Some? ==> r.value.Valid()
  {
    var body := Unsigned(s);
    var e := IndexOf(body, IsExponentMark);
    var dot := IndexOf(body[..e], IsDot);
    if dot == e then None
    else FloatOfParts(IsNegative(s), body[..dot], body[dot + 1..e], body[e..])
  }

  // ---------- repr(float) ----------

  function Zeros(n: nat): (s: string)
    ensures |s| == n && AllDigits(s)
  {
    seq(n, _ => '0')
  }

  function PadLeft(s: string, width: nat): (r: string)
    requires AllDigits(s)
    ensures AllDigits(r) && |r| >= width && |r| >= |s|
  {
    if |s| < width then Zeros(width - |s|) + s else s
  }

  function StripZeros(n: nat): (m: nat)
  {
    if n != 0 && n % 10 == 0 then StripZeros(n / 10) else n
  }

  /** Where the decimal point stands, counted from the first significant digit. */
  function PointPosition(d: Decimal): int {
    |NatText(d.digits)| - d.scale
  }

  /** `repr` writes floats between 1e-4 and 1e16 without an exponent. */
  predicate IsPlain(d: Decimal) {
    -4 < PointPosition(d) <= 16
  }

  /** `digits` with the point `scale` places before the end. */
  function PlainText(digits: nat, scale: nat): string {
    var t := PadLeft(NatText(digits), scale + 1);
    t[..|t| - scale] + "." + t[|t| - scale..]
  }

  /** The exponent has a sign and at least two digits. */
  function ExponentText(x: int): string {
    (if x < 0 then "-" else "+") + PadLeft(NatText(if x < 0 then -x else x), 2)
  }

  /** One digit, the other significant ones after a point, and the exponent. */
  function ScientificText(t: string, x: int): string
    requires t != []
  {
    (if |t| == 1 then t else t[..1] + "." + t[1..]) + ("e" + ExponentText(x))
  }

  function SignText(negative: bool): string {
    if negative then "-" else ""
  }

  function FloatText(d: Decimal): string {
    SignText(d.negative) +
    if IsPlain(d) then PlainText(d.digits, d.scale)
    else ScientificText(NatText(StripZeros(d.digits)), PointPosition(d) - 1)
  }

  /** Exactly the floats `repr` writes with a point: not `1e-05` or `1e+16`. */
  predicate HasPoint(d: Decimal) {
    IsPlain(d) || StripZeros(d.digits) >= 10
  }

  lemma {:induction false} LeadingZeros(n: nat, s: string)
    requires AllDigits(s)
    ensures DigitsValue(Zeros(n) + s) == DigitsValue(s)
  {
    if s == [] {
      if n > 0 {
        assert Zeros(n)[..n - 1] == Zeros(n - 1);
        LeadingZeros(n - 1, []);
        assert Zeros(n - 1) + [] == Zeros(n - 1);
        assert Zeros(n) + [] == Zeros(n);
      }
    } else {
      assert (Zeros(n) + s)[..|Zeros(n) + s| - 1] == Zeros(n) + s[..|s| - 1];
      LeadingZeros(n, s[..|s| - 1]);
    }
  }

  lemma PadLeftValue(s: string, width: nat)
    requires AllDigits(s)
    ensures DigitsValue(PadLeft(s, width)) == DigitsValue(s)
  {
    hide DigitsValue;
    if |s| < width { LeadingZeros(width - |s|, s); }
  }

  /** A number is read from its printed digits, padded or not. */
  lemma ReadPadded(n: nat, width: nat)
    ensures var t := PadLeft(NatText(n), width); ReadDigits(t) == Some(t) && DigitsValue(t) == n
  {
    ReadPlainDigits(PadLeft(NatText(n), width));
    PadLeftValue(NatText(n), width);
    NatTextValue(n);
  }

  lemma ReadSigned(sign: char, t: string)
    requires (sign == '+' || sign == '-') && t != [] && ReadDigits(t) == Some(t)
    ensures var v: int := DigitsValue(t); ReadInt([sign] + t) == Some(if sign == '-' then -v else v)
  {
    assert ([sign] + t)[1..] == t;
  }

  lemma ReadExponent(x: int)
    ensures ReadInt(ExponentText(x)) == Some(x)
  {
    var n: nat := if x < 0 then -x else x;
    ReadPadded(n, 2);
    ReadSigned(if x < 0 then '-' else '+', PadLeft(NatText(n), 2));
  }

  lemma IndexOfAt(s: string, p: char -> bool, i: nat)
    requires i <= |s| && (forall j :: 0 <= j < i ==> !p(s[j])) && (i < |s| ==> p(s[i]))
    ensures IndexOf(s, p) == i
  {
  }

  /** Where the point and the exponent of a printed number are found. */
  lemma CutFloat(a: string, b: string, tail: string)
    requires AllDigits(a) && AllDigits(b) && (tail == [] || tail[0] == 'e')
    ensures var body := a + "." + b + tail;
            && IndexOf(body, IsExponentMark) == |a| + 1 + |b|
            && IndexOf(body[..|a| + 1 + |b|], IsDot) == |a|
            && body[..|a|] == a && body[|a| + 1..|a| + 1 + |b|] == b && body[|a| + 1 + |b|..] == tail
  {
    var body := a + "." + b + tail;
    forall j | 0 <= j < |a| + 1 + |b| ensures !IsExponentMark(body[j]) && (IsDot(body[j]) <==> j == |a|) {
      if j < |a| { assert body[j] == a[j]; } else if j > |a| { assert body[j] == b[j - |a| - 1]; }
    }
    IndexOfAt(body, IsExponentMark, |a| + 1 + |b|);
    IndexOfAt(body[..|a| + 1 + |b|], IsDot, |a|);
  }

  lemma SignOf(negative: bool, body: string)
    requires body != [] && IsDigit(body[0])
    ensures Unsigned(SignText(negative) + body) == body && IsNegative(SignText(negative) + body) == negative
  {
  }

  /** A printed number with a point is read part by part. */
  lemma ReadFloatParts(negative: bool, a: string, b: string, tail: string)
    requires a != [] && AllDigits(a) && AllDigits(b) && (tail == [] || tail[0] == 'e')
    ensures ReadFloat(SignText(negative) + (a + "." + b + tail)) == FloatOfParts(negative, a, b, tail)
  {
    var body := a + "." + b + tail;
    assert body[0] == a[0];
    SignOf(negative, body);
    CutFloat(a, b, tail);
  }

  lemma ReadParts(a: string, b: string)
    requires a != [] && b != [] && AllDigits(a) && AllDigits(b)
    ensures ReadPart(a) == Some(a) && ReadPart(b) == Some(b)
  {
    ReadPlainDigits(a);
    ReadPlainDigits(b);
  }

  /** How many zeros `StripZeros` strips. */
  function TrailingZeros(n: nat): nat {
    if n != 0 && n % 10 == 0 then 1 + TrailingZeros(n / 10) else 0
  }

  lemma {:induction false} StripFacts(n: nat)
    ensures n == StripZeros(n) * Pow10(TrailingZeros(n))
  {
    if n != 0 && n % 10 == 0 {
      StripFacts(n / 10);
      MoveTen(StripZeros(n / 10), Pow10(TrailingZeros(n / 10)));
    }
  }

  lemma MoveTen(m: nat, p: nat)
    ensures 10 * (m * p) == m * (10 * p)
  {
  }

  lemma {:induction false} StripLength(n: nat)
    ensures |NatText(n)| == |NatText(StripZeros(n))| + TrailingZeros(n)
  {
    if n != 0 && n % 10 == 0 {
      StripLength(n / 10);
    }
  }

  lemma FloatOfDigits(negative: bool, a: string, b: string, tail: string, n: nat, x: int)
    requires a != [] && b != [] && AllDigits(a) && AllDigits(b) && DigitsValue(a + b) == n
    requires if tail == [] then x == 0 else ReadInt(tail[1..]) == Some(x)
    ensures FloatOfParts(negative, a, b, tail) == Some(Normal(negative, n, |b| - x))
  {
    ReadParts(a, b);
  }

  lemma ReadFloatDigits(negative: bool, text: string, a: string, b: string, tail: string, n: nat, x: int)
    requires text == a + "." + b + tail && (tail == [] || tail[0] == 'e')
    requires a != [] && b != [] && AllDigits(a) && AllDigits(b) && DigitsValue(a + b) == n
    requires if tail == [] then x == 0 else ReadInt(tail[1..]) == Some(x)
    ensures ReadFloat(SignText(negative) + text) == Some(Normal(negative, n, |b| - x))
  {
    FloatOfDigits(negative, a, b, tail, n, x);
    ReadFloatParts(negative, a, b, tail);
  }

  lemma PlainParts(digits: nat, scale: nat) returns (a: string, b: string)
    requires scale >= 1
    ensures PlainText(digits, scale) == a + "." + b + []
    ensures a != [] && |b| == scale && AllDigits(a) && AllDigits(b) && DigitsValue(a + b) == digits
  {
    var t := PadLeft(NatText(digits), scale + 1);
    a, b := t[..|t| - scale], t[|t| - scale..];
    assert a + b == t;
    ReadPadded(digits, scale + 1);
  }

  lemma ReadPlainText(d: Decimal)
    requires d.Valid()
    ensures ReadFloat(SignText(d.negative) + PlainText(d.digits, d.scale)) == Some(d)
  {
    hide ReadFloat, PlainText;
    var a, b := PlainParts(d.digits, d.scale);
    ReadFloatDigits(d.negative, PlainText(d.digits, d.scale), a, b, [], d.digits, 0);
  }

  lemma ScientificParts(m: nat, x: int) returns (a: string, b: string, tail: string)
    requires m >= 10
    ensures ScientificText(NatText(m), x) == a + "." + b + tail
    ensures |a| == 1 && |b| == |NatText(m)| - 1 >= 1 && AllDigits(a) && AllDigits(b) && DigitsValue(a + b) == m
    ensures tail != [] && tail[0] == 'e' && ReadInt(tail[1..]) == Some(x)
  {
    var t := NatText(m);
    a, b, tail := t[..1], t[1..], "e" + ExponentText(x);
    assert a + b == t;
    NatTextValue(m);
    assert tail[1..] == ExponentText(x);
    ReadExponent(x);
  }

  /** The value of a number written with an exponent. */
  lemma ReadScientificText(negative: bool, m: nat, x: int)
    requires m >= 10
    ensures ReadFloat(SignText(negative) + ScientificText(NatText(m), x))
         == Some(Normal(negative, m, |NatText(m)| - 1 - x))
  {
    hide ReadFloat, ScientificText, ExponentText, NatText;
    var a, b, tail := ScientificParts(m, x);
    ReadFloatDigits(negative, ScientificText(NatText(m), x), a, b, tail, m, x);
  }

  lemma NormalStripped(d: Decimal)
    requires d.Valid()
    ensures Normal(d.negative, StripZeros(d.digits), d.scale - TrailingZeros(d.digits)) == d
  {
    StripFacts(d.digits);
  }

  /** A float written with a point is read back exactly. */
  lemma ReadFloatText(d: Decimal)
    requires d.Valid() && HasPoint(d)
    ensures ReadFloat(FloatText(d)) == Some(d)
  {
    hide ReadFloat, PlainText, ScientificText, Normal;
    if IsPlain(d) {
      ReadPlainText(d);
    } else {
      ReadScientificText(d.negative, StripZeros(d.digits), PointPosition(d) - 1);
      StripLength(d.digits);
      NormalStripped(d);
    }
  }

  /** Every character of a printed number is bare. */
  predicate IsNumberChar(c: char) {
    IsDigit(c) || c == '+' || c == '-' || c == '.' || c == 'e'
  }

  predicate IsNumberText(s: string) {
    forall i :: 0 <= i < |s| ==> IsNumberChar(s[i])
  }

  lemma NumberTextConcat(a: string, b: string)
    requires IsNumberText(a) && IsNumberText(b)
    ensures IsNumberText(a + b)
  {
  }

  lemma PlainIsNumber(digits: nat, scale: nat)
    ensures IsNumberText(PlainText(digits, scale)) && '.' in PlainText(digits, scale)
  {
    var t := PadLeft(NatText(digits), scale + 1);
    NumberTextConcat(t[..|t| - scale], ".");
    NumberTextConcat(t[..|t| - scale] + ".", t[|t| - scale..]);
    assert PlainText(digits, scale)[|t| - scale] == '.';
  }

  lemma ExponentIsNumber(x: int)
    ensures IsNumberText("e" + ExponentText(x)) && '.' !in "e" + ExponentText(x)
  {
    var t := PadLeft(NatText(if x < 0 then -x else x), 2);
    assert AllDigits(t);
  }

  lemma ScientificIsNumber(t: string, x: int)
    requires t != [] && AllDigits(t)
    ensures IsNumberText(ScientificText(t, x)) && ScientificText(t, x) != []
    ensures '.' in ScientificText(t, x) <==> |t| > 1
  {
    var tail := "e" + ExponentText(x);
    ExponentIsNumber(x);
    if |t| == 1 {
      NumberTextConcat(t, tail);
      assert t == [t[0]];
    } else {
      NumberTextConcat(t[..1], ".");
      NumberTextConcat(t[..1] + ".", t[1..]);
      NumberTextConcat(t[..1] + "." + t[1..], tail);
      assert ScientificText(t, x)[1] == '.';
    }
  }

  lemma SignedNumber(negative: bool, t: string)
    requires IsNumberText(t)
    ensures IsNumberText(SignText(negative) + t)
    ensures '.' in SignText(negative) + t <==> '.' in t
  {
    NumberTextConcat(SignText(negative), t);
    assert '.' !in SignText(negative);
  }

  lemma FloatIsNumber(d: Decimal)
    ensures IsNumberText(FloatText(d)) && FloatText(d) != []
    ensures HasPoint(d) <==> '.' in FloatText(d)
  {
    hide PlainText, ScientificText, StripZeros;
    if IsPlain(d) {
      PlainIsNumber(d.digits, d.scale);
      SignedNumber(d.negative, PlainText(d.digits, d.scale));
    } else {
      var t := NatText(StripZeros(d.digits));
      ScientificIsNumber(t, PointPosition(d) - 1);
      SignedNumber(d.negative, ScientificText(t, PointPosition(d) - 1));
    }
  }

  /** Without a point, a printed float is no integer either: its exponent mark is in the way. */
  lemma PointlessFloat(d: Decimal)
    requires !HasPoint(d)
    ensures ReadInt(FloatText(d)) == None
  {
    var t := NatText(StripZeros(d.digits));
    var tail := "e" + ExponentText(PointPosition(d) - 1);
    assert |t| == 1;
    var body := t + tail;
    SignOf(d.negative, body);
    MarkIsNoDigit(body);
  }

  lemma MarkIsNoDigit(body: string)
    requires |body| > 1 && body[1] == 'e'
    ensures ReadDigits(body) == None
  {
  }

  lemma NumberIsBare(s: string)
    requires s != [] && IsNumberText(s)
    ensures IsBareToken(s)
  {
    forall i | 0 <= i < |s| ensures IsBare(s[i]) { assert IsNumberChar(s[i]); }
    assert IsNumberChar(s[0]);
  }

  lemma IntTextIsBare(n: int)
    ensures IsBareToken(IntText(n)) && '.' !in IntText(n)
  {
    NumberIsBare(IntText(n));
  }

  lemma FloatTextIsBare(d: Decimal)
    ensures IsBareToken(FloatText(d))
  {
    FloatIsNumber(d);
    NumberIsBare(FloatText(d));
  }
}
