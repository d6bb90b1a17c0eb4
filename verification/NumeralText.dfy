/**
 How Python prints numbers: an integer without leading zeros, a float in plain notation from
 0.0001 up to ten thousand billions, and otherwise with an exponent of at least two digits.
 */
module NumeralText {
  import opened Numerals
  import opened Prelude

  /** The digits of a number: none but zero starts with a zero, and there are as many as its powers of ten ask for. */
  lemma {:induction false} NatTextExactly(n: nat)
    ensures NatText(n)[0] == '0' <==> n == 0
    ensures n == 0 ==> NatText(n) == "0"
    ensures n > 0 ==> Pow10(|NatText(n)| - 1) <= n < Pow10(|NatText(n)|)
  {
    if n >= 10 { NatTextExactly(n / 10); }
  }

  /** An integer has a minus exactly if it is negative, and no leading zero. */
  lemma IntTextExactly(n: int)
    ensures var t := IntText(n); var digits := if n < 0 then t[1..] else t;
            && (t[0] == '-' <==> n < 0)
            && AllDigits(digits) && digits != [] && DigitsValue(digits) == (if n < 0 then -n else n)
            && (digits[0] == '0' ==> digits == "0")
  {
    NatTextValue(if n < 0 then -n else n);
    NatTextExactly(if n < 0 then -n else n);
    hide NatText, DigitsValue;
  }

  lemma {:induction false} Pow10Order(a: nat, b: nat)
    ensures a <= b <==> Pow10(a) <= Pow10(b)
    decreases a + b
  {
    if a > 0 && b > 0 { Pow10Order(a - 1, b - 1); }
  }

  /** A number has more than `k` digits exactly if it is at least ten to the power `k`. */
  lemma DigitCount(n: nat, k: nat)
    requires n > 0
    ensures |NatText(n)| > k <==> n >= Pow10(k)
  {
    var l := |NatText(n)|;
    NatTextExactly(n);
    hide NatText;
    if l > k { Pow10Order(k, l - 1); } else { Pow10Order(l, k); }
  }

  lemma {:induction false} Pow10Adds(a: nat, b: nat)
    ensures Pow10(a + b) == Pow10(a) * Pow10(b)
  {
    if a > 0 {
      Pow10Adds(a - 1, b);
      MoveTen(Pow10(b), Pow10(a - 1));
    }
  }

  /** The plain notation is for zero and for the values from 0.0001 to below 10^16. */
  lemma PlainExactly(d: Decimal)
    requires d.Valid()
    ensures IsPlain(d) <==> d.digits == 0 || (10000 * d.digits >= Pow10(d.scale) && d.digits < Pow10(d.scale + 16))
  {
    hide NatText, Pow10;
    var n, k := d.digits, d.scale;
    FourZeros();
    if n > 0 {
      DigitCount(n, k + 16);
      if k >= 4 {
        DigitCount(n, k - 4);
        Pow10Adds(4, k - 4);
      } else {
        Pow10Order(k, 4);
      }
    } else {
      NatTextExactly(0);
    }
  }

  lemma FourZeros()
    ensures Pow10(4) == 10000
  {
  }

  /** Digits around a point, and no more zeros in front than one. */
  ghost predicate IsPlainWith(s: string, a: string, b: string) {
    s == a + "." + b && AllDigits(a + b) && a != [] && b != [] && (a[0] == '0' ==> a == "0")
  }

  /** Such a text with the value of `digits / 10^scale`. */
  ghost predicate IsPlainText(s: string, digits: nat, scale: nat) {
    exists a, b :: IsPlainWith(s, a, b) && |b| == scale && DigitsValue(a + b) == digits
  }

  /** The significant digits, a point behind the first of several, and an exponent of two digits or more. */
  ghost predicate IsScientific(s: string, t: string, e: string, x: int) {
    && t != [] && AllDigits(t) && t[0] != '0' && t[|t| - 1] != '0'
    && AllDigits(e) && |e| >= 2 && (|e| > 2 ==> e[0] != '0') && DigitsValue(e) == (if x < 0 then -x else x)
    && s == t[..1] + (if |t| == 1 then "" else "." + t[1..]) + "e" + (if x < 0 then "-" else "+") + e
  }

  /** Such a text with the value of `digits / 10^scale`. */
  ghost predicate IsScientificText(s: string, digits: nat, scale: nat) {
    exists t, e, x, zeros: nat ::
      && IsScientific(s, t, e, x)
      && digits == DigitsValue(t) * Pow10(zeros) && x == |t| + zeros - 1 - scale
  }

  lemma PaddedPieces(n: string, scale: nat, t: string, a: string, b: string)
    requires n != [] && AllDigits(n) && (n[0] == '0' ==> |n| == 1) && scale >= 1
    requires t == PadLeft(n, scale + 1) && a == t[..|t| - scale] && b == t[|t| - scale..]
    ensures a + b == t && |b| == scale && IsPlainWith(a + "." + b, a, b) && (a + "." + b)[0] != '-'
  {
    if |n| <= scale { assert a == "0"; }
    assert a + b == t;
    assert (a + "." + b)[0] == a[0];
  }

  lemma PlainIs(digits: nat, scale: nat) returns (t: string, a: string, b: string)
    ensures t == PadLeft(NatText(digits), scale + 1) && |t| >= scale && a == t[..|t| - scale] && b == t[|t| - scale..]
    ensures PlainText(digits, scale) == a + "." + b
  {
    hide NatText, PadLeft;
    t := PadLeft(NatText(digits), scale + 1);
    a, b := t[..|t| - scale], t[|t| - scale..];
  }

  lemma PlainIsPlain(digits: nat, scale: nat)
    requires scale >= 1
    ensures IsPlainText(PlainText(digits, scale), digits, scale)
    ensures PlainText(digits, scale) != [] && PlainText(digits, scale)[0] != '-'
  {
    hide NatText, DigitsValue, PadLeft, IsPlainWith, PlainText, ReadDigits, AllDigits;
    var t, a, b := PlainIs(digits, scale);
    NatTextExactly(digits);
    ReadPadded(digits, scale + 1);
    PaddedPieces(NatText(digits), scale, t, a, b);
  }

  lemma {:induction false} StrippedEnd(n: nat)
    requires n > 0
    ensures StripZeros(n) > 0 && StripZeros(n) % 10 != 0
  {
    if n % 10 == 0 { StrippedEnd(n / 10); }
  }

  lemma {:induction false} LastDigit(n: nat)
    ensures NatText(n)[|NatText(n)| - 1] == DigitChar(n % 10)
  {
  }

  lemma ExponentExactly(x: int, e: string)
    requires e == PadLeft(NatText(if x < 0 then -x else x), 2)
    ensures AllDigits(e) && |e| >= 2 && (|e| > 2 ==> e[0] != '0') && DigitsValue(e) == (if x < 0 then -x else x)
    ensures ExponentText(x) == (if x < 0 then "-" else "+") + e
  {
    var n: nat := if x < 0 then -x else x;
    hide NatText, DigitsValue;
    NatTextExactly(n);
    ReadPadded(n, 2);
  }

  lemma ScientificPieces(t: string, x: int, e: string)
    requires t != [] && ExponentText(x) == (if x < 0 then "-" else "+") + e
    ensures ScientificText(t, x)
         == t[..1] + (if |t| == 1 then "" else "." + t[1..]) + "e" + (if x < 0 then "-" else "+") + e
    ensures ScientificText(t, x) != [] && ScientificText(t, x)[0] == t[0]
  {
    hide ExponentText;
    assert |t| == 1 ==> t[..1] == t;
  }

  lemma ScientificIsScientific(digits: nat, scale: nat, m: nat, zeros: nat, x: int)
    requires digits > 0 && m == StripZeros(digits) && zeros == TrailingZeros(digits)
    requires x == |NatText(digits)| - scale - 1
    ensures IsScientificText(ScientificText(NatText(m), x), digits, scale)
    ensures ScientificText(NatText(m), x) != [] && ScientificText(NatText(m), x)[0] != '-'
  {
    hide NatText, DigitsValue, StripZeros, TrailingZeros, Pow10, PadLeft, ExponentText, ScientificText;
    var t, e := NatText(m), PadLeft(NatText(if x < 0 then -x else x), 2);
    StripFacts(digits);
    StripLength(digits);
    StrippedEnd(digits);
    NatTextExactly(m);
    NatTextValue(m);
    LastDigit(m);
    ExponentExactly(x, e);
    ScientificPieces(t, x, e);
    assert IsDigit(t[0]);
    assert IsScientific(ScientificText(t, x), t, e, x);
  }

  lemma SignedBody(negative: bool, body: string)
    requires body != [] && body[0] != '-'
    ensures var text := SignText(negative) + body;
            (text[0] == '-' <==> negative) && (if negative then text[1..] else text) == body
  {
  }

  /** Every float is printed so, after a minus if it is negative, zero included. */
  lemma FloatTextExactly(d: Decimal)
    requires d.Valid()
    ensures var body := if d.negative then FloatText(d)[1..] else FloatText(d);
            && (FloatText(d)[0] == '-' <==> d.negative)
            && if d.digits == 0 || (10000 * d.digits >= Pow10(d.scale) && d.digits < Pow10(d.scale + 16))
               then IsPlainText(body, d.digits, d.scale) else IsScientificText(body, d.digits, d.scale)
  {
    hide NatText, Pow10, IsPlainText, IsScientificText, PlainText, ScientificText, StripZeros, TrailingZeros, IsPlain;
    PlainExactly(d);
    var x := PointPosition(d) - 1;
    if IsPlain(d) {
      PlainIsPlain(d.digits, d.scale);
      SignedBody(d.negative, PlainText(d.digits, d.scale));
    } else {
      ScientificIsScientific(d.digits, d.scale, StripZeros(d.digits), TrailingZeros(d.digits), x);
      SignedBody(d.negative, ScientificText(NatText(StripZeros(d.digits)), x));
    }
  }
}
