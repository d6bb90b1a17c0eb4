/**
 Which texts Python's `int` and `float` read, and as what: digits in groups with single
 underscores between them, a sign, a point, an exponent.
 */
module NumeralGrammar {
  import opened Numerals
  import opened Prelude

  /** Some groups of one or more digits. */
  predicate AreGroups(groups: seq<string>) {
    groups != [] && forall i :: 0 <= i < |groups| ==> groups[i] != [] && AllDigits(groups[i])
  }

  /** The groups with an underscore between any two. */
  function Joined(groups: seq<string>): string
    requires groups != []
  {
    if |groups| == 1 then groups[0] else groups[0] + "_" + Joined(groups[1..])
  }

  lemma ConcatOne(g: string)
    ensures Concat([g]) == g
  {
    assert [g][1..] == [];
  }

  lemma {:induction false} GroupsAreRead(groups: seq<string>)
    requires AreGroups(groups)
    ensures ReadDigits(Joined(groups)) == Some(Concat(groups))
    decreases |groups|, |groups[0]|
  {
    var g := groups[0];
    assert AllDigits(g) && IsDigit(g[0]);
    if |groups| == 1 {
      assert groups == [g];
      ConcatOne(g);
      ReadPlainDigits(g);
    } else if |g| == 1 {
      GroupsAreRead(groups[1..]);
      assert Joined(groups)[2..] == Joined(groups[1..]);
      hide Concat, Joined;
      assert Concat(groups) == [g[0]] + Concat(groups[1..]) by { ConcatMore(groups); }
    } else {
      var rest := [g[1..]] + groups[1..];
      assert forall i :: 0 < i < |rest| ==> rest[i] == groups[i];
      GroupsAreRead(rest);
      FirstDigit(groups);
      assert IsDigit(g[1]);
    }
  }

  lemma ConcatMore(groups: seq<string>)
    requires groups != [] && |groups[0]| == 1
    ensures Concat(groups) == [groups[0][0]] + Concat(groups[1..])
  {
  }

  /** The first digit of a group taken off. */
  lemma FirstDigit(groups: seq<string>)
    requires |groups| > 1 && |groups[0]| > 1
    ensures var rest := [groups[0][1..]] + groups[1..];
            && |Joined(groups)| > 1 && Joined(groups)[0] == groups[0][0] && Joined(groups)[1] == groups[0][1]
            && Joined(groups)[1..] == Joined(rest) && Concat(groups) == [groups[0][0]] + Concat(rest)
  {
    var rest := [groups[0][1..]] + groups[1..];
    assert rest[1..] == groups[1..];
  }

  lemma {:induction false} ReadGroups(s: string) returns (groups: seq<string>)
    requires ReadDigits(s).Some?
    ensures AreGroups(groups) && s == Joined(groups)
    decreases |s|
  {
    if |s| == 1 {
      groups := [s];
    } else if s[1] == '_' {
      var rest := ReadGroups(s[2..]);
      groups := [s[..1]] + rest;
      assert groups[1..] == rest;
      assert s == s[..1] + "_" + s[2..];
    } else {
      var rest := ReadGroups(s[1..]);
      groups := [s[..1] + rest[0]] + rest[1..];
      GroupGrows(s[..1], rest);
      assert s == s[..1] + s[1..];
    }
  }

  lemma GroupGrows(digit: string, groups: seq<string>)
    requires AreGroups(groups)
    ensures Joined([digit + groups[0]] + groups[1..]) == digit + Joined(groups)
  {
    var more := [digit + groups[0]] + groups[1..];
    assert more[1..] == groups[1..];
    assert groups == [groups[0]] + groups[1..];
  }

  /** Digits are read exactly if they come in groups with single underscores between them. */
  lemma DigitsExactly(s: string, digits: string)
    ensures ReadDigits(s) == Some(digits)
       <==> exists groups :: AreGroups(groups) && s == Joined(groups) && digits == Concat(groups)
  {
    if ReadDigits(s).Some? {
      var groups := ReadGroups(s);
      GroupsAreRead(groups);
    }
    forall groups | AreGroups(groups) && s == Joined(groups)
      ensures ReadDigits(s) == Some(Concat(groups))
    {
      GroupsAreRead(groups);
    }
  }

  /** The number of some digits after a sign. */
  function SignedValue(sign: string, digits: string): int
    requires AllDigits(digits)
  {
    if sign == "-" then -(DigitsValue(digits) as int) else DigitsValue(digits)
  }

  predicate IsSign(sign: string) {
    sign == "" || sign == "+" || sign == "-"
  }

  /** A sign or none, and digits in groups. */
  ghost predicate IsIntText(s: string, n: int) {
    exists sign, groups :: IsSign(sign) && AreGroups(groups) && s == sign + Joined(groups)
                           && AllDigits(Concat(groups)) && n == SignedValue(sign, Concat(groups))
  }

  lemma UnsignedOf(sign: string, body: string)
    requires IsSign(sign) && body != [] && (IsDigit(body[0]) || body[0] == '.')
    ensures Unsigned(sign + body) == body && IsNegative(sign + body) == (sign == "-")
  {
  }

  lemma SignOfText(s: string) returns (sign: string)
    ensures IsSign(sign) && s == sign + Unsigned(s) && IsNegative(s) == (sign == "-")
  {
    sign := if HasSign(s) then s[..1] else "";
  }

  /** `int` reads exactly such texts. */
  lemma IntExactly(s: string, n: int)
    ensures ReadInt(s) == Some(n) <==> IsIntText(s, n)
  {
    if ReadInt(s) == Some(n) {
      var sign := SignOfText(s);
      var groups := ReadGroups(Unsigned(s));
      GroupsAreRead(groups);
    }
    forall sign, groups | IsSign(sign) && AreGroups(groups) && s == sign + Joined(groups)
      ensures ReadDigits(Unsigned(s)) == Some(Concat(groups)) && IsNegative(s) == (sign == "-")
    {
      GroupsAreRead(groups);
      UnsignedOf(sign, Joined(groups));
    }
    hide Joined, Concat, ReadDigits;
  }

  // ---------- Floats ----------

  /** Nothing, or digits in groups. */
  ghost predicate IsPart(s: string, digits: string) {
    if s == [] then digits == []
    else exists groups :: AreGroups(groups) && s == Joined(groups) && digits == Concat(groups)
  }

  /** Nothing, or `e` or `E` and a whole number. */
  ghost predicate IsExponent(s: string, x: int) {
    if s == [] then x == 0 else (s[0] == 'e' || s[0] == 'E') && IsIntText(s[1..], x)
  }

  /** A sign or none, digits on at least one side of the point, and an exponent or none; and the number it makes. */
  ghost predicate IsFloatText(s: string, d: Decimal) {
    exists sign, whole, fraction, exponent, w, f, x ::
      && IsFloat(s, sign, whole, fraction, exponent, w, f, x)
      && d == Normal(sign == "-", DigitsValue(w + f), |f| - x)
  }

  ghost predicate IsFloat(
    s: string, sign: string, whole: string, fraction: string, exponent: string, w: string, f: string, x: int)
  {
    && IsSign(sign) && s == sign + (whole + "." + fraction + exponent)
    && IsPart(whole, w) && IsPart(fraction, f) && IsExponent(exponent, x)
    && AllDigits(w + f) && w + f != []
  }

  lemma PartExactly(s: string, digits: string)
    ensures ReadPart(s) == Some(digits) <==> IsPart(s, digits)
    ensures ReadPart(s) == Some(digits) ==> AllDigits(digits)
  {
    if s != [] { DigitsExactly(s, digits); }
  }

  predicate IsPartChar(c: char) {
    IsDigit(c) || c == '_'
  }

  lemma {:induction false} ReadPartChars(s: string)
    requires ReadDigits(s).Some?
    ensures IsDigit(s[0]) && forall i :: 0 <= i < |s| ==> IsPartChar(s[i])
  {
    if |s| > 1 {
      ReadPartChars(if s[1] == '_' then s[2..] else s[1..]);
    }
  }

  /** The point and the exponent are found where the parts meet. */
  lemma CutParts(a: string, b: string, tail: string)
    requires forall i :: 0 <= i < |a| ==> IsPartChar(a[i])
    requires forall i :: 0 <= i < |b| ==> IsPartChar(b[i])
    requires tail == [] || IsExponentMark(tail[0])
    ensures var body, e := a + "." + b + tail, |a| + 1 + |b|;
            && IndexOf(body, IsExponentMark) == e && IndexOf(body[..e], IsDot) == |a|
            && body[..|a|] == a && body[|a| + 1..e] == b && body[e..] == tail
  {
    var body, e := a + "." + b + tail, |a| + 1 + |b|;
    forall j | 0 <= j < e
      ensures !IsExponentMark(body[j]) && (IsDot(body[j]) <==> j == |a|)
    {
      if j < |a| { assert body[j] == a[j]; } else if j > |a| { assert body[j] == b[j - |a| - 1]; }
    }
    IndexOfAt(body, IsExponentMark, e);
    IndexOfAt(body[..e], IsDot, |a|);
  }

  lemma PartsAreRead(sign: string, whole: string, fraction: string, exponent: string)
    requires IsSign(sign) && ReadPart(whole).Some? && ReadPart(fraction).Some?
    requires exponent == [] || IsExponentMark(exponent[0])
    ensures ReadFloat(sign + (whole + "." + fraction + exponent))
         == FloatOfParts(sign == "-", whole, fraction, exponent)
  {
    hide FloatOfParts, ReadDigits;
    if whole != [] { ReadPartChars(whole); }
    if fraction != [] { ReadPartChars(fraction); }
    CutParts(whole, fraction, exponent);
    UnsignedOf(sign, whole + "." + fraction + exponent);
    hide Unsigned, IsNegative, IndexOf;
  }

  lemma FloatIsRead(
    s: string, sign: string, whole: string, fraction: string, exponent: string, w: string, f: string, x: int)
    requires IsFloat(s, sign, whole, fraction, exponent, w, f, x)
    ensures ReadFloat(s) == Some(Normal(sign == "-", DigitsValue(w + f), |f| - x))
  {
    hide ReadFloat, ReadPart, ReadInt, Normal, IsPart, IsIntText, AllDigits, DigitsValue;
    PartExactly(whole, w);
    PartExactly(fraction, f);
    if exponent != [] { IntExactly(exponent[1..], x); }
    PartsAreRead(sign, whole, fraction, exponent);
  }

  lemma SplitFloat(s: string) returns (sign: string, whole: string, fraction: string, exponent: string)
    requires ReadFloat(s).Some?
    ensures IsSign(sign) && s == sign + (whole + "." + fraction + exponent)
    ensures exponent == [] || IsExponentMark(exponent[0])
    ensures ReadFloat(s) == FloatOfParts(sign == "-", whole, fraction, exponent)
  {
    hide FloatOfParts;
    var body := Unsigned(s);
    var e := IndexOf(body, IsExponentMark);
    var dot := IndexOf(body[..e], IsDot);
    sign := SignOfText(s);
    hide Unsigned, IsNegative, IndexOf;
    assert body[..e][dot] == '.';
    Pieces(body, dot, e);
    whole, fraction, exponent := body[..dot], body[dot + 1..e], body[e..];
  }

  lemma Pieces(s: string, dot: nat, e: nat)
    requires dot < e <= |s| && s[dot] == '.'
    ensures s == s[..dot] + "." + s[dot + 1..e] + s[e..]
  {
  }

  lemma ReadIsFloat(s: string)
    requires ReadFloat(s).Some?
    ensures IsFloatText(s, ReadFloat(s).value)
  {
    hide ReadFloat, IsPart, IsIntText, ReadPart, ReadInt, Normal, DigitsValue;
    var sign, whole, fraction, exponent := SplitFloat(s);
    var w, f := ReadPart(whole).value, ReadPart(fraction).value;
    var x := if exponent == [] then 0 else ReadInt(exponent[1..]).value;
    PartExactly(whole, w);
    PartExactly(fraction, f);
    if exponent != [] { IntExactly(exponent[1..], x); }
    assert IsFloat(s, sign, whole, fraction, exponent, w, f, x);
  }

  /** `float` reads, of the texts with a point, exactly these. */
  lemma FloatExactly(s: string, d: Decimal)
    ensures ReadFloat(s) == Some(d) <==> IsFloatText(s, d)
  {
    if ReadFloat(s) == Some(d) {
      ReadIsFloat(s);
    }
    forall sign, whole, fraction, exponent, w, f, x | IsFloat(s, sign, whole, fraction, exponent, w, f, x)
      ensures ReadFloat(s) == Some(Normal(sign == "-", DigitsValue(w + f), |f| - x))
    {
      FloatIsRead(s, sign, whole, fraction, exponent, w, f, x);
    }
    hide ReadFloat, IsFloat, Normal;
  }

  /** The number that is made has the value of the digits, the last `scale` of them after the point. */
  lemma {:induction false} NormalExactly(negative: bool, n: nat, scale: int)
    ensures var d := Normal(negative, n, scale);
            && d.negative == negative && d.Valid()
            && (if scale < 1 then d.scale == 1 && d.digits == n * Pow10(1 - scale)
                else d.scale <= scale && n == d.digits * Pow10(scale - d.scale))
    decreases if scale > 1 then scale else 0
  {
    if scale > 1 && n % 10 == 0 {
      NormalExactly(negative, n / 10, scale - 1);
      var d := Normal(negative, n / 10, scale - 1);
      MoveTen(d.digits, Pow10(scale - 1 - d.scale));
    }
  }
}
