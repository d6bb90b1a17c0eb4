/**
 What survives printing and reading back: exactly the lists whose symbols read
 as symbols and whose floats are printed with a point.
 */
module RoundTrip {
  import opened Prelude
  import opened Lexing
  import opened JsonText
  import opened Numerals
  import opened Sexpr

  // ---------- Which trees survive ----------

  predicate ReadsAsNumber(t: string) {
    if '.' in t then ReadFloat(t).Some? else ReadInt(t).Some?
  }

  /** A symbol that the tokenizer keeps whole and no number is read from. */
  predicate IsPlainSymbol(name: string) {
    IsBareToken(name) && !ReadsAsNumber(name)
  }

  /** The condition of the round trip, atom by atom; strings and integers are free. */
  predicate Survives(a: Sexpr)
    decreases a, 1
  {
    match a
    case Sym(name) => IsPlainSymbol(name)
    case Real(d) => HasPoint(d)
    case List(items) => AllSurvive(items)
    case _ => true
  }

  predicate AllSurvive(items: seq<Sexpr>)
    decreases items, 0
  {
    items == [] || (Survives(items[0]) && AllSurvive(items[1..]))
  }

  /** Every symbol is one bare token; it may still read as a number. */
  predicate IsLexable(a: Sexpr)
    decreases a, 1
  {
    match a
    case Sym(name) => IsBareToken(name)
    case List(items) => AreLexable(items)
    case _ => true
  }

  predicate AreLexable(items: seq<Sexpr>)
    decreases items, 0
  {
    items == [] || (IsLexable(items[0]) && AreLexable(items[1..]))
  }

  /** What a lexable tree is read back as: its atoms are read from their own text. */
  function Reread(a: Sexpr): Sexpr
    decreases a, 1
  {
    match a
    case Sym(name) =>
      if IsBareToken(name) && ReadAtom(name).Ok? then ReadAtom(name).value else a
    case Real(d) => if HasPoint(d) then a else Sym(FloatText(d))
    case List(items) => List(RereadAll(items))
    case _ => a
  }

  function RereadAll(items: seq<Sexpr>): (r: seq<Sexpr>)
    ensures |r| == |items|
    decreases items, 0
  {
    if items == [] then [] else [Reread(items[0])] + RereadAll(items[1..])
  }

  // ---------- The tokens of a printed tree ----------

  function Printed(a: Sexpr): Tree
    decreases a, 1
  {
    match a
    case List(items) => Group(PrintedAll(items))
    case _ => Leaf(AtomText(a))
  }

  function PrintedAll(items: seq<Sexpr>): seq<Tree>
    decreases items, 0
  {
    if items == [] then [] else [Printed(items[0])] + PrintedAll(items[1..])
  }

  /** The text of an atom is one token, and that token is read back as `Reread` says. */
  lemma AtomToken(a: Sexpr)
    requires !a.List? && IsLexable(a)
    ensures IsBareToken(AtomText(a)) || IsQuotedToken(AtomText(a))
    ensures ReadAtom(AtomText(a)) == Ok(Reread(a))
  {
    hide ReadFloat, ReadInt, Loads, Dumps, FloatText, IntText, IsQuotedToken;
    match a
    case Sym(name) =>
    case Str(text) =>
      LoadsDumps(text);
      DumpsIsQuoted(text);
    case Int(n) =>
      IntTextIsBare(n);
      ReadIntText(n);
    case Real(d) =>
      FloatTextIsBare(d);
      FloatIsNumber(d);
      if HasPoint(d) { ReadFloatText(d); } else { PointlessFloat(d); }
  }

  lemma NotParen(t: string)
    requires IsBareToken(t) || IsQuotedToken(t)
    ensures t != "(" && t != ")"
  {
    if IsBareToken(t) { assert IsBare(t[0]); }
  }

  lemma {:induction false} PrintedIsTree(a: Sexpr)
    requires IsLexable(a)
    ensures IsTree(Printed(a)) && Value(Printed(a)) == Ok(Reread(a))
    decreases a, 1
  {
    match a
    case List(items) => PrintedAreTrees(items);
    case _ =>
      AtomToken(a);
      NotParen(AtomText(a));
  }

  lemma {:induction false} PrintedAreTrees(items: seq<Sexpr>)
    requires AreLexable(items)
    ensures AreTrees(PrintedAll(items)) && Values(PrintedAll(items)) == Ok(RereadAll(items))
    decreases items, 0
  {
    if items != [] {
      PrintedIsTree(items[0]);
      PrintedAreTrees(items[1..]);
      assert PrintedAll(items)[1..] == PrintedAll(items[1..]);
    }
  }

  /** Printing is undone by the tokenizer wherever the text is delimited. */
  lemma {:induction false} LexDump(a: Sexpr, rest: string)
    requires IsLexable(a) && Delimited(rest)
    ensures Tokens(Dump(a) + rest) == Flatten(Printed(a)) + Tokens(rest)
    decreases a, 1
  {
    if a.List? {
      LexList(a.items, " ", rest);
      hide Tokens, Join, DumpAll, PrintedAll, FlattenAll;
      Bracketed(Join(DumpAll(a.items), " "), rest);
    } else {
      AtomToken(a);
      hide Tokens, IsQuotedToken, IsBareToken;
      LexClosed(AtomText(a), rest);
    }
  }

  lemma Bracketed(inner: string, rest: string)
    ensures ("(" + (inner + ")")) + rest == "(" + (inner + (")" + rest))
  {
  }

  /** A parenthesised list of printed items, whatever single space separates them. */
  lemma LexList(items: seq<Sexpr>, sep: string, rest: string)
    requires AreLexable(items) && |sep| == 1 && IsSpace(sep[0])
    ensures Tokens("(" + (Join(DumpAll(items), sep) + (")" + rest)))
         == Flatten(Group(PrintedAll(items))) + Tokens(rest)
    decreases items, 2
  {
    hide Tokens, Join, FlattenAll;
    var inner := Join(DumpAll(items), sep);
    LexJoin(items, sep, ")" + rest);
    LexParen('(', inner + (")" + rest));
    LexParen(')', rest);
    Bracket(FlattenAll(PrintedAll(items)), Tokens(rest));
  }

  lemma Bracket(toks: seq<string>, rest: seq<string>)
    ensures ["("] + (toks + ([")"] + rest)) == (["("] + (toks + [")"])) + rest
  {
  }

  /** Items joined by a space are tokenized item by item. */
  lemma {:induction false} LexJoin(items: seq<Sexpr>, sep: string, rest: string)
    requires AreLexable(items) && |sep| == 1 && IsSpace(sep[0]) && Delimited(rest)
    ensures Tokens(Join(DumpAll(items), sep) + rest) == FlattenAll(PrintedAll(items)) + Tokens(rest)
    decreases items, 1
  {
    if items == [] {
      ConcatNil(rest);
      ConcatNil(Tokens(rest));
    } else {
      LexJoinStep(items, sep, rest);
      hide Tokens, Join, Dump, Flatten, FlattenAll;
      var first, others := Flatten(Printed(items[0])), FlattenAll(PrintedAll(items[1..]));
      if |items| == 1 {
        LexDump(items[0], rest);
        ConcatNil(first);
      } else {
        var tail := Join(DumpAll(items[1..]), sep) + rest;
        LexDump(items[0], sep + tail);
        LexSeparator(sep, tail);
        LexJoin(items[1..], sep, rest);
        Associate(first, others, Tokens(rest));
      }
    }
  }

  lemma LexSeparator(sep: string, tail: string)
    requires |sep| == 1 && IsSpace(sep[0])
    ensures Tokens(sep + tail) == Tokens(tail)
  {
    LexSpace(sep[0], tail);
    assert [sep[0]] + tail == sep + tail;
  }

  lemma LexJoinStep(items: seq<Sexpr>, sep: string, rest: string)
    requires items != []
    ensures var joined := Join(DumpAll(items), sep) + rest;
            if |items| == 1 then joined == Dump(items[0]) + rest
            else joined == Dump(items[0]) + (sep + (Join(DumpAll(items[1..]), sep) + rest))
    ensures |items| == 1 ==> FlattenAll(PrintedAll(items[1..])) == []
    ensures FlattenAll(PrintedAll(items)) == Flatten(Printed(items[0])) + FlattenAll(PrintedAll(items[1..]))
  {
    JoinStep(DumpAll(items), sep, rest);
    assert DumpAll(items)[1..] == DumpAll(items[1..]);
    assert PrintedAll(items)[1..] == PrintedAll(items[1..]);
  }

  lemma JoinStep(parts: seq<string>, sep: string, rest: string)
    requires parts != []
    ensures Join(parts, sep) + rest == if |parts| == 1 then parts[0] + rest
                                       else parts[0] + (sep + (Join(parts[1..], sep) + rest))
  {
    if |parts| > 1 {
      var j := Join(parts[1..], sep);
      assert (parts[0] + (sep + j)) + rest == parts[0] + (sep + (j + rest));
    }
  }

  /** A printed list whose symbols are bare is read back with its atoms reread. */
  lemma ParseDump(a: Sexpr)
    requires a.List? && IsLexable(a)
    ensures Parse(Dump(a)) == Ok(Some(Reread(a)))
  {
    LexDump(a, []);
    assert Dump(a) + [] == Dump(a);
    assert Flatten(Printed(a)) + [] == Flatten(Printed(a));
    PrintedIsTree(a);
    ParseGroup(Dump(a), Printed(a));
  }

  /** The tokens of the line writer are those of the printer. */
  lemma LexLines(items: seq<Sexpr>)
    requires items != [] && AreLexable(items)
    ensures Tokens(WriteLines(items)) == Flatten(Group(PrintedAll(items)))
  {
    var tail := "\n)\n";
    LexLinesTail(tail);
    LexJoinStep(items, "\n", []);
    hide Tokens, Join, Dump, FlattenAll;
    var rest := Join(DumpAll(items[1..]), "\n") + tail;
    LexParen('(', Dump(items[0]) + ("\n" + rest));
    LexDump(items[0], "\n" + rest);
    LexSpace('\n', rest);
    LexJoin(items[1..], "\n", tail);
    Associate(Flatten(Printed(items[0])), FlattenAll(PrintedAll(items[1..])), [")"]);
  }

  lemma LexLinesTail(tail: string)
    requires tail == "\n)\n"
    ensures Tokens(tail) == [")"] && Delimited(tail)
  {
    LexSpace('\n', ")\n");
    LexParen(')', "\n");
    LexSpace('\n', []);
    assert tail == ['\n'] + ")\n" && ")\n" == [')'] + "\n" && ['\n'] + [] == "\n";
  }

  lemma ParseLines(items: seq<Sexpr>)
    requires items != [] && AreLexable(items)
    ensures Parse(WriteLines(items)) == Ok(Some(List(RereadAll(items))))
  {
    LexLines(items);
    PrintedAreTrees(items);
    ParseGroup(WriteLines(items), Group(PrintedAll(items)));
  }

  // ---------- What `parse` can return ----------

  predicate SoundSymbols(a: Sexpr)
    decreases a, 1
  {
    match a
    case Sym(name) => IsPlainSymbol(name)
    case List(items) => AllSound(items)
    case _ => true
  }

  predicate AllSound(items: seq<Sexpr>)
    decreases items, 0
  {
    items == [] || (SoundSymbols(items[0]) && AllSound(items[1..]))
  }

  lemma {:induction false} AppendSound(items: seq<Sexpr>, v: Sexpr)
    requires AllSound(items) && SoundSymbols(v)
    ensures AllSound(items + [v])
  {
    if items == [] {
      assert (items + [v])[1..] == [];
    } else {
      AppendSound(items[1..], v);
      assert (items + [v])[1..] == items[1..] + [v];
    }
  }

  ghost predicate IsSoundState(st: State) {
    && (forall i :: 0 <= i < |st.stack| ==> AllSound(st.stack[i]))
    && (st.root.Some? ==> SoundSymbols(st.root.value) && st.root.value.List?)
  }

  /** A token of some text: closed, or left over from an unclosed quote. */
  predicate IsToken(t: string) {
    t != [] && (IsClosedToken(t) || t[0] == '"')
  }

  predicate AreTokens(ts: seq<string>) {
    ts == [] || (IsToken(ts[0]) && AreTokens(ts[1..]))
  }

  lemma {:induction false} TokensAreTokens(s: string)
    ensures AreTokens(Tokens(s))
  {
    if s == [] {
    } else if IsSpace(s[0]) {
      TokensAreTokens(s[1..]);
    } else {
      var n := TokenLength(s);
      TokenShape(s);
      TokensAreTokens(s[n..]);
      assert Tokens(s)[0] == s[..n] && Tokens(s)[1..] == Tokens(s[n..]);
    }
  }

  lemma StepSound(st: State, t: string)
    requires IsSoundState(st) && IsToken(t)
    ensures Step(st, t).Ok? ==> IsSoundState(Step(st, t).value)
  {
    hide ReadFloat, ReadInt, Loads, IsQuotedToken, IsBareToken;
    if t == "(" {
    } else if t == ")" {
      if |st.stack| >= 2 {
        AppendSound(st.stack[|st.stack| - 2], List(st.stack[|st.stack| - 1]));
      }
    } else if ReadAtom(t).Ok? && st.stack != [] {
      AtomSound(t);
      AppendSound(st.stack[|st.stack| - 1], ReadAtom(t).value);
    }
  }

  lemma AtomSound(t: string)
    requires IsToken(t) && t != "(" && t != ")" && ReadAtom(t).Ok?
    ensures SoundSymbols(ReadAtom(t).value)
  {
    hide ReadFloat, ReadInt, Loads;
  }

  lemma {:induction false} RunSound(st: State, tokens: seq<string>)
    requires IsSoundState(st) && AreTokens(tokens)
    ensures Run(st, tokens).Ok? ==> IsSoundState(Run(st, tokens).value)
    decreases |tokens|
  {
    if tokens != [] && Step(st, tokens[0]).Ok? {
      StepSound(st, tokens[0]);
      RunSound(Step(st, tokens[0]).value, tokens[1..]);
    }
  }

  /** Whatever the text, a parsed tree is a list and each of its symbols is a bare token that is no number. */
  lemma ParseRange(text: string)
    requires Parse(text).Ok? && Parse(text).value.Some?
    ensures Parse(text).value.value.List? && SoundSymbols(Parse(text).value.value)
  {
    TokensAreTokens(text);
    RunSound(START, Tokens(text));
  }

  // ---------- The theorems ----------

  lemma {:induction false} SoundIsLexable(a: Sexpr)
    requires SoundSymbols(a)
    ensures IsLexable(a)
    ensures Reread(a) == a <==> Survives(a)
    decreases a, 1
  {
    match a
    case List(items) => AllSoundAreLexable(items);
    case _ =>
      hide ReadFloat, ReadInt, Loads, FloatText, HasPoint, IsBareToken;
  }

  lemma {:induction false} AllSoundAreLexable(items: seq<Sexpr>)
    requires AllSound(items)
    ensures AreLexable(items)
    ensures RereadAll(items) == items <==> AllSurvive(items)
    decreases items, 0
  {
    if items != [] {
      SoundIsLexable(items[0]);
      AllSoundAreLexable(items[1..]);
      var r := RereadAll(items);
      assert r[0] == Reread(items[0]) && r[1..] == RereadAll(items[1..]);
      assert r == items <==> r[0] == items[0] && r[1..] == items[1..] by {
        assert items == [items[0]] + items[1..] && r == [r[0]] + r[1..];
      }
    }
  }

  lemma {:induction false} SurvivesIsSound(a: Sexpr)
    requires Survives(a)
    ensures SoundSymbols(a)
    decreases a, 1
  {
    if a.List? { AllSurviveAreSound(a.items); }
  }

  lemma {:induction false} AllSurviveAreSound(items: seq<Sexpr>)
    requires AllSurvive(items)
    ensures AllSound(items)
    decreases items, 0
  {
    if items != [] {
      SurvivesIsSound(items[0]);
      AllSurviveAreSound(items[1..]);
    }
  }

  /** `parse(dump(a)) == a`, for every tree: exactly when `a` is a list whose atoms all survive. */
  lemma RoundTrip(a: Sexpr)
    ensures Parse(Dump(a)) == Ok(Some(a)) <==> a.List? && Survives(a)
  {
    if a.List? && Survives(a) {
      SurvivesIsSound(a);
      SoundIsLexable(a);
      ParseDump(a);
    }
    if Parse(Dump(a)) == Ok(Some(a)) {
      ParseRange(Dump(a));
      SoundIsLexable(a);
      ParseDump(a);
    }
  }

  /** The same, for the writer that puts one item on a line. */
  lemma LineRoundTrip(items: seq<Sexpr>)
    requires items != []
    ensures Parse(WriteLines(items)) == Ok(Some(List(items))) <==> AllSurvive(items)
  {
    if AllSurvive(items) {
      AllSurviveAreSound(items);
      AllSoundAreLexable(items);
      ParseLines(items);
    }
    if Parse(WriteLines(items)) == Ok(Some(List(items))) {
      ParseRange(WriteLines(items));
      AllSoundAreLexable(items);
      ParseLines(items);
    }
  }

  /** Any list of strings and integers comes back, whatever characters the strings hold. */
  lemma StringsRoundTrip(items: seq<Sexpr>)
    requires forall i :: 0 <= i < |items| ==> items[i].Str? || items[i].Int?
    ensures Parse(Dump(List(items))) == Ok(Some(List(items)))
  {
    AllSurviveStrings(items);
    RoundTrip(List(items));
  }

  lemma {:induction false} AllSurviveStrings(items: seq<Sexpr>)
    requires forall i :: 0 <= i < |items| ==> items[i].Str? || items[i].Int?
    ensures AllSurvive(items)
  {
    if items != [] {
      AllSurviveStrings(items[1..]);
    }
  }

  /** A parsed tree need not survive: 0.00001 is read as a float, printed `1e-05`, and read back as a symbol. */
  lemma SmallFloatIsLost()
    ensures var d := Decimal(false, 1, 5);
            && ReadAtom("0.00001") == Ok(Real(d)) && FloatText(d) == "1e-05"
            && Parse(Dump(List([Real(d)]))) == Ok(Some(List([Sym("1e-05")])))
  {
    var d := Decimal(false, 1, 5);
    SmallFloatText();
    SmallFloatRead();
    SmallHasNoPoint();
    LexableOne(Real(d));
    assert Reread(Real(d)) == Sym(FloatText(d));
    hide *;
    ParseDump(List([Real(d)]));
    RereadOne(Real(d));
  }

  lemma LexableOne(a: Sexpr)
    requires IsLexable(a)
    ensures IsLexable(List([a]))
  {
    assert [a][1..] == [];
  }

  lemma RereadOne(a: Sexpr)
    ensures Reread(List([a])) == List([Reread(a)])
  {
    assert [a][1..] == [];
  }

  lemma SmallHasNoPoint()
    ensures !HasPoint(Decimal(false, 1, 5))
  {
    assert NatText(1) == "1";
  }

  lemma SmallFloatText()
    ensures FloatText(Decimal(false, 1, 5)) == "1e-05"
  {
    assert StripZeros(1) == 1;
    assert NatText(1) == "1" && NatText(5) == "5";
    assert PadLeft("5", 2) == "05";
  }

  lemma SmallDigits(t: string)
    requires t == "000001"
    ensures DigitsValue(t) == 1
  {
    LeadingZeros(5, "1");
    assert t == Zeros(5) + "1";
    assert "1"[..0] == [];
  }

  lemma SmallFloatRead()
    ensures ReadAtom("0.00001") == Ok(Real(Decimal(false, 1, 5)))
  {
    ReadSmall("0.00001", "0", "00001");
  }

  lemma ReadSmall(t: string, a: string, b: string)
    requires t == "0.00001" && a == "0" && b == "00001"
    ensures ReadAtom(t) == Ok(Real(Decimal(false, 1, 5)))
  {
    SmallParts(t, a, b);
    SmallDigits(a + b);
    assert t[0] == '0' && |b| == 5;
    ReadSmallParts(t, a, b);
  }

  lemma ReadSmallParts(t: string, a: string, b: string)
    requires t == a + "." + b + [] && SignText(false) + t == t
    requires |a| == 1 && |b| == 5 && AllDigits(a) && AllDigits(b) && DigitsValue(a + b) == 1
    requires '.' in t && t[0] != '"'
    ensures ReadAtom(t) == Ok(Real(Decimal(false, 1, 5)))
  {
    assert ReadFloat(t) == Some(Decimal(false, 1, 5)) by {
      hide ReadFloat, DigitsValue, AllDigits;
      ReadFloatDigits(false, t, a, b, [], 1, 0);
    }
    hide ReadFloat, ReadInt, Loads, DigitsValue, AllDigits;
  }

  lemma SmallParts(t: string, a: string, b: string)
    requires t == "0.00001" && a == "0" && b == "00001"
    ensures '.' in t && a + b == "000001" && AllDigits(a) && AllDigits(b)
    ensures t == a + "." + b + [] && SignText(false) + t == t
  {
    assert t[1] == '.';
  }
}
