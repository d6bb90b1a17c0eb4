/**
 The S-expression reader and printer of the board generators: `parse` runs a
 stack over the tokens, `dump` prints a tree back.
 */
module Sexpr {
  import opened Prelude
  import opened Lexing
  import opened JsonText
  import opened Numerals

  datatype Sexpr =
    | Sym(name: string)
    | Str(text: string)
    | Int(value: int)
    | Real(number: Float)
    | List(items: seq<Sexpr>)

  /** `BadString`: json.JSONDecodeError; `EmptyStack`: IndexError. */
  datatype ParseError = BadString | EmptyStack

  // ---------- Reading ----------

  /** The value of a token that is no parenthesis. */
  function ReadAtom(t: string): (r: Result<Sexpr, ParseError>)
    ensures r.Ok? ==> !r.value.List?
  {
    if t != [] && t[0] == '"' then
      match Loads(t) case None => Err(BadString) case Some(s) => Ok(Str(s))
    else if '.' in t then
      match ReadFloat(t) case None => Ok(Sym(t)) case Some(d) => Ok(Real(d))
    else
      match ReadInt(t) case None => Ok(Sym(t)) case Some(n) => Ok(Int(n))
  }

  /** The lists still open, innermost last, and the last list closed at top level. */
  datatype State = State(stack: seq<seq<Sexpr>>, root: Option<Sexpr>)

  function Append(stack: seq<seq<Sexpr>>, v: Sexpr): seq<seq<Sexpr>>
    requires stack != []
  {
    stack[..|stack| - 1] + [stack[|stack| - 1] + [v]]
  }

  function Step(st: State, t: string): Result<State, ParseError> {
    if t == "(" then Ok(st.(stack := st.stack + [[]]))
    else if t == ")" then
      if st.stack == [] then Err(EmptyStack)
      else
        var a := List(st.stack[|st.stack| - 1]);
        var below := st.stack[..|st.stack| - 1];
        Ok(if below == [] then State(below, Some(a)) else State(Append(below, a), st.root))
    else match ReadAtom(t)
      case Err(e) => Err(e)
      case Ok(v) => if st.stack == [] then Err(EmptyStack) else Ok(st.(stack := Append(st.stack, v)))
  }

  function Run(st: State, tokens: seq<string>): Result<State, ParseError>
    decreases |tokens|
  {
    if tokens == [] then Ok(st)
    else match Step(st, tokens[0])
      case Err(e) => Err(e)
      case Ok(next) => Run(next, tokens[1..])
  }

  const START := State([], None)

  /** What `parse` returns; `None` when no list was closed at top level. */
  function Parse(text: string): Result<Option<Sexpr>, ParseError> {
    match Run(START, Tokens(text)) case Err(e) => Err(e) case Ok(st) => Ok(st.root)
  }

  lemma UpdateTop(stack: seq<seq<Sexpr>>, v: Sexpr)
    requires stack != []
    ensures Append(stack, v) == stack[|stack| - 1 := stack[|stack| - 1] + [v]]
  {
  }

  /** `parse`, with its token loop and its stack. */
  method ParseText(text: string) returns (r: Result<Option<Sexpr>, ParseError>)
    ensures r == Parse(text)
  {
    var tokens := Tokens(text);
    var stack: seq<seq<Sexpr>>, root: Option<Sexpr> := [], None;
    for i := 0 to |tokens|
      invariant Run(START, tokens) == Run(State(stack, root), tokens[i..])
    {
      var t := tokens[i];
      assert tokens[i..][0] == t && tokens[i..][1..] == tokens[i + 1..];
      if t == "(" {
        stack := stack + [[]];
      } else if t == ")" {
        if stack == [] { return Err(EmptyStack); }
        var a := List(stack[|stack| - 1]);
        stack := stack[..|stack| - 1];
        if stack != [] {
          UpdateTop(stack, a);
          stack := stack[|stack| - 1 := stack[|stack| - 1] + [a]];
        } else {
          root := Some(a);
        }
      } else {
        var v := ReadAtom(t);
        if v.Err? { return Err(v.error); }
        if stack == [] { return Err(EmptyStack); }
        UpdateTop(stack, v.value);
        stack := stack[|stack| - 1 := stack[|stack| - 1] + [v.value]];
      }
    }
    return Ok(root);
  }

  // ---------- Printing ----------

  /** `sep.join(parts)`. */
  function Join(parts: seq<string>, sep: string): string {
    if parts == [] then []
    else if |parts| == 1 then parts[0]
    else parts[0] + (sep + Join(parts[1..], sep))
  }

  /** `dump`. */
  function Dump(a: Sexpr): string
    decreases a, 1
  {
    match a
    case List(items) => "(" + (Join(DumpAll(items), " ") + ")")
    case _ => AtomText(a)
  }

  function DumpAll(items: seq<Sexpr>): (parts: seq<string>)
    ensures |parts| == |items|
    decreases items, 0
  {
    if items == [] then [] else [Dump(items[0])] + DumpAll(items[1..])
  }

  function AtomText(a: Sexpr): string
    requires !a.List?
  {
    match a
    case Sym(name) => name
    case Str(text) => Dumps(text)
    case Int(value) => IntText(value)
    case Real(d) => FloatText(d)
  }

  /** The writer that puts every item after the first on a line of its own. */
  function WriteLines(items: seq<Sexpr>): string
    requires items != []
  {
    "(" + (Dump(items[0]) + ("\n" + (Join(DumpAll(items[1..]), "\n") + "\n)\n")))
  }

  // ---------- Token trees ----------

  /** Nested tokens: what both readers of a text agree on before they interpret atoms. */
  datatype Tree = Leaf(token: string) | Group(items: seq<Tree>)

  function Flatten(c: Tree): seq<string>
    decreases c, 1
  {
    match c
    case Leaf(t) => [t]
    case Group(items) => ["("] + (FlattenAll(items) + [")"])
  }

  function FlattenAll(cs: seq<Tree>): seq<string>
    decreases cs, 0
  {
    if cs == [] then [] else Flatten(cs[0]) + FlattenAll(cs[1..])
  }

  /** No leaf is a parenthesis. */
  predicate IsTree(c: Tree)
    decreases c, 1
  {
    match c
    case Leaf(t) => t != "(" && t != ")"
    case Group(items) => AreTrees(items)
  }

  predicate AreTrees(cs: seq<Tree>)
    decreases cs, 0
  {
    cs == [] || (IsTree(cs[0]) && AreTrees(cs[1..]))
  }

  /** The tree a token tree is read as, or the first error from the left. */
  function Value(c: Tree): Result<Sexpr, ParseError>
    decreases c, 1
  {
    match c
    case Leaf(t) => ReadAtom(t)
    case Group(items) => (match Values(items) case Err(e) => Err(e) case Ok(vs) => Ok(List(vs)))
  }

  function Values(cs: seq<Tree>): (r: Result<seq<Sexpr>, ParseError>)
    ensures r.Ok? ==> |r.value| == |cs|
    decreases cs, 0
  {
    if cs == [] then Ok([])
    else match Value(cs[0])
      case Err(e) => Err(e)
      case Ok(v) => (match Values(cs[1..]) case Err(e) => Err(e) case Ok(vs) => Ok([v] + vs))
  }

  /** Where a finished value goes: into the innermost open list, or to the root. */
  function Place(st: State, v: Sexpr): State {
    if st.stack == [] then st.(root := Some(v)) else st.(stack := Append(st.stack, v))
  }

  function PlaceAll(st: State, vs: seq<Sexpr>): State
    requires st.stack != []
  {
    st.(stack := st.stack[..|st.stack| - 1] + [st.stack[|st.stack| - 1] + vs])
  }

  function Then(r: Result<Sexpr, ParseError>, st: State, rest: seq<string>): Result<State, ParseError> {
    match r case Err(e) => Err(e) case Ok(v) => Run(Place(st, v), rest)
  }

  function ThenAll(r: Result<seq<Sexpr>, ParseError>, st: State, rest: seq<string>): Result<State, ParseError>
    requires st.stack != []
  {
    match r case Err(e) => Err(e) case Ok(vs) => Run(PlaceAll(st, vs), rest)
  }

  lemma RunStep(st: State, t: string, rest: seq<string>)
    ensures Run(st, [t] + rest) == if Step(st, t).Ok? then Run(Step(st, t).value, rest) else Step(st, t)
  {
    assert ([t] + rest)[1..] == rest;
  }

  /** Running over one flattened tree places its value, or stops at its first error. */
  lemma {:induction false} RunTree(c: Tree, st: State, rest: seq<string>)
    requires IsTree(c) && (c.Group? || st.stack != [])
    ensures Run(st, Flatten(c) + rest) == Then(Value(c), st, rest)
    decreases c, 1
  {
    match c
    case Leaf(t) =>
      RunStep(st, t, rest);
    case Group(items) =>
      var inner := st.(stack := st.stack + [[]]);
      assert Flatten(c) + rest == ["("] + (FlattenAll(items) + ([")"] + rest));
      RunStep(st, "(", FlattenAll(items) + ([")"] + rest));
      RunTrees(items, inner, [")"] + rest);
      if Values(items).Ok? {
        CloseGroup(st, Values(items).value, rest);
      }
  }

  lemma CloseGroup(st: State, vs: seq<Sexpr>, rest: seq<string>)
    ensures Run(PlaceAll(st.(stack := st.stack + [[]]), vs), [")"] + rest) == Run(Place(st, List(vs)), rest)
  {
    var inner := PlaceAll(st.(stack := st.stack + [[]]), vs);
    assert [] + vs == vs;
    assert inner.stack == st.stack + [vs];
    assert inner.stack[..|inner.stack| - 1] == st.stack;
    RunStep(inner, ")", rest);
  }

  lemma {:induction false} RunTrees(cs: seq<Tree>, st: State, rest: seq<string>)
    requires AreTrees(cs) && st.stack != []
    ensures Run(st, FlattenAll(cs) + rest) == ThenAll(Values(cs), st, rest)
    decreases cs, 0
  {
    if cs == [] {
      assert FlattenAll(cs) + rest == rest;
      assert st.stack[|st.stack| - 1] + [] == st.stack[|st.stack| - 1];
      assert PlaceAll(st, []).stack == st.stack;
    } else {
      assert FlattenAll(cs) + rest == Flatten(cs[0]) + (FlattenAll(cs[1..]) + rest);
      RunTree(cs[0], st, FlattenAll(cs[1..]) + rest);
      if Value(cs[0]).Ok? {
        var v := Value(cs[0]).value;
        RunTrees(cs[1..], Place(st, v), rest);
        if Values(cs[1..]).Ok? {
          PlaceBoth(st, v, Values(cs[1..]).value);
        }
      }
    }
  }

  lemma PlaceBoth(st: State, v: Sexpr, vs: seq<Sexpr>)
    requires st.stack != []
    ensures PlaceAll(Place(st, v), vs) == PlaceAll(st, [v] + vs)
  {
    var top := st.stack[|st.stack| - 1];
    assert top + [v] + vs == top + ([v] + vs);
    assert Append(st.stack, v)[..|st.stack| - 1] == st.stack[..|st.stack| - 1];
  }

  /** A text whose tokens are one group parses to the value of that group. */
  lemma ParseGroup(text: string, c: Tree)
    requires c.Group? && IsTree(c) && Tokens(text) == Flatten(c)
    ensures Parse(text) == if Value(c).Ok? then Ok(Some(Value(c).value)) else Err(Value(c).error)
  {
    RunTree(c, START, []);
    assert Flatten(c) + [] == Flatten(c);
  }
}
