/**
 The reader of the manufacturing exporter: the same tokens, but exactly one
 balanced expression, with numbers and symbols left as text.
 */
module StrictParser {
  import opened Prelude
  import opened Lexing
  import opened JsonText
  import Sexpr

  type Tree = Sexpr.Tree

  datatype Node = Text(text: string) | Branch(items: seq<Node>)

  /** Three `ValueError`s: a malformed string, a `)` too many, not exactly one expression. */
  datatype StrictError = BadString | Unbalanced | Invalid

  // ---------- Tokens ----------

  /** The regular expression of this reader tries parentheses before bare runs. */
  function StrictTokenLength(s: string): (n: nat)
    requires s != [] && !IsSpace(s[0])
    ensures 1 <= n <= |s|
  {
    if s[0] == '"' && QuotedLength(s[1..]).Some? then 1 + QuotedLength(s[1..]).value
    else if IsParen(s[0]) then 1
    else BareLength(s)
  }

  function StrictTokens(s: string): seq<string> {
    if s == [] then []
    else if IsSpace(s[0]) then StrictTokens(s[1..])
    else [s[..StrictTokenLength(s)]] + StrictTokens(s[StrictTokenLength(s)..])
  }

  /** The order of the alternatives makes no difference. */
  lemma {:induction false} SameTokens(s: string)
    ensures StrictTokens(s) == Tokens(s)
  {
    if s == [] {
    } else if IsSpace(s[0]) {
      SameTokens(s[1..]);
    } else {
      assert StrictTokenLength(s) == TokenLength(s);
      SameTokens(s[TokenLength(s)..]);
    }
  }

  // ---------- Parsing ----------

  function Append(stack: seq<seq<Node>>, n: Node): (r: seq<seq<Node>>)
    requires stack != []
    ensures |r| == |stack|
  {
    stack[..|stack| - 1] + [stack[|stack| - 1] + [n]]
  }

  function Atom(t: string): Result<Node, StrictError> {
    if t != [] && t[0] == '"' then
      match Loads(t) case None => Err(BadString) case Some(s) => Ok(Text(s))
    else Ok(Text(t))
  }

  function Step(stack: seq<seq<Node>>, t: string): (r: Result<seq<seq<Node>>, StrictError>)
    requires stack != []
    ensures r.Ok? ==> r.value != []
  {
    if t == "(" then Ok(stack + [[]])
    else if t == ")" then
      if |stack| == 1 then Err(Unbalanced)
      else Ok(Append(stack[..|stack| - 1], Branch(stack[|stack| - 1])))
    else match Atom(t)
      case Err(e) => Err(e)
      case Ok(n) => Ok(Append(stack, n))
  }

  function Run(stack: seq<seq<Node>>, tokens: seq<string>): (r: Result<seq<seq<Node>>, StrictError>)
    requires stack != []
    ensures r.Ok? ==> r.value != []
    decreases |tokens|
  {
    if tokens == [] then Ok(stack)
    else match Step(stack, tokens[0])
      case Err(e) => Err(e)
      case Ok(next) => Run(next, tokens[1..])
  }

  function Finish(stack: seq<seq<Node>>): Result<Node, StrictError>
    requires stack != []
  {
    if |stack| != 1 || |stack[0]| != 1 then Err(Invalid) else Ok(stack[0][0])
  }

  /** What `parse_sexpr` returns or raises. */
  function Parse(text: string): Result<Node, StrictError> {
    match Run([[]], StrictTokens(text)) case Err(e) => Err(e) case Ok(stack) => Finish(stack)
  }

  lemma UpdateTop(stack: seq<seq<Node>>, n: Node)
    requires stack != []
    ensures Append(stack, n) == stack[|stack| - 1 := stack[|stack| - 1] + [n]]
  {
  }

  /** `parse_sexpr`, with its token loop and its stack. */
  method ParseText(text: string) returns (r: Result<Node, StrictError>)
    ensures r == Parse(text)
  {
    var tokens := StrictTokens(text);
    var stack: seq<seq<Node>> := [[]];
    for i := 0 to |tokens|
      invariant stack != []
      invariant Run([[]], tokens) == Run(stack, tokens[i..])
    {
      var t := tokens[i];
      assert tokens[i..][0] == t && tokens[i..][1..] == tokens[i + 1..];
      if t == "(" {
        stack := stack + [[]];
      } else if t == ")" {
        if |stack| == 1 { return Err(Unbalanced); }
        var item := Branch(stack[|stack| - 1]);
        stack := stack[..|stack| - 1];
        UpdateTop(stack, item);
        stack := stack[|stack| - 1 := stack[|stack| - 1] + [item]];
      } else {
        var n := Atom(t);
        if n.Err? { return Err(n.error); }
        UpdateTop(stack, n.value);
        stack := stack[|stack| - 1 := stack[|stack| - 1] + [n.value]];
      }
    }
    if |stack| != 1 || |stack[0]| != 1 { return Err(Invalid); }
    return Ok(stack[0][0]);
  }

  // ---------- The node a token tree stands for ----------

  function Raw(c: Tree): Result<Node, StrictError>
    decreases c, 1
  {
    match c
    case Leaf(t) => Atom(t)
    case Group(items) => (match RawAll(items) case Err(e) => Err(e) case Ok(ns) => Ok(Branch(ns)))
  }

  function RawAll(cs: seq<Tree>): (r: Result<seq<Node>, StrictError>)
    ensures r.Ok? ==> |r.value| == |cs|
    decreases cs, 0
  {
    if cs == [] then Ok([])
    else match Raw(cs[0])
      case Err(e) => Err(e)
      case Ok(n) => (match RawAll(cs[1..]) case Err(e) => Err(e) case Ok(ns) => Ok([n] + ns))
  }

  function AppendAll(stack: seq<seq<Node>>, ns: seq<Node>): (r: seq<seq<Node>>)
    requires stack != []
    ensures |r| == |stack|
  {
    stack[..|stack| - 1] + [stack[|stack| - 1] + ns]
  }

  function Then(r: Result<Node, StrictError>, stack: seq<seq<Node>>, rest: seq<string>):
    Result<seq<seq<Node>>, StrictError>
    requires stack != []
  {
    match r case Err(e) => Err(e) case Ok(n) => Run(Append(stack, n), rest)
  }

  function ThenAll(r: Result<seq<Node>, StrictError>, stack: seq<seq<Node>>, rest: seq<string>):
    Result<seq<seq<Node>>, StrictError>
    requires stack != []
  {
    match r case Err(e) => Err(e) case Ok(ns) => Run(AppendAll(stack, ns), rest)
  }

  lemma RunStep(stack: seq<seq<Node>>, t: string, rest: seq<string>)
    requires stack != []
    ensures Run(stack, [t] + rest) == if Step(stack, t).Ok? then Run(Step(stack, t).value, rest) else Step(stack, t)
  {
    assert ([t] + rest)[1..] == rest;
  }

  /** Running over one flattened tree appends its node, or stops at its first error. */
  lemma {:induction false} RunTree(c: Tree, stack: seq<seq<Node>>, rest: seq<string>)
    requires Sexpr.IsTree(c) && stack != []
    ensures Run(stack, Sexpr.Flatten(c) + rest) == Then(Raw(c), stack, rest)
    decreases c, 1
  {
    match c
    case Leaf(t) =>
      RunStep(stack, t, rest);
    case Group(items) =>
      var inner := stack + [[]];
      var toks := Sexpr.FlattenAll(items);
      assert Sexpr.Flatten(c) + rest == ["("] + (toks + ([")"] + rest));
      RunStep(stack, "(", toks + ([")"] + rest));
      RunTrees(items, inner, [")"] + rest);
      if RawAll(items).Ok? {
        CloseGroup(stack, RawAll(items).value, rest);
      }
  }

  lemma CloseGroup(stack: seq<seq<Node>>, ns: seq<Node>, rest: seq<string>)
    requires stack != []
    ensures Run(AppendAll(stack + [[]], ns), [")"] + rest) == Run(Append(stack, Branch(ns)), rest)
  {
    var inner := AppendAll(stack + [[]], ns);
    assert [] + ns == ns;
    assert inner == stack + [ns];
    assert inner[..|inner| - 1] == stack;
    RunStep(inner, ")", rest);
  }

  lemma {:induction false} RunTrees(cs: seq<Tree>, stack: seq<seq<Node>>, rest: seq<string>)
    requires Sexpr.AreTrees(cs) && stack != []
    ensures Run(stack, Sexpr.FlattenAll(cs) + rest) == ThenAll(RawAll(cs), stack, rest)
    decreases cs, 0
  {
    if cs == [] {
      ConcatNil(rest);
      ConcatNil(stack[|stack| - 1]);
      assert AppendAll(stack, []) == stack;
    } else {
      var first, others := Sexpr.Flatten(cs[0]), Sexpr.FlattenAll(cs[1..]);
      Associate(first, others, rest);
      RunTree(cs[0], stack, others + rest);
      if Raw(cs[0]).Ok? {
        var n := Raw(cs[0]).value;
        RunTrees(cs[1..], Append(stack, n), rest);
        if RawAll(cs[1..]).Ok? {
          AppendBoth(stack, n, RawAll(cs[1..]).value);
        }
      }
    }
  }

  lemma AppendBoth(stack: seq<seq<Node>>, n: Node, ns: seq<Node>)
    requires stack != []
    ensures AppendAll(Append(stack, n), ns) == AppendAll(stack, [n] + ns)
  {
    Associate(stack[|stack| - 1], [n], ns);
    assert Append(stack, n)[..|stack| - 1] == stack[..|stack| - 1];
  }

  /** A text whose tokens are one tree is accepted, unless a string in it is malformed. */
  lemma ParseTree(text: string, c: Tree)
    requires Sexpr.IsTree(c) && Tokens(text) == Sexpr.Flatten(c)
    ensures Parse(text) == Raw(c)
  {
    SameTokens(text);
    RunTree(c, [[]], []);
    ConcatNil(Sexpr.Flatten(c));
    if Raw(c).Ok? {
      ConcatNil([Raw(c).value]);
      assert Append([[]], Raw(c).value) == [[Raw(c).value]];
    }
  }

  // ---------- Nothing else is accepted ----------

  /** The tokens read so far, from the trees of every open group. */
  function Unparse(ts: seq<seq<Tree>>): seq<string>
    requires ts != []
  {
    if |ts| == 1 then Sexpr.FlattenAll(ts[0])
    else Unparse(ts[..|ts| - 1]) + (["("] + Sexpr.FlattenAll(ts[|ts| - 1]))
  }

  predicate IsBuilt(items: seq<Node>, cs: seq<Tree>) {
    Sexpr.AreTrees(cs) && RawAll(cs) == Ok(items)
  }

  /** The trees in `ts` are what the nodes on the stack were made from. */
  ghost predicate AllBuilt(stack: seq<seq<Node>>, ts: seq<seq<Tree>>) {
    |stack| == |ts| && forall i :: 0 <= i < |ts| ==> IsBuilt(stack[i], ts[i])
  }

  lemma {:induction false} BuildMore(items: seq<Node>, cs: seq<Tree>, n: Node, c: Tree)
    requires IsBuilt(items, cs) && Sexpr.IsTree(c) && Raw(c) == Ok(n)
    ensures IsBuilt(items + [n], cs + [c])
    ensures Sexpr.FlattenAll(cs + [c]) == Sexpr.FlattenAll(cs) + Sexpr.Flatten(c)
    decreases |cs|
  {
    if cs == [] {
      assert (cs + [c])[1..] == [];
      ConcatNil(Sexpr.Flatten(c));
      ConcatNil([n]);
    } else {
      assert (cs + [c])[1..] == cs[1..] + [c];
      assert items[1..] == RawAll(cs[1..]).value;
      BuildMore(items[1..], cs[1..], n, c);
      Associate(Sexpr.Flatten(cs[0]), Sexpr.FlattenAll(cs[1..]), Sexpr.Flatten(c));
      assert items + [n] == [items[0]] + (items[1..] + [n]);
    }
  }

  /** Adding a tree to the innermost open group. */
  lemma BuildTop(stack: seq<seq<Node>>, ts: seq<seq<Tree>>, n: Node, c: Tree) returns (next: seq<seq<Tree>>)
    requires stack != [] && AllBuilt(stack, ts) && Sexpr.IsTree(c) && Raw(c) == Ok(n)
    ensures AllBuilt(Append(stack, n), next) && Unparse(next) == Unparse(ts) + Sexpr.Flatten(c)
  {
    var k := |ts| - 1;
    next := ts[..k] + [ts[k] + [c]];
    BuildMore(stack[k], ts[k], n, c);
    hide Sexpr.Flatten, Sexpr.FlattenAll, IsBuilt, Raw;
    assert next[..k] == ts[..k];
    if k > 0 {
      Associate(["("], Sexpr.FlattenAll(ts[k]), Sexpr.Flatten(c));
      Associate(Unparse(ts[..k]), ["("] + Sexpr.FlattenAll(ts[k]), Sexpr.Flatten(c));
    }
  }

  lemma BuildStep(stack: seq<seq<Node>>, ts: seq<seq<Tree>>, t: string) returns (next: seq<seq<Tree>>)
    requires stack != [] && AllBuilt(stack, ts) && Step(stack, t).Ok?
    ensures AllBuilt(Step(stack, t).value, next) && Unparse(next) == Unparse(ts) + [t]
  {
    if t == "(" {
      next := ts + [[]];
      assert next[..|ts|] == ts;
      ConcatNil(["("]);
    } else if t == ")" {
      var k := |ts| - 1;
      var c := Sexpr.Group(ts[k]);
      assert IsBuilt(stack[k], ts[k]);
      next := BuildTop(stack[..k], ts[..k], Branch(stack[k]), c);
      Associate(["("], Sexpr.FlattenAll(ts[k]), [")"]);
      Associate(Unparse(ts[..k]), ["("] + Sexpr.FlattenAll(ts[k]), [")"]);
    } else {
      next := BuildTop(stack, ts, Atom(t).value, Sexpr.Leaf(t));
    }
  }

  lemma {:induction false} BuildRun(stack: seq<seq<Node>>, ts: seq<seq<Tree>>, tokens: seq<string>)
    returns (last: seq<seq<Tree>>)
    requires stack != [] && AllBuilt(stack, ts) && Run(stack, tokens).Ok?
    ensures AllBuilt(Run(stack, tokens).value, last) && last != [] && Unparse(last) == Unparse(ts) + tokens
    decreases |tokens|
  {
    if tokens == [] {
      last := ts;
      ConcatNil(Unparse(ts));
    } else {
      var next := BuildStep(stack, ts, tokens[0]);
      last := BuildRun(Step(stack, tokens[0]).value, next, tokens[1..]);
      Associate(Unparse(ts), [tokens[0]], tokens[1..]);
      assert [tokens[0]] + tokens[1..] == tokens;
    }
  }

  /** Whatever is accepted is one tree, read as `Raw` reads it. */
  lemma AcceptedTree(text: string) returns (c: Tree)
    requires Parse(text).Ok?
    ensures Sexpr.IsTree(c) && Tokens(text) == Sexpr.Flatten(c) && Raw(c) == Parse(text)
  {
    SameTokens(text);
    assert IsBuilt([], []);
    var ts := BuildRun([[]], [[]], Tokens(text));
    assert |ts| == 1 && IsBuilt(Run([[]], Tokens(text)).value[0], ts[0]);
    c := ts[0][0];
    assert ts[0] == [c] && [c][1..] == [];
    ConcatNil(Sexpr.Flatten(c));
    ConcatNil(Tokens(text));
  }

  ghost predicate IsOneExpression(text: string, c: Tree) {
    Sexpr.IsTree(c) && Tokens(text) == Sexpr.Flatten(c)
  }

  /** `parse_sexpr` accepts exactly the texts whose tokens are one balanced expression with well-formed strings. */
  lemma AcceptsExactly(text: string)
    ensures Parse(text).Ok? <==> exists c: Tree :: IsOneExpression(text, c) && Raw(c).Ok?
    ensures forall c: Tree :: IsOneExpression(text, c) ==> Parse(text) == Raw(c)
  {
    forall c: Tree | IsOneExpression(text, c)
      ensures Parse(text) == Raw(c)
    {
      ParseTree(text, c);
    }
    if Parse(text).Ok? {
      var c := AcceptedTree(text);
      assert IsOneExpression(text, c);
    }
  }

  // ---------- The two readers agree ----------

  /** The same tree: the strict reader keeps the text of the atoms the other one evaluates. */
  predicate Agrees(v: Sexpr.Sexpr, n: Node)
    decreases v, 1
  {
    match v
    case List(items) => n.Branch? && AllAgree(items, n.items)
    case Str(s) => n == Text(s)
    case _ => n.Text? && Sexpr.ReadAtom(n.text) == Ok(v)
  }

  predicate AllAgree(vs: seq<Sexpr.Sexpr>, ns: seq<Node>)
    decreases vs, 0
  {
    |vs| == |ns| && (vs == [] || (Agrees(vs[0], ns[0]) && AllAgree(vs[1..], ns[1..])))
  }

  lemma {:induction false} TreesAgree(c: Tree)
    ensures Raw(c).Ok? <==> Sexpr.Value(c).Ok?
    ensures Raw(c).Ok? ==> Agrees(Sexpr.Value(c).value, Raw(c).value)
    decreases c, 1
  {
    if c.Group? { AllTreesAgree(c.items); }
  }

  lemma {:induction false} AllTreesAgree(cs: seq<Tree>)
    ensures RawAll(cs).Ok? <==> Sexpr.Values(cs).Ok?
    ensures RawAll(cs).Ok? ==> AllAgree(Sexpr.Values(cs).value, RawAll(cs).value)
    decreases cs, 0
  {
    if cs != [] {
      TreesAgree(cs[0]);
      AllTreesAgree(cs[1..]);
      if RawAll(cs).Ok? {
        assert Sexpr.Values(cs).value[1..] == Sexpr.Values(cs[1..]).value;
        assert RawAll(cs).value[1..] == RawAll(cs[1..]).value;
      }
    }
  }

  /** Whatever the strict reader accepts, the generators' reader reads as the same tree; a lone atom it refuses. */
  lemma ReadersAgree(text: string)
    requires Parse(text).Ok?
    ensures var r, n := Sexpr.Parse(text), Parse(text).value;
            if n.Branch? then r.Ok? && r.value.Some? && Agrees(r.value.value, n)
            else r == Err(Sexpr.EmptyStack)
  {
    var c := AcceptedTree(text);
    TreesAgree(c);
    if c.Group? {
      Sexpr.ParseGroup(text, c);
    } else {
      Sexpr.RunStep(Sexpr.START, c.token, []);
      ConcatNil([c.token]);
    }
  }

  /** The converse fails: an unclosed list and a second list are refused here and read without error there. */
  lemma LaxReaderAcceptsMore()
    ensures Sexpr.Parse("(") == Ok(None) && Parse("(") == Err(Invalid)
    ensures Sexpr.Parse("()()") == Ok(Some(Sexpr.List([]))) && Parse("()()") == Err(Invalid)
  {
    RunOpen();
    RunTwoLists();
    OpenTokens();
    TwoListsTokens();
    hide Tokens, StrictTokens, Run, Sexpr.Run;
  }

  lemma OpenTokens()
    ensures Tokens("(") == StrictTokens("(") == ["("]
  {
    ParensAreTokens("(");
    hide Tokens, StrictTokens;
  }

  lemma TwoListsTokens()
    ensures Tokens("()()") == StrictTokens("()()") == ["(", ")", "(", ")"]
  {
    ParensAreTokens("()()");
    hide Tokens, StrictTokens;
  }

  lemma {:induction false} ParensAreTokens(s: string)
    requires forall i :: 0 <= i < |s| ==> IsParen(s[i])
    ensures Tokens(s) == seq(|s|, i requires 0 <= i < |s| => [s[i]])
    ensures StrictTokens(s) == Tokens(s)
  {
    SameTokens(s);
    if s != [] {
      ParensAreTokens(s[1..]);
      LexParen(s[0], s[1..]);
      assert [s[0]] + s[1..] == s;
    }
  }

  lemma RunOpen()
    ensures Sexpr.Run(Sexpr.START, ["("]) == Ok(Sexpr.State([[]], None))
    ensures Run([[]], ["("]) == Ok([[], []])
  {
    ConcatNil(["("]);
    Sexpr.RunStep(Sexpr.START, "(", []);
    RunStep([[]], "(", []);
    var top: seq<Node> := [];
    assert [top] + [top] == [top, top];
    RunNil(Sexpr.State([[]], None), [top, top]);
    var none: seq<seq<Sexpr.Sexpr>> := [];
    assert none + [[]] == [[]];
  }

  lemma AppendOne(items: seq<Node>, n: Node)
    ensures Append([items], n) == [items + [n]]
  {
  }

  lemma RunTwoLists()
    ensures Sexpr.Run(Sexpr.START, ["(", ")", "(", ")"]) == Ok(Sexpr.State([], Some(Sexpr.List([]))))
    ensures Run([[]], ["(", ")", "(", ")"]) == Ok([[Branch([]), Branch([])]])
  {
    var c := Sexpr.Group([]);
    var toks := Sexpr.Flatten(c);
    var b := Branch([]);
    AppendOne([], b);
    AppendOne([b], b);
    ConcatNil([b]);
    assert [b] + [b] == [b, b];
    assert toks + toks == ["(", ")", "(", ")"];
    ConcatNil(toks);
    hide Sexpr.Flatten, Sexpr.Run, Run, Append;
    Sexpr.RunTree(c, Sexpr.START, toks);
    Sexpr.RunTree(c, Sexpr.State([], Some(Sexpr.List([]))), []);
    RunTree(c, [[]], toks);
    RunTree(c, [[Branch([])]], []);
    RunNil(Sexpr.State([], Some(Sexpr.List([]))), [[Branch([]), Branch([])]]);
  }

  lemma RunNil(st: Sexpr.State, stack: seq<seq<Node>>)
    requires stack != []
    ensures Sexpr.Run(st, []) == Ok(st) && Run(stack, []) == Ok(stack)
  {
  }
}
