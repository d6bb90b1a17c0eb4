/**
 What the stack reader of board files accepts: a row of balanced lists, and then any
 number of lists left open; it returns the last list of the row.
 */
module LaxReader {
  import opened Lexing
  import opened Prelude
  import opened Sexpr
  import StrictParser

  predicate AreGroups(cs: seq<Tree>) {
    AreTrees(cs) && forall i :: 0 <= i < |cs| ==> cs[i].Group?
  }

  /** `ts[0]` is the row of lists, each later part the items of a list left open; every atom is readable. */
  predicate AreParts(ts: seq<seq<Tree>>) {
    ts != [] && AreGroups(ts[0]) && forall i :: 0 <= i < |ts| ==> AreTrees(ts[i]) && Values(ts[i]).Ok?
  }

  predicate IsRow(tokens: seq<string>, ts: seq<seq<Tree>>) {
    AreParts(ts) && tokens == StrictParser.Unparse(ts)
  }

  /** The last list of a row. */
  function LastList(cs: seq<Tree>): Option<Sexpr>
    requires Values(cs).Ok?
  {
    if cs == [] then None else Some(Values(cs).value[|cs| - 1])
  }

  /** The state in which the row leaves the reader. */
  function StateOf(ts: seq<seq<Tree>>): State
    requires ts != [] && forall i :: 0 <= i < |ts| ==> Values(ts[i]).Ok?
  {
    State(seq(|ts| - 1, i requires 0 <= i < |ts| - 1 => Values(ts[i + 1]).value), LastList(ts[0]))
  }

  // ---------- A row is accepted ----------

  lemma {:induction false} RunConcat(st: State, a: seq<string>, b: seq<string>)
    ensures Run(st, a + b) == if Run(st, a).Ok? then Run(Run(st, a).value, b) else Run(st, a)
    decreases |a|
  {
    if a == [] {
      ConcatNil(b);
    } else {
      assert (a + b)[0] == a[0] && (a + b)[1..] == a[1..] + b;
      if Step(st, a[0]).Ok? { RunConcat(Step(st, a[0]).value, a[1..], b); }
    }
  }

  /** The first list of a row, and the others. */
  lemma GroupsMore(cs: seq<Tree>)
    requires cs != [] && AreGroups(cs) && Values(cs).Ok?
    ensures IsTree(cs[0]) && cs[0].Group? && Value(cs[0]).Ok? && AreGroups(cs[1..]) && Values(cs[1..]).Ok?
    ensures FlattenAll(cs) == Flatten(cs[0]) + FlattenAll(cs[1..])
    ensures LastList(cs) == if |cs| == 1 then Some(Value(cs[0]).value) else LastList(cs[1..])
  {
    hide Flatten, IsTree, Value;
  }

  lemma {:induction false} RunGroups(cs: seq<Tree>, st: State)
    requires AreGroups(cs) && Values(cs).Ok? && st.stack == []
    ensures Run(st, FlattenAll(cs)) == Ok(if cs == [] then st else State([], LastList(cs)))
    decreases |cs|
  {
    if cs != [] {
      GroupsMore(cs);
      hide AreGroups, Values, Value, Flatten, FlattenAll, LastList, Run, IsTree;
      RunTree(cs[0], st, FlattenAll(cs[1..]));
      RunGroups(cs[1..], Place(st, Value(cs[0]).value));
    }
  }

  lemma StateMore(ts: seq<seq<Tree>>)
    requires |ts| > 1 && forall i :: 0 <= i < |ts| ==> Values(ts[i]).Ok?
    ensures var k := |ts| - 1;
            var st := StateOf(ts[..k]);
            StateOf(ts) == st.(stack := st.stack + [Values(ts[k]).value])
  {
    hide Values;
    var k := |ts| - 1;
    assert StateOf(ts).stack == StateOf(ts[..k]).stack + [Values(ts[k]).value];
  }

  lemma PlaceInner(st: State, vs: seq<Sexpr>)
    ensures PlaceAll(st.(stack := st.stack + [[]]), vs) == st.(stack := st.stack + [vs])
  {
    ConcatNil(vs);
    assert (st.stack + [[]])[..|st.stack|] == st.stack;
  }

  lemma {:induction false} RunRow(ts: seq<seq<Tree>>)
    requires AreParts(ts)
    ensures Run(START, StrictParser.Unparse(ts)) == Ok(StateOf(ts))
    decreases |ts|
  {
    if |ts| == 1 {
      RunGroups(ts[0], START);
      assert StateOf(ts).stack == [];
    } else {
      var k := |ts| - 1;
      var before, items := ts[..k], ts[k];
      RunRow(before);
      RunConcat(START, StrictParser.Unparse(before), ["("] + FlattenAll(items));
      RunStep(StateOf(before), "(", FlattenAll(items));
      RunTrees(items, StateOf(before).(stack := StateOf(before).stack + [[]]), []);
      ConcatNil(FlattenAll(items));
      PlaceInner(StateOf(before), Values(items).value);
      StateMore(ts);
      hide Values, AreTrees, FlattenAll, StateOf, PlaceAll;
    }
  }

  // ---------- Nothing else is accepted ----------

  predicate IsMade(st: State, ts: seq<seq<Tree>>) {
    AreParts(ts) && st == StateOf(ts)
  }

  lemma {:induction false} ValuesMore(cs: seq<Tree>, c: Tree)
    requires AreTrees(cs) && IsTree(c) && Values(cs).Ok? && Value(c).Ok?
    ensures AreTrees(cs + [c]) && Values(cs + [c]) == Ok(Values(cs).value + [Value(c).value])
    ensures FlattenAll(cs + [c]) == FlattenAll(cs) + Flatten(c)
    decreases |cs|
  {
    if cs == [] {
      assert (cs + [c])[1..] == [];
      ConcatNil(Flatten(c));
      ConcatNil([Value(c).value]);
    } else {
      assert (cs + [c])[1..] == cs[1..] + [c];
      ValuesMore(cs[1..], c);
      Associate(Flatten(cs[0]), FlattenAll(cs[1..]), Flatten(c));
      Associate([Value(cs[0]).value], Values(cs[1..]).value, [Value(c).value]);
    }
  }

  lemma UnparseTop(ts: seq<seq<Tree>>, c: Tree)
    requires ts != [] && FlattenAll(ts[|ts| - 1] + [c]) == FlattenAll(ts[|ts| - 1]) + Flatten(c)
    ensures var k := |ts| - 1;
            StrictParser.Unparse(ts[..k] + [ts[k] + [c]]) == StrictParser.Unparse(ts) + Flatten(c)
  {
    hide Flatten, FlattenAll;
    var k := |ts| - 1;
    var next := ts[..k] + [ts[k] + [c]];
    assert next[..k] == ts[..k];
    if k > 0 {
      Associate(["("], FlattenAll(ts[k]), Flatten(c));
      Associate(StrictParser.Unparse(ts[..k]), ["("] + FlattenAll(ts[k]), Flatten(c));
    }
  }

  lemma PartsTop(ts: seq<seq<Tree>>, c: Tree)
    requires AreParts(ts) && IsTree(c) && Value(c).Ok? && (|ts| == 1 ==> c.Group?)
    ensures AreParts(ts[..|ts| - 1] + [ts[|ts| - 1] + [c]])
  {
    var k := |ts| - 1;
    ValuesMore(ts[k], c);
    hide Flatten, FlattenAll, Value, Values, IsTree, AreTrees;
    assert forall i :: 0 <= i < k ==> (ts[..k] + [ts[k] + [c]])[i] == ts[i];
  }

  lemma StateTop(ts: seq<seq<Tree>>, next: seq<seq<Tree>>, c: Tree)
    requires AreParts(ts) && AreParts(next) && IsTree(c) && Value(c).Ok?
    requires next == ts[..|ts| - 1] + [ts[|ts| - 1] + [c]]
    ensures StateOf(next) == Place(StateOf(ts), Value(c).value)
  {
    var k := |ts| - 1;
    ValuesMore(ts[k], c);
    hide Flatten, FlattenAll, Value, Values, IsTree, AreTrees, AreParts;
    if k == 0 {
      assert StateOf(next).stack == [] == StateOf(ts).stack;
    } else {
      assert next[0] == ts[0];
      assert StateOf(next).stack == Append(StateOf(ts).stack, Value(c).value);
    }
  }

  /** A finished tree goes into the innermost open list, or to the row. */
  lemma MadeTop(st: State, ts: seq<seq<Tree>>, c: Tree) returns (next: seq<seq<Tree>>)
    requires IsMade(st, ts) && IsTree(c) && Value(c).Ok? && (st.stack == [] ==> c.Group?)
    ensures IsMade(Place(st, Value(c).value), next)
    ensures StrictParser.Unparse(next) == StrictParser.Unparse(ts) + Flatten(c)
  {
    var k := |ts| - 1;
    next := ts[..k] + [ts[k] + [c]];
    PartsTop(ts, c);
    StateTop(ts, next, c);
    ValuesMore(ts[k], c);
    UnparseTop(ts, c);
    hide *;
  }

  lemma MadeOpen(st: State, ts: seq<seq<Tree>>)
    requires IsMade(st, ts)
    ensures IsMade(st.(stack := st.stack + [[]]), ts + [[]])
    ensures StrictParser.Unparse(ts + [[]]) == StrictParser.Unparse(ts) + ["("]
  {
    var next := ts + [[]];
    assert next[..|ts|] == ts;
    ConcatNil(["("]);
    assert StateOf(next).stack == st.stack + [[]];
  }

  lemma UnparseGroup(ts: seq<seq<Tree>>)
    requires |ts| > 1
    ensures var k := |ts| - 1;
            StrictParser.Unparse(ts) + [")"] == StrictParser.Unparse(ts[..k]) + Flatten(Group(ts[k]))
  {
    var k := |ts| - 1;
    Associate(["("], FlattenAll(ts[k]), [")"]);
    Associate(StrictParser.Unparse(ts[..k]), ["("] + FlattenAll(ts[k]), [")"]);
  }

  lemma MadeClose(st: State, ts: seq<seq<Tree>>) returns (next: seq<seq<Tree>>)
    requires IsMade(st, ts) && st.stack != []
    ensures IsMade(Step(st, ")").value, next)
    ensures StrictParser.Unparse(next) == StrictParser.Unparse(ts) + [")"]
  {
    hide Values, AreTrees, Flatten, FlattenAll, StrictParser.Unparse;
    var k := |ts| - 1;
    var outer := st.(stack := st.stack[..k - 1]);
    UnparseGroup(ts);
    assert outer.stack == StateOf(ts[..k]).stack;
    GroupIs(ts[k]);
    next := MadeTop(outer, ts[..k], Group(ts[k]));
  }

  lemma GroupIs(items: seq<Tree>)
    requires AreTrees(items) && Values(items).Ok?
    ensures IsTree(Group(items)) && Value(Group(items)) == Ok(List(Values(items).value))
  {
  }

  lemma LeafIs(st: State, t: string)
    requires t != "(" && t != ")" && Step(st, t).Ok?
    ensures IsTree(Leaf(t)) && Value(Leaf(t)).Ok? && st.stack != [] && Flatten(Leaf(t)) == [t]
    ensures Step(st, t).value == Place(st, Value(Leaf(t)).value)
  {
  }

  lemma MadeStep(st: State, ts: seq<seq<Tree>>, t: string) returns (next: seq<seq<Tree>>)
    requires IsMade(st, ts) && Step(st, t).Ok?
    ensures IsMade(Step(st, t).value, next) && StrictParser.Unparse(next) == StrictParser.Unparse(ts) + [t]
  {
    if t == "(" {
      next := ts + [[]];
      MadeOpen(st, ts);
    } else if t == ")" {
      next := MadeClose(st, ts);
    } else {
      LeafIs(st, t);
      next := MadeTop(st, ts, Leaf(t));
    }
    hide *;
  }

  lemma {:induction false} MadeRun(st: State, ts: seq<seq<Tree>>, tokens: seq<string>) returns (last: seq<seq<Tree>>)
    requires IsMade(st, ts) && Run(st, tokens).Ok?
    ensures IsMade(Run(st, tokens).value, last)
    ensures StrictParser.Unparse(last) == StrictParser.Unparse(ts) + tokens
    decreases |tokens|
  {
    if tokens == [] {
      last := ts;
      ConcatNil(StrictParser.Unparse(ts));
    } else {
      var next := MadeStep(st, ts, tokens[0]);
      last := MadeRun(Step(st, tokens[0]).value, next, tokens[1..]);
      Associate(StrictParser.Unparse(ts), [tokens[0]], tokens[1..]);
      assert [tokens[0]] + tokens[1..] == tokens;
    }
  }

  lemma AcceptedRow(text: string) returns (ts: seq<seq<Tree>>)
    requires Parse(text).Ok?
    ensures IsRow(Tokens(text), ts)
  {
    assert IsMade(START, [[]]);
    ts := MadeRun(START, [[]], Tokens(text));
    ConcatNil(Tokens(text));
    hide AreParts, StrictParser.Unparse, Run;
  }

  lemma RowIsRead(text: string, ts: seq<seq<Tree>>)
    requires IsRow(Tokens(text), ts)
    ensures Parse(text) == Ok(LastList(ts[0]))
  {
    RunRow(ts);
  }

  /**
   `parse` accepts exactly the texts whose tokens are a row of balanced lists with readable
   atoms, and then lists left open; it returns the last list of the row, if there is one.
   */
  lemma AcceptsExactly(text: string)
    ensures Parse(text).Ok? <==> exists ts: seq<seq<Tree>> :: IsRow(Tokens(text), ts)
    ensures forall ts: seq<seq<Tree>> :: IsRow(Tokens(text), ts) ==> Parse(text) == Ok(LastList(ts[0]))
  {
    forall ts: seq<seq<Tree>> | IsRow(Tokens(text), ts)
      ensures Parse(text) == Ok(LastList(ts[0]))
    {
      RowIsRead(text, ts);
    }
    hide Parse, IsRow, LastList;
    if Parse(text).Ok? {
      var ts := AcceptedRow(text);
    }
  }
}
