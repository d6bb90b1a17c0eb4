/**
 Adding nodes to a saved board as text: the closing parenthesis is cut off, the
 printed nodes are written on lines of their own, and the list is closed again.
 */
module Splice {
  import opened Prelude
  import opened Lexing
  import opened Sexpr
  import opened RoundTrip
  import JsonText
  import Strict = StrictParser

  /** `s[:-1]`. */
  function DropLast(s: string): string {
    if s == [] then s else s[..|s| - 1]
  }

  /** `source.rstrip()[:-1] + '\n' + '\n'.join(dump(z) for z in zones) + '\n)\n'`. */
  function Spliced(source: string, zones: seq<Sexpr>): string {
    DropLast(RStrip(source)) + ("\n" + (Join(DumpAll(zones), "\n") + "\n)\n"))
  }

  /** A leaf that is read without error is a closed token. */
  lemma ReadLeafIsClosed(t: string)
    requires IsToken(t) && ReadAtom(t).Ok?
    ensures IsClosedToken(t)
  {
    if t[0] == '"' {
      JsonText.LoadsIsQuoted(t);
    }
  }

  predicate AreClosed(ts: seq<string>) {
    ts == [] || (IsClosedToken(ts[0]) && AreClosed(ts[1..]))
  }

  lemma {:induction false} ConcatClosed(a: seq<string>, b: seq<string>)
    requires AreTokens(a + b)
    ensures AreTokens(a) && AreTokens(b)
    ensures AreClosed(a + b) <==> AreClosed(a) && AreClosed(b)
  {
    if a == [] {
      ConcatNil(b);
    } else {
      assert (a + b)[1..] == a[1..] + b;
      ConcatClosed(a[1..], b);
    }
  }

  /** If a tree has a value, all its tokens are closed. */
  lemma {:induction false} ValuedIsClosed(c: Tree)
    requires AreTokens(Flatten(c)) && Value(c).Ok?
    ensures AreClosed(Flatten(c))
    decreases c, 1
  {
    match c
    case Leaf(t) =>
      ReadLeafIsClosed(t);
      assert [t][1..] == [];
    case Group(items) =>
      var toks := FlattenAll(items);
      ConcatClosed(["("], toks + [")"]);
      ConcatClosed(toks, [")"]);
      AllValuedAreClosed(items);
      assert ["("][1..] == [] && [")"][1..] == [];
  }

  lemma {:induction false} AllValuedAreClosed(cs: seq<Tree>)
    requires AreTokens(FlattenAll(cs)) && Values(cs).Ok?
    ensures AreClosed(FlattenAll(cs))
    decreases cs, 0
  {
    if cs != [] {
      ConcatClosed(Flatten(cs[0]), FlattenAll(cs[1..]));
      ValuedIsClosed(cs[0]);
      AllValuedAreClosed(cs[1..]);
    }
  }

  lemma {:induction false} ClosedTokensText(s: string)
    requires AreClosed(Tokens(s))
    ensures IsClosedText(s)
  {
    if s == [] {
    } else if IsSpace(s[0]) {
      ClosedTokensText(s[1..]);
    } else {
      var n := TokenLength(s);
      assert Tokens(s)[0] == s[..n] && Tokens(s)[1..] == Tokens(s[n..]);
      ClosedTokensText(s[n..]);
    }
  }

  /** Cutting the last parenthesis off a text that is one list leaves its other tokens. */
  lemma CutClose(source: string, items: seq<Tree>)
    requires Tokens(source) == Flatten(Group(items)) && Values(items).Ok?
    ensures var p := DropLast(RStrip(source));
            IsClosedText(p) && Tokens(p) == ["("] + FlattenAll(items)
  {
    TokensAreTokens(source);
    ValuedIsClosed(Group(items));
    ClosedTokensText(source);
    LexRStrip(source);
    Associate(["("], FlattenAll(items), [")"]);
    CutLastToken(RStrip(source), ["("] + FlattenAll(items));
  }

  lemma EndsInParen(s: string, toks: seq<string>)
    requires IsClosedText(s) && Tokens(s) == toks + [")"] && (s == [] || !IsSpace(s[|s| - 1]))
    ensures EndsWithClose(Tokens(s)) && s == DropLast(s) + ")"
  {
    assert Tokens([]) == [];
    assert EndsWithClose(toks + [")"]);
    hide Tokens, IsClosedText, IsSpace, EndsWithClose, DropLast;
    LexLastChar(s);
    SplitLast(s);
  }

  lemma SplitLast(s: string)
    requires s != []
    ensures s == DropLast(s) + [s[|s| - 1]]
  {
  }

  lemma CutLastToken(s: string, toks: seq<string>)
    requires IsClosedText(s) && Tokens(s) == toks + [")"] && (s == [] || !IsSpace(s[|s| - 1]))
    ensures IsClosedText(DropLast(s)) && Tokens(DropLast(s)) == toks
  {
    EndsInParen(s, toks);
    hide *;
    LexDropParen(DropLast(s));
    LastEqual(Tokens(DropLast(s)), toks, ")");
  }

  lemma LastEqual(a: seq<string>, b: seq<string>, t: string)
    requires a + [t] == b + [t]
    ensures a == b
  {
    assert a == (a + [t])[..|a|] && b == (b + [t])[..|b|];
  }

  lemma {:induction false} FlattenConcat(a: seq<Tree>, b: seq<Tree>)
    ensures FlattenAll(a + b) == FlattenAll(a) + FlattenAll(b)
    ensures AreTrees(a + b) <==> AreTrees(a) && AreTrees(b)
    ensures Values(a).Ok? && Values(b).Ok? ==> Values(a + b) == Ok(Values(a).value + Values(b).value)
    decreases |a|
  {
    if a == [] {
      ConcatNil(b);
      ConcatNil(FlattenAll(b));
      if Values(b).Ok? { ConcatNil(Values(b).value); }
    } else {
      assert (a + b)[1..] == a[1..] + b;
      FlattenConcat(a[1..], b);
      Associate(Flatten(a[0]), FlattenAll(a[1..]), FlattenAll(b));
      if Values(a).Ok? && Values(b).Ok? {
        Associate([Value(a[0]).value], Values(a[1..]).value, Values(b).value);
      }
    }
  }

  lemma BracketBoth(a: seq<string>, b: seq<string>)
    ensures (["("] + a) + (b + [")"]) == ["("] + ((a + b) + [")"])
  {
  }

  /** The spliced text has the tokens of one list: the old items, then the new nodes. */
  lemma LexSpliced(source: string, items: seq<Tree>, zones: seq<Sexpr>)
    requires Tokens(source) == Flatten(Group(items)) && Values(items).Ok? && AreLexable(zones)
    ensures Tokens(Spliced(source, zones)) == Flatten(Group(items + PrintedAll(zones)))
  {
    var p := DropLast(RStrip(source));
    CutClose(source, items);
    LexLinesTail("\n)\n");
    FlattenConcat(items, PrintedAll(zones));
    hide Tokens, Join, FlattenAll, IsClosedText, RStrip;
    var joined := Join(DumpAll(zones), "\n") + "\n)\n";
    LexConcat(p, "\n" + joined);
    LexSpace('\n', joined);
    LexJoin(zones, "\n", "\n)\n");
    BracketBoth(FlattenAll(items), FlattenAll(PrintedAll(zones)));
  }

  /** The items of a board that the strict reader accepts as one list. */
  ghost predicate IsBoard(source: string, board: seq<Sexpr>) {
    && Strict.Parse(source).Ok? && Strict.Parse(source).value.Branch?
    && Parse(source) == Ok(Some(List(board)))
  }

  lemma BoardTree(source: string, board: seq<Sexpr>) returns (items: seq<Tree>)
    requires IsBoard(source, board)
    ensures AreTrees(items) && Tokens(source) == Flatten(Group(items)) && Values(items) == Ok(board)
  {
    var c := Strict.AcceptedTree(source);
    items := c.items;
    ParseGroup(source, c);
    assert c == Group(items);
  }

  lemma ParseSpliced(source: string, board: seq<Sexpr>, zones: seq<Sexpr>)
    requires IsBoard(source, board) && AreLexable(zones)
    ensures Parse(Spliced(source, zones)) == Ok(Some(List(board + RereadAll(zones))))
  {
    var items := BoardTree(source, board);
    LexSpliced(source, items, zones);
    PrintedAreTrees(zones);
    FlattenConcat(items, PrintedAll(zones));
    ParseGroup(Spliced(source, zones), Group(items + PrintedAll(zones)));
  }

  lemma {:induction false} SoundConcat(a: seq<Sexpr>, b: seq<Sexpr>)
    requires AllSound(a + b)
    ensures AllSound(b)
  {
    if a == [] {
      ConcatNil(b);
    } else {
      assert (a + b)[1..] == a[1..] + b;
      SoundConcat(a[1..], b);
    }
  }

  /**
   On every board that is one list, the old items are kept as they were, and the
   new nodes follow them unchanged exactly when they survive printing.
   */
  lemma SplicePreserves(source: string, board: seq<Sexpr>, zones: seq<Sexpr>)
    requires IsBoard(source, board)
    ensures AreLexable(zones) ==>
              var after := Parse(Spliced(source, zones));
              after.Ok? && after.value.Some? && after.value.value.List?
              && |after.value.value.items| == |board| + |zones| && board <= after.value.value.items
    ensures Parse(Spliced(source, zones)) == Ok(Some(List(board + zones))) <==> AllSurvive(zones)
  {
    if AreLexable(zones) {
      ParseSpliced(source, board, zones);
    }
    if AllSurvive(zones) {
      AllSurviveAreSound(zones);
      AllSoundAreLexable(zones);
      ParseSpliced(source, board, zones);
    }
    if Parse(Spliced(source, zones)) == Ok(Some(List(board + zones))) {
      ParseRange(Spliced(source, zones));
      SoundConcat(board, zones);
      AllSoundAreLexable(zones);
      ParseSpliced(source, board, zones);
      assert (board + RereadAll(zones))[|board|..] == RereadAll(zones);
      assert (board + zones)[|board|..] == zones;
    }
  }
}
