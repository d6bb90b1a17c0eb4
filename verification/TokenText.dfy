/**
 How the tokens lie in a text, character by character: which characters separate them,
 which are never lost, and what a quoted token is made of.
 */
module TokenText {
  import opened Lexing
  import opened Prelude
  import Sexpr
  import StrictParser

  // ---------- White space ----------

  /** The white space of Python's `str`, character by character. */
  const SPACES: seq<char> := [
    '\t', '\n', '\U{000B}', '\U{000C}', '\r', '\U{001C}', '\U{001D}', '\U{001E}', '\U{001F}', ' ',
    '\U{0085}', '\U{00A0}', '\U{1680}', '\U{2000}', '\U{2001}', '\U{2002}', '\U{2003}', '\U{2004}',
    '\U{2005}', '\U{2006}', '\U{2007}', '\U{2008}', '\U{2009}', '\U{200A}', '\U{2028}', '\U{2029}',
    '\U{202F}', '\U{205F}', '\U{3000}']

  lemma SpacesAreSpaces(c: char)
    ensures c in SPACES <==> IsSpace(c)
  {
  }

  /** White space in front of a text makes no difference to its tokens. */
  lemma LeadingSpace(c: char, rest: string)
    requires c in SPACES
    ensures Tokens([c] + rest) == Tokens(rest)
  {
    SpacesAreSpaces(c);
    LexSpace(c, rest);
  }

  /** Between two tokens every white space is like a space, for both readers. */
  lemma AnySpaceWillDo(before: string, c: char, after: string)
    requires IsClosedText(before) && c in SPACES
    ensures Tokens(before + [c] + after) == Tokens(before) + Tokens(after) == Tokens(before + " " + after)
    ensures Sexpr.Parse(before + [c] + after) == Sexpr.Parse(before + " " + after)
    ensures StrictParser.Parse(before + [c] + after) == StrictParser.Parse(before + " " + after)
  {
    assert ' ' in SPACES;
    SplitBySpace(before, c, after);
    SplitBySpace(before, ' ', after);
    StrictParser.SameTokens(before + [c] + after);
    StrictParser.SameTokens(before + " " + after);
    hide Tokens, StrictParser.StrictTokens, SPACES;
  }

  lemma SplitBySpace(before: string, c: char, after: string)
    requires IsClosedText(before) && c in SPACES
    ensures Tokens(before + [c] + after) == Tokens(before) + Tokens(after)
  {
    SpacesAreSpaces(c);
    LexConcat(before, [c] + after);
    LexSpace(c, after);
    assert before + [c] + after == before + ([c] + after);
    hide Tokens, IsClosedText, SPACES;
  }

  // ---------- Nothing but white space is lost ----------

  predicate AllSpace(s: string) {
    forall i :: 0 <= i < |s| ==> s[i] in SPACES
  }

  /** The white space before each token, and after the last one. */
  function Gaps(s: string): (gaps: seq<string>)
    ensures |gaps| == |Tokens(s)| + 1
  {
    if s == [] then [""]
    else if IsSpace(s[0]) then
      var rest := Gaps(s[1..]);
      [[s[0]] + rest[0]] + rest[1..]
    else [""] + Gaps(s[TokenLength(s)..])
  }

  /** The gaps and the tokens in turn. */
  function Interleaved(gaps: seq<string>, tokens: seq<string>): string
    requires |gaps| == |tokens| + 1
    decreases |tokens|
  {
    if tokens == [] then gaps[0] else gaps[0] + (tokens[0] + Interleaved(gaps[1..], tokens[1..]))
  }

  /** A text is its tokens with nothing but white space before, between and after them. */
  lemma {:induction false} TextIsTokens(s: string)
    ensures Interleaved(Gaps(s), Tokens(s)) == s
    ensures forall i :: 0 <= i < |Gaps(s)| ==> AllSpace(Gaps(s)[i])
    decreases |s|
  {
    hide SPACES, IsQuotedToken;
    if s == [] {
    } else if IsSpace(s[0]) {
      TextIsTokens(s[1..]);
      SpacesAreSpaces(s[0]);
      WiderGap(s[0], Gaps(s[1..]), Tokens(s[1..]));
      assert s == [s[0]] + s[1..];
    } else {
      var n := TokenLength(s);
      TextIsTokens(s[n..]);
      assert Tokens(s)[1..] == Tokens(s[n..]) && Gaps(s)[1..] == Gaps(s[n..]);
      assert s == s[..n] + s[n..];
    }
  }

  lemma WiderGap(c: char, gaps: seq<string>, tokens: seq<string>)
    requires |gaps| == |tokens| + 1
    ensures Interleaved([[c] + gaps[0]] + gaps[1..], tokens) == [c] + Interleaved(gaps, tokens)
  {
    var wider := [[c] + gaps[0]] + gaps[1..];
    assert wider[1..] == gaps[1..];
    if tokens != [] {
      Associate([c], gaps[0], tokens[0] + Interleaved(gaps[1..], tokens[1..]));
    }
  }

  /** A token without a quote in front is a parenthesis, or holds neither parentheses nor white space. */
  lemma {:induction false} TokensAreBare(s: string, i: nat)
    requires i < |Tokens(s)|
    ensures var t := Tokens(s)[i];
            t != [] && (t[0] != '"' ==> t == "(" || t == ")" || forall j :: 0 <= j < |t| ==>
                                          t[j] != '(' && t[j] != ')' && t[j] !in SPACES)
    decreases |s|
  {
    if IsSpace(s[0]) {
      TokensAreBare(s[1..], i);
    } else if i == 0 {
      TokenShape(s);
      var t := s[..TokenLength(s)];
      forall j | 0 <= j < |t|
        ensures t[j] in SPACES <==> IsSpace(t[j])
      {
        SpacesAreSpaces(t[j]);
      }
      hide SPACES;
    } else {
      TokensAreBare(s[TokenLength(s)..], i - 1);
    }
  }

  // ---------- Quoted tokens ----------

  /** `\\.` or `[^"\\]`. */
  predicate IsItem(x: string) {
    (|x| == 1 && x[0] != '"' && x[0] != '\\') || (|x| == 2 && x[0] == '\\' && x[1] != '\n')
  }

  predicate AreItems(items: seq<string>) {
    forall i :: 0 <= i < |items| ==> IsItem(items[i])
  }

  /** `"(?:\\.|[^"\\])*"`, after its opening quote. */
  ghost predicate IsItemised(t: string) {
    exists items :: AreItems(items) && t == Concat(items) + "\""
  }

  lemma {:induction false} ItemsAreQuoted(items: seq<string>, rest: string)
    requires AreItems(items)
    ensures QuotedLength(Concat(items) + "\"" + rest) == Some(|Concat(items)| + 1)
    decreases |items|
  {
    var s := Concat(items) + "\"" + rest;
    if items != [] {
      var x, more := items[0], Concat(items[1..]) + "\"" + rest;
      ItemsAreQuoted(items[1..], rest);
      assert s == x + more;
      if |x| == 1 { assert s[1..] == more; } else { assert s[2..] == more; }
    }
  }

  lemma {:induction false} QuotedIsItems(s: string) returns (items: seq<string>)
    requires QuotedLength(s).Some?
    ensures AreItems(items) && s[..QuotedLength(s).value] == Concat(items) + "\""
    decreases |s|
  {
    var n := QuotedLength(s).value;
    if s[0] == '"' {
      items := [];
    } else {
      var k := if s[0] == '\\' then 2 else 1;
      var rest := QuotedIsItems(s[k..]);
      items := [s[..k]] + rest;
      assert items[1..] == rest;
      assert s[..n] == s[..k] + s[k..][..n - k];
    }
  }

  /** A quoted token ends where the expression for it matches, and there is at most one such place. */
  lemma QuotedExactly(s: string, n: nat)
    requires n <= |s|
    ensures QuotedLength(s) == Some(n) <==> IsItemised(s[..n])
  {
    if QuotedLength(s) == Some(n) {
      var items := QuotedIsItems(s);
    }
    if IsItemised(s[..n]) {
      var items :| AreItems(items) && s[..n] == Concat(items) + "\"";
      ItemsAreQuoted(items, s[n..]);
      assert s == s[..n] + s[n..];
    }
    hide QuotedLength, Concat, AreItems;
  }
}
