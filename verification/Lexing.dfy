/**
 The tokenizer both S-expression readers obtain from a regular expression: a
 quoted string, a run of bare characters, or a single parenthesis; white space
 separates tokens and is dropped.
 */
module Lexing {
  import opened Prelude

  /** The characters matched by `\s` on a Python string, which `str.rstrip` removes too. */
  predicate IsSpace(c: char) {
    || '\U{0009}' <= c <= '\U{000D}'
    || '\U{001C}' <= c <= '\U{0020}'
    || c == '\U{0085}' || c == '\U{00A0}' || c == '\U{1680}'
    || '\U{2000}' <= c <= '\U{200A}'
    || '\U{2028}' <= c <= '\U{2029}' || c == '\U{202F}' || c == '\U{205F}' || c == '\U{3000}'
  }

  predicate IsParen(c: char) {
    c == '(' || c == ')'
  }

  /** A character of the class `[^\s()]`. */
  predicate IsBare(c: char) {
    !IsSpace(c) && !IsParen(c)
  }

  predicate AllBare(s: string) {
    forall i :: 0 <= i < |s| ==> IsBare(s[i])
  }

  function BareLength(s: string): (n: nat)
    ensures n <= |s|
  {
    if s != [] && IsBare(s[0]) then 1 + BareLength(s[1..]) else 0
  }

  /**
   How many characters the rest of a quoted token takes, closing quote included;
   `s` starts after the opening quote. A backslash takes the next character with
   it unless that is a line feed, in which case the alternative fails.
   */
  function QuotedLength(s: string): (n: Option<nat>)
    ensures n.Some? ==> 1 <= n.value <= |s|
  {
    if s == [] then None
    else if s[0] == '"' then Some(1)
    else if s[0] == '\\' then
      if |s| < 2 || s[1] == '\n' then None
      else match QuotedLength(s[2..]) case None => None case Some(n) => Some(n + 2)
    else match QuotedLength(s[1..]) case None => None case Some(n) => Some(n + 1)
  }

  function TokenLength(s: string): (n: nat)
    requires s != [] && !IsSpace(s[0])
    ensures 1 <= n <= |s|
  {
    if s[0] == '"' && QuotedLength(s[1..]).Some? then 1 + QuotedLength(s[1..]).value
    else if IsBare(s[0]) then BareLength(s)
    else 1
  }

  /** All the tokens of a text, from left to right. */
  function Tokens(s: string): (tokens: seq<string>)
  {
    if s == [] then []
    else if IsSpace(s[0]) then Tokens(s[1..])
    else var n := TokenLength(s); [s[..n]] + Tokens(s[n..])
  }

  /** Nothing follows, or a character that ends a bare run. */
  predicate Delimited(rest: string) {
    rest == [] || !IsBare(rest[0])
  }

  /** A bare run that is read as a symbol or a number wherever it is delimited. */
  predicate IsBareToken(t: string) {
    t != [] && AllBare(t) && t[0] != '"'
  }

  /** A token whose own characters end it. */
  predicate IsQuotedToken(t: string) {
    t != [] && t[0] == '"' && QuotedLength(t[1..]) == Some(|t| - 1)
  }

  lemma {:induction false} BareRun(t: string, rest: string)
    requires AllBare(t) && Delimited(rest)
    ensures BareLength(t + rest) == |t|
  {
    if t == [] {
      assert t + rest == rest;
    } else {
      assert (t + rest)[1..] == t[1..] + rest;
      assert AllBare(t[1..]);
      BareRun(t[1..], rest);
    }
  }

  /** Text added after a closed string does not change where it closes. */
  lemma {:induction false} QuotedRun(s: string, rest: string)
    requires QuotedLength(s).Some?
    ensures QuotedLength(s + rest) == QuotedLength(s)
  {
    if s[0] == '"' {
    } else if s[0] == '\\' {
      assert (s + rest)[2..] == s[2..] + rest;
      QuotedRun(s[2..], rest);
    } else {
      assert (s + rest)[1..] == s[1..] + rest;
      QuotedRun(s[1..], rest);
    }
  }

  lemma LexBare(t: string, rest: string)
    requires IsBareToken(t) && Delimited(rest)
    ensures Tokens(t + rest) == [t] + Tokens(rest)
  {
    BareRun(t, rest);
    assert IsBare(t[0]) && (t + rest)[0] == t[0];
    assert (t + rest)[..|t|] == t && (t + rest)[|t|..] == rest;
  }

  lemma LexQuoted(t: string, rest: string)
    requires IsQuotedToken(t)
    ensures Tokens(t + rest) == [t] + Tokens(rest)
  {
    QuotedRun(t[1..], rest);
    assert (t + rest)[1..] == t[1..] + rest;
    assert (t + rest)[..|t|] == t && (t + rest)[|t|..] == rest;
  }

  lemma LexParen(c: char, rest: string)
    requires IsParen(c)
    ensures Tokens([c] + rest) == [[c]] + Tokens(rest)
  {
    assert ([c] + rest)[..1] == [c] && ([c] + rest)[1..] == rest;
  }

  lemma LexSpace(c: char, rest: string)
    requires IsSpace(c)
    ensures Tokens([c] + rest) == Tokens(rest)
  {
    assert ([c] + rest)[1..] == rest;
  }

  /** A token the regular expression can only have produced from closed text. */
  predicate IsClosedToken(t: string) {
    t == "(" || t == ")" || IsBareToken(t) || IsQuotedToken(t)
  }

  lemma {:induction false} BarePrefix(s: string)
    ensures AllBare(s[..BareLength(s)]) && Delimited(s[BareLength(s)..])
  {
    if s != [] && IsBare(s[0]) {
      BarePrefix(s[1..]);
      var n := BareLength(s[1..]);
      assert s[..n + 1] == [s[0]] + s[1..][..n];
      assert s[n + 1..] == s[1..][n..];
    }
  }

  lemma {:induction false} QuotedPrefix(s: string)
    requires QuotedLength(s).Some?
    ensures QuotedLength(s[..QuotedLength(s).value]) == QuotedLength(s)
  {
    var n := QuotedLength(s).value;
    if s[0] == '"' {
    } else if s[0] == '\\' {
      QuotedPrefix(s[2..]);
      assert s[..n][2..] == s[2..][..n - 2];
    } else {
      QuotedPrefix(s[1..]);
      assert s[..n][1..] == s[1..][..n - 1];
    }
  }

  /** Every token is a parenthesis, a closed string, a bare run, or a run left over from an unclosed quote. */
  lemma TokenShape(s: string)
    requires s != [] && !IsSpace(s[0])
    ensures var t := s[..TokenLength(s)];
            IsClosedToken(t) || (t[0] == '"' && AllBare(t) && QuotedLength(s[1..]) == None)
    ensures !IsQuotedToken(s[..TokenLength(s)]) && s[0] != '(' && s[0] != ')' ==> Delimited(s[TokenLength(s)..])
  {
    if s[0] == '"' && QuotedLength(s[1..]).Some? {
      QuotedPrefix(s[1..]);
      assert s[..TokenLength(s)][1..] == s[1..][..TokenLength(s) - 1];
    } else if IsBare(s[0]) {
      BarePrefix(s);
    }
  }

  /** A closed token in front of delimited text is read off as it stands. */
  lemma LexClosed(t: string, rest: string)
    requires IsClosedToken(t)
    requires IsBareToken(t) ==> Delimited(rest)
    ensures Tokens(t + rest) == [t] + Tokens(rest)
  {
    if t == "(" || t == ")" {
      LexParen(t[0], rest);
    } else if IsBareToken(t) {
      LexBare(t, rest);
    } else {
      LexQuoted(t, rest);
    }
  }

  /** The tokenizer's walk over `s` meets closed tokens only. */
  predicate IsClosedText(s: string) {
    s == [] ||
    if IsSpace(s[0]) then IsClosedText(s[1..])
    else IsClosedToken(s[..TokenLength(s)]) && IsClosedText(s[TokenLength(s)..])
  }

  /** Closed text that does not start with white space starts with a closed token. */
  lemma SplitToken(s: string) returns (t: string, u: string)
    requires s != [] && !IsSpace(s[0]) && IsClosedText(s)
    ensures s == t + u && t != [] && Tokens(s) == [t] + Tokens(u)
    ensures IsClosedToken(t) && IsClosedText(u) && (IsBareToken(t) ==> Delimited(u))
  {
    t, u := s[..TokenLength(s)], s[TokenLength(s)..];
    TokenShape(s);
  }

  lemma ExtendToken(t: string, u: string, rest: string)
    requires IsClosedToken(t) && (IsBareToken(t) ==> Delimited(u)) && Delimited(rest)
    ensures Tokens(t + u + rest) == [t] + Tokens(u + rest)
  {
    assert t + u + rest == t + (u + rest);
    LexClosed(t, u + rest);
  }

  /** Text that starts with a delimiter is tokenized apart from closed text before it. */
  lemma {:induction false} LexConcat(s: string, rest: string)
    requires IsClosedText(s) && Delimited(rest)
    ensures Tokens(s + rest) == Tokens(s) + Tokens(rest)
    decreases |s|
  {
    if s == [] {
      assert s + rest == rest;
    } else if IsSpace(s[0]) {
      assert s + rest == [s[0]] + (s[1..] + rest);
      LexSpace(s[0], s[1..] + rest);
      LexConcat(s[1..], rest);
    } else {
      var t, u := SplitToken(s);
      ExtendToken(t, u, rest);
      LexConcat(u, rest);
      TokensAssociate(t, Tokens(u), Tokens(rest));
    }
  }

  lemma TokensAssociate(t: string, a: seq<string>, b: seq<string>)
    ensures [t] + (a + b) == ([t] + a) + b
  {
  }

  lemma SkipSpace(c: char, rest: string)
    requires IsSpace(c)
    ensures Tokens([c] + rest) == Tokens(rest) && IsClosedText([c] + rest) == IsClosedText(rest)
  {
    assert ([c] + rest)[1..] == rest;
  }

  lemma CutLast(p: string, c: string, t: string, u: string) returns (v: string)
    requires |c| == 1 && u != [] && p + c == t + u
    ensures u == v + c && p == t + v
  {
    v := u[..|u| - 1];
    assert u[|u| - 1] == (t + u)[|t + u| - 1] == (p + c)[|p|];
    assert p == (t + u)[..|p|] == t + v;
  }

  lemma TextGoesOn(p: string, c: char, t: string, u: string)
    requires p + [c] == t + u && t != [] && t[|t| - 1] != c
    ensures u != []
  {
    assert (p + [c])[|p|] == c;
    assert u == [] ==> t + u == t;
  }

  lemma DropSpaceStep(t: string, v: string, c: char)
    requires IsClosedToken(t) && (IsBareToken(t) ==> Delimited(v + [c]))
    requires IsClosedText(v) && Tokens(v) == Tokens(v + [c])
    ensures IsClosedText(t + v) && Tokens(t + v) == [t] + Tokens(v + [c])
  {
    assert v != [] ==> (v + [c])[0] == v[0];
    PrependToken(t, v);
  }

  /** Dropping white space at the end drops no token. */
  lemma {:induction false} LexDropSpace(p: string, c: char)
    requires IsSpace(c) && IsClosedText(p + [c])
    ensures IsClosedText(p) && Tokens(p) == Tokens(p + [c])
    decreases |p|
  {
    if p == [] {
      SkipSpace(c, []);
      assert [c] + [] == p + [c];
    } else if IsSpace(p[0]) {
      assert p + [c] == [p[0]] + (p[1..] + [c]) && p == [p[0]] + p[1..];
      SkipSpace(p[0], p[1..] + [c]);
      LexDropSpace(p[1..], c);
      SkipSpace(p[0], p[1..]);
    } else {
      var t, u := SplitToken(p + [c]);
      LastOfToken(t);
      assert u != [] by { TextGoesOn(p, c, t, u); }
      var v := CutLast(p, [c], t, u);
      LexDropSpace(v, c);
      DropSpaceStep(t, v, c);
    }
  }

  predicate EndsWithClose(tokens: seq<string>) {
    tokens != [] && tokens[|tokens| - 1] == ")"
  }

  lemma {:induction false} LexLastChar(s: string)
    requires s != [] && IsClosedText(s) && !IsSpace(s[|s| - 1]) && EndsWithClose(Tokens(s))
    ensures s[|s| - 1] == ')'
    decreases |s|
  {
    if IsSpace(s[0]) {
      LexLastChar(s[1..]);
    } else {
      var t, u := SplitToken(s);
      if u != [] {
        assert u[|u| - 1] == s[|s| - 1];
        LexNonempty(u);
        LastOf(t, Tokens(u));
        LexLastChar(u);
      }
    }
  }

  lemma DropParenStep(t: string, v: string)
    requires IsClosedToken(t) && (IsBareToken(t) ==> Delimited(v + ")"))
    requires IsClosedText(v) && Tokens(v) + [")"] == Tokens(v + ")")
    ensures IsClosedText(t + v) && Tokens(t + v) + [")"] == [t] + Tokens(v + ")")
  {
    assert v != [] ==> (v + ")")[0] == v[0];
    PrependToken(t, v);
    TokensAssociate(t, Tokens(v), [")"]);
  }

  /** The rest of a text that ends with its own `)` token also ends with it. */
  lemma DropParenSplit(p: string) returns (t: string, v: string)
    requires p != [] && !IsSpace(p[0])
    requires IsClosedText(p + ")") && EndsWithClose(Tokens(p + ")"))
    ensures p == t + v && t != []
    ensures IsClosedToken(t) && (IsBareToken(t) ==> Delimited(v + ")"))
    ensures Tokens(p + ")") == [t] + Tokens(v + ")")
    ensures IsClosedText(v + ")") && EndsWithClose(Tokens(v + ")"))
  {
    var u;
    t, u := SplitToken(p + ")");
    assert u != [];
    v := CutLast(p, ")", t, u);
    LexNonempty(u);
    LastOf(t, Tokens(u));
  }

  /** Dropping a final `)` that is a token of its own drops that token. */
  lemma {:induction false} LexDropParen(p: string)
    requires IsClosedText(p + ")") && EndsWithClose(Tokens(p + ")"))
    ensures IsClosedText(p) && Tokens(p) + [")"] == Tokens(p + ")")
    decreases |p|
  {
    if p == [] {
      LexParen(')', []);
    } else if IsSpace(p[0]) {
      assert p + ")" == [p[0]] + (p[1..] + ")") && p == [p[0]] + p[1..];
      SkipSpace(p[0], p[1..] + ")");
      LexDropParen(p[1..]);
      SkipSpace(p[0], p[1..]);
    } else {
      var t, v := DropParenSplit(p);
      LexDropParen(v);
      DropParenStep(t, v);
    }
  }

  lemma LastOf(t: string, ts: seq<string>)
    requires ts != []
    ensures ([t] + ts)[|[t] + ts| - 1] == ts[|ts| - 1]
  {
  }

  lemma PrependToken(t: string, rest: string)
    requires IsClosedToken(t)
    requires IsBareToken(t) ==> Delimited(rest)
    ensures Tokens(t + rest) == [t] + Tokens(rest)
    ensures IsClosedText(t + rest) == IsClosedText(rest)
  {
    LexClosed(t, rest);
    FirstTokenLength(t, rest);
  }

  lemma {:induction false} LexNonempty(s: string)
    requires s != [] && !IsSpace(s[|s| - 1])
    ensures Tokens(s) != []
  {
    if IsSpace(s[0]) { LexNonempty(s[1..]); }
  }

  lemma LastOfToken(t: string)
    requires IsClosedToken(t)
    ensures !IsSpace(t[|t| - 1])
  {
    if IsQuotedToken(t) { QuotedEndsWithQuote(t[1..]); }
  }

  lemma FirstTokenLength(t: string, rest: string)
    requires IsClosedToken(t)
    requires IsBareToken(t) ==> Delimited(rest)
    ensures !IsSpace((t + rest)[0]) && TokenLength(t + rest) == |t|
    ensures IsClosedText(t + rest) == IsClosedText(rest)
  {
    if IsQuotedToken(t) {
      QuotedRun(t[1..], rest);
      assert (t + rest)[1..] == t[1..] + rest;
    } else if IsBareToken(t) {
      BareRun(t, rest);
      assert IsBare(t[0]) && (t + rest)[0] == t[0];
    }
    assert (t + rest)[..|t|] == t && (t + rest)[|t|..] == rest;
  }

  lemma {:induction false} QuotedEndsWithQuote(s: string)
    requires QuotedLength(s) == Some(|s|)
    ensures s[|s| - 1] == '"'
  {
    if s[0] == '"' {
    } else if s[0] == '\\' {
      QuotedEndsWithQuote(s[2..]);
    } else {
      QuotedEndsWithQuote(s[1..]);
    }
  }

  /** `str.rstrip()`. */
  function RStrip(s: string): (r: string)
    ensures r <= s && (r == [] || !IsSpace(r[|r| - 1]))
  {
    if s != [] && IsSpace(s[|s| - 1]) then RStrip(s[..|s| - 1]) else s
  }

  lemma {:induction false} LexRStrip(s: string)
    requires IsClosedText(s)
    ensures IsClosedText(RStrip(s)) && Tokens(RStrip(s)) == Tokens(s)
  {
    if s != [] && IsSpace(s[|s| - 1]) {
      var p := s[..|s| - 1];
      assert s == p + [s[|s| - 1]];
      LexDropSpace(p, s[|s| - 1]);
      LexRStrip(p);
    }
  }
}
