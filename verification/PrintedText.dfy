/** What the writers of the boards put down, character by character. */
module PrintedText {
  import opened JsonGrammar
  import opened JsonText
  import opened Lexing
  import opened Prelude
  import opened Sexpr
  import Splice

  // ---------- Strings ----------

  /** A quote, a backslash and five control characters have an escape of two; other control characters a number. */
  predicate IsPrinted(c: char, t: string) {
    if c == '"' then t == "\\\"" else if c == '\\' then t == "\\\\"
    else if c == '\n' then t == "\\n" else if c == '\r' then t == "\\r" else if c == '\t' then t == "\\t"
    else if c == '\U{0008}' then t == "\\b" else if c == '\U{000C}' then t == "\\f"
    else if c < ' ' then t == "\\u00" + [SMALL[c as int / 16], SMALL[c as int % 16]]
    else t == [c]
  }

  lemma CharIsPrinted(c: char)
    ensures IsPrinted(c, EscapeChar(c))
  {
    if c < ' ' && ShortEscape(c).None? {
      assert HexDigit(c as int / 16) == SMALL[c as int / 16] && HexDigit(c as int % 16) == SMALL[c as int % 16];
    }
  }

  /** A string is printed between quotes, character by character; nothing outside ASCII is escaped. */
  lemma {:induction false} EscapeExactly(s: string) returns (texts: seq<string>)
    ensures |texts| == |s| && (forall i :: 0 <= i < |s| ==> IsPrinted(s[i], texts[i]))
    ensures Dumps(s) == "\"" + Concat(texts) + "\""
  {
    if s == [] {
      texts := [];
    } else {
      var rest := EscapeExactly(s[1..]);
      texts := [EscapeChar(s[0])] + rest;
      CharIsPrinted(s[0]);
      hide IsPrinted, EscapeChar;
      assert texts[1..] == rest;
      assert Escape(s[1..]) == Concat(rest) by { Unquoted(Escape(s[1..]), Concat(rest)); }
    }
  }

  lemma Unquoted(a: string, b: string)
    requires "\"" + a + "\"" == "\"" + b + "\""
    ensures a == b
  {
    assert a == ("\"" + a + "\"")[1..|a| + 1];
    assert b == ("\"" + b + "\"")[1..|b| + 1];
  }

  // ---------- Lists ----------

  lemma {:induction false} JoinMore(parts: seq<string>, part: string, sep: string)
    requires parts != []
    ensures Join(parts + [part], sep) == Join(parts, sep) + sep + part
  {
    if |parts| == 1 {
      assert (parts + [part])[1..] == [part];
    } else {
      assert (parts + [part])[1..] == parts[1..] + [part];
      JoinMore(parts[1..], part, sep);
    }
  }

  lemma {:induction false} DumpMore(items: seq<Sexpr>, v: Sexpr)
    ensures DumpAll(items + [v]) == DumpAll(items) + [Dump(v)]
  {
    if items == [] {
      assert [v][1..] == [] && items + [v] == [v];
    } else {
      assert (items + [v])[1..] == items[1..] + [v];
      DumpMore(items[1..], v);
    }
  }

  /** `dump` of a list: its items between parentheses with one space between any two. */
  lemma ListText(items: seq<Sexpr>, v: Sexpr)
    ensures Dump(List([])) == "()" && Dump(List([v])) == "(" + Dump(v) + ")"
    ensures items != [] ==>
              exists inside :: Dump(List(items)) == "(" + inside + ")"
                               && Dump(List(items + [v])) == "(" + inside + " " + Dump(v) + ")"
  {
    ListIs([]);
    ListIs([v]);
    assert DumpAll([v]) == [Dump(v)];
    hide DumpAll, Dump;
    if items != [] {
      ListIs(items);
      ListIs(items + [v]);
      DumpMore(items, v);
      JoinMore(DumpAll(items), Dump(v), " ");
      hide Join;
      var inside := Join(DumpAll(items), " ");
      assert "(" + ((inside + " " + Dump(v)) + ")") == "(" + inside + " " + Dump(v) + ")";
    }
  }

  lemma ListIs(items: seq<Sexpr>)
    ensures Dump(List(items)) == "(" + Join(DumpAll(items), " ") + ")"
    ensures items == [] ==> Dump(List(items)) == "()"
  {
  }

  /** Items written on lines of their own, after some text and before the closing parenthesis. */
  lemma LinesMore(head: string, items: seq<Sexpr>, v: Sexpr)
    ensures head + ("\n" + (Join(DumpAll([v]), "\n") + "\n)\n")) == head + "\n" + Dump(v) + "\n)\n"
    ensures items != [] ==>
              exists inside :: head <= inside
                && head + ("\n" + (Join(DumpAll(items), "\n") + "\n)\n")) == inside + "\n)\n"
                && head + ("\n" + (Join(DumpAll(items + [v]), "\n") + "\n)\n")) == inside + "\n" + Dump(v) + "\n)\n"
  {
    hide Join, Dump;
    assert DumpAll([v]) == [Dump(v)];
    assert Join([Dump(v)], "\n") == Dump(v) by { JoinOne(Dump(v)); }
    LineAfter(head, [], Dump(v));
    if items != [] {
      DumpMore(items, v);
      JoinMore(DumpAll(items), Dump(v), "\n");
      hide DumpAll;
      LineAfter(head, Join(DumpAll(items), "\n"), Dump(v));
    }
  }

  lemma JoinOne(part: string)
    ensures Join([part], "\n") == part
  {
  }

  lemma LineAfter(head: string, lines: string, line: string)
    ensures head + ("\n" + (line + "\n)\n")) == head + "\n" + line + "\n)\n"
    ensures var inside := head + "\n" + lines;
            && head <= inside
            && head + ("\n" + (lines + "\n)\n")) == inside + "\n)\n"
            && head + ("\n" + ((lines + "\n" + line) + "\n)\n")) == inside + "\n" + line + "\n)\n"
  {
  }

  /** The line writer: the first item behind the parenthesis, every other one on a line of its own. */
  lemma LinesText(first: Sexpr, items: seq<Sexpr>, v: Sexpr)
    ensures WriteLines([first]) == "(" + Dump(first) + "\n\n)\n"
    ensures WriteLines([first, v]) == "(" + Dump(first) + "\n" + Dump(v) + "\n)\n"
    ensures items != [] ==>
              exists inside :: "(" + Dump(first) <= inside
                && WriteLines([first] + items) == inside + "\n)\n"
                && WriteLines([first] + items + [v]) == inside + "\n" + Dump(v) + "\n)\n"
  {
    hide WriteLines, Dump, Join;
    var head := "(" + Dump(first);
    LinesMore(head, items, v);
    LinesAre(first, []);
    LinesAre(first, [v]);
    LinesAre(first, items);
    LinesAre(first, items + [v]);
    assert [first] + items + [v] == [first] + (items + [v]);
    assert head + "\n" + "\n)\n" == "(" + Dump(first) + "\n\n)\n";
  }

  lemma LinesAre(first: Sexpr, items: seq<Sexpr>)
    ensures WriteLines([first] + items) == "(" + Dump(first) + ("\n" + (Join(DumpAll(items), "\n") + "\n)\n"))
    ensures items == [] ==> WriteLines([first] + items) == "(" + Dump(first) + "\n" + "\n)\n"
    ensures |items| == 1 ==> [first] + items == [first, items[0]]
    ensures items == [] ==> [first] + items == [first]
  {
    hide Dump;
    assert ([first] + items)[1..] == items;
  }

  lemma {:induction false} RStripExactly(s: string) returns (spaces: string)
    ensures s == RStrip(s) + spaces && forall i :: 0 <= i < |spaces| ==> IsSpace(spaces[i])
  {
    if s != [] && IsSpace(s[|s| - 1]) {
      var before := RStripExactly(s[..|s| - 1]);
      spaces := before + [s[|s| - 1]];
      hide RStrip, IsSpace;
      assert s == s[..|s| - 1] + [s[|s| - 1]];
    } else {
      spaces := [];
    }
  }

  /**
   The splice keeps the saved text up to its last character that is no white space, and
   writes the new nodes behind it on lines of their own.
   */
  lemma SplicedText(source: string, zones: seq<Sexpr>, v: Sexpr) returns (cut: string, last: char, spaces: string)
    requires RStrip(source) != []
    ensures source == cut + [last] + spaces && !IsSpace(last) && forall i :: 0 <= i < |spaces| ==> IsSpace(spaces[i])
    ensures Splice.Spliced(source, [v]) == cut + "\n" + Dump(v) + "\n)\n"
    ensures zones != [] ==>
              exists inside :: cut <= inside
                && Splice.Spliced(source, zones) == inside + "\n)\n"
                && Splice.Spliced(source, zones + [v]) == inside + "\n" + Dump(v) + "\n)\n"
  {
    var kept := RStrip(source);
    spaces := RStripExactly(source);
    cut, last := kept[..|kept| - 1], kept[|kept| - 1];
    hide Dump, DumpAll, Join, IsSpace, RStrip;
    assert kept == cut + [last];
    LinesMore(cut, zones, v);
  }
}
