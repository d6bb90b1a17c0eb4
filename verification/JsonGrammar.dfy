/**
 What `json.loads` reads between two quotes, item by item: the grammar of strings in
 section 7 of RFC 8259, with pairs of surrogates as one character.
 */
module JsonGrammar {
  import opened JsonText
  import opened Lexing
  import opened Prelude

  /** A character as it stands, after a backslash, by its number, or by the two numbers of a pair. */
  datatype Item =
    | Plain(c: char)
    | Short(k: nat)
    | Code(digits: string, u: nat)
    | Pair(high: string, u: nat, low: string, v: nat)

  const LETTERS := ['"', '\\', '/', 'b', 'f', 'n', 'r', 't']
  const MEANINGS := ['"', '\\', '/', '\U{0008}', '\U{000C}', '\n', '\r', '\t']

  const SMALL := "0123456789abcdef"
  const CAPITAL := "0123456789ABCDEF"

  predicate IsHexDigit(c: char, d: nat) {
    d < 16 && (c == SMALL[d] || c == CAPITAL[d])
  }

  /** Four hexadecimal digits, the highest first. */
  ghost predicate IsHex4(s: string, u: nat) {
    |s| == 4 && exists a: nat, b: nat, c: nat, d: nat ::
      && IsHexDigit(s[0], a) && IsHexDigit(s[1], b) && IsHexDigit(s[2], c) && IsHexDigit(s[3], d)
      && u == a * 0x1000 + b * 0x100 + c * 0x10 + d
  }

  ghost predicate IsItem(i: Item) {
    match i
    case Plain(c) => c >= ' ' && c != '"' && c != '\\'
    case Short(k) => k < 8
    case Code(digits, u) => IsHex4(digits, u) && !(0xD800 <= u <= 0xDFFF)
    case Pair(high, u, low, v) =>
      IsHex4(high, u) && 0xD800 <= u <= 0xDBFF && IsHex4(low, v) && 0xDC00 <= v <= 0xDFFF
  }

  ghost predicate AreItems(items: seq<Item>) {
    forall i :: 0 <= i < |items| ==> IsItem(items[i])
  }

  ghost function TextOf(i: Item): (t: string)
    requires IsItem(i)
  {
    match i
    case Plain(c) => [c]
    case Short(k) => ['\\', LETTERS[k]]
    case Code(digits, _) => "\\u" + digits
    case Pair(high, _, low, _) => "\\u" + high + "\\u" + low
  }

  lemma Hex4Fits(s: string, u: nat)
    requires IsHex4(s, u)
    ensures |s| == 4 && u < 0x1_0000
  {
  }

  ghost function CharOf(i: Item): char
    requires IsItem(i)
  {
    match i
    case Plain(c) => c
    case Short(k) => MEANINGS[k]
    case Code(digits, u) => Hex4Fits(digits, u); u as char
    case Pair(_, u, _, v) => (0x1_0000 + (u - 0xD800) * 0x400 + (v - 0xDC00)) as char
  }

  ghost function Texts(items: seq<Item>): string
    requires AreItems(items)
  {
    if items == [] then [] else TextOf(items[0]) + Texts(items[1..])
  }

  ghost function Chars(items: seq<Item>): string
    requires AreItems(items)
  {
    if items == [] then [] else [CharOf(items[0])] + Chars(items[1..])
  }

  lemma HexExactly(c: char, d: nat)
    ensures HexValue(c) == Some(d) <==> IsHexDigit(c, d)
  {
  }

  /** Four digits, whatever follows them, have exactly one value. */
  lemma Hex4Exactly(s: string, more: string, u: nat)
    requires |s| == 4
    ensures Hex4(s + more) == Some(u) <==> IsHex4(s, u)
  {
    hide IsHexDigit, HexValue;
    forall c: char, d: nat
      ensures HexValue(c) == Some(d) <==> IsHexDigit(c, d)
    {
      HexExactly(c, d);
    }
  }

  lemma LetterExactly(e: char) returns (k: nat)
    requires Unshort(e).Some?
    ensures k < 8 && LETTERS[k] == e && MEANINGS[k] == Unshort(e).value
  {
    k := if e == '"' then 0 else if e == '\\' then 1 else if e == '/' then 2 else if e == 'b' then 3
         else if e == 'f' then 4 else if e == 'n' then 5 else if e == 'r' then 6 else 7;
  }

  lemma ShortIsRead(k: nat, rest: string)
    requires k < 8
    ensures Unescape(['\\', LETTERS[k]] + rest) == Prepend(MEANINGS[k], Unescape(rest))
  {
    var s := ['\\', LETTERS[k]] + rest;
    assert s[2..] == rest && s[1] == LETTERS[k] != 'u';
    assert Unshort(LETTERS[k]) == Some(MEANINGS[k]);
    hide Unshort, Prepend;
  }

  lemma CodeIsRead(digits: string, u: nat, rest: string)
    requires IsItem(Code(digits, u)) && |digits| == 4
    ensures Unescape("\\u" + digits + rest) == Prepend(CharOf(Code(digits, u)), Unescape(rest))
  {
    hide IsHex4, Hex4, Prepend;
    var s := "\\u" + digits + rest;
    assert s[2..] == digits + rest && s[6..] == rest;
    Hex4Exactly(digits, rest, u);
  }

  lemma PairIsRead(high: string, u: nat, low: string, v: nat, rest: string)
    requires IsItem(Pair(high, u, low, v)) && |high| == 4 && |low| == 4
    ensures Unescape("\\u" + high + "\\u" + low + rest) == Prepend(CharOf(Pair(high, u, low, v)), Unescape(rest))
  {
    hide IsHex4, Hex4, Prepend;
    var s, tail := "\\u" + high + "\\u" + low + rest, "\\u" + low + rest;
    assert s[2..] == high + tail;
    assert s[6..] == tail;
    assert s[8..] == low + rest;
    assert s[12..] == rest;
    Hex4Exactly(high, tail, u);
    Hex4Exactly(low, rest, v);
  }

  /** One item is read as its character, whatever follows. */
  lemma ItemIsRead(i: Item, rest: string)
    requires IsItem(i)
    ensures Unescape(TextOf(i) + rest) == Prepend(CharOf(i), Unescape(rest))
  {
    hide IsHex4, Unescape;
    match i {
      case Plain(c) => UnescapePlain(c, rest);
      case Short(k) => ShortIsRead(k, rest);
      case Code(digits, u) =>
        Hex4Fits(digits, u);
        CodeIsRead(digits, u, rest);
      case Pair(high, u, low, v) =>
        Hex4Fits(high, u);
        Hex4Fits(low, v);
        PairIsRead(high, u, low, v, rest);
    }
  }

  lemma {:induction false} ItemsAreRead(items: seq<Item>)
    requires AreItems(items)
    ensures Unescape(Texts(items) + "\"") == Some(Chars(items))
  {
    if items != [] {
      hide TextOf, CharOf;
      ItemsAreRead(items[1..]);
      ItemIsRead(items[0], Texts(items[1..]) + "\"");
      Associate(TextOf(items[0]), Texts(items[1..]), "\"");
      hide Unescape;
    }
  }

  /** The item a readable text starts with. */
  lemma FirstItem(s: string) returns (i: Item)
    requires Unescape(s).Some? && s[0] != '"'
    ensures IsItem(i) && TextOf(i) <= s && Unescape(s[|TextOf(i)|..]).Some?
  {
    if s[0] != '\\' {
      i := Plain(s[0]);
    } else if s[1] != 'u' {
      var k := LetterExactly(s[1]);
      i := Short(k);
      assert TextOf(i) == s[..2];
    } else {
      i := FirstCode(s);
    }
    hide Unescape;
  }

  lemma FirstCode(s: string) returns (i: Item)
    requires Unescape(s).Some? && s[0] == '\\' && s[1] == 'u'
    ensures IsItem(i) && TextOf(i) <= s && Unescape(s[|TextOf(i)|..]).Some?
  {
    hide Hex4, IsHex4;
    var u, high := Hex4(s[2..]).value, s[2..6];
    assert high + s[6..] == s[2..];
    Hex4Exactly(high, s[6..], u);
    if IsSurrogate(u) {
      var v, low := Hex4(s[8..]).value, s[8..12];
      assert low + s[12..] == s[8..];
      Hex4Exactly(low, s[12..], v);
      i := Pair(high, u, low, v);
      assert TextOf(i) == s[..12];
    } else {
      i := Code(high, u);
      assert TextOf(i) == s[..6];
    }
  }

  lemma ItemsMore(i: Item, rest: seq<Item>)
    requires IsItem(i) && AreItems(rest)
    ensures AreItems([i] + rest)
    ensures Texts([i] + rest) == TextOf(i) + Texts(rest) && Chars([i] + rest) == [CharOf(i)] + Chars(rest)
  {
    assert ([i] + rest)[1..] == rest;
    hide TextOf, CharOf, IsItem;
  }

  lemma {:induction false} ReadIsItems(s: string) returns (items: seq<Item>)
    requires Unescape(s).Some?
    ensures AreItems(items) && s == Texts(items) + "\""
    decreases |s|
  {
    items := [];
    if s[0] == '"' {
      assert s == "\"";
    } else {
      var i := FirstItem(s);
      var tail := s[|TextOf(i)|..];
      var rest := ReadIsItems(tail);
      items := [i] + rest;
      hide *;
      ItemsMore(i, rest);
      assert s == TextOf(i) + tail;
      Associate(TextOf(i), Texts(rest), "\"");
    }
  }

  /** A token is read exactly when it is a row of items between quotes, and then as their characters. */
  lemma LoadsExactly(token: string, v: string)
    requires token != [] && token[0] == '"'
    ensures Loads(token) == Some(v)
       <==> exists items :: AreItems(items) && token == "\"" + Texts(items) + "\"" && v == Chars(items)
  {
    if Loads(token).Some? {
      var items := ReadIsItems(token[1..]);
      ItemsAreRead(items);
      assert token == "\"" + Texts(items) + "\"";
      hide Texts, Chars, Unescape;
    }
    forall items | AreItems(items) && token == "\"" + Texts(items) + "\""
      ensures Loads(token) == Some(Chars(items))
    {
      ItemsAreRead(items);
      assert token[1..] == Texts(items) + "\"";
    }
  }
}
