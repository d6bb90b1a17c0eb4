/**
 String atoms as JSON text (section 7 of RFC 8259): `json.dumps(s, ensure_ascii=False)`
 and `json.loads` of a single string, with their strict handling of control characters.
 */
module JsonText {
  import opened Prelude
  import opened Lexing

  /** Lower-case hexadecimal digit. */
  function HexDigit(d: nat): (c: char)
    requires d < 16
    ensures HexValue(c) == Some(d)
  {
    if d < 10 then ('0' as int + d) as char else ('a' as int + d - 10) as char
  }

  function HexValue(c: char): (d: Option<nat>)
    ensures d.Some? ==> d.value < 16 && c != '"' && c != '\\' && c != '\n'
  {
    if '0' <= c <= '9' then Some(c as int - '0' as int)
    else if 'a' <= c <= 'f' then Some(c as int - 'a' as int + 10)
    else if 'A' <= c <= 'F' then Some(c as int - 'A' as int + 10)
    else None
  }

  /** The value of the four hexadecimal digits `s` starts with. */
  function Hex4(s: string): (v: Option<nat>)
    ensures v.Some? ==> |s| >= 4 && v.value < 0x1_0000
                        && HexValue(s[0]).Some? && HexValue(s[1]).Some?
                        && HexValue(s[2]).Some? && HexValue(s[3]).Some?
  {
    if |s| < 4 then None
    else match (HexValue(s[0]), HexValue(s[1]), HexValue(s[2]), HexValue(s[3]))
      case (Some(a), Some(b), Some(c), Some(d)) => Some(a * 4096 + b * 256 + c * 16 + d)
      case _ => None
  }

  /** The characters that have a two-character escape of their own. */
  function ShortEscape(c: char): (e: Option<char>)
  {
    match c
    case '"' => Some('"')
    case '\\' => Some('\\')
    case '\n' => Some('n')
    case '\r' => Some('r')
    case '\t' => Some('t')
    case '\U{000C}' => Some('f')
    case '\U{0008}' => Some('b')
    case _ => None
  }

  function EscapeChar(c: char): (e: string)
    ensures 1 <= |e|
  {
    match ShortEscape(c)
    case Some(e) => ['\\', e]
    case None =>
      if c < ' ' then "\\u00" + [HexDigit(c as int / 16), HexDigit(c as int % 16)]
      else [c]
  }

  function Escape(s: string): string {
    if s == [] then [] else EscapeChar(s[0]) + Escape(s[1..])
  }

  /** `json.dumps(s, ensure_ascii=False)`. */
  function Dumps(s: string): string {
    "\"" + Escape(s) + "\""
  }

  /** What a letter stands for after a backslash. */
  function Unshort(e: char): (c: Option<char>)
  {
    match e
    case '"' => Some('"')
    case '\\' => Some('\\')
    case '/' => Some('/')
    case 'n' => Some('\n')
    case 'r' => Some('\r')
    case 't' => Some('\t')
    case 'f' => Some('\U{000C}')
    case 'b' => Some('\U{0008}')
    case _ => None
  }

  function Prepend(c: char, rest: Option<string>): Option<string> {
    match rest case None => None case Some(s) => Some([c] + s)
  }

  predicate IsSurrogate(u: nat) {
    0xD800 <= u <= 0xDFFF
  }

  /**
   The text after an opening quote, which must end with the closing quote. A
   `\u` pair of surrogates is one character; an unpaired one has no character here.
   */
  function Unescape(s: string): (r: Option<string>)
  {
    if s == [] then None
    else if s[0] == '"' then if |s| == 1 then Some([]) else None
    else if s[0] < ' ' then None
    else if s[0] != '\\' then Prepend(s[0], Unescape(s[1..]))
    else if |s| < 2 then None
    else if s[1] != 'u' then
      match Unshort(s[1]) case None => None case Some(c) => Prepend(c, Unescape(s[2..]))
    else match Hex4(s[2..])
      case None => None
      case Some(u) =>
        if !IsSurrogate(u) then Prepend(u as char, Unescape(s[6..]))
        else if u <= 0xDBFF && "\\u" <= s[6..] && Hex4(s[8..]).Some?
                && 0xDC00 <= Hex4(s[8..]).value <= 0xDFFF then
          Prepend((0x1_0000 + (u - 0xD800) * 0x400 + (Hex4(s[8..]).value - 0xDC00)) as char, Unescape(s[12..]))
        else None
  }

  /** `json.loads` of a token that starts with a quote; `None` for the error it raises. */
  function Loads(token: string): (r: Option<string>)
    requires token != [] && token[0] == '"'
  {
    Unescape(token[1..])
  }

  lemma UnescapeShort(c: char, rest: string)
    requires ShortEscape(c).Some?
    ensures Unescape(['\\', ShortEscape(c).value] + rest) == Prepend(c, Unescape(rest))
  {
    var s := ['\\', ShortEscape(c).value] + rest;
    assert s[2..] == rest;
    assert Unshort(ShortEscape(c).value) == Some(c);
    hide ShortEscape, Prepend, Hex4, IsSurrogate;
  }

  lemma UnescapeControl(h: char, l: char, rest: string)
    requires HexValue(h).Some? && HexValue(l).Some?
    ensures var u := HexValue(h).value * 16 + HexValue(l).value;
            Unescape("\\u00" + [h, l] + rest) == Prepend(u as char, Unescape(rest))
  {
    var s := "\\u00" + [h, l] + rest;
    assert s[2..] == ['0', '0', h, l] + rest;
    assert s[6..] == rest;
  }

  lemma UnescapePlain(c: char, rest: string)
    requires c >= ' ' && c != '"' && c != '\\'
    ensures Unescape([c] + rest) == Prepend(c, Unescape(rest))
  {
    assert ([c] + rest)[1..] == rest;
  }

  /** One escaped character is undone, whatever follows. */
  lemma UnescapeChar(c: char, rest: string)
    ensures Unescape(EscapeChar(c) + rest) == Prepend(c, Unescape(rest))
  {
    hide Unescape;
    if ShortEscape(c).Some? {
      UnescapeShort(c, rest);
    } else if c < ' ' {
      UnescapeControl(HexDigit(c as int / 16), HexDigit(c as int % 16), rest);
    } else {
      UnescapePlain(c, rest);
    }
  }

  lemma {:induction false} UnescapeEscape(s: string)
    ensures Unescape(Escape(s) + "\"") == Some(s)
  {
    if s == [] {
      assert Escape(s) + "\"" == "\"";
    } else {
      assert Escape(s) + "\"" == EscapeChar(s[0]) + (Escape(s[1..]) + "\"");
      UnescapeChar(s[0], Escape(s[1..]) + "\"");
      UnescapeEscape(s[1..]);
      assert [s[0]] + s[1..] == s;
    }
  }

  /** Every string is read back from its JSON text. */
  lemma LoadsDumps(s: string)
    ensures Dumps(s)[0] == '"' && Loads(Dumps(s)) == Some(s)
  {
    UnescapeEscape(s);
    assert Dumps(s)[1..] == Escape(s) + "\"";
  }

  lemma {:induction false} QuotedPlain(s: string, n: nat)
    requires n <= |s| && forall i :: 0 <= i < n ==> s[i] != '"' && s[i] != '\\'
    ensures QuotedLength(s[n..]).Some? ==> QuotedLength(s) == Some(QuotedLength(s[n..]).value + n)
  {
    if n == 0 {
      assert s[0..] == s;
    } else {
      QuotedPlain(s[1..], n - 1);
      assert s[1..][n - 1..] == s[n..];
    }
  }

  /** An escape with four hexadecimal digits is passed over in one go. */
  lemma QuotedHex(s: string)
    requires |s| >= 6 && s[0] == '\\' && s[1] == 'u' && Hex4(s[2..]).Some?
    requires QuotedLength(s[6..]).Some?
    ensures QuotedLength(s) == Some(QuotedLength(s[6..]).value + 6)
  {
    var t := s[2..];
    forall i | 0 <= i < 4 ensures t[i] != '"' && t[i] != '\\' {
      assert HexValue(t[i]).Some?;
    }
    assert t[4..] == s[6..];
    QuotedPlain(t, 4);
  }

  /** Text that `json.loads` accepts is closed exactly by its last quote. */
  lemma {:induction false} UnescapeIsQuoted(s: string)
    requires Unescape(s).Some?
    ensures QuotedLength(s) == Some(|s|)
  {
    if s[0] == '"' {
    } else if s[0] != '\\' {
      UnescapeIsQuoted(s[1..]);
    } else if s[1] != 'u' {
      UnescapeIsQuoted(s[2..]);
    } else if IsSurrogate(Hex4(s[2..]).value) {
      UnescapeIsQuoted(s[12..]);
      hide Unescape, QuotedLength;
      var t := s[6..];
      assert t[2..] == s[8..] && t[6..] == s[12..];
      QuotedHex(t);
      QuotedHex(s);
    } else {
      UnescapeIsQuoted(s[6..]);
      hide Unescape, QuotedLength;
      QuotedHex(s);
    }
  }

  lemma LoadsIsQuoted(token: string)
    requires token != [] && token[0] == '"' && Loads(token).Some?
    ensures IsQuotedToken(token)
  {
    UnescapeIsQuoted(token[1..]);
  }

  /** The printed form of any string is one token, so it survives the tokenizer. */
  lemma DumpsIsQuoted(s: string)
    ensures IsQuotedToken(Dumps(s))
  {
    LoadsDumps(s);
    LoadsIsQuoted(Dumps(s));
  }
}
