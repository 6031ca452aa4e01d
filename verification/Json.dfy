/**
  JSON strings as `serde_json` writes them (section 7 of RFC 8259): the two mandatory escapes, the
  short escapes, and `\u00xx` in lower case for the other control characters.
 */
module Json {
  import opened Prelude
  import Hex

  const QUOTE := '\"'
  const BACKSLASH := '\\'

  function EscapeChar(c: char): (s: string)
    ensures s != "" && '\n' !in s
  {
    var code := c as int;
    if c == QUOTE then [BACKSLASH, QUOTE]
    else if c == BACKSLASH then [BACKSLASH, BACKSLASH]
    else if code == 8 then [BACKSLASH, 'b']
    else if code == 9 then [BACKSLASH, 't']
    else if code == 10 then [BACKSLASH, 'n']
    else if code == 12 then [BACKSLASH, 'f']
    else if code == 13 then [BACKSLASH, 'r']
    else if code < 32 then [BACKSLASH, 'u', '0', '0', Hex.Digit(code / 16), Hex.Digit(code % 16)]
    else [c]
  }

  function Escape(t: string): (s: string)
    ensures '\n' !in s
  {
    if t == "" then "" else EscapeChar(t[0]) + Escape(t[1..])
  }

  /** A quoted string. */
  function Quoted(t: string): (s: string)
    ensures '\n' !in s
  {
    [QUOTE] + Escape(t) + [QUOTE]
  }

  /** The escapes of section 7 of RFC 8259, spelled out. */
  lemma EscapesSpelledOut(c: char)
    ensures EscapeChar('\"') == "\\\"" && EscapeChar('\\') == "\\\\"
    ensures EscapeChar('\n') == "\\n" && EscapeChar('\r') == "\\r" && EscapeChar('\t') == "\\t"
    ensures EscapeChar(8 as char) == "\\b" && EscapeChar(12 as char) == "\\f"
    ensures c as int >= 32 && c != '\"' && c != '\\' ==> EscapeChar(c) == [c]
    ensures c as int < 32 && c as int !in {8, 9, 10, 12, 13} ==>
              EscapeChar(c) == "\\u00" + Hex.Encode([c as int])
  {
    if c as int < 32 {
      var code := c as int;
      assert Hex.Encode([code]) == [Hex.Digit(code / 16), Hex.Digit(code % 16)] + Hex.Encode([]);
    }
  }

  /** A quoted string is its escaped characters between two quotation marks. */
  lemma QuotedSpelledOut(t: string)
    ensures Quoted(t) == "\"" + Escape(t) + "\""
  {
  }

  /** Read one character of a string body; the rest follows. */
  function ReadChar(s: string): (r: Option<(char, string)>)
    ensures r.Some? ==> |r.value.1| < |s|
  {
    if s == "" || s[0] == QUOTE then None
    else if s[0] != BACKSLASH then Some((s[0], s[1..]))
    else if |s| < 2 then None
    else if s[1] == QUOTE || s[1] == BACKSLASH || s[1] == '/' then Some((s[1], s[2..]))
    else if s[1] == 'b' then Some((8 as char, s[2..]))
    else if s[1] == 't' then Some((9 as char, s[2..]))
    else if s[1] == 'n' then Some((10 as char, s[2..]))
    else if s[1] == 'f' then Some((12 as char, s[2..]))
    else if s[1] == 'r' then Some((13 as char, s[2..]))
    else if s[1] == 'u' && |s| >= 6 && s[2] == '0' && s[3] == '0' then
      match (Hex.Value(s[4]), Hex.Value(s[5]))
      case (Some(hi), Some(lo)) => Some(((16 * hi + lo) as char, s[6..]))
      case _ => None
    else None
  }

  /** Read a string body up to its closing quote. */
  function ReadBody(s: string): Option<(string, string)>
    decreases |s|
  {
    if s != "" && s[0] == QUOTE then Some(("", s[1..]))
    else
      match ReadChar(s)
      case None => None
      case Some((c, rest)) =>
        match ReadBody(rest)
        case None => None
        case Some((t, rest')) => Some(([c] + t, rest'))
  }

  function ReadQuoted(s: string): Option<(string, string)>
  {
    if s != "" && s[0] == QUOTE then ReadBody(s[1..]) else None
  }

  function ReadLiteral(lit: string, s: string): Option<string>
  {
    if lit <= s then Some(s[|lit|..]) else None
  }

  lemma ReadEscapedChar(c: char, rest: string)
    ensures ReadChar(EscapeChar(c) + rest) == Some((c, rest))
    ensures (EscapeChar(c) + rest)[0] != QUOTE
  {
    var e := EscapeChar(c);
    assert (e + rest)[|e|..] == rest;
  }

  lemma ReadOneMore(c: char, tail: string, t: string, rest: string)
    requires ReadBody(tail) == Some((t, rest))
    ensures ReadBody(EscapeChar(c) + tail) == Some(([c] + t, rest))
  {
    ReadEscapedChar(c, tail);
  }

  lemma EscapeFirst(t: string, rest: string)
    requires t != ""
    ensures Escape(t) + [QUOTE] + rest == EscapeChar(t[0]) + (Escape(t[1..]) + [QUOTE] + rest)
  {
  }

  lemma {:induction false} ReadEscaped(t: string, rest: string)
    ensures ReadBody(Escape(t) + [QUOTE] + rest) == Some((t, rest))
  {
    if t == "" {
      assert Escape(t) + [QUOTE] + rest == [QUOTE] + rest;
    } else {
      EscapeFirst(t, rest);
      ReadEscaped(t[1..], rest);
      ReadOneMore(t[0], Escape(t[1..]) + [QUOTE] + rest, t[1..], rest);
      assert t == [t[0]] + t[1..];
    }
  }

  /** Reading back a quoted string gives the string and what follows it. */
  lemma ReadBackQuoted(t: string, rest: string)
    ensures ReadQuoted(Quoted(t) + rest) == Some((t, rest))
  {
    ReadEscaped(t, rest);
    assert (Quoted(t) + rest)[1..] == Escape(t) + [QUOTE] + rest;
  }

  lemma ReadBackLiteral(lit: string, rest: string)
    ensures ReadLiteral(lit, lit + rest) == Some(rest)
  {
  }
}
