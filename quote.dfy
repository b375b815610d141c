/**
 * The `%q` verb of Go's fmt package on strings (strconv.Quote): a
 * double-quoted literal with Go escape sequences, and its decoder.
 */
module GoQuote {
  import opened Outcome

  /** Lower-case hexadecimal digit for 0 <= d < 16. */
  function HexDigit(d: nat): char
    requires d < 16
  {
    if d < 10 then ('0' as int + d) as char else ('a' as int + d - 10) as char
  }

  function HexValue(c: char): Option<nat>
  {
    if '0' <= c <= '9' then Some(c as int - '0' as int)
    else if 'a' <= c <= 'f' then Some(c as int - 'a' as int + 10)
    else None
  }

  /** The escape Quote writes for one character. */
  function EscapeChar(c: char): (t: string)
    ensures |t| > 0 && '\n' !in t
  {
    var n := c as int;
    if c == '"' || c == '\\' then ['\\', c]
    else if 0x20 <= n < 0x7F || 0x80 <= n then [c]
    else if n == 0x07 then "\\a"
    else if n == 0x08 then "\\b"
    else if n == 0x0C then "\\f"
    else if n == 0x0A then "\\n"
    else if n == 0x0D then "\\r"
    else if n == 0x09 then "\\t"
    else if n == 0x0B then "\\v"
    else ['\\', 'x', HexDigit(n / 16), HexDigit(n % 16)]
  }

  function Escape(s: string): string
  {
    if s == [] then [] else EscapeChar(s[0]) + Escape(s[1..])
  }

  /** strconv.Quote: the string between double quotes, escaped. */
  function Quote(s: string): string
  {
    "\"" + Escape(s) + "\""
  }

  /** Decodes the escape sequence that follows a backslash: the character and how many characters it used. */
  function DecodeEscape(t: string): (r: Option<(char, nat)>)
    requires |t| > 0
    ensures r.Some? ==> 1 <= r.value.1 <= |t|
  {
    var c := t[0];
    if c == '"' || c == '\\' then Some((c, 1))
    else if c == 'a' then Some((0x07 as char, 1))
    else if c == 'b' then Some((0x08 as char, 1))
    else if c == 'f' then Some((0x0C as char, 1))
    else if c == 'n' then Some((0x0A as char, 1))
    else if c == 'r' then Some((0x0D as char, 1))
    else if c == 't' then Some((0x09 as char, 1))
    else if c == 'v' then Some((0x0B as char, 1))
    else if c == 'x' && |t| >= 3 && HexValue(t[1]).Some? && HexValue(t[2]).Some? then
      Some(((HexValue(t[1]).value * 16 + HexValue(t[2]).value) as char, 3))
    else None
  }

  function Unescape(t: string): Option<string>
    decreases |t|
  {
    if t == [] then Some([])
    else if t[0] != '\\' then Prepend(t[0], Unescape(t[1..]))
    else if |t| < 2 then None
    else
      match DecodeEscape(t[1..])
      case None => None
      case Some((c, k)) => Prepend(c, Unescape(t[1 + k..]))
  }

  function Prepend(c: char, r: Option<string>): Option<string>
  {
    match r
    case None => None
    case Some(s) => Some([c] + s)
  }

  /** Reads back a double-quoted literal. */
  function Unquote(q: string): Option<string>
  {
    if |q| >= 2 && q[0] == '"' && q[|q| - 1] == '"' then Unescape(q[1..|q| - 1]) else None
  }

  lemma HexRoundTrip(d: nat)
    requires d < 16
    ensures HexValue(HexDigit(d)) == Some(d)
  {
  }

  lemma EscapeCharDecodes(c: char, rest: string)
    ensures Unescape(EscapeChar(c) + rest) == Prepend(c, Unescape(rest))
  {
    var n := c as int;
    var t := EscapeChar(c) + rest;
    if c == '"' || c == '\\' || 0x20 <= n < 0x7F || 0x80 <= n {
      assert t[1 + |EscapeChar(c)| - 1..] == rest;
    } else if n < 0x07 || 0x0D < n {
      HexRoundTrip(n / 16);
      HexRoundTrip(n % 16);
      assert t[1..][1] == HexDigit(n / 16) && t[1..][2] == HexDigit(n % 16);
      assert t[4..] == rest;
    } else {
      assert t[2..] == rest;
    }
  }

  lemma {:induction false} UnescapeEscape(s: string)
    ensures Unescape(Escape(s)) == Some(s)
  {
    if s != [] {
      UnescapeEscape(s[1..]);
      EscapeCharDecodes(s[0], Escape(s[1..]));
      assert [s[0]] + s[1..] == s;
    }
  }

  /** What `%q` writes reads back as the original string. */
  lemma UnquoteQuote(s: string)
    ensures Unquote(Quote(s)) == Some(s)
  {
    var q := Quote(s);
    assert q[1..|q| - 1] == Escape(s);
    UnescapeEscape(s);
  }

  /** A quoted string never holds a raw newline, so it stays on its line. */
  lemma {:induction false} EscapeSingleLine(s: string)
    ensures '\n' !in Escape(s)
  {
    if s != [] {
      EscapeSingleLine(s[1..]);
    }
  }
}
