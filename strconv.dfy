/**
 * Models of the `strconv` functions through which `dump` writes scalars:
 * `FormatBool`, `FormatInt(_, 10)`, `FormatUint(_, 10)` and `Quote`. Each one
 * comes with the inverse a Go compiler applies when it reads the literal back,
 * and a round-trip lemma.
 */
module Strconv {
  import opened Options

  predicate IsDecimalDigit(c: char) { '0' <= c <= '9' }

  function DigitChar(d: nat): (c: char)
    requires d < 10
    ensures IsDecimalDigit(c)
  {
    ('0' as int + d) as char
  }

  function DigitValue(c: char): (d: nat)
    requires IsDecimalDigit(c)
    ensures d < 10 && DigitChar(d) == c
  {
    c as int - '0' as int
  }

  /** Go's `strconv.FormatBool`. */
  function FormatBool(b: bool): string {
    if b then "true" else "false"
  }

  /** The two spellings a Go compiler reads back as the boolean constants. */
  function ParseBool(s: string): Option<bool> {
    if s == "true" then Some(true) else if s == "false" then Some(false) else None
  }

  /**
   * Go's `strconv.FormatUint(n, 10)`: the decimal digits of `n`, most
   * significant first, with no leading zero.
   */
  function FormatUint(n: nat): (r: string)
    ensures |r| >= 1
    ensures forall i :: 0 <= i < |r| ==> IsDecimalDigit(r[i])
    ensures |r| > 1 ==> r[0] != '0'
    decreases n
  {
    if n < 10 then [DigitChar(n)] else FormatUint(n / 10) + [DigitChar(n % 10)]
  }

  /** The value of a string of decimal digits. */
  function ParseDigits(s: string): nat
    requires forall i :: 0 <= i < |s| ==> IsDecimalDigit(s[i])
  {
    if s == [] then 0 else ParseDigits(s[..|s| - 1]) * 10 + DigitValue(s[|s| - 1])
  }

  /** Go's `strconv.FormatInt(i, 10)`: a `-` exactly for a negative value, then the digits. */
  function FormatInt(i: int): (r: string)
    ensures |r| >= 1
    ensures r[0] == '-' <==> i < 0
    ensures forall k :: (if i < 0 then 1 else 0) <= k < |r| ==> IsDecimalDigit(r[k])
  {
    if i < 0 then "-" + FormatUint(-i) else FormatUint(i)
  }

  /** Reads a decimal integer literal with an optional leading `-`. */
  function ParseInt(s: string): Option<int> {
    if |s| >= 1 && s[0] == '-' then
      var t := s[1..];
      if |t| >= 1 && forall k :: 0 <= k < |t| ==> IsDecimalDigit(t[k]) then Some(-(ParseDigits(t) as int)) else None
    else if |s| >= 1 && forall k :: 0 <= k < |s| ==> IsDecimalDigit(s[k]) then Some(ParseDigits(s))
    else None
  }

  lemma {:induction false} ParseFormatUint(n: nat)
    ensures ParseDigits(FormatUint(n)) == n
    decreases n
  {
    if n >= 10 {
      var r := FormatUint(n);
      ParseFormatUint(n / 10);
      assert r[..|r| - 1] == FormatUint(n / 10);
    }
  }

  /** Reading back a formatted integer gives the integer. */
  lemma ParseFormatInt(i: int)
    ensures ParseInt(FormatInt(i)) == Some(i)
  {
    if i < 0 {
      ParseFormatUint(-i);
      assert FormatInt(i)[1..] == FormatUint(-i);
    } else {
      ParseFormatUint(i);
    }
  }

  /** Reading back a formatted boolean gives the boolean. */
  lemma ParseFormatBool(b: bool)
    ensures ParseBool(FormatBool(b)) == Some(b)
  {
  }

  function HexDigit(d: nat): (c: char)
    requires d < 16
  {
    if d < 10 then ('0' as int + d) as char else ('a' as int + d - 10) as char
  }

  predicate IsHexDigit(c: char) { '0' <= c <= '9' || 'a' <= c <= 'f' }

  function HexValue(c: char): (d: nat)
    requires IsHexDigit(c)
    ensures d < 16
  {
    if c <= '9' then c as int - '0' as int else c as int - 'a' as int + 10
  }

  /**
   * How `strconv.Quote` writes one character: `"` and `\` behind a
   * backslash, the seven C escapes, and every other ASCII control character
   * (and DEL) as `\x` with two lower-case hex digits. Every other character
   * is written as it is.
   */
  function EscapeChar(c: char): string {
    var n := c as int;
    if c == '"' || c == '\\' then ['\\', c]
    else if n == 7 then "\\a"
    else if n == 8 then "\\b"
    else if n == 12 then "\\f"
    else if n == 10 then "\\n"
    else if n == 13 then "\\r"
    else if n == 9 then "\\t"
    else if n == 11 then "\\v"
    else if n < 0x20 || n == 0x7f then ['\\', 'x', HexDigit(n / 16), HexDigit(n % 16)]
    else [c]
  }

  function EscapeAll(s: string): string {
    if s == [] then [] else EscapeChar(s[0]) + EscapeAll(s[1..])
  }

  /** Go's `strconv.Quote`, for the characters EscapeChar describes. */
  function Quote(s: string): (r: string)
    ensures |r| >= 2 && r[0] == '"' && r[|r| - 1] == '"'
  {
    "\"" + EscapeAll(s) + "\""
  }

  function Prepend(c: char, o: Option<string>): Option<string> {
    match o
    case None => None
    case Some(t) => Some([c] + t)
  }

  /** The character a one-letter escape stands for, if it is one of Quote's. */
  function SimpleEscape(e: char): Option<char> {
    if e == 'a' then Some(7 as char)
    else if e == 'b' then Some(8 as char)
    else if e == 'f' then Some(12 as char)
    else if e == 'n' then Some(10 as char)
    else if e == 'r' then Some(13 as char)
    else if e == 't' then Some(9 as char)
    else if e == 'v' then Some(11 as char)
    else if e == '\\' || e == '"' then Some(e)
    else None
  }

  /** Reads the inside of a quoted literal, undoing the escapes Quote writes. */
  function Unescape(t: string): Option<string>
    decreases |t|
  {
    if t == [] then Some([])
    else if t[0] == '"' then None
    else if t[0] != '\\' then Prepend(t[0], Unescape(t[1..]))
    else if |t| < 2 then None
    else if t[1] == 'x' then
      if |t| >= 4 && IsHexDigit(t[2]) && IsHexDigit(t[3])
      then Prepend((HexValue(t[2]) * 16 + HexValue(t[3])) as char, Unescape(t[4..]))
      else None
    else match SimpleEscape(t[1])
      case None => None
      case Some(c) => Prepend(c, Unescape(t[2..]))
  }

  /** Reads a double-quoted literal. */
  function Unquote(q: string): Option<string> {
    if |q| >= 2 && q[0] == '"' && q[|q| - 1] == '"' then Unescape(q[1..|q| - 1]) else None
  }

  /** Reading an escaped character followed by more text reads that character first. */
  lemma UnescapeChar(c: char, rest: string)
    ensures Unescape(EscapeChar(c) + rest) == Prepend(c, Unescape(rest))
  {
    var n := c as int;
    var e := EscapeChar(c);
    var t := e + rest;
    if c == '"' || c == '\\' || n == 7 || n == 8 || n == 12 || n == 10 || n == 13 || n == 9 || n == 11 {
      assert t[2..] == rest;
    } else if n < 0x20 || n == 0x7f {
      assert t[2] == HexDigit(n / 16) && t[3] == HexDigit(n % 16);
      assert HexValue(t[2]) * 16 + HexValue(t[3]) == n;
      assert t[4..] == rest;
    } else {
      assert t[1..] == rest;
    }
  }

  lemma {:induction false} UnescapeEscapeAll(s: string)
    ensures Unescape(EscapeAll(s)) == Some(s)
  {
    if s != [] {
      UnescapeEscapeAll(s[1..]);
      UnescapeChar(s[0], EscapeAll(s[1..]));
      assert [s[0]] + s[1..] == s;
    }
  }

  /** Reading back a quoted string gives the string. */
  lemma UnquoteQuote(s: string)
    ensures Unquote(Quote(s)) == Some(s)
  {
    var q := Quote(s);
    assert q[1..|q| - 1] == EscapeAll(s);
    UnescapeEscapeAll(s);
  }
}
