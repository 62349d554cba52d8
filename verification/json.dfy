/**
 `JSON.stringify` applied to a list of two-string arrays, as the shape
 canonicaliser uses it. String quoting follows QuoteJSONString of
 ECMA-262 (section 25.5.2.3 of the 2023 edition); the model's characters are
 Unicode scalar values, so the lone-surrogate case of that algorithm cannot arise.
 */
module Json {
  import opened Optional
  import opened Strings

  const HexDigits: string := "0123456789abcdef"

  /** The escape sequence, or the character itself, that QuoteJSONString emits for `c`. */
  function EscapeChar(c: char): (r: string)
    ensures |r| > 0
    ensures forall i :: 0 <= i < |r| ==> r[i] as int >= 0x20
  {
    if c as int == 0x08 then "\\b"
    else if c as int == 0x09 then "\\t"
    else if c as int == 0x0A then "\\n"
    else if c as int == 0x0C then "\\f"
    else if c as int == 0x0D then "\\r"
    else if c == '"' then "\\\""
    else if c == '\\' then "\\\\"
    else if c as int < 0x20 then "\\u00" + [HexDigits[c as int / 16], HexDigits[c as int % 16]]
    else [c]
  }

  function EscapeString(s: string): (r: string)
    ensures forall i :: 0 <= i < |r| ==> r[i] as int >= 0x20
    ensures |r| >= |s|
    decreases |s|
  {
    if |s| == 0 then "" else EscapeChar(s[0]) + EscapeString(s[1..])
  }

  /** QuoteJSONString: the escaped text between double quotes. */
  function Quote(s: string): (r: string)
    ensures |r| >= |s| + 2 && r[0] == '"' && r[|r| - 1] == '"'
    ensures forall i :: 0 <= i < |r| ==> r[i] as int >= 0x20
  {
    "\"" + EscapeString(s) + "\""
  }

  /** The value of one lower-case hexadecimal digit as QuoteJSONString writes it. */
  function HexValue(c: char): Option<nat>
  {
    if '0' <= c <= '9' then Some(c as int - '0' as int)
    else if 'a' <= c <= 'f' then Some(c as int - 'a' as int + 10)
    else None
  }

  /** The character named by the four hex digits of a `\uXXXX` escape, when they name one. */
  function UnicodeEscapeValue(d: string): Option<char>
    requires |d| == 4
  {
    match (HexValue(d[0]), HexValue(d[1]), HexValue(d[2]), HexValue(d[3]))
    case (Some(a), Some(b), Some(c), Some(e)) =>
      var v := ((a * 16 + b) * 16 + c) * 16 + e;
      if v < 0xD800 || 0xE000 <= v < 0x11_0000 then Some(v as char) else None
    case _ => None
  }

  /** Reads escaped string contents back into the string they denote. */
  function UnescapeString(t: string): Option<string>
    decreases |t|
  {
    if |t| == 0 then Some("")
    else if t[0] != '\\' then
      match UnescapeString(t[1..])
      case Some(rest) => Some([t[0]] + rest)
      case None => None
    else if |t| < 2 then None
    else
      var head: Option<char> :=
        if t[1] == 'b' then Some(8 as char)
        else if t[1] == 't' then Some(9 as char)
        else if t[1] == 'n' then Some(10 as char)
        else if t[1] == 'f' then Some(12 as char)
        else if t[1] == 'r' then Some(13 as char)
        else if t[1] == '"' then Some('"')
        else if t[1] == '\\' then Some('\\')
        else None;
      if head.Some? then
        match UnescapeString(t[2..])
        case Some(rest) => Some([head.value] + rest)
        case None => None
      else if t[1] == 'u' && |t| >= 6 then
        match (UnicodeEscapeValue(t[2..6]), UnescapeString(t[6..]))
        case (Some(c), Some(rest)) => Some([c] + rest)
        case _ => None
      else None
  }

  /** Reads a quoted JSON string back: the inverse of `Quote`. */
  function Unquote(r: string): Option<string>
  {
    if |r| >= 2 && r[0] == '"' && r[|r| - 1] == '"' then UnescapeString(r[1..|r| - 1]) else None
  }

  lemma UnescapeChar(c: char, rest: string)
    ensures UnescapeString(EscapeChar(c) + rest) ==
      match UnescapeString(rest)
      case Some(u) => Some([c] + u)
      case None => None
  {
    var t := EscapeChar(c) + rest;
    if c as int < 0x20 && c as int !in {0x08, 0x09, 0x0A, 0x0C, 0x0D} {
      var hi, lo := c as int / 16, c as int % 16;
      assert t[2..6] == ['0', '0', HexDigits[hi], HexDigits[lo]];
      assert HexValue(HexDigits[hi]) == Some(hi);
      assert HexValue(HexDigits[lo]) == Some(lo);
      assert UnicodeEscapeValue(t[2..6]) == Some(c);
      assert t[6..] == rest;
    } else if c as int < 0x20 || c == '"' || c == '\\' {
      assert t[2..] == rest;
    } else {
      assert t[1..] == rest;
    }
  }

  lemma {:induction false} EscapeRoundTrip(s: string)
    ensures UnescapeString(EscapeString(s)) == Some(s)
    decreases |s|
  {
    if |s| > 0 {
      EscapeRoundTrip(s[1..]);
      UnescapeChar(s[0], EscapeString(s[1..]));
      assert [s[0]] + s[1..] == s;
    }
  }

  /** Quoting loses nothing: the quoted text reads back as the original string. */
  lemma QuoteRoundTrip(s: string)
    ensures Unquote(Quote(s)) == Some(s)
  {
    var q := Quote(s);
    assert q[1..|q| - 1] == EscapeString(s);
    EscapeRoundTrip(s);
  }

  /** `JSON.stringify([k, v])` for one two-string array. */
  function PairText(p: (string, string)): string
  {
    "[" + Quote(p.0) + "," + Quote(p.1) + "]"
  }

  /** `JSON.stringify(pairs)` for a list of two-string arrays. */
  function Stringify(pairs: seq<(string, string)>): (r: string)
    ensures |r| >= 2 && r[0] == '[' && r[|r| - 1] == ']'
  {
    "[" + Join(seq(|pairs|, i requires 0 <= i < |pairs| => PairText(pairs[i])), ",") + "]"
  }
}
