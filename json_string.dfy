/** `JSON.stringify` and `JSON.parse` restricted to what the vault client passes
    through them: one string value. `Stringify` follows the JSON quoting of a
    string (a backslash before '"' and '\', the short escapes for backspace, form
    feed, newline, carriage return and tab, `\u00xx` with lower-case hex for the
    other control characters, everything else verbatim). `Parse` accepts a JSON
    text that is a single string literal between optional JSON whitespace. */
module JsonString {
  import opened Wrappers

  /** The whitespace JSON allows around a value. */
  predicate IsJsonWhitespace(c: char) {
    c == ' ' || c == '\t' || c == '\n' || c == '\r'
  }

  predicate IsHexDigit(c: char) {
    ('0' <= c <= '9') || ('a' <= c <= 'f') || ('A' <= c <= 'F')
  }

  /** The value of a hex digit, either case. */
  function HexValue(c: char): (n: int)
    requires IsHexDigit(c)
    ensures 0 <= n < 16
  {
    if '0' <= c <= '9' then c as int - '0' as int
    else if 'a' <= c <= 'f' then c as int - 'a' as int + 10
    else c as int - 'A' as int + 10
  }

  /** The lower-case hex digit `JSON.stringify` writes. */
  function HexDigit(n: int): (c: char)
    requires 0 <= n < 16
    ensures IsHexDigit(c) && HexValue(c) == n
  {
    if n < 10 then ('0' as int + n) as char else ('a' as int + (n - 10)) as char
  }

  /** Four hex digits start at position `i`. */
  predicate IsHex4(t: string, i: nat) {
    i + 4 <= |t| && IsHexDigit(t[i]) && IsHexDigit(t[i + 1]) && IsHexDigit(t[i + 2]) && IsHexDigit(t[i + 3])
  }

  /** The UTF-16 code unit written by the four hex digits at position `i`. */
  function Hex4(t: string, i: nat): (v: int)
    requires IsHex4(t, i)
    ensures 0 <= v < 0x10000
  {
    ((HexValue(t[i]) * 16 + HexValue(t[i + 1])) * 16 + HexValue(t[i + 2])) * 16 + HexValue(t[i + 3])
  }

  /** How `JSON.stringify` writes one character inside the quotes. */
  function EscapeChar(c: char): string {
    if c == '"' then "\\\""
    else if c == '\\' then "\\\\"
    else if c == '\U{8}' then "\\b"
    else if c == '\U{C}' then "\\f"
    else if c == '\n' then "\\n"
    else if c == '\r' then "\\r"
    else if c == '\t' then "\\t"
    else if (c as int) < 0x20 then "\\u00" + [HexDigit(c as int / 16), HexDigit(c as int % 16)]
    else [c]
  }

  function Escape(s: string): string {
    if s == [] then [] else EscapeChar(s[0]) + Escape(s[1..])
  }

  /** `JSON.stringify(s)` for a string `s`. */
  function Stringify(s: string): (r: string)
    ensures |r| >= 2 && r[0] == '"' && r[|r| - 1] == '"'
  {
    "\"" + Escape(s) + "\""
  }

  /** The character a two-character escape `\e` stands for. */
  function ShortEscape(e: char): Option<char> {
    if e == '"' then Some('"')
    else if e == '\\' then Some('\\')
    else if e == '/' then Some('/')
    else if e == 'b' then Some('\U{8}')
    else if e == 'f' then Some('\U{C}')
    else if e == 'n' then Some('\n')
    else if e == 'r' then Some('\r')
    else if e == 't' then Some('\t')
    else None
  }

  function Cons(c: char, p: Option<(string, string)>): Option<(string, string)> {
    if p.None? then None else Some(([c] + p.value.0, p.value.1))
  }

  /** The characters of a string literal whose opening quote has been read, up to
      its closing quote: the decoded contents and the text after the quote, or
      None on a syntax error. A `\u` escape of a high surrogate must be followed
      by one of a low surrogate, and the pair stands for one character. */
  function ParseChars(t: string): Option<(string, string)>
    decreases |t|
  {
    if |t| == 0 then None
    else if t[0] == '"' then Some(([], t[1..]))
    else if t[0] == '\\' then
      if |t| < 2 then None
      else if t[1] == 'u' then
        if !IsHex4(t, 2) then None
        else
          var v := Hex4(t, 2);
          if 0xD800 <= v < 0xDC00 then
            if 12 <= |t| && t[6] == '\\' && t[7] == 'u' && IsHex4(t, 8) && 0xDC00 <= Hex4(t, 8) < 0xE000 then
              Cons((0x10000 + (v - 0xD800) * 0x400 + (Hex4(t, 8) - 0xDC00)) as char, ParseChars(t[12..]))
            else None
          else if 0xDC00 <= v < 0xE000 then None
          else Cons(v as char, ParseChars(t[6..]))
      else if ShortEscape(t[1]).Some? then Cons(ShortEscape(t[1]).value, ParseChars(t[2..]))
      else None
    else if (t[0] as int) < 0x20 then None
    else Cons(t[0], ParseChars(t[1..]))
  }

  function SkipWhitespace(s: string): (r: string)
    ensures |r| <= |s| && r == s[|s| - |r|..]
    ensures |r| > 0 ==> !IsJsonWhitespace(r[0])
  {
    if |s| > 0 && IsJsonWhitespace(s[0]) then SkipWhitespace(s[1..]) else s
  }

  /** `JSON.parse(text)` where the JSON text is one string literal; None where
      `JSON.parse` throws (and for any other kind of JSON value). */
  function Parse(text: string): (r: Option<string>)
    ensures r.Some? ==> exists k :: 0 <= k < |text| && text[k] == '"'
  {
    var u := SkipWhitespace(text);
    if |u| == 0 || u[0] != '"' then None
    else
      var p := ParseChars(u[1..]);
      if p.None? || SkipWhitespace(p.value.1) != [] then None
      else
        assert text[|text| - |u|] == '"';
        Some(p.value.0)
  }

  /** What `SkipWhitespace` drops is JSON whitespace. */
  lemma {:induction false} SkippedIsWhitespace(s: string)
    ensures forall k :: 0 <= k < |s| - |SkipWhitespace(s)| ==> IsJsonWhitespace(s[k])
    decreases |s|
  {
    if |s| > 0 && IsJsonWhitespace(s[0]) {
      SkippedIsWhitespace(s[1..]);
      forall k | 0 < k < |s| - |SkipWhitespace(s)| ensures IsJsonWhitespace(s[k]) {
        assert s[k] == s[1..][k - 1];
      }
    }
  }

  /** What follows a parsed literal is a proper suffix of the text, right after
      the closing quote. */
  lemma {:induction false} ParseCharsSuffix(t: string, s: string, rest: string)
    requires ParseChars(t) == Some((s, rest))
    ensures |rest| < |t| && rest == t[|t| - |rest|..] && t[|t| - |rest| - 1] == '"'
    decreases |t|
  {
    var n: nat;
    if t[0] == '"' {
      return;
    } else if t[0] == '\\' && t[1] == 'u' {
      n := if 0xD800 <= Hex4(t, 2) < 0xDC00 then 12 else 6;
    } else if t[0] == '\\' {
      n := 2;
    } else {
      n := 1;
    }
    assert ParseChars(t) == Cons(s[0], ParseChars(t[n..]));
    ParseCharsSuffix(t[n..], s[1..], rest);
    assert t[n..][|t| - n - |rest|..] == t[|t| - |rest|..];
    assert t[n..][|t| - n - |rest| - 1] == t[|t| - |rest| - 1];
  }

  /** `text` is JSON whitespace, a string literal from the opening quote at `i`
      to its closing quote at `j` whose contents read as `s`, and JSON
      whitespace. */
  predicate LiteralAt(text: string, i: int, j: int, s: string) {
    && 0 <= i < j < |text|
    && (forall k :: 0 <= k < i ==> IsJsonWhitespace(text[k]))
    && text[i] == '"' && text[j] == '"'
    && ParseChars(text[i + 1..]) == Some((s, text[j + 1..]))
    && (forall k :: j < k < |text| ==> IsJsonWhitespace(text[k]))
  }

  /** A text `JSON.parse` reads as a string is one string literal between JSON
      whitespace, and the result is what the literal holds. */
  lemma ParseOneLiteral(text: string)
    requires Parse(text).Some?
    ensures exists i, j :: LiteralAt(text, i, j, Parse(text).value)
  {
    var u := SkipWhitespace(text);
    var p := ParseChars(u[1..]).value;
    SkippedIsWhitespace(text);
    BeforeOpeningQuote(text, u);
    SkippedIsWhitespace(p.1);
    LiteralPieces(text, |text| - |u|, p.0, p.1);
  }

  lemma LiteralPieces(text: string, i: int, s: string, rest: string)
    requires 0 <= i < |text| && text[i] == '"'
    requires forall k :: 0 <= k < i ==> IsJsonWhitespace(text[k])
    requires ParseChars(text[i + 1..]) == Some((s, rest))
    requires forall k :: 0 <= k < |rest| ==> IsJsonWhitespace(rest[k])
    ensures exists i, j :: LiteralAt(text, i, j, s)
  {
    ParseCharsSuffix(text[i + 1..], s, rest);
    AfterClosingQuote(text, i, text[i + 1..], rest);
    assert LiteralAt(text, i, |text| - |rest| - 1, s);
  }

  /** The text before a literal's opening quote, when the whitespace is skipped. */
  lemma BeforeOpeningQuote(text: string, u: string)
    requires |u| <= |text| && u == text[|text| - |u|..] && |u| > 0 && u[0] == '"'
    requires forall k :: 0 <= k < |text| - |u| ==> IsJsonWhitespace(text[k])
    ensures var i := |text| - |u|;
      && 0 <= i < |text| && text[i] == '"' && text[i + 1..] == u[1..]
      && forall k :: 0 <= k < i ==> IsJsonWhitespace(text[k])
  {
    assert text[|text| - |u| + 1..] == u[1..];
  }

  /** The text after a literal's closing quote, when only whitespace is left. */
  lemma AfterClosingQuote(text: string, i: int, t: string, rest: string)
    requires 0 <= i < |text| && text[i + 1..] == t
    requires |rest| < |t| && rest == t[|t| - |rest|..] && t[|t| - |rest| - 1] == '"'
    requires forall k :: 0 <= k < |rest| ==> IsJsonWhitespace(rest[k])
    ensures var j := |text| - |rest| - 1;
      && i < j && text[j] == '"' && text[j + 1..] == rest
      && forall k :: j < k < |text| ==> IsJsonWhitespace(text[k])
  {
    var m := |t| - |rest| - 1;
    assert text[i + 1 + m] == t[m];
    assert text[i + 1 + m + 1..] == t[m + 1..];
  }

  /** A character that needs no escape is read back as itself. */
  lemma ParsePlain(c: char, t: string)
    requires c != '"' && c != '\\' && (c as int) >= 0x20
    ensures ParseChars([c] + t) == Cons(c, ParseChars(t))
  {
    assert ([c] + t)[1..] == t;
  }

  /** A two-character escape is read back as the character it stands for. */
  lemma ParseShort(e: char, c: char, t: string)
    requires ShortEscape(e) == Some(c) && e != 'u'
    ensures ParseChars(['\\', e] + t) == Cons(c, ParseChars(t))
  {
    assert (['\\', e] + t)[2..] == t;
  }

  /** A `\u00xx` escape of a control character is read back as that character. */
  lemma ParseControl(c: char, t: string)
    requires (c as int) < 0x20
    ensures ParseChars("\\u00" + [HexDigit(c as int / 16), HexDigit(c as int % 16)] + t) == Cons(c, ParseChars(t))
  {
    var u := "\\u00" + [HexDigit(c as int / 16), HexDigit(c as int % 16)] + t;
    assert u[0] == '\\' && u[1] == 'u';
    assert u[2] == '0' && u[3] == '0';
    assert IsHex4(u, 2);
    assert Hex4(u, 2) == c as int;
    assert u[6..] == t;
  }

  /** Each escaped character is read back as itself, whatever follows it. */
  lemma ParseEscapeChar(c: char, t: string)
    ensures ParseChars(EscapeChar(c) + t) == Cons(c, ParseChars(t))
  {
    if c == '"' {
      ParseShort('"', c, t);
    } else if c == '\\' {
      ParseShort('\\', c, t);
    } else if c == '\U{8}' {
      ParseShort('b', c, t);
    } else if c == '\U{C}' {
      ParseShort('f', c, t);
    } else if c == '\n' {
      ParseShort('n', c, t);
    } else if c == '\r' {
      ParseShort('r', c, t);
    } else if c == '\t' {
      ParseShort('t', c, t);
    } else if (c as int) < 0x20 {
      ParseControl(c, t);
    } else {
      ParsePlain(c, t);
    }
  }

  /** The escaped contents followed by the closing quote are read back exactly. */
  lemma {:induction false} ParseEscape(s: string, rest: string)
    ensures ParseChars(Escape(s) + ("\"" + rest)) == Some((s, rest))
    decreases |s|
  {
    if s == [] {
      assert Escape(s) + ("\"" + rest) == "\"" + rest;
      assert ("\"" + rest)[1..] == rest;
    } else {
      var tail := Escape(s[1..]) + ("\"" + rest);
      assert Escape(s) + ("\"" + rest) == EscapeChar(s[0]) + tail;
      ParseEscapeChar(s[0], tail);
      ParseEscape(s[1..], rest);
      assert [s[0]] + s[1..] == s;
    }
  }

  /** `JSON.parse(JSON.stringify(s)) == s` for every string. */
  lemma ParseStringify(s: string)
    ensures Parse(Stringify(s)) == Some(s)
  {
    var text := Stringify(s);
    assert SkipWhitespace(text) == text;
    assert text[1..] == Escape(s) + ("\"" + []);
    ParseEscape(s, []);
  }

  lemma {:induction false} SkipLeadingWhitespace(w: string, text: string)
    requires forall i :: 0 <= i < |w| ==> IsJsonWhitespace(w[i])
    ensures SkipWhitespace(w + text) == SkipWhitespace(text)
    decreases |w|
  {
    if w == [] {
      assert w + text == text;
    } else {
      assert (w + text)[1..] == w[1..] + text;
      SkipLeadingWhitespace(w[1..], text);
    }
  }

  /** JSON whitespace in front of the literal does not change what is parsed. */
  lemma ParseSkipsLeadingWhitespace(w: string, text: string)
    requires forall i :: 0 <= i < |w| ==> IsJsonWhitespace(w[i])
    ensures Parse(w + text) == Parse(text)
  {
    SkipLeadingWhitespace(w, text);
  }

  /** Every escape of a high surrogate followed by an escape of a low surrogate,
      in hex digits of either case, stands for the one character beyond U+FFFF
      that the pair encodes in UTF-16. */
  lemma SurrogatePairRule(t: string)
    requires |t| >= 12 && t[0] == '\\' && t[1] == 'u' && IsHex4(t, 2) && 0xD800 <= Hex4(t, 2) < 0xDC00
    requires t[6] == '\\' && t[7] == 'u' && IsHex4(t, 8) && 0xDC00 <= Hex4(t, 8) < 0xE000
    ensures ParseChars(t) ==
            Cons((0x10000 + (Hex4(t, 2) - 0xD800) * 0x400 + (Hex4(t, 8) - 0xDC00)) as char, ParseChars(t[12..]))
  {
  }

  /** An escape of a low surrogate that no high surrogate precedes, and an escape
      of a high surrogate that no low surrogate escape follows, are rejected, in
      hex digits of either case. */
  lemma LoneSurrogateRule(t: string)
    requires |t| >= 6 && t[0] == '\\' && t[1] == 'u' && IsHex4(t, 2) && 0xD800 <= Hex4(t, 2) < 0xE000
    requires Hex4(t, 2) < 0xDC00 ==>
      !(|t| >= 12 && t[6] == '\\' && t[7] == 'u' && IsHex4(t, 8) && 0xDC00 <= Hex4(t, 8) < 0xE000)
    ensures ParseChars(t) == None
  {
  }

  /** An escape of an unpaired low surrogate is rejected. */
  lemma LoneLowSurrogate()
    ensures Parse("\"\\udc7b\"") == None
  {
    var u := "\"\\udc7b\"";
    assert SkipWhitespace(u) == u;
    var t := u[1..];
    assert t[0] == '\\' && t[1] == 'u' && IsHex4(t, 2);
    assert Hex4(t, 2) == 0xDC7B;
  }

  lemma SurrogatePairChars()
    ensures ParseChars("\\ud83d\\udc7b\"") == Some(("\U{1F47B}", []))
  {
    var t := "\\ud83d\\udc7b\"";
    assert t[2] == 'd' && t[3] == '8' && t[4] == '3' && t[5] == 'd';
    assert Hex4(t, 2) == 0xD83D;
    assert t[8] == 'd' && t[9] == 'c' && t[10] == '7' && t[11] == 'b';
    assert Hex4(t, 8) == 0xDC7B;
    assert ParseChars(t) == Cons('\U{1F47B}', ParseChars(t[12..]));
    assert t[12..] == "\"";
    assert ParseChars(t[12..]) == Some(([], []));
    assert ['\U{1F47B}'] + [] == "\U{1F47B}";
  }

  /** A surrogate pair written as two escapes stands for one character. */
  lemma SurrogatePair()
    ensures Parse("\"\\ud83d\\udc7b\"") == Some("\U{1F47B}")
  {
    var u := "\"\\ud83d\\udc7b\"";
    assert SkipWhitespace(u) == u;
    assert u[1..] == "\\ud83d\\udc7b\"";
    SurrogatePairChars();
  }
}
