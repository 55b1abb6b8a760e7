/** The two browser functions the vault client calls: `btoa` (binary string to
    base64) and `atob` (the WHATWG forgiving-base64 decode back to a binary string).
    A binary string is one whose every character is at most U+00FF. The work is
    split in two layers: bytes to six-bit groups and back (integer arithmetic),
    and six-bit groups to alphabet characters and back. */
module Base64 {
  import opened Wrappers

  predicate IsBinary(s: string) {
    forall i :: 0 <= i < |s| ==> s[i] as int < 256
  }

  predicate IsBytes(b: seq<int>) {
    forall i :: 0 <= i < |b| ==> 0 <= b[i] < 256
  }

  predicate IsSextets(q: seq<int>) {
    forall i :: 0 <= i < |q| ==> 0 <= q[i] < 64
  }

  /** The characters of the standard base64 alphabet, '=' excluded. */
  predicate IsAlphabetChar(c: char) {
    ('A' <= c <= 'Z') || ('a' <= c <= 'z') || ('0' <= c <= '9') || c == '+' || c == '/'
  }

  /** The ASCII whitespace that forgiving-base64 decoding ignores. */
  predicate IsAsciiWhitespace(c: char) {
    c == '\t' || c == '\n' || c == '\U{C}' || c == '\r' || c == ' '
  }

  /** The alphabet character for a six-bit group. */
  function Digit(n: int): (c: char)
    requires 0 <= n < 64
    ensures IsAlphabetChar(c) && Value(c) == n
  {
    if n < 26 then ('A' as int + n) as char
    else if n < 52 then ('a' as int + (n - 26)) as char
    else if n < 62 then ('0' as int + (n - 52)) as char
    else if n == 62 then '+'
    else '/'
  }

  /** The six-bit group an alphabet character stands for. */
  function Value(c: char): (n: int)
    requires IsAlphabetChar(c)
    ensures 0 <= n < 64
  {
    if 'A' <= c <= 'Z' then c as int - 'A' as int
    else if 'a' <= c <= 'z' then c as int - 'a' as int + 26
    else if '0' <= c <= '9' then c as int - '0' as int + 52
    else if c == '+' then 62
    else 63
  }

  /** The byte values of a binary string. */
  function Codes(s: string): (b: seq<int>)
    requires IsBinary(s)
    ensures |b| == |s| && IsBytes(b)
    ensures forall i :: 0 <= i < |s| ==> b[i] == s[i] as int
  {
    seq(|s|, i requires 0 <= i < |s| => s[i] as int)
  }

  /** The binary string of some byte values. */
  function Chars(b: seq<int>): (s: string)
    requires IsBytes(b)
    ensures |s| == |b| && IsBinary(s)
    ensures forall i :: 0 <= i < |b| ==> s[i] as int == b[i]
  {
    seq(|b|, i requires 0 <= i < |b| => b[i] as char)
  }

  function Digits(q: seq<int>): (t: string)
    requires IsSextets(q)
    ensures |t| == |q|
    ensures forall i :: 0 <= i < |q| ==> t[i] == Digit(q[i])
  {
    seq(|q|, i requires 0 <= i < |q| => Digit(q[i]))
  }

  function Values(t: string): (q: seq<int>)
    requires forall i :: 0 <= i < |t| ==> IsAlphabetChar(t[i])
    ensures |q| == |t| && IsSextets(q)
    ensures forall i :: 0 <= i < |t| ==> q[i] == Value(t[i])
  {
    seq(|t|, i requires 0 <= i < |t| => Value(t[i]))
  }

  /** Number of six-bit groups (padding excluded) that encode `n` bytes. */
  function UnpaddedLength(n: nat): nat {
    if n == 0 then 0 else if n == 1 then 2 else if n == 2 then 3 else 4 + UnpaddedLength(n - 3)
  }

  /** The '=' characters that complete the last group of four. */
  function Padding(n: nat): string {
    if n % 3 == 1 then "==" else if n % 3 == 2 then "=" else ""
  }

  lemma LengthFacts(n: nat)
    ensures n % 3 == 0 ==> UnpaddedLength(n) % 4 == 0 && |Padding(n)| == 0
    ensures n % 3 == 1 ==> UnpaddedLength(n) % 4 == 2 && |Padding(n)| == 2
    ensures n % 3 == 2 ==> UnpaddedLength(n) % 4 == 3 && |Padding(n)| == 1
    ensures UnpaddedLength(n) % 4 != 1
    ensures (UnpaddedLength(n) + |Padding(n)|) % 4 == 0
  {
    if n >= 3 {
      LengthFacts(n - 3);
    }
  }

  /** Three bytes to four six-bit groups; a last group of one or two bytes gives
      two or three groups, the missing low bits being zero. */
  function EncodeSextets(b: seq<int>): seq<int>
    decreases |b|
  {
    if |b| == 0 then []
    else if |b| == 1 then [b[0] / 4, b[0] % 4 * 16]
    else if |b| == 2 then [b[0] / 4, b[0] % 4 * 16 + b[1] / 16, b[1] % 16 * 4]
    else [b[0] / 4, b[0] % 4 * 16 + b[1] / 16, b[1] % 16 * 4 + b[2] / 64, b[2] % 64]
           + EncodeSextets(b[3..])
  }

  /** Four six-bit groups to three bytes; a last group of two or three gives one or
      two bytes, and the bits left over are discarded, as forgiving-base64 does.
      (A last group of one, which `atob` rejects before decoding, gives nothing.) */
  function DecodeSextets(q: seq<int>): seq<int>
    decreases |q|
  {
    if |q| < 2 then []
    else if |q| == 2 then [q[0] * 4 + q[1] / 16]
    else if |q| == 3 then [q[0] * 4 + q[1] / 16, q[1] % 16 * 16 + q[2] / 4]
    else [q[0] * 4 + q[1] / 16, q[1] % 16 * 16 + q[2] / 4, q[2] % 4 * 64 + q[3]]
           + DecodeSextets(q[4..])
  }

  lemma {:induction false} EncodeSextetsShape(b: seq<int>)
    requires IsBytes(b)
    ensures |EncodeSextets(b)| == UnpaddedLength(|b|) && IsSextets(EncodeSextets(b))
    decreases |b|
  {
    if |b| >= 3 {
      EncodeSextetsShape(b[3..]);
    }
  }

  lemma {:induction false} DecodeSextetsBytes(q: seq<int>)
    requires IsSextets(q)
    ensures IsBytes(DecodeSextets(q))
    decreases |q|
  {
    if |q| >= 4 {
      DecodeSextetsBytes(q[4..]);
    }
  }

  /** `btoa(s)`: throws, modelled as None, exactly when a character is above
      U+00FF; otherwise the padded base64 text, a multiple of four characters long. */
  function Btoa(s: string): (r: Option<string>)
    ensures r.Some? <==> IsBinary(s)
    ensures r.Some? ==> |r.value| % 4 == 0
  {
    if IsBinary(s) then
      LengthFacts(|s|);
      EncodeSextetsShape(Codes(s));
      Some(Digits(EncodeSextets(Codes(s))) + Padding(|s|))
    else None
  }

  function RemoveWhitespace(s: string): (r: string)
    ensures forall i :: 0 <= i < |r| ==> !IsAsciiWhitespace(r[i])
    ensures (forall i :: 0 <= i < |s| ==> !IsAsciiWhitespace(s[i])) ==> r == s
  {
    if s == [] then []
    else if IsAsciiWhitespace(s[0]) then RemoveWhitespace(s[1..])
    else [s[0]] + RemoveWhitespace(s[1..])
  }

  /** When the length is a multiple of four, one or two trailing '=' are dropped. */
  function StripPadding(t: string): string {
    if |t| % 4 == 0 && |t| >= 2 && t[|t| - 1] == '=' && t[|t| - 2] == '=' then t[..|t| - 2]
    else if |t| % 4 == 0 && |t| >= 1 && t[|t| - 1] == '=' then t[..|t| - 1]
    else t
  }

  /** `atob(s)`: None where it throws (a length of 1 mod 4 once whitespace and
      padding are removed, or a character outside the alphabet). */
  function Atob(s: string): (r: Option<string>)
    ensures r.Some? ==> IsBinary(r.value)
  {
    var t := StripPadding(RemoveWhitespace(s));
    if |t| % 4 == 1 || !(forall i :: 0 <= i < |t| ==> IsAlphabetChar(t[i])) then None
    else
      DecodeSextetsBytes(Values(t));
      Some(Chars(DecodeSextets(Values(t))))
  }

  /** One group of three bytes survives encoding and decoding. */
  lemma GroupRoundTrip(b0: int, b1: int, b2: int)
    requires 0 <= b0 < 256 && 0 <= b1 < 256 && 0 <= b2 < 256
    ensures (b0 / 4) * 4 + (b0 % 4 * 16 + b1 / 16) / 16 == b0
    ensures (b0 % 4 * 16 + b1 / 16) % 16 * 16 + (b1 % 16 * 4 + b2 / 64) / 4 == b1
    ensures (b1 % 16 * 4 + b2 / 64) % 4 * 64 + b2 % 64 == b2
  {
  }

  /** A last group of one byte survives encoding and decoding. */
  lemma DecodeEncodeOne(b0: int)
    requires 0 <= b0 < 256
    ensures DecodeSextets(EncodeSextets([b0])) == [b0]
  {
    assert EncodeSextets([b0]) == [b0 / 4, b0 % 4 * 16];
    ShortGroupRoundTrip(b0, 0);
  }

  /** A last group of two bytes survives encoding and decoding. */
  lemma DecodeEncodeTwo(b0: int, b1: int)
    requires 0 <= b0 < 256 && 0 <= b1 < 256
    ensures DecodeSextets(EncodeSextets([b0, b1])) == [b0, b1]
  {
    assert EncodeSextets([b0, b1]) == [b0 / 4, b0 % 4 * 16 + b1 / 16, b1 % 16 * 4];
    ShortGroupRoundTrip(b0, b1);
  }

  /** A last group of one or two bytes survives encoding and decoding. */
  lemma ShortGroupRoundTrip(b0: int, b1: int)
    requires 0 <= b0 < 256 && 0 <= b1 < 256
    ensures (b0 / 4) * 4 + (b0 % 4 * 16) / 16 == b0
    ensures (b0 / 4) * 4 + (b0 % 4 * 16 + b1 / 16) / 16 == b0
    ensures (b0 % 4 * 16 + b1 / 16) % 16 * 16 + (b1 % 16 * 4) / 4 == b1
  {
  }

  lemma DecodeEncodeOneByte(b: seq<int>)
    requires IsBytes(b) && |b| == 1
    ensures DecodeSextets(EncodeSextets(b)) == b
  {
    assert b == [b[0]];
    DecodeEncodeOne(b[0]);
  }

  lemma DecodeEncodeTwoBytes(b: seq<int>)
    requires IsBytes(b) && |b| == 2
    ensures DecodeSextets(EncodeSextets(b)) == b
  {
    assert b == [b[0], b[1]];
    DecodeEncodeTwo(b[0], b[1]);
  }

  /** Decoding a full group of four in front of more groups. */
  lemma DecodeFullGroup(g: seq<int>, rest: seq<int>)
    requires |g| == 4
    ensures DecodeSextets(g + rest) ==
      [g[0] * 4 + g[1] / 16, g[1] % 16 * 16 + g[2] / 4, g[2] % 4 * 64 + g[3]] + DecodeSextets(rest)
  {
    assert (g + rest)[4..] == rest;
  }

  lemma {:induction false} DecodeEncodeSextets(b: seq<int>)
    requires IsBytes(b)
    ensures DecodeSextets(EncodeSextets(b)) == b
    decreases |b|
  {
    if |b| == 1 {
      DecodeEncodeOneByte(b);
    } else if |b| == 2 {
      DecodeEncodeTwoBytes(b);
    } else if |b| >= 3 {
      var g := [b[0] / 4, b[0] % 4 * 16 + b[1] / 16, b[1] % 16 * 4 + b[2] / 64, b[2] % 64];
      assert EncodeSextets(b) == g + EncodeSextets(b[3..]);
      DecodeEncodeSextets(b[3..]);
      DecodeFullGroup(g, EncodeSextets(b[3..]));
      GroupRoundTrip(b[0], b[1], b[2]);
      assert b == [b[0], b[1], b[2]] + b[3..];
    }
  }

  /** Forgiving-base64 drops exactly the padding that completes a run of alphabet
      characters to a multiple of four. */
  lemma StripAddedPadding(e: string, n: nat)
    requires forall i :: 0 <= i < |e| ==> IsAlphabetChar(e[i])
    requires |e| % 4 == (if n % 3 == 0 then 0 else n % 3 + 1)
    ensures StripPadding(e + Padding(n)) == e
  {
    var t := e + Padding(n);
    if n % 3 == 1 {
      assert t[..|t| - 2] == e;
    } else if n % 3 == 2 {
      assert t[|t| - 2] == e[|e| - 1];
      assert t[..|t| - 1] == e;
    } else {
      assert t == e;
      assert |e| > 0 ==> IsAlphabetChar(e[|e| - 1]);
    }
  }

  /** `atob(btoa(s)) == s` for every binary string. */
  lemma AtobBtoa(s: string)
    requires IsBinary(s)
    ensures Atob(Btoa(s).value) == Some(s)
  {
    var b := Codes(s);
    var q := EncodeSextets(b);
    EncodeSextetsShape(b);
    var e := Digits(q);
    var t := e + Padding(|s|);
    assert Btoa(s).value == t;
    LengthFacts(|s|);
    assert forall i :: 0 <= i < |t| ==> !IsAsciiWhitespace(t[i]) by {
      forall i | 0 <= i < |t| ensures !IsAsciiWhitespace(t[i]) {
        if i < |e| { assert IsAlphabetChar(e[i]); } else { assert t[i] == '='; }
      }
    }
    assert RemoveWhitespace(t) == t;
    StripAddedPadding(e, |s|);
    assert Values(e) == q;
    DecodeEncodeSextets(b);
    assert Chars(b) == s;
  }
}
