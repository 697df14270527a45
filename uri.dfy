/**
 * `encodeURIComponent` (ECMA-262, section "URI Handling Functions") restricted to ASCII, and
 * the matching decoder. Unreserved characters pass through; every other character becomes
 * '%' and two upper-case hexadecimal digits, as in section 2.1 of RFC 3986.
 */
module Uri {
  import opened Options

  predicate IsAscii(c: char) {
    c as int < 128
  }

  predicate IsAsciiString(s: string) {
    forall k :: 0 <= k < |s| ==> IsAscii(s[k])
  }

  /** The characters `encodeURIComponent` never escapes: letters, digits and `-_.!~*'()`. */
  predicate IsUnreserved(c: char) {
    ('A' <= c <= 'Z') || ('a' <= c <= 'z') || ('0' <= c <= '9')
    || c == '-' || c == '_' || c == '.' || c == '!' || c == '~' || c == '*' || c == '\'' || c == '(' || c == ')'
  }

  /** The upper-case hexadecimal digit for `d`. */
  function HexDigit(d: int): (c: char)
    requires 0 <= d < 16
    ensures IsUnreserved(c)
  {
    if d < 10 then ('0' as int + d) as char else ('A' as int + d - 10) as char
  }

  /** The value of a hexadecimal digit of either case. */
  function HexValue(c: char): (r: Option<int>)
    ensures r.Some? ==> 0 <= r.value < 16
  {
    if '0' <= c <= '9' then Some(c as int - '0' as int)
    else if 'A' <= c <= 'F' then Some(c as int - 'A' as int + 10)
    else if 'a' <= c <= 'f' then Some(c as int - 'a' as int + 10)
    else None
  }

  lemma HexRoundTrip(d: int)
    requires 0 <= d < 16
    ensures HexValue(HexDigit(d)) == Some(d)
  {
  }

  function EncodeChar(c: char): (r: string)
    requires IsAscii(c)
  {
    if IsUnreserved(c) then [c] else ['%', HexDigit(c as int / 16), HexDigit(c as int % 16)]
  }

  /** `encodeURIComponent(s)` for an ASCII string `s`. */
  function Encode(s: string): (r: string)
    requires IsAsciiString(s)
    ensures |r| >= |s|
    ensures forall k :: 0 <= k < |r| ==> IsUnreserved(r[k]) || r[k] == '%'
  {
    if s == [] then [] else EncodeChar(s[0]) + Encode(s[1..])
  }

  /** The encoded text never holds the query-string separators '&' and '=', nor a space. */
  lemma EncodeHasNoSeparators(s: string)
    requires IsAsciiString(s)
    ensures '&' !in Encode(s) && '=' !in Encode(s) && ' ' !in Encode(s)
  {
    var r := Encode(s);
    forall k | 0 <= k < |r|
      ensures r[k] != '&' && r[k] != '=' && r[k] != ' '
    {
      assert IsUnreserved(r[k]) || r[k] == '%';
    }
  }

  /** A string is its own encoding exactly when every character is unreserved. */
  lemma {:induction false} EncodeIdentity(s: string)
    requires IsAsciiString(s)
    ensures Encode(s) == s <==> forall k :: 0 <= k < |s| ==> IsUnreserved(s[k])
  {
    if s != [] {
      EncodeIdentity(s[1..]);
      if !IsUnreserved(s[0]) {
        EncodeLength(s[1..]);
        assert |Encode(s)| > |s|;
      } else {
        assert [s[0]] + s[1..] == s;
      }
    }
  }

  lemma EncodeLength(s: string)
    requires IsAsciiString(s)
    ensures |Encode(s)| >= |s|
  {
  }

  /** `decodeURIComponent` for escapes of ASCII characters; `None` on a malformed or non-ASCII escape. */
  function Decode(s: string): (r: Option<string>)
    decreases |s|
  {
    if s == [] then Some([])
    else if s[0] != '%' then
      match Decode(s[1..])
      case Some(rest) => Some([s[0]] + rest)
      case None => None
    else if |s| < 3 then None
    else
      match (HexValue(s[1]), HexValue(s[2]))
      case (Some(hi), Some(lo)) =>
        if hi * 16 + lo < 128 then
          match Decode(s[3..])
          case Some(rest) => Some([(hi * 16 + lo) as char] + rest)
          case None => None
        else None
      case _ => None
  }

  lemma DecodeEncodeChar(c: char, rest: string)
    requires IsAscii(c)
    ensures Decode(EncodeChar(c) + rest) ==
            match Decode(rest)
            case Some(t) => Some([c] + t)
            case None => None
  {
    var e := EncodeChar(c) + rest;
    if IsUnreserved(c) {
      assert e[1..] == rest;
    } else {
      var n := c as int;
      HexRoundTrip(n / 16);
      HexRoundTrip(n % 16);
      assert e[3..] == rest;
      assert (n / 16) * 16 + n % 16 == n;
    }
  }

  /** Decoding undoes encoding: percent-encoded values can be recovered exactly. */
  lemma {:induction false} DecodeEncode(s: string)
    requires IsAsciiString(s)
    ensures Decode(Encode(s)) == Some(s)
  {
    if s != [] {
      DecodeEncode(s[1..]);
      DecodeEncodeChar(s[0], Encode(s[1..]));
      assert [s[0]] + s[1..] == s;
    }
  }

  /** Encoding is injective: two ASCII values never share an encoding. */
  lemma EncodeInjective(s: string, t: string)
    requires IsAsciiString(s) && IsAsciiString(t)
    requires Encode(s) == Encode(t)
    ensures s == t
  {
    DecodeEncode(s);
    DecodeEncode(t);
  }
}
