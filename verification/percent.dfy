/**
 * A concrete instance of `decodeURIComponent`, restricted to escapes of ASCII
 * characters, together with the matching `encodeURIComponent` a client uses
 * to put configuration into a path. The worker itself takes the decoder as a
 * parameter; this instance is what the end-to-end lemmas plug in.
 */
module Percent {
  import opened Wrappers

  /** The value of one hexadecimal digit, in either case. */
  function HexValue(c: char): (r: Option<nat>)
    ensures r.Some? ==> r.value < 16
  {
    if '0' <= c <= '9' then Some(c as nat - '0' as nat)
    else if 'a' <= c <= 'f' then Some(c as nat - 'a' as nat + 10)
    else if 'A' <= c <= 'F' then Some(c as nat - 'A' as nat + 10)
    else None
  }

  /** The upper-case hexadecimal digit for `d`, as `encodeURIComponent` writes it. */
  function HexDigit(d: nat): (c: char)
    requires d < 16
    ensures HexValue(c) == Some(d)
    ensures '0' <= c <= '9' || 'A' <= c <= 'F'
  {
    if d < 10 then ('0' as nat + d) as char else ('A' as nat + d - 10) as char
  }

  /** The characters `encodeURIComponent` leaves as they are. */
  predicate Unreserved(c: char)
  {
    || 'A' <= c <= 'Z' || 'a' <= c <= 'z' || '0' <= c <= '9'
    || c == '-' || c == '_' || c == '.' || c == '!' || c == '~' || c == '*' || c == '\'' || c == '(' || c == ')'
  }

  predicate IsAscii(s: string)
  {
    forall i :: 0 <= i < |s| ==> s[i] as nat < 128
  }

  /**
   * `decodeURIComponent`, for escapes of ASCII characters: `%XX` with two
   * hex digits of value below 0x80 becomes that character, every other
   * character stays; a `%` not followed by two hex digits is a `URIError`,
   * here `None`. Escapes of 0x80 and above start a UTF-8 sequence and are
   * refused by this instance.
   */
  function Decode(s: string): (r: Option<string>)
    ensures '%' !in s ==> r == Some(s)
    ensures r.Some? ==> |r.value| <= |s|
    decreases |s|
  {
    if |s| == 0 then Some("")
    else if s[0] != '%' then
      match Decode(s[1..])
      case None => None
      case Some(t) =>
        assert '%' !in s ==> s == [s[0]] + s[1..];
        Some([s[0]] + t)
    else if |s| < 3 then None
    else
      match (HexValue(s[1]), HexValue(s[2]))
      case (Some(hi), Some(lo)) =>
        if hi * 16 + lo < 128 then
          match Decode(s[3..])
          case None => None
          case Some(t) => Some([(hi * 16 + lo) as char] + t)
        else None
      case _ => None
  }

  /** `encodeURIComponent` of one ASCII character. */
  function EncodeChar(c: char): (r: string)
    requires c as nat < 128
    ensures forall i :: 0 <= i < |r| ==> Unreserved(r[i]) || r[i] == '%'
  {
    if Unreserved(c) then [c]
    else ['%', HexDigit(c as nat / 16), HexDigit(c as nat % 16)]
  }

  /** `encodeURIComponent` of an ASCII string. */
  function Encode(s: string): (r: string)
    requires IsAscii(s)
    ensures |r| >= |s|
    ensures forall i :: 0 <= i < |r| ==> Unreserved(r[i]) || r[i] == '%'
  {
    if |s| == 0 then ""
    else
      var e, t := EncodeChar(s[0]), Encode(s[1..]);
      assert forall i :: |e| <= i < |e + t| ==> (e + t)[i] == t[i - |e|];
      e + t
  }

  /** An encoded string holds neither a path separator nor an `=`: it fits in one `key=value` half. */
  lemma EncodeHasNoDelimiters(s: string)
    requires IsAscii(s)
    ensures '/' !in Encode(s) && '=' !in Encode(s)
  {
    var r := Encode(s);
    assert forall i :: 0 <= i < |r| ==> r[i] != '/' && r[i] != '=';
  }

  /** Text made only of unreserved characters is its own encoding. */
  lemma {:induction false} EncodeUnreserved(s: string)
    requires forall i :: 0 <= i < |s| ==> Unreserved(s[i])
    ensures IsAscii(s) && Encode(s) == s
  {
    if |s| > 0 {
      EncodeUnreserved(s[1..]);
      assert s == [s[0]] + s[1..];
    }
  }

  /** Decoding reads one encoded character back and then carries on with the rest. */
  lemma DecodeEncodedChar(c: char, rest: string)
    requires c as nat < 128
    requires Decode(rest).Some?
    ensures Decode(EncodeChar(c) + rest) == Some([c] + Decode(rest).value)
  {
    var s := EncodeChar(c) + rest;
    if Unreserved(c) {
      assert s[0] == c && c != '%';
      assert s[1..] == rest;
    } else {
      var v := c as nat;
      var hi, lo := HexDigit(v / 16), HexDigit(v % 16);
      assert s == ['%', hi, lo] + rest;
      assert s[0] == '%' && s[1] == hi && s[2] == lo;
      assert HexValue(s[1]) == Some(v / 16) && HexValue(s[2]) == Some(v % 16);
      assert v / 16 * 16 + v % 16 == v;
      assert s[3..] == rest;
    }
  }

  /** Percent-encoding round-trips: decoding what was encoded gives the original string. */
  lemma {:induction false} DecodeEncode(s: string)
    requires IsAscii(s)
    ensures Decode(Encode(s)) == Some(s)
  {
    if |s| > 0 {
      DecodeEncode(s[1..]);
      DecodeEncodedChar(s[0], Encode(s[1..]));
      assert s == [s[0]] + s[1..];
    }
  }
}
