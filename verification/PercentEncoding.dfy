/** `curl_easy_escape` and `curl_easy_unescape`: percent-encoding as in sections 2.1 and 2.3 of
    RFC 3986. Everything but an unreserved character becomes `%` and two upper-case hex digits;
    decoding accepts either case and leaves a `%` that two hex digits do not follow alone. */
module PercentEncoding {
  import opened CStrings

  predicate Unreserved(c: char) {
    'A' <= c <= 'Z' || 'a' <= c <= 'z' || '0' <= c <= '9' || c == '-' || c == '.' || c == '_' || c == '~'
  }

  function HexDigit(d: nat): (c: char)
    requires d < 16
    ensures HexValue(c) == Some(d)
  {
    if d < 10 then ('0' as int + d) as char else ('A' as int + d - 10) as char
  }

  function HexValue(c: char): (r: Option<nat>)
    ensures r.Some? ==> r.value < 16
  {
    if '0' <= c <= '9' then Some(c as int - '0' as int)
    else if 'A' <= c <= 'F' then Some(c as int - 'A' as int + 10)
    else if 'a' <= c <= 'f' then Some(c as int - 'a' as int + 10)
    else None
  }

  function EncodeChar(c: char): (r: string)
    ensures r != []
  {
    if Unreserved(c) then [c]
    else ['%', HexDigit(c as int / 16 % 16), HexDigit(c as int % 16)]
  }

  const DIGITS := "0123456789ABCDEF"
  const SMALL_DIGITS := "0123456789abcdef"

  lemma OtherUnreserved(c: char)
    ensures c in "0123456789-._~" <==> '0' <= c <= '9' || c == '-' || c == '.' || c == '_' || c == '~'
  {
    if '0' <= c <= '9' { assert "0123456789-._~"[c as int - '0' as int] == c; }
  }

  /** The unreserved characters of section 2.3 of RFC 3986. */
  lemma UnreservedIs(c: char)
    ensures Unreserved(c) <==> c in UPPER_CASE || c in LOWER_CASE || c in "0123456789-._~"
  {
    UpperCaseIs(c);
    LowerCaseIs(c);
    OtherUnreserved(c);
    hide UPPER_CASE, LOWER_CASE;
  }

  /** A percent sign and two hexadecimal digits, the high half first, as in section 2.1. */
  lemma EncodeCharIs(c: char)
    requires c as int < 256 && !Unreserved(c)
    ensures EncodeChar(c) == ['%', DIGITS[c as int / 16], DIGITS[c as int % 16]]
  {
  }

  /** A reader takes either case. */
  lemma HexValueIs(c: char, d: nat)
    requires d < 16
    ensures HexValue(c) == Some(d) <==> c == DIGITS[d] || c == SMALL_DIGITS[d]
  {
  }

  function Encode(s: string): string {
    if s == [] then [] else EncodeChar(s[0]) + Encode(s[1..])
  }

  predicate StartsEscape(s: string) {
    |s| >= 3 && s[0] == '%' && HexValue(s[1]).Some? && HexValue(s[2]).Some?
  }

  function Decode(s: string): (r: string) {
    if s == [] then []
    else if StartsEscape(s) then
      [(16 * HexValue(s[1]).value + HexValue(s[2]).value) as char] + Decode(s[3..])
    else [s[0]] + Decode(s[1..])
  }

  /** Decoding undoes encoding on every byte string. */
  lemma {:induction false} DecodeEncode(s: string)
    requires IsCString(s)
    ensures Decode(Encode(s)) == s
  {
    if s != [] {
      DecodeEncode(s[1..]);
      DecodeEncodedChar(s[0], Encode(s[1..]));
      assert s == [s[0]] + s[1..];
    }
  }

  lemma DecodeEncodedChar(c: char, rest: string)
    requires c as int < 256
    ensures Decode(EncodeChar(c) + rest) == [c] + Decode(rest)
  {
    var e := EncodeChar(c) + rest;
    if Unreserved(c) {
      assert e[1..] == rest;
    } else {
      var hi, lo := c as int / 16 % 16, c as int % 16;
      assert e[0] == '%' && e[1] == HexDigit(hi) && e[2] == HexDigit(lo) && e[3..] == rest;
      assert HexValue(e[1]) == Some(hi) && HexValue(e[2]) == Some(lo);
      assert 16 * hi + lo == c as int;
    }
  }

  /** So no two byte strings are encoded alike. */
  lemma EncodeInjective(s: string, t: string)
    requires IsCString(s) && IsCString(t)
    ensures Encode(s) == Encode(t) <==> s == t
  {
    DecodeEncode(s);
    DecodeEncode(t);
  }

  /** Encoded text holds nothing that any header or query separates on. */
  lemma {:induction false} EncodedAlphabet(s: string)
    ensures forall c :: c in Encode(s) ==> Unreserved(c) || c == '%'
    ensures Encode(s) == [] <==> s == []
  {
    if s != [] {
      EncodedAlphabet(s[1..]);
    }
  }

  lemma {:induction false} EncodedLength(s: string)
    ensures |s| <= |Encode(s)| <= 3 * |s|
  {
    if s != [] { EncodedLength(s[1..]); }
  }

  lemma EncodedWithout(s: string, c: char)
    requires !Unreserved(c) && c != '%'
    ensures c !in Encode(s)
  {
    EncodedAlphabet(s);
  }

  lemma {:induction false} EncodeUnreserved(s: string)
    requires forall i :: 0 <= i < |s| ==> Unreserved(s[i])
    ensures Encode(s) == s
  {
    if s != [] {
      EncodeUnreserved(s[1..]);
      assert s == [s[0]] + s[1..];
    }
  }
}
