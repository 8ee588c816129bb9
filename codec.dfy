/**
 * The token codec of lib/utils.ts: base64 over the UTF-8 bytes of a
 * string, and the two configuration constants every route uses.
 */
module Codec {
  import opened Wrappers
  import opened Bytes
  import Utf8
  import Base64
  import Strings

  /** The CORS proxy every fetch goes through. */
  const ProxyBase: string := "https://proxy2.vlyx.workers.dev/?url="
  /** The listing site's origin. */
  const SourceDomain: string := "https://movies4u.nexus"

  /** The address `fetchProxy(url)` requests: the proxy with the raw, unencoded target appended. */
  function ProxiedUrl(url: string): (r: string)
    ensures Strings.StartsWith(r, ProxyBase) && r[|ProxyBase|..] == url
  {
    ProxyBase + url
  }

  /** `encodeBase64` (server branch): `Buffer.from(str).toString("base64")`. */
  function EncodeBase64(s: string): string
  {
    Base64.Encode(Utf8.Encode(s))
  }

  /**
   * A token is 4 * ceil(n / 3) characters for n UTF-8 bytes, drawn from the
   * base64 alphabet except for the `=` padding at its end, which is two
   * characters when n mod 3 = 1, one when n mod 3 = 2 and none otherwise;
   * only the empty string has the empty token.
   */
  lemma EncodeBase64Shape(s: string)
    ensures var t, n := EncodeBase64(s), |Utf8.Encode(s)|;
      && |t| == 4 * ((n + 2) / 3)
      && Base64.PadCount(t) == Base64.Padding(n)
      && (t == "" <==> s == "")
      && forall k :: 0 <= k < |t| ==> Base64.IsAlphabetChar(t[k]) || (t[k] == '=' && k >= |t| - 2)
  {
    Base64.EncodeLength(Utf8.Encode(s));
    Base64.EncodeAlphabet(Utf8.Encode(s));
    Base64.EncodePadding(Utf8.Encode(s));
  }

  /**
   * `decodeBase64` (server branch) on canonical tokens carrying UTF-8;
   * None for any other token.
   */
  function DecodeBase64(t: string): (r: Option<string>)
  {
    match Base64.Decode(t)
    case None => None
    case Some(bs) => Utf8.Decode(bs)
  }

  /** Round trip: every string comes back from its token. */
  lemma DecodeEncode(s: string)
    ensures DecodeBase64(EncodeBase64(s)) == Some(s)
  {
    Base64.DecodeEncode(Utf8.Encode(s));
    Utf8.DecodeEncode(s);
  }

  /** A token decodes to `s` exactly when it is the encoding of `s`. */
  lemma DecodeIff(t: string, s: string)
    ensures DecodeBase64(t) == Some(s) <==> EncodeBase64(s) == t
  {
    if DecodeBase64(t) == Some(s) {
      var bs := Base64.Decode(t).value;
      Base64.EncodeDecode(t, bs);
      Utf8.EncodeDecode(bs, s);
    }
    if EncodeBase64(s) == t {
      DecodeEncode(s);
    }
  }

  /** Distinct strings give distinct tokens. */
  lemma EncodeInjective(s: string, s': string)
    requires EncodeBase64(s) == EncodeBase64(s')
    ensures s == s'
  {
    DecodeEncode(s);
    DecodeEncode(s');
  }

  // The browser branch of encodeBase64:
  // btoa(encodeURIComponent(str).replace(/%([0-9A-F]{2})/g, byte-to-char)).

  /** The characters `encodeURIComponent` leaves as they are. */
  predicate IsUnreserved(c: char)
  {
    ('A' <= c <= 'Z') || ('a' <= c <= 'z') || ('0' <= c <= '9')
    || c == '-' || c == '_' || c == '.' || c == '!' || c == '~' || c == '*' || c == '\'' || c == '(' || c == ')'
  }

  function HexDigit(d: int): (c: char)
    requires 0 <= d < 16
    ensures IsUpperHex(c) && HexValue(c) == d
  {
    if d < 10 then ('0' as int + d) as char else ('A' as int + d - 10) as char
  }

  predicate IsUpperHex(c: char) { ('0' <= c <= '9') || ('A' <= c <= 'F') }

  function HexValue(c: char): (v: int)
    requires IsUpperHex(c)
    ensures 0 <= v < 16
  {
    if c <= '9' then c as int - '0' as int else c as int - 'A' as int + 10
  }

  /** `%XX` escapes, upper-case hex, of a run of octets. */
  function PercentBytes(bs: seq<Byte>): string
  {
    if bs == [] then [] else ['%', HexDigit(bs[0] / 16), HexDigit(bs[0] % 16)] + PercentBytes(bs[1..])
  }

  /** `encodeURIComponent` on a string of scalar values. */
  function UriEncode(s: string): string
  {
    if s == [] then []
    else (if IsUnreserved(s[0]) then [s[0]] else PercentBytes(Utf8.EncodeChar(s[0]))) + UriEncode(s[1..])
  }

  /** The global replace of `%XX` (upper-case hex) by the character with that code. */
  function Unescape(s: string): string
  {
    if |s| >= 3 && s[0] == '%' && IsUpperHex(s[1]) && IsUpperHex(s[2]) then
      [(HexValue(s[1]) * 16 + HexValue(s[2])) as char] + Unescape(s[3..])
    else if s == [] then []
    else [s[0]] + Unescape(s[1..])
  }

  /** `btoa`: base64 of a binary string; it throws (None) on a character above U+00FF. */
  function Btoa(s: string): (r: Option<string>)
    ensures r.Some? <==> forall k :: 0 <= k < |s| ==> s[k] as int < 256
  {
    if forall k :: 0 <= k < |s| ==> s[k] as int < 256 then
      Some(Base64.Encode(seq(|s|, k requires 0 <= k < |s| => s[k] as int as Byte)))
    else None
  }

  /** `encodeBase64` (browser branch). */
  function BrowserEncodeBase64(s: string): Option<string>
  {
    Btoa(Unescape(UriEncode(s)))
  }

  lemma {:induction false} UnescapePercent(bs: seq<Byte>, rest: string)
    ensures Unescape(PercentBytes(bs) + rest) == Latin1(bs) + Unescape(rest)
  {
    if bs != [] {
      var p := PercentBytes(bs);
      assert p + rest == ['%', HexDigit(bs[0] / 16), HexDigit(bs[0] % 16)] + (PercentBytes(bs[1..]) + rest);
      var x := ['%', HexDigit(bs[0] / 16), HexDigit(bs[0] % 16)] + (PercentBytes(bs[1..]) + rest);
      assert x[3..] == PercentBytes(bs[1..]) + rest;
      assert HexValue(x[1]) * 16 + HexValue(x[2]) == bs[0];
      assert Unescape(x) == [bs[0] as char] + Unescape(x[3..]);
      UnescapePercent(bs[1..], rest);
      assert Latin1(bs) == [bs[0] as char] + Latin1(bs[1..]);
      assert p + rest == x;
      assert Unescape(x) == [bs[0] as char] + (Latin1(bs[1..]) + Unescape(rest));
      assert Latin1(bs) + Unescape(rest) == [bs[0] as char] + (Latin1(bs[1..]) + Unescape(rest));
    } else {
      assert Latin1(bs) == [];
      assert PercentBytes(bs) + rest == rest;
    }
  }

  lemma {:induction false} UnescapeUriEncode(s: string)
    ensures Unescape(UriEncode(s)) == Latin1(Utf8.Encode(s))
  {
    if s != [] {
      var e := Utf8.EncodeChar(s[0]);
      UnescapeUriEncode(s[1..]);
      assert Latin1(e + Utf8.Encode(s[1..])) == Latin1(e) + Latin1(Utf8.Encode(s[1..]));
      if IsUnreserved(s[0]) {
        assert UriEncode(s) == [s[0]] + UriEncode(s[1..]);
        assert Latin1(e) == [s[0]];
      } else {
        UnescapePercent(e, UriEncode(s[1..]));
      }
    }
  }

  /** Both branches of encodeBase64 give the same token. */
  lemma BrowserMatchesServer(s: string)
    ensures BrowserEncodeBase64(s) == Some(EncodeBase64(s))
  {
    UnescapeUriEncode(s);
    var b := Latin1(Utf8.Encode(s));
    assert seq(|b|, k requires 0 <= k < |b| => b[k] as int as Byte) == Utf8.Encode(s);
  }
}
