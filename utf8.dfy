/**
 * UTF-8, section 3 of RFC 3629: the byte form of a string of Unicode
 * scalar values, and its strict inverse (overlong forms, surrogates and
 * values above U+10FFFF are rejected).
 */
module Utf8 {
  import opened Wrappers
  import opened Bytes

  predicate IsCont(b: Byte) { 0x80 <= b < 0xC0 }

  predicate IsScalar(v: int) { 0 <= v < 0xD800 || 0xE000 <= v < 0x110000 }

  /** The one- to four-byte sequence of a single scalar value. */
  function EncodeChar(c: char): (r: seq<Byte>)
    ensures 1 <= |r| <= 4
    ensures |r| == 1 <==> c as int < 0x80
    ensures |r| == 1 ==> r[0] == c as int
    ensures |r| > 1 ==> r[0] >= 0xC2 && forall k :: 1 <= k < |r| ==> IsCont(r[k])
  {
    var v := c as int;
    if v < 0x80 then [v]
    else if v < 0x800 then [0xC0 + v / 64, 0x80 + v % 64]
    else if v < 0x10000 then [0xE0 + v / 4096, 0x80 + (v / 64) % 64, 0x80 + v % 64]
    else [0xF0 + v / 262144, 0x80 + (v / 4096) % 64, 0x80 + (v / 64) % 64, 0x80 + v % 64]
  }

  function Encode(s: string): (r: seq<Byte>)
    ensures |s| <= |r| <= 4 * |s|
  {
    if s == [] then [] else EncodeChar(s[0]) + Encode(s[1..])
  }

  /**
   * The character encoded at the head of `bs` and the number of bytes it
   * takes; the bytes taken are exactly that character's encoding.
   */
  function DecodeHead(bs: seq<Byte>): (r: Option<(char, nat)>)
    ensures r.Some? ==> 1 <= r.value.1 <= |bs| && EncodeChar(r.value.0) == bs[..r.value.1]
  {
    if |bs| == 0 then None
    else if bs[0] < 0x80 then Some((bs[0] as char, 1))
    else if 0xC2 <= bs[0] < 0xE0 then
      if |bs| >= 2 && IsCont(bs[1]) then
        var v := (bs[0] as int - 0xC0) * 64 + (bs[1] as int - 0x80);
        assert v / 64 == bs[0] - 0xC0 && v % 64 == bs[1] - 0x80;
        Some((v as char, 2))
      else None
    else if 0xE0 <= bs[0] < 0xF0 then
      if |bs| >= 3 && IsCont(bs[1]) && IsCont(bs[2]) then
        var v := (bs[0] as int - 0xE0) * 4096 + (bs[1] as int - 0x80) * 64 + (bs[2] as int - 0x80);
        if 0x800 <= v && IsScalar(v) then
          Decompose3(bs[0] as int - 0xE0, bs[1] as int - 0x80, bs[2] as int - 0x80);
          assert bs[..3] == [bs[0], bs[1], bs[2]];
          Some((v as char, 3))
        else None
      else None
    else if 0xF0 <= bs[0] < 0xF5 then
      if |bs| >= 4 && IsCont(bs[1]) && IsCont(bs[2]) && IsCont(bs[3]) then
        var v := (bs[0] as int - 0xF0) * 262144 + (bs[1] as int - 0x80) * 4096 + (bs[2] as int - 0x80) * 64 + (bs[3] as int - 0x80);
        if 0x10000 <= v < 0x110000 then
          Decompose4(bs[0] as int - 0xF0, bs[1] as int - 0x80, bs[2] as int - 0x80, bs[3] as int - 0x80);
          assert bs[..4] == [bs[0], bs[1], bs[2], bs[3]];
          Some((v as char, 4))
        else None
      else None
    else None
  }

  lemma Decompose3(x: int, y: int, z: int)
    requires 0 <= x < 64 && 0 <= y < 64 && 0 <= z < 64
    ensures var v := x * 4096 + y * 64 + z;
      v / 4096 == x && (v / 64) % 64 == y && v % 64 == z
  {
  }

  lemma Decompose4(w: int, x: int, y: int, z: int)
    requires 0 <= w < 8 && 0 <= x < 64 && 0 <= y < 64 && 0 <= z < 64
    ensures var v := w * 262144 + x * 4096 + y * 64 + z;
      v / 262144 == w && (v / 4096) % 64 == x && (v / 64) % 64 == y && v % 64 == z
  {
    var u := x * 4096 + y * 64 + z;
    Decompose3(x, y, z);
    var v := w * 262144 + u;
    assert v / 4096 == w * 64 + x;
    assert v / 64 == w * 4096 + x * 64 + y;
  }

  /** Strict UTF-8 decoding; None for any ill-formed byte sequence. */
  function Decode(bs: seq<Byte>): (r: Option<string>)
    decreases |bs|
  {
    if bs == [] then Some([])
    else match DecodeHead(bs)
      case None => None
      case Some((c, n)) =>
        match Decode(bs[n..])
        case None => None
        case Some(t) => Some([c] + t)
  }

  /** Decoding a character's own encoding gives it back, whatever follows. */
  lemma DecodeHeadEncodeChar(c: char, rest: seq<Byte>)
    ensures DecodeHead(EncodeChar(c) + rest) == Some((c, |EncodeChar(c)|))
  {
    var v := c as int;
    if v < 0x80 {
    } else if v < 0x800 {
      DecodeHead2(c, rest);
    } else if v < 0x10000 {
      DecodeHead3(c, rest);
    } else {
      DecodeHead4(c, rest);
    }
  }

  lemma Recompose2(v: int)
    requires 0x80 <= v < 0x800
    ensures 2 <= v / 64 < 32 && (v / 64) * 64 + v % 64 == v
  {
  }

  lemma Recompose3(v: int)
    requires 0 <= v < 0x10000
    ensures v / 4096 < 16 && (v / 4096) * 4096 + ((v / 64) % 64) * 64 + v % 64 == v
  {
    var z, a := v % 64, v / 64;
    var y, x := a % 64, a / 64;
    assert v == x * 4096 + y * 64 + z;
    Decompose3(x, y, z);
  }

  lemma Recompose4(v: int)
    requires 0x10000 <= v < 0x110000
    ensures v / 262144 < 5
    ensures (v / 262144) * 262144 + ((v / 4096) % 64) * 4096 + ((v / 64) % 64) * 64 + v % 64 == v
  {
    var z, a := v % 64, v / 64;
    var y, b := a % 64, a / 64;
    var x, w := b % 64, b / 64;
    assert v == w * 262144 + x * 4096 + y * 64 + z;
    Decompose4(w, x, y, z);
  }

  lemma DecodeHead2(c: char, rest: seq<Byte>)
    requires 0x80 <= c as int < 0x800
    ensures DecodeHead(EncodeChar(c) + rest) == Some((c, 2))
  {
    var v := c as int;
    var bs := EncodeChar(c) + rest;
    Recompose2(v);
    assert bs[0] == 0xC0 + v / 64 && bs[1] == 0x80 + v % 64;
    assert (bs[0] as int - 0xC0) * 64 + (bs[1] as int - 0x80) == v;
  }

  lemma DecodeHead3(c: char, rest: seq<Byte>)
    requires 0x800 <= c as int < 0x10000
    ensures DecodeHead(EncodeChar(c) + rest) == Some((c, 3))
  {
    var v := c as int;
    var bs := EncodeChar(c) + rest;
    Recompose3(v);
    assert bs[0] == 0xE0 + v / 4096 && bs[1] == 0x80 + (v / 64) % 64 && bs[2] == 0x80 + v % 64;
    assert (bs[0] as int - 0xE0) * 4096 + (bs[1] as int - 0x80) * 64 + (bs[2] as int - 0x80) == v;
  }

  lemma DecodeHead4(c: char, rest: seq<Byte>)
    requires 0x10000 <= c as int
    ensures DecodeHead(EncodeChar(c) + rest) == Some((c, 4))
  {
    var v := c as int;
    var bs := EncodeChar(c) + rest;
    Recompose4(v);
    assert bs[0] == 0xF0 + v / 262144 && bs[1] == 0x80 + (v / 4096) % 64;
    assert bs[2] == 0x80 + (v / 64) % 64 && bs[3] == 0x80 + v % 64;
    assert (bs[0] as int - 0xF0) * 262144 + (bs[1] as int - 0x80) * 4096 + (bs[2] as int - 0x80) * 64 + (bs[3] as int - 0x80) == v;
  }

  /** Round trip: every string of scalar values survives encode then decode. */
  lemma {:induction false} DecodeEncode(s: string)
    ensures Decode(Encode(s)) == Some(s)
  {
    if s != [] {
      var e := EncodeChar(s[0]);
      DecodeHeadEncodeChar(s[0], Encode(s[1..]));
      assert (e + Encode(s[1..]))[|e|..] == Encode(s[1..]);
      DecodeEncode(s[1..]);
      assert [s[0]] + s[1..] == s;
    }
  }

  /** A non-empty input that decodes starts with one character's encoding. */
  lemma DecodeFirst(bs: seq<Byte>, s: string) returns (n: nat)
    requires bs != [] && Decode(bs) == Some(s)
    ensures 1 <= n <= |bs| && s != [] && EncodeChar(s[0]) == bs[..n] && Decode(bs[n..]) == Some(s[1..])
  {
    var c;
    c, n := DecodeHead(bs).value.0, DecodeHead(bs).value.1;
    var t := Decode(bs[n..]).value;
    assert s == [c] + t;
  }

  /** Decoding is canonical: whatever decodes re-encodes to the same bytes. */
  lemma {:induction false} EncodeDecode(bs: seq<Byte>, s: string)
    requires Decode(bs) == Some(s)
    ensures Encode(s) == bs
    decreases |bs|
  {
    if bs != [] {
      var n := DecodeFirst(bs, s);
      EncodeDecode(bs[n..], s[1..]);
      assert Encode(s) == EncodeChar(s[0]) + Encode(s[1..]);
      assert bs == bs[..n] + bs[n..];
    }
  }

  /** Encoding is injective. */
  lemma EncodeInjective(s: string, t: string)
    requires Encode(s) == Encode(t)
    ensures s == t
  {
    DecodeEncode(s);
    DecodeEncode(t);
  }
}
