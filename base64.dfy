/**
 * Base64 with the standard alphabet and `=` padding, section 4 of
 * RFC 4648. Decoding accepts only canonical tokens: a length that is a
 * multiple of four, padding only at the end and zero unused bits.
 */
module Base64 {
  import opened Wrappers
  import opened Bytes

  /** The 64 characters of the alphabet: `A`-`Z`, `a`-`z`, `0`-`9`, `+`, `/`. */
  predicate IsAlphabetChar(c: char)
  {
    ('A' <= c <= 'Z') || ('a' <= c <= 'z') || ('0' <= c <= '9') || c == '+' || c == '/'
  }

  function CharOf(i: int): (c: char)
    requires 0 <= i < 64
    ensures IsAlphabetChar(c)
  {
    if i < 26 then ('A' as int + i) as char
    else if i < 52 then ('a' as int + i - 26) as char
    else if i < 62 then ('0' as int + i - 52) as char
    else if i == 62 then '+'
    else '/'
  }

  function IndexOf(c: char): (r: Option<int>)
    ensures r.Some? <==> IsAlphabetChar(c)
    ensures r.Some? ==> 0 <= r.value < 64 && CharOf(r.value) == c
  {
    if 'A' <= c <= 'Z' then Some(c as int - 'A' as int)
    else if 'a' <= c <= 'z' then Some(c as int - 'a' as int + 26)
    else if '0' <= c <= '9' then Some(c as int - '0' as int + 52)
    else if c == '+' then Some(62)
    else if c == '/' then Some(63)
    else None
  }

  lemma IndexOfCharOf(i: int)
    requires 0 <= i < 64
    ensures IndexOf(CharOf(i)) == Some(i)
  {
  }

  /** Three octets as four characters. */
  function EncodeTriple(b0: Byte, b1: Byte, b2: Byte): string
  {
    [CharOf(b0 / 4), CharOf((b0 % 4) * 16 + b1 / 16), CharOf((b1 % 16) * 4 + b2 / 64), CharOf(b2 % 64)]
  }

  /** The last one or two octets, padded to four characters. */
  function EncodeTail(bs: seq<Byte>): string
    requires 1 <= |bs| <= 2
  {
    if |bs| == 1 then [CharOf(bs[0] / 4), CharOf((bs[0] % 4) * 16), '=', '=']
    else [CharOf(bs[0] / 4), CharOf((bs[0] % 4) * 16 + bs[1] / 16), CharOf((bs[1] % 16) * 4), '=']
  }

  function Encode(bs: seq<Byte>): string
  {
    if |bs| == 0 then []
    else if |bs| < 3 then EncodeTail(bs)
    else EncodeTriple(bs[0], bs[1], bs[2]) + Encode(bs[3..])
  }

  /** A token is four characters for every started group of three octets. */
  lemma {:induction false} EncodeLength(bs: seq<Byte>)
    ensures |Encode(bs)| == 4 * ((|bs| + 2) / 3)
  {
    if |bs| >= 3 {
      var n := |bs| - 3;
      EncodeLength(bs[3..]);
      assert |Encode(bs)| == 4 + |Encode(bs[3..])|;
      assert (n + 3 + 2) / 3 == (n + 2) / 3 + 1;
    }
  }

  /** Four alphabet characters (no padding) as three octets. */
  function DecodeQuad(q: string): (r: Option<seq<Byte>>)
    requires |q| == 4
  {
    match (IndexOf(q[0]), IndexOf(q[1]), IndexOf(q[2]), IndexOf(q[3]))
    case (Some(c0), Some(c1), Some(c2), Some(c3)) =>
      Some([c0 * 4 + c1 / 16, (c1 % 16) * 16 + c2 / 4, (c2 % 4) * 64 + c3])
    case _ => None
  }

  /** The final quad, which may carry one or two `=`; unused bits must be zero. */
  function DecodeLast(q: string): (r: Option<seq<Byte>>)
    requires |q| == 4
  {
    if q[2] == '=' && q[3] == '=' then
      match (IndexOf(q[0]), IndexOf(q[1]))
      case (Some(c0), Some(c1)) =>
        if c1 % 16 == 0 then Some([c0 * 4 + c1 / 16]) else None
      case _ => None
    else if q[3] == '=' then
      match (IndexOf(q[0]), IndexOf(q[1]), IndexOf(q[2]))
      case (Some(c0), Some(c1), Some(c2)) =>
        if c2 % 4 == 0 then Some([c0 * 4 + c1 / 16, (c1 % 16) * 16 + c2 / 4]) else None
      case _ => None
    else DecodeQuad(q)
  }

  function Decode(t: string): (r: Option<seq<Byte>>)
    decreases |t|
  {
    if |t| == 0 then Some([])
    else if |t| < 4 then None
    else if |t| == 4 then DecodeLast(t)
    else match (DecodeQuad(t[..4]), Decode(t[4..]))
      case (Some(b), Some(rest)) => Some(b + rest)
      case _ => None
  }

  /** The bit arithmetic of one group: the four sextets rebuild the three octets. */
  lemma SextetsRebuild(b0: Byte, b1: Byte, b2: Byte)
    ensures var c0, c1, c2, c3 := b0 / 4, (b0 % 4) * 16 + b1 / 16, (b1 % 16) * 4 + b2 / 64, b2 % 64;
      && 0 <= c1 < 64 && 0 <= c2 < 64
      && c0 * 4 + c1 / 16 == b0 && (c1 % 16) * 16 + c2 / 4 == b1 && (c2 % 4) * 64 + c3 == b2
  {
    var c1, c2 := (b0 % 4) * 16 + b1 / 16, (b1 % 16) * 4 + b2 / 64;
    assert c1 / 16 == b0 % 4 && c1 % 16 == b1 / 16;
    assert c2 / 4 == b1 % 16 && c2 % 4 == b2 / 64;
  }

  lemma DecodeEncodeTriple(b0: Byte, b1: Byte, b2: Byte)
    ensures DecodeQuad(EncodeTriple(b0, b1, b2)) == Some([b0, b1, b2])
    ensures DecodeLast(EncodeTriple(b0, b1, b2)) == Some([b0, b1, b2])
  {
    var c0, c1, c2, c3 := b0 / 4, (b0 % 4) * 16 + b1 / 16, (b1 % 16) * 4 + b2 / 64, b2 % 64;
    SextetsRebuild(b0, b1, b2);
    IndexOfCharOf(c0);
    IndexOfCharOf(c1);
    IndexOfCharOf(c2);
    IndexOfCharOf(c3);
    var q := EncodeTriple(b0, b1, b2);
    assert q == [CharOf(c0), CharOf(c1), CharOf(c2), CharOf(c3)];
    assert DecodeQuad(q) == Some([c0 * 4 + c1 / 16, (c1 % 16) * 16 + c2 / 4, (c2 % 4) * 64 + c3]);
  }

  lemma DecodeEncodeTail(bs: seq<Byte>)
    requires 1 <= |bs| <= 2
    ensures DecodeLast(EncodeTail(bs)) == Some(bs)
  {
    var b1: Byte := if |bs| == 2 then bs[1] else 0;
    SextetsRebuild(bs[0], b1, 0);
    var c0, c1, c2 := bs[0] / 4, (bs[0] % 4) * 16 + b1 / 16, (b1 % 16) * 4;
    IndexOfCharOf(c0);
    IndexOfCharOf(c1);
    IndexOfCharOf(c2);
    if |bs| == 1 {
      assert EncodeTail(bs) == [CharOf(c0), CharOf(c1), '=', '='];
      assert bs == [c0 * 4 + c1 / 16];
    } else {
      assert EncodeTail(bs) == [CharOf(c0), CharOf(c1), CharOf(c2), '='];
      assert bs == [c0 * 4 + c1 / 16, (c1 % 16) * 16 + c2 / 4];
    }
  }

  /** Decoding a full quad followed by a non-empty decodable rest. */
  lemma DecodeCons(q: string, r: string, b: seq<Byte>, rest: seq<Byte>)
    requires |q| == 4 && |r| > 0
    requires DecodeQuad(q) == Some(b) && Decode(r) == Some(rest)
    ensures Decode(q + r) == Some(b + rest)
  {
    var t := q + r;
    assert t[..4] == q && t[4..] == r;
  }

  /** Round trip: decoding an encoding gives back the octets. */
  lemma {:induction false} DecodeEncode(bs: seq<Byte>)
    ensures Decode(Encode(bs)) == Some(bs)
  {
    if |bs| == 0 {
    } else if |bs| < 3 {
      DecodeEncodeShort(bs);
    } else if |bs| == 3 {
      DecodeEncodeThree(bs);
    } else {
      DecodeEncode(bs[3..]);
      DecodeEncodeCons(bs[0], bs[1], bs[2], bs[3..]);
      SplitThree(bs);
    }
  }

  lemma DecodeEncodeShort(bs: seq<Byte>)
    requires 1 <= |bs| <= 2
    ensures Decode(Encode(bs)) == Some(bs)
  {
    DecodeEncodeTail(bs);
    EncodeShort(bs);
  }

  lemma SplitThree(bs: seq<Byte>)
    requires |bs| >= 3
    ensures bs == [bs[0], bs[1], bs[2]] + bs[3..]
  {
  }

  lemma DecodeEncodeCons(b0: Byte, b1: Byte, b2: Byte, tail: seq<Byte>)
    requires tail != [] && Decode(Encode(tail)) == Some(tail)
    ensures Decode(Encode([b0, b1, b2] + tail)) == Some([b0, b1, b2] + tail)
  {
    var bs: seq<Byte> := [b0, b1, b2] + tail;
    assert bs[3..] == tail;
    var q := EncodeTriple(b0, b1, b2);
    var r := Encode(tail);
    assert Encode(bs) == q + r;
    DecodeEncodeTriple(b0, b1, b2);
    DecodeCons(q, r, [b0, b1, b2], tail);
  }

  lemma DecodeEncodeThree(bs: seq<Byte>)
    requires |bs| == 3
    ensures Decode(Encode(bs)) == Some(bs)
  {
    SeqOfThree(bs);
    DecodeEncodeGroup(bs[0], bs[1], bs[2]);
  }

  lemma SeqOfThree(bs: seq<Byte>)
    requires |bs| == 3
    ensures bs == [bs[0], bs[1], bs[2]]
  {
  }

  lemma DecodeEncodeGroup(b0: Byte, b1: Byte, b2: Byte)
    ensures Decode(Encode([b0, b1, b2])) == Some([b0, b1, b2])
  {
    var bs: seq<Byte> := [b0, b1, b2];
    var q := EncodeTriple(b0, b1, b2);
    assert Encode(bs[3..]) == [];
    assert Encode(bs) == q;
    DecodeEncodeTriple(b0, b1, b2);
  }

  lemma EncodeDecodeQuad(q: string, b: seq<Byte>)
    requires |q| == 4 && DecodeQuad(q) == Some(b)
    ensures |b| == 3 && EncodeTriple(b[0], b[1], b[2]) == q
  {
    var c0, c1, c2, c3 := IndexOf(q[0]).value, IndexOf(q[1]).value, IndexOf(q[2]).value, IndexOf(q[3]).value;
    assert b[0] / 4 == c0 && (b[0] % 4) * 16 + b[1] / 16 == c1;
    assert (b[1] % 16) * 4 + b[2] / 64 == c2 && b[2] % 64 == c3;
  }

  lemma EncodeDecodeLast(q: string, b: seq<Byte>)
    requires |q| == 4 && DecodeLast(q) == Some(b)
    ensures 1 <= |b| <= 3 && Encode(b) == q
  {
    if q[2] == '=' && q[3] == '=' {
      EncodeDecodePad2(q, b);
    } else if q[3] == '=' {
      EncodeDecodePad1(q, b);
    } else {
      EncodeDecodeQuad(q, b);
      assert b[3..] == [];
    }
  }

  lemma Pad2Sextets(c0: int, c1: int)
    requires 0 <= c0 < 64 && 0 <= c1 < 64 && c1 % 16 == 0
    ensures var b := c0 * 4 + c1 / 16; 0 <= b < 256 && b / 4 == c0 && (b % 4) * 16 == c1
  {
  }

  lemma Pad1Sextets(c0: int, c1: int, c2: int)
    requires 0 <= c0 < 64 && 0 <= c1 < 64 && 0 <= c2 < 64 && c2 % 4 == 0
    ensures var b0, b1 := c0 * 4 + c1 / 16, (c1 % 16) * 16 + c2 / 4;
      && 0 <= b0 < 256 && 0 <= b1 < 256
      && b0 / 4 == c0 && (b0 % 4) * 16 + b1 / 16 == c1 && (b1 % 16) * 4 == c2
  {
  }

  lemma EncodeDecodePad2(q: string, b: seq<Byte>)
    requires |q| == 4 && q[2] == '=' && q[3] == '=' && DecodeLast(q) == Some(b)
    ensures |b| == 1 && Encode(b) == q
  {
    var c0, c1 := IndexOf(q[0]).value, IndexOf(q[1]).value;
    assert b == [c0 * 4 + c1 / 16];
    var b0 := b[0];
    Pad2Sextets(c0, c1);
    assert b0 / 4 == c0 && (b0 % 4) * 16 == c1;
    assert EncodeTail(b) == [CharOf(c0), CharOf(c1), '=', '='];
    assert Encode(b) == EncodeTail(b);
  }

  lemma EncodeDecodePad1(q: string, b: seq<Byte>)
    requires |q| == 4 && q[2] != '=' && q[3] == '=' && DecodeLast(q) == Some(b)
    ensures |b| == 2 && Encode(b) == q
  {
    var c0, c1, c2 := IndexOf(q[0]).value, IndexOf(q[1]).value, IndexOf(q[2]).value;
    assert b == [c0 * 4 + c1 / 16, (c1 % 16) * 16 + c2 / 4];
    var b0, b1 := b[0], b[1];
    Pad1Sextets(c0, c1, c2);
    assert b0 / 4 == c0 && (b0 % 4) * 16 + b1 / 16 == c1 && (b1 % 16) * 4 == c2;
    assert EncodeTail(b) == [CharOf(c0), CharOf(c1), CharOf(c2), '='];
    assert Encode(b) == EncodeTail(b);
  }

  /** Decoding is canonical: a token that decodes is the encoding of what it decodes to. */
  lemma {:induction false} EncodeDecode(t: string, bs: seq<Byte>)
    requires Decode(t) == Some(bs)
    ensures Encode(bs) == t
    decreases |t|
  {
    if |t| == 4 {
      EncodeDecodeLast(t, bs);
    } else if |t| > 4 {
      var b := DecodeQuad(t[..4]).value;
      var rest := Decode(t[4..]).value;
      EncodeDecodeQuad(t[..4], b);
      EncodeDecode(t[4..], rest);
      assert |rest| > 0 by { EncodeLength(rest); }
      assert bs == b + rest;
      assert bs[3..] == rest;
      assert t == t[..4] + t[4..];
    }
  }

  /** Decode is exactly the inverse of Encode, in both directions. */
  lemma DecodeIff(t: string, bs: seq<Byte>)
    ensures Decode(t) == Some(bs) <==> Encode(bs) == t
  {
    if Decode(t) == Some(bs) { EncodeDecode(t, bs); }
    if Encode(bs) == t { DecodeEncode(bs); }
  }

  /** Every character of a token is in the alphabet, except `=` padding at the end. */
  lemma {:induction false} EncodeAlphabet(bs: seq<Byte>)
    ensures forall k :: 0 <= k < |Encode(bs)| ==>
      IsAlphabetChar(Encode(bs)[k]) || (Encode(bs)[k] == '=' && k >= |Encode(bs)| - 2)
  {
    if |bs| >= 3 {
      EncodeAlphabet(bs[3..]);
      var t := Encode(bs);
      assert t == EncodeTriple(bs[0], bs[1], bs[2]) + Encode(bs[3..]);
    }
  }

  /** The number of `=` at the end of a token. */
  function PadCount(t: string): nat
  {
    if |t| >= 2 && t[|t| - 2] == '=' && t[|t| - 1] == '=' then 2
    else if |t| >= 1 && t[|t| - 1] == '=' then 1
    else 0
  }

  lemma EncodePaddingTail(bs: seq<Byte>)
    requires |bs| < 3
    ensures PadCount(Encode(bs)) == Padding(|bs|)
  {
    if |bs| > 0 {
      EncodeShort(bs);
      PaddingShort(|bs|);
      PadCountTail(bs);
    }
  }

  lemma EncodeShort(bs: seq<Byte>)
    requires 1 <= |bs| <= 2
    ensures Encode(bs) == EncodeTail(bs)
  {
  }

  lemma PaddingShort(n: nat)
    requires 1 <= n <= 2
    ensures Padding(n) == 3 - n
  {
  }

  lemma PadCountTail(bs: seq<Byte>)
    requires 1 <= |bs| <= 2
    ensures PadCount(EncodeTail(bs)) == 3 - |bs|
  {
    var t := EncodeTail(bs);
    if |bs| == 2 {
      assert IsAlphabetChar(t[2]);
    }
  }

  /** The padding RFC 4648 prescribes for `n` input octets. */
  function Padding(n: nat): nat
  {
    if n % 3 == 1 then 2 else if n % 3 == 2 then 1 else 0
  }

  lemma PaddingShift(n: nat)
    requires n >= 3
    ensures Padding(n - 3) == Padding(n)
  {
  }

  /** Padding is decided by the last quad alone. */
  lemma PadCountAppend(q: string, r: string)
    requires |q| == 4 && q[3] != '='
    requires r == [] || |r| >= 2
    ensures PadCount(q + r) == PadCount(r)
  {
    var t := q + r;
    if r != [] {
      assert t[|t| - 1] == r[|r| - 1] && t[|t| - 2] == r[|r| - 2];
    }
  }

  lemma {:induction false} EncodePadding(bs: seq<Byte>)
    ensures PadCount(Encode(bs)) == Padding(|bs|)
  {
    if |bs| < 3 {
      EncodePaddingTail(bs);
    } else {
      var q := EncodeTriple(bs[0], bs[1], bs[2]);
      var r := Encode(bs[3..]);
      assert Encode(bs) == q + r;
      EncodeLength(bs[3..]);
      EncodePadding(bs[3..]);
      PaddingShift(|bs|);
      PadCountAppend(q, r);
    }
  }
}
