/**
 * The part of JSON (RFC 8259) the routes use: `JSON.stringify` of a
 * one-field object with a string value, and `JSON.parse` restricted to
 * `null` and objects whose members are all strings. Anything else is a
 * parse failure here.
 */
module Json {
  import opened Wrappers
  import Utf8

  datatype Value = Null | Object(members: seq<(string, string)>)

  /** Lower-case hex digit, as `JSON.stringify` writes `\u00XX`. */
  function LowerHexDigit(d: int): (c: char)
    requires 0 <= d < 16
    ensures HexValue(c) == Some(d)
  {
    if d < 10 then ('0' as int + d) as char else ('a' as int + d - 10) as char
  }

  function HexValue(c: char): (r: Option<int>)
    ensures r.Some? ==> 0 <= r.value < 16
  {
    if '0' <= c <= '9' then Some(c as int - '0' as int)
    else if 'a' <= c <= 'f' then Some(c as int - 'a' as int + 10)
    else if 'A' <= c <= 'F' then Some(c as int - 'A' as int + 10)
    else None
  }

  /** How `JSON.stringify` writes one character inside a string literal (RFC 8259, section 7). */
  function EscapeChar(c: char): (r: string)
    ensures r != [] && (r[0] == '\\' || r == [c])
    ensures c == '"' || c == '\\' || c as int < 0x20 ==> |r| >= 2 && r[0] == '\\'
    ensures c != '"' && c != '\\' && c as int >= 0x20 ==> r == [c]
  {
    if c == '"' then "\\\""
    else if c == '\\' then "\\\\"
    else if c == '\U{0008}' then "\\b"
    else if c == '\t' then "\\t"
    else if c == '\n' then "\\n"
    else if c == '\U{000C}' then "\\f"
    else if c == '\r' then "\\r"
    else if c as int < 0x20 then ['\\', 'u', '0', '0', LowerHexDigit(c as int / 16), LowerHexDigit(c as int % 16)]
    else [c]
  }

  function EscapeBody(s: string): string
  {
    if s == [] then [] else EscapeChar(s[0]) + EscapeBody(s[1..])
  }

  /** A JSON string literal for `s`. */
  function Quote(s: string): (r: string)
    ensures |r| >= 2 && r[0] == '"' && r[|r| - 1] == '"'
  {
    "\"" + EscapeBody(s) + "\""
  }

  /** `JSON.stringify({ [key]: value })`: no whitespace, key then value. */
  function StringifyField(key: string, value: string): string
  {
    "{" + Quote(key) + ":" + Quote(value) + "}"
  }

  predicate IsWs(c: char) { c == ' ' || c == '\t' || c == '\n' || c == '\r' }

  function SkipWs(s: string): (r: string)
    ensures |r| <= |s| && r == s[|s| - |r|..]
    ensures r != [] ==> !IsWs(r[0])
  {
    if s != [] && IsWs(s[0]) then SkipWs(s[1..]) else s
  }

  /** The string body after an opening quote: its value and what follows the closing quote. */
  function ParseStringBody(s: string): (r: Option<(string, string)>)
    decreases |s|
    ensures r.Some? ==> |r.value.1| < |s|
  {
    if s == [] then None
    else if s[0] == '"' then Some(([], s[1..]))
    else if s[0] == '\\' then
      if |s| < 2 then None
      else
        var simple := SimpleEscape(s[1]);
        if simple.Some? then Prepend(simple.value, ParseStringBody(s[2..]))
        else if s[1] == 'u' && |s| >= 6 then
          match (HexValue(s[2]), HexValue(s[3]), HexValue(s[4]), HexValue(s[5]))
          case (Some(d0), Some(d1), Some(d2), Some(d3)) =>
            var v := ((d0 * 16 + d1) * 16 + d2) * 16 + d3;
            if Utf8.IsScalar(v) then Prepend(v as char, ParseStringBody(s[6..])) else None
          case _ => None
        else None
    else if s[0] as int < 0x20 then None
    else Prepend(s[0], ParseStringBody(s[1..]))
  }

  function SimpleEscape(e: char): Option<char>
  {
    if e == '"' then Some('"')
    else if e == '\\' then Some('\\')
    else if e == '/' then Some('/')
    else if e == 'b' then Some('\U{0008}')
    else if e == 'f' then Some('\U{000C}')
    else if e == 'n' then Some('\n')
    else if e == 'r' then Some('\r')
    else if e == 't' then Some('\t')
    else None
  }

  function Prepend(c: char, r: Option<(string, string)>): Option<(string, string)>
  {
    match r
    case None => None
    case Some((body, rest)) => Some(([c] + body, rest))
  }

  function ParseString(s: string): (r: Option<(string, string)>)
    ensures r.Some? ==> |r.value.1| < |s|
  {
    if s != [] && s[0] == '"' then ParseStringBody(s[1..]) else None
  }

  /** One `"key" : "value"` member, with surrounding whitespace. */
  function ParseMember(s: string): (r: Option<((string, string), string)>)
    ensures r.Some? ==> |r.value.1| < |s|
  {
    match ParseString(SkipWs(s))
    case None => None
    case Some((k, r1)) => ParseMemberValue(k, SkipWs(r1))
  }

  /** The rest of a member after its key: a colon, then the value. */
  function ParseMemberValue(k: string, r2: string): (r: Option<((string, string), string)>)
    ensures r.Some? ==> |r.value.1| < |r2|
  {
    if r2 != [] && r2[0] == ':' then
      match ParseString(SkipWs(r2[1..]))
      case None => None
      case Some((v, r3)) => Some(((k, v), SkipWs(r3)))
    else None
  }

  function ConsMember(m: (string, string), r: Option<(seq<(string, string)>, string)>): Option<(seq<(string, string)>, string)>
  {
    match r
    case None => None
    case Some((ms, rest)) => Some(([m] + ms, rest))
  }

  /** A member, then `, member` repeated, then the closing brace. */
  function ParseMembers(s: string): (r: Option<(seq<(string, string)>, string)>)
    decreases |s|, 1
  {
    match ParseMember(s)
    case None => None
    case Some((m, r1)) => ConsMember(m, ParseMoreMembers(r1))
  }

  function ParseMoreMembers(s: string): (r: Option<(seq<(string, string)>, string)>)
    decreases |s|, 0
  {
    if s != [] && s[0] == '}' then Some(([], s[1..]))
    else if s != [] && s[0] == ',' then ParseMembers(s[1..])
    else None
  }

  function ParseObjectBody(s: string): Option<(seq<(string, string)>, string)>
  {
    var t := SkipWs(s);
    if t != [] && t[0] == '}' then Some(([], t[1..])) else ParseMembers(t)
  }

  /** `JSON.parse` on the modelled subset; None is a thrown SyntaxError. */
  function Parse(text: string): Option<Value>
  {
    var t := SkipWs(text);
    if t != [] && t[0] == '{' then
      match ParseObjectBody(t[1..])
      case None => None
      case Some((ms, rest)) => if SkipWs(rest) == [] then Some(Object(ms)) else None
    else if |t| >= 4 && t[..4] == "null" then
      if SkipWs(t[4..]) == [] then Some(Null) else None
    else None
  }

  /** Property access on a parsed object: the last member with that key wins. */
  function Get(members: seq<(string, string)>, key: string): (r: Option<string>)
    ensures r.Some? <==> exists k :: 0 <= k < |members| && members[k].0 == key
    ensures r.Some? ==> exists k :: 0 <= k < |members| && members[k] == (key, r.value)
  {
    if members == [] then None
    else if members[|members| - 1].0 == key then Some(members[|members| - 1].1)
    else Get(members[..|members| - 1], key)
  }

  lemma {:induction false} ParseEscapeChar(c: char, t: string)
    ensures ParseStringBody(EscapeChar(c) + t) == Prepend(c, ParseStringBody(t))
  {
    var s := EscapeChar(c) + t;
    if c as int < 0x20 && c != '\U{0008}' && c != '\t' && c != '\n' && c != '\U{000C}' && c != '\r' {
      var v := c as int;
      assert s[6..] == t;
      assert ((0 * 16 + 0) * 16 + v / 16) * 16 + v % 16 == v;
    } else if |EscapeChar(c)| == 2 {
      assert s[2..] == t;
    } else {
      assert s[1..] == t;
    }
  }

  lemma {:induction false} ParseEscapeBody(x: string, rest: string)
    ensures ParseStringBody(EscapeBody(x) + "\"" + rest) == Some((x, rest))
  {
    if x == [] {
      assert EscapeBody(x) + "\"" + rest == "\"" + rest;
    } else {
      assert EscapeBody(x) + "\"" + rest == EscapeChar(x[0]) + (EscapeBody(x[1..]) + "\"" + rest);
      ParseEscapeChar(x[0], EscapeBody(x[1..]) + "\"" + rest);
      ParseEscapeBody(x[1..], rest);
      assert [x[0]] + x[1..] == x;
    }
  }

  /** A quoted string literal parses back to the string it quotes. */
  lemma {:induction false} ParseQuote(x: string, rest: string)
    ensures ParseString(Quote(x) + rest) == Some((x, rest))
  {
    var s := Quote(x) + rest;
    assert s[1..] == EscapeBody(x) + "\"" + rest;
    ParseEscapeBody(x, rest);
  }

  lemma SkipWsNothing(s: string)
    requires s == [] || !IsWs(s[0])
    ensures SkipWs(s) == s
  {
  }

  lemma {:induction false} ParseQuoteAfterWs(x: string, rest: string)
    ensures ParseString(SkipWs(Quote(x) + rest)) == Some((x, rest))
  {
    SkipWsNothing(Quote(x) + rest);
    ParseQuote(x, rest);
  }

  lemma {:induction false} ParseMemberQuoted(key: string, value: string, rest: string)
    requires rest == [] || !IsWs(rest[0])
    ensures ParseMember(Quote(key) + ":" + Quote(value) + rest) == Some(((key, value), rest))
  {
    var qv := Quote(value) + rest;
    var r1 := ":" + qv;
    Regroup(Quote(key), ":", Quote(value), rest);
    ParseQuoteAfterWs(key, r1);
    SkipWsNothing(r1);
    DropHead(':', qv);
    ParseQuoteAfterWs(value, rest);
    SkipWsNothing(rest);
    ParseMemberSteps(Quote(key) + r1, key, r1, value, rest);
  }

  lemma Regroup(a: string, b: string, c: string, d: string)
    ensures a + b + c + d == a + (b + (c + d))
  {
  }

  lemma DropHead(x: char, t: string)
    ensures ([x] + t)[1..] == t && ([x] + t)[0] == x
  {
  }

  /** How `ParseMember` goes through a key, a colon and a value. */
  lemma ParseMemberSteps(s: string, k: string, r1: string, v: string, r3: string)
    requires ParseString(SkipWs(s)) == Some((k, r1))
    requires SkipWs(r1) == r1 && r1 != [] && r1[0] == ':'
    requires ParseString(SkipWs(r1[1..])) == Some((v, r3))
    ensures ParseMember(s) == Some(((k, v), SkipWs(r3)))
  {
    assert ParseMemberValue(k, r1) == Some(((k, v), SkipWs(r3)));
  }

  lemma {:induction false} ParseObjectBodyField(key: string, value: string)
    ensures ParseObjectBody(Quote(key) + ":" + Quote(value) + "}") == Some(([(key, value)], []))
  {
    var body := Quote(key) + ":" + Quote(value) + "}";
    Regroup(Quote(key), ":", Quote(value), "}");
    QuoteFirst(key, ":" + (Quote(value) + "}"));
    SkipWsNothing(body);
    ParseMemberQuoted(key, value, "}");
    ClosingBrace();
    ParseObjectBodySteps(body, (key, value), "}", [], []);
    assert [(key, value)] + [] == [(key, value)];
  }

  lemma QuoteFirst(x: string, t: string)
    ensures Quote(x) + t != [] && (Quote(x) + t)[0] == '"'
  {
  }

  /** How `ParseObjectBody` goes through a first member and what follows it. */
  lemma ParseObjectBodySteps(t: string, m: (string, string), r1: string, ms: seq<(string, string)>, rest: string)
    requires SkipWs(t) == t && t != [] && t[0] != '}'
    requires ParseMember(t) == Some((m, r1)) && ParseMoreMembers(r1) == Some((ms, rest))
    ensures ParseObjectBody(t) == Some(([m] + ms, rest))
  {
  }

  lemma ClosingBrace()
    ensures ParseMoreMembers("}") == Some(([], []))
  {
    assert "}"[1..] == [];
  }

  /** `JSON.parse(JSON.stringify({ [key]: value }))` is that one-member object. */
  lemma {:induction false} ParseStringifyField(key: string, value: string)
    ensures Parse(StringifyField(key, value)) == Some(Object([(key, value)]))
  {
    var body := Quote(key) + ":" + Quote(value) + "}";
    RegroupAfter("{", Quote(key), ":", Quote(value), "}");
    ParseObjectBodyField(key, value);
    ParseObjectText(body, [(key, value)]);
  }

  lemma RegroupAfter(a: string, b: string, c: string, d: string, e: string)
    ensures a + b + c + d + e == a + (b + c + d + e)
  {
  }

  /** How `Parse` goes through an object that fills the whole text. */
  lemma ParseObjectText(body: string, ms: seq<(string, string)>)
    requires ParseObjectBody(body) == Some((ms, []))
    ensures Parse("{" + body) == Some(Object(ms))
  {
    var t := "{" + body;
    DropHead('{', body);
    SkipWsNothing(t);
  }
}
