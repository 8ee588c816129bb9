/**
 * What the movie route reads out of a download heading
 * (app/api/movie/route.js): the resolution `/(\d{3,4}p)/`, the size
 * `/\[(\d+(\.\d+)?[GM]B)(\/E)?\]/` and the HEVC flag. Both patterns are
 * written out as backtracking matchers; `\d` without the `u` flag is the
 * ASCII digits only.
 */
module Labels {
  import opened Wrappers
  import Strings

  predicate IsDigit(c: char) { '0' <= c <= '9' }

  predicate AllDigits(s: string) { forall k :: 0 <= k < |s| ==> IsDigit(s[k]) }

  /** A text `(\d{3,4}p)` matches in full: three or four digits, then `p`. */
  predicate IsRes(m: string)
  {
    (|m| == 4 || |m| == 5) && AllDigits(m[..|m| - 1]) && m[|m| - 1] == 'p'
  }

  /** The match of `\d{3,4}p` starting at `i`: four digits are tried before three. */
  function ResAt(s: string, i: nat): Option<string>
  {
    if i + 5 <= |s| && AllDigits(s[i..i + 4]) && s[i + 4] == 'p' then Some(s[i..i + 5])
    else if i + 4 <= |s| && AllDigits(s[i..i + 3]) && s[i + 3] == 'p' then Some(s[i..i + 4])
    else None
  }

  /** The pattern matches at `i` exactly when a resolution text starts there, and it returns that text. */
  lemma ResAtIff(s: string, i: nat, m: string)
    ensures ResAt(s, i) == Some(m) <==> IsRes(m) && Strings.OccursAt(s, m, i)
  {
    if IsRes(m) && Strings.OccursAt(s, m, i) {
      assert s[i..i + |m|] == m;
      if |m| == 4 {
        assert s[i + 3] == m[3] == 'p';
        assert !IsDigit(s[i..i + 4][3]);
        assert s[i..i + 3] == m[..3];
      } else {
        assert s[i..i + 4] == m[..4];
      }
    }
    if ResAt(s, i) == Some(m) {
      if i + 5 <= |s| && AllDigits(s[i..i + 4]) && s[i + 4] == 'p' {
        assert m[..4] == s[i..i + 4];
      } else {
        assert m[..3] == s[i..i + 3];
      }
    }
  }

  /** The leftmost resolution match at or after `from`, with its position. */
  function FirstRes(s: string, from: nat): Option<(nat, string)>
    decreases |s| - from
  {
    if from >= |s| then None
    else if ResAt(s, from).Some? then Some((from, ResAt(s, from).value))
    else FirstRes(s, from + 1)
  }

  lemma {:induction false} FirstResSpec(s: string, from: nat)
    ensures FirstRes(s, from).Some? ==>
      var (i, m) := FirstRes(s, from).value;
      from <= i && ResAt(s, i) == Some(m) && forall j :: from <= j < i ==> ResAt(s, j).None?
    ensures FirstRes(s, from).None? ==> forall j :: from <= j ==> ResAt(s, j).None?
    decreases |s| - from
  {
    if from < |s| && ResAt(s, from).None? {
      FirstResSpec(s, from + 1);
    }
  }

  /** `label.match(/(\d{3,4}p)/)`, defaulting to "HD". */
  function Resolution(heading: string): string
  {
    match FirstRes(heading, 0)
    case None => "HD"
    case Some((_, m)) => m
  }

  /**
   * The resolution is "HD" exactly when no three- or four-digit `p` token
   * occurs; otherwise it is the leftmost such token, taken from the heading.
   */
  lemma ResolutionSpec(heading: string)
    ensures Resolution(heading) == "HD" <==> forall i: nat, m :: !(IsRes(m) && Strings.OccursAt(heading, m, i))
    ensures Resolution(heading) != "HD" ==> exists i: nat ::
      IsRes(Resolution(heading)) && Strings.OccursAt(heading, Resolution(heading), i) &&
      forall j: nat, m :: j < i ==> !(IsRes(m) && Strings.OccursAt(heading, m, j))
  {
    FirstResSpec(heading, 0);
    match FirstRes(heading, 0)
    case None =>
      forall i: nat, m ensures !(IsRes(m) && Strings.OccursAt(heading, m, i)) {
        ResAtIff(heading, i, m);
      }
    case Some((i, m)) =>
      ResAtIff(heading, i, m);
      assert m != "HD" by { assert |m| >= 4; }
      forall j: nat, m' | j < i ensures !(IsRes(m') && Strings.OccursAt(heading, m', j)) {
        ResAtIff(heading, j, m');
      }
  }

  /** The end of the run of digits starting at `j`. */
  function DigitEnd(s: string, j: nat): (e: nat)
    requires j <= |s|
    ensures j <= e <= |s|
    decreases |s| - j
  {
    if j < |s| && IsDigit(s[j]) then DigitEnd(s, j + 1) else j
  }

  lemma {:induction false} DigitEndSpec(s: string, j: nat)
    requires j <= |s|
    ensures AllDigits(s[j..DigitEnd(s, j)])
    ensures DigitEnd(s, j) == |s| || !IsDigit(s[DigitEnd(s, j)])
    decreases |s| - j
  {
    if j < |s| && IsDigit(s[j]) {
      DigitEndSpec(s, j + 1);
      assert s[j..DigitEnd(s, j)] == [s[j]] + s[j + 1..DigitEnd(s, j)];
    }
  }

  /** A text `(\d+(\.\d+)?[GM]B)` matches in full. */
  predicate IsSize(m: string)
  {
    |m| >= 3 && (m[|m| - 2] == 'G' || m[|m| - 2] == 'M') && m[|m| - 1] == 'B' && IsDecimal(m[..|m| - 2])
  }

  /** `\d+(\.\d+)?` matches in full. */
  predicate IsDecimal(n: string)
  {
    (|n| >= 1 && AllDigits(n)) ||
    exists p :: 0 < p < |n| - 1 && n[p] == '.' && AllDigits(n[..p]) && AllDigits(n[p + 1..])
  }

  /** Where the number in a size match starting with digits at `j` ends. */
  function NumberEnd(s: string, j: nat): (k: nat)
    requires j <= |s|
    ensures j <= k <= |s|
  {
    var d := DigitEnd(s, j);
    if d < |s| && s[d] == '.' && DigitEnd(s, d + 1) > d + 1 then DigitEnd(s, d + 1) else d
  }

  /**
   * The group-1 text of `\[(\d+(\.\d+)?[GM]B)(\/E)?\]` matched at `i`:
   * digit runs are maximal (a shorter run leaves a digit where `.`, `G` or
   * `M` is needed) and `/E` is tried before the closing bracket.
   */
  function SizeAt(s: string, i: nat): Option<string>
  {
    if i + 1 >= |s| || s[i] != '[' then None
    else if DigitEnd(s, i + 1) == i + 1 then None
    else
      var k := NumberEnd(s, i + 1);
      if k + 3 <= |s| && (s[k] == 'G' || s[k] == 'M') && s[k + 1] == 'B' &&
         (s[k + 2] == ']' || (k + 5 <= |s| && s[k + 2] == '/' && s[k + 3] == 'E' && s[k + 4] == ']'))
      then Some(s[i + 1..k + 2])
      else None
  }

  /** `m` is a size text written at `i` in brackets: `[m]` or `[m/E]`. */
  predicate BracketedSizeAt(s: string, i: nat, m: string)
  {
    IsSize(m) && i < |s| && s[i] == '[' && Strings.OccursAt(s, m, i + 1) &&
    ((i + 1 + |m| < |s| && s[i + 1 + |m|] == ']') || Strings.OccursAt(s, "/E]", i + 1 + |m|))
  }

  /** A size match is a bracketed size text, closed by `]` or `/E]`. */
  lemma SizeAtSound(s: string, i: nat)
    requires SizeAt(s, i).Some?
    ensures BracketedSizeAt(s, i, SizeAt(s, i).value)
  {
    var m := SizeAt(s, i).value;
    var k := NumberEnd(s, i + 1);
    NumberEndDecimal(s, i + 1);
    assert m[..|m| - 2] == s[i + 1..k];
    if s[k + 2] != ']' {
      assert s[k + 2..k + 5] == "/E]";
    }
  }

  /** From a digit, `NumberEnd` spans a decimal number. */
  lemma NumberEndDecimal(s: string, j: nat)
    requires j <= |s| && DigitEnd(s, j) > j
    ensures IsDecimal(s[j..NumberEnd(s, j)])
  {
    var d := DigitEnd(s, j);
    var k := NumberEnd(s, j);
    DigitEndSpec(s, j);
    if k != d {
      DigitEndSpec(s, d + 1);
      var n := s[j..k];
      var p := d - j;
      assert n[..p] == s[j..d];
      assert n[p + 1..] == s[d + 1..k];
      assert n[p] == '.';
    }
  }

  /** A maximal run of digits from `j` ends where `DigitEnd` says. */
  lemma {:induction false} DigitEndAt(s: string, j: nat, e: nat)
    requires j <= e <= |s| && AllDigits(s[j..e]) && (e == |s| || !IsDigit(s[e]))
    ensures DigitEnd(s, j) == e
    decreases e - j
  {
    if j < e {
      assert s[j] == s[j..e][0];
      assert s[j + 1..e] == s[j..e][1..];
      DigitEndAt(s, j + 1, e);
    }
  }

  /** A decimal number followed by neither a digit nor `.` ends where `NumberEnd` says. */
  lemma NumberEndAt(s: string, j: nat, n: string)
    requires IsDecimal(n) && Strings.OccursAt(s, n, j)
    requires j + |n| < |s| && !IsDigit(s[j + |n|]) && s[j + |n|] != '.'
    ensures NumberEnd(s, j) == j + |n|
  {
    var k := j + |n|;
    assert s[j..k] == n;
    if |n| >= 1 && AllDigits(n) {
      DigitEndAt(s, j, k);
    } else {
      var p :| 0 < p < |n| - 1 && n[p] == '.' && AllDigits(n[..p]) && AllDigits(n[p + 1..]);
      DottedEnd(s, j, n, p);
    }
  }

  lemma DottedEnd(s: string, j: nat, n: string, p: nat)
    requires 0 < p < |n| - 1 && n[p] == '.' && AllDigits(n[..p]) && AllDigits(n[p + 1..])
    requires Strings.OccursAt(s, n, j) && j + |n| < |s| && !IsDigit(s[j + |n|])
    ensures NumberEnd(s, j) == j + |n|
  {
    var k := j + |n|;
    assert s[j..k] == n;
    assert s[j..j + p] == n[..p];
    assert s[j + p] == n[p];
    DigitEndAt(s, j, j + p);
    assert s[j + p + 1..k] == n[p + 1..];
    DigitEndAt(s, j + p + 1, k);
  }

  /** Conversely, every bracketed size text closed by `]` or `/E]` is matched. */
  lemma SizeAtComplete(s: string, i: nat, m: string)
    requires BracketedSizeAt(s, i, m)
    ensures SizeAt(s, i) == Some(m)
  {
    var n := m[..|m| - 2];
    var k := i + 1 + |n|;
    assert s[i + 1..i + 1 + |m|] == m;
    assert s[i + 1..k] == n;
    assert s[k] == m[|m| - 2] && s[k + 1] == m[|m| - 1];
    NumberEndAt(s, i + 1, n);
    assert DigitEnd(s, i + 1) > i + 1 by { DigitEndSpec(s, i + 1); assert IsDigit(n[0]); }
    if !(k + 2 < |s| && s[k + 2] == ']') {
      assert s[k + 2..k + 5] == "/E]";
      assert s[k + 2] == '/' && s[k + 3] == 'E' && s[k + 4] == ']';
    }
  }

  /** The leftmost size match at or after `from`. */
  function FirstSize(s: string, from: nat): Option<(nat, string)>
    decreases |s| - from
  {
    if from >= |s| then None
    else if SizeAt(s, from).Some? then Some((from, SizeAt(s, from).value))
    else FirstSize(s, from + 1)
  }

  lemma {:induction false} FirstSizeSpec(s: string, from: nat)
    ensures FirstSize(s, from).Some? ==>
      var (i, m) := FirstSize(s, from).value;
      from <= i && SizeAt(s, i) == Some(m) && forall j :: from <= j < i ==> SizeAt(s, j).None?
    ensures FirstSize(s, from).None? ==> forall j :: from <= j ==> SizeAt(s, j).None?
    decreases |s| - from
  {
    if from < |s| && SizeAt(s, from).None? {
      FirstSizeSpec(s, from + 1);
    }
  }

  /** `label.match(size pattern)[1]`, defaulting to "N/A". */
  function Size(heading: string): string
  {
    match FirstSize(heading, 0)
    case None => "N/A"
    case Some((_, m)) => m
  }

  /**
   * The size is "N/A" or a size text that appears in the heading in
   * brackets (optionally with the `/E` marker), at the leftmost bracket
   * where the pattern matches.
   */
  lemma SizeSpec(heading: string)
    ensures Size(heading) == "N/A" <==> forall i: nat, m :: !BracketedSizeAt(heading, i, m)
    ensures Size(heading) != "N/A" ==> exists i: nat ::
      BracketedSizeAt(heading, i, Size(heading)) &&
      forall j: nat, m :: j < i ==> !BracketedSizeAt(heading, j, m)
  {
    FirstSizeSpec(heading, 0);
    match FirstSize(heading, 0)
    case None =>
      forall i: nat, m ensures !BracketedSizeAt(heading, i, m) {
        if BracketedSizeAt(heading, i, m) {
          SizeAtComplete(heading, i, m);
        }
      }
    case Some((i, m)) =>
      SizeAtSound(heading, i);
      assert m != "N/A" by { assert m[|m| - 1] == 'B'; }
      forall j: nat, m' | j < i ensures !BracketedSizeAt(heading, j, m') {
        if BracketedSizeAt(heading, j, m') {
          SizeAtComplete(heading, j, m');
        }
      }
  }

  /** "720p HEVC [1.2GB/E]" has the size "1.2GB": the `/E` marker is not part of it. */
  lemma SizeExample()
    ensures Size("720p HEVC [1.2GB/E]") == "1.2GB"
  {
    var s := "720p HEVC [1.2GB/E]";
    var m := "1.2GB";
    SizeTextExample();
    assert s[11..16] == m && s[16..19] == "/E]";
    assert BracketedSizeAt(s, 10, m);
    SizeAtComplete(s, 10, m);
    SizeAtFirstBracket(s, 10, m);
  }

  lemma SizeTextExample()
    ensures IsSize("1.2GB")
  {
    var n := "1.2";
    assert n[1] == '.' && AllDigits(n[..1]) && AllDigits(n[2..]);
  }

  /** A match at the first `[` of the heading is its size. */
  lemma SizeAtFirstBracket(s: string, i: nat, m: string)
    requires SizeAt(s, i) == Some(m) && forall j :: 0 <= j < i ==> s[j] != '['
    ensures Size(s) == m
  {
    FirstSizeSpec(s, 0);
    var (k, m') := FirstSize(s, 0).value;
    assert k == i;
  }

  /** `label.toLowerCase().includes("hevc")`. */
  function IsHevc(heading: string): (b: bool)
    ensures b <==> Strings.Contains(Strings.ToLower(heading), "hevc")
  {
    Strings.Includes(Strings.ToLower(heading), "hevc")
  }
}
