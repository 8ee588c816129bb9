/**
 * `cleanTitle`, defined identically in app/api/home/route.ts,
 * app/api/route.ts and app/api/movie/route.js:
 * `raw.split(/HQ|HDTC|Dual Audio|480p|720p|1080p|WEB-DL/i)[0].trim()`.
 */
module Title {
  import opened Wrappers
  import opened Strings

  /** The release-tag markers of the regular expression, in its order. */
  const Markers: seq<string> := ["HQ", "HDTC", "Dual Audio", "480p", "720p", "1080p", "WEB-DL"]

  /**
   * The case folding of a non-unicode `/i` regular expression on these
   * ASCII patterns: only `A`-`Z` and `a`-`z` are identified.
   */
  function FoldChar(c: char): char
  {
    if 'a' <= c <= 'z' then (c as int - 32) as char else c
  }

  function Fold(s: string): (r: string)
    ensures |r| == |s| && forall k :: 0 <= k < |s| ==> r[k] == FoldChar(s[k])
  {
    seq(|s|, k requires 0 <= k < |s| => FoldChar(s[k]))
  }

  /** Marker `m` matches case-insensitively at index `i` of `s`. */
  predicate MatchesAt(s: string, m: string, i: int)
  {
    0 <= i && i + |m| <= |s| && Fold(s[i..i + |m|]) == Fold(m)
  }

  /** Some marker matches at index `i` of `s`. */
  predicate MarkerAt(s: string, i: int)
  {
    exists k :: 0 <= k < |Markers| && MatchesAt(s, Markers[k], i)
  }

  /** `s` contains no marker anywhere. */
  predicate MarkerFree(s: string)
  {
    forall i :: 0 <= i < |s| ==> !MarkerAt(s, i)
  }

  /** Where the first piece of the split ends: the leftmost marker, or the end. */
  function CutFrom(s: string, from: nat): (p: nat)
    requires from <= |s|
    decreases |s| - from
    ensures from <= p <= |s|
    ensures p < |s| ==> MarkerAt(s, p)
    ensures forall j :: from <= j < p ==> !MarkerAt(s, j)
  {
    if from == |s| || MarkerAt(s, from) then from else CutFrom(s, from + 1)
  }

  function CleanTitle(raw: string): string
  {
    Trim(raw[..CutFrom(raw, 0)])
  }

  /**
   * The cleaned title is a slice of the title that ends before the first
   * marker, and it holds no marker.
   */
  lemma CleanTitleMarkerFree(raw: string)
    ensures MarkerFree(CleanTitle(raw))
    ensures exists i, j :: 0 <= i <= j <= CutFrom(raw, 0) && CleanTitle(raw) == raw[i..j]
  {
    var p := CutFrom(raw, 0);
    var r := Trim(raw[..p]);
    assert MarkerFree(raw[..p]) by {
      forall i | 0 <= i < p ensures !MarkerAt(raw[..p], i) {
        if MarkerAt(raw[..p], i) { MarkerAtSlice(raw, 0, p, i); }
      }
    }
    TrimSlice(raw[..p]);
    var i, j :| 0 <= i <= j <= p && r == raw[..p][i..j];
    assert r == raw[i..j];
    MarkerFreeSlice(raw[..p], i, j);
  }

  /** A match inside a slice is a match in the whole string. */
  lemma MarkerAtSlice(s: string, a: nat, b: nat, i: int)
    requires a <= b <= |s| && MarkerAt(s[a..b], i)
    ensures MarkerAt(s, a + i)
  {
    var k :| 0 <= k < |Markers| && MatchesAt(s[a..b], Markers[k], i);
    MatchesAtSlice(s, a, b, Markers[k], i);
  }

  lemma MatchesAtSlice(s: string, a: nat, b: nat, m: string, i: int)
    requires a <= b <= |s| && MatchesAt(s[a..b], m, i)
    ensures MatchesAt(s, m, a + i)
  {
    SliceOfSlice(s, a, b, i, i + |m|);
  }

  lemma MarkerFreeSlice(s: string, a: nat, b: nat)
    requires a <= b <= |s| && MarkerFree(s)
    ensures MarkerFree(s[a..b])
  {
    forall i | 0 <= i < b - a ensures !MarkerAt(s[a..b], i) {
      if MarkerAt(s[a..b], i) { MarkerAtSlice(s, a, b, i); }
    }
  }

  /**
   * The cleaned title is the trimmed text before the leftmost marker (or
   * the whole title when there is none).
   */
  lemma CleanTitleBeforeFirstMarker(raw: string, p: nat)
    requires p <= |raw| && (p == |raw| || MarkerAt(raw, p))
    requires forall j :: 0 <= j < p ==> !MarkerAt(raw, j)
    ensures CleanTitle(raw) == Trim(raw[..p])
  {
    var q := CutFrom(raw, 0);
    assert q < p ==> MarkerAt(raw, q);
    assert p < q ==> !MarkerAt(raw, p);
  }

  /** A title with no marker is only trimmed. */
  lemma CleanTitleNoMarker(raw: string)
    requires MarkerFree(raw)
    ensures CleanTitle(raw) == Trim(raw)
  {
    assert CutFrom(raw, 0) == |raw| by { CutFromMarkerFree(raw, 0); }
    assert raw[..|raw|] == raw;
  }

  lemma {:induction false} CutFromMarkerFree(s: string, from: nat)
    requires from <= |s| && MarkerFree(s)
    ensures CutFrom(s, from) == |s|
    decreases |s| - from
  {
    if from < |s| { CutFromMarkerFree(s, from + 1); }
  }

  /** A title that starts with a marker cleans to the empty string. */
  lemma CleanTitleLeadingMarker(raw: string)
    requires MarkerAt(raw, 0)
    ensures CleanTitle(raw) == ""
  {
    assert CutFrom(raw, 0) == 0;
  }

  /** Cleaning twice is cleaning once. */
  lemma CleanTitleIdempotent(raw: string)
    ensures CleanTitle(CleanTitle(raw)) == CleanTitle(raw)
  {
    var r := CleanTitle(raw);
    CleanTitleMarkerFree(raw);
    CleanTitleNoMarker(r);
    TrimIdempotent(raw[..CutFrom(raw, 0)]);
  }
}
