/**
 * GET /api/vlyxdrive?key=…&quality=… (app/api/vlyxdrive/route.ts): decode
 * a `vlyx_key` to the detail page's link, pick the last download heading
 * that mentions every search term of the quality string, and classify the
 * links of its buttons block by host.
 */
module VlyxdriveRoute {
  import opened Wrappers
  import opened Strings
  import opened Page
  import Seqs
  import Codec
  import Json
  import MovieRoute

  /** One pushed link: display name, URL and type tag. */
  datatype Link = Link(name: string, url: string, kind: string)

  /** Why the handler's `try` ends in its `catch`. */
  datatype Reason = Thrown(message: string) | SyntaxError | TypeError

  /** `{ status: true, data }`, `{ error }`, or `{ status: false, error }`. */
  datatype Body = Links(links: seq<Link>) | Error(message: string) | Failure(reason: Reason)

  datatype Response = Response(status: int, body: Body)

  /** What `JSON.parse(decodeBase64(key)).link` gives. */
  datatype Decoded = Linked(link: string) | Unparsable | NullValue

  /**
   * The key's `link`: a token or text that does not parse is a
   * SyntaxError, `null` is a TypeError on property access, and an object
   * without `link` gives `undefined`, which the proxy call turns into the
   * text "undefined".
   */
  function KeyLink(key: string): Decoded
  {
    match Codec.DecodeBase64(key)
    case None => Unparsable
    case Some(text) =>
      match Json.Parse(text)
      case None => Unparsable
      case Some(Null) => NullValue
      case Some(Object(members)) =>
        match Json.Get(members, "link")
        case None => Linked("undefined")
        case Some(link) => Linked(link)
  }

  /** The key the movie route emits for a link leads this route back to that link. */
  lemma KeyLinkOfVlyxKey(link: string)
    ensures KeyLink(MovieRoute.GenerateVlyxKey(link)) == Linked(link)
  {
    MovieRoute.VlyxKeyRoundTrip(link);
  }

  /** Unlike the ncloud route, a token of text that is not JSON is not taken as the link itself. */
  lemma KeyLinkOfPlainText(url: string)
    requires Json.Parse(url).None?
    ensures KeyLink(Codec.EncodeBase64(url)) == Unparsable
  {
    Codec.DecodeEncode(url);
  }

  /** The `.filter(s => s.length > 2)` test on a piece of the quality string. */
  function LongEnough(piece: string): Option<string>
  {
    if Utf16Length(piece) > 2 then Some(piece) else None
  }

  /** `quality.split(" ").filter(s => s.length > 2)`. */
  function SearchTerms(quality: string): seq<string>
  {
    Seqs.FilterMap(Split(quality, " "), LongEnough)
  }

  /** `terms.every(term => text.includes(term))`. */
  function Every(text: string, terms: seq<string>): bool
  {
    terms == [] || (Includes(text, terms[0]) && Every(text, terms[1..]))
  }

  lemma {:induction false} EveryIff(text: string, terms: seq<string>)
    ensures Every(text, terms) <==> forall t :: t in terms ==> Contains(text, t)
  {
    if terms != [] {
      EveryIff(text, terms[1..]);
      assert forall t :: t in terms ==> t == terms[0] || t in terms[1..];
    }
  }

  /** The heading's trimmed text mentions every search term. */
  function HeadingMatches(sec: Section, terms: seq<string>): bool
  {
    Every(Trim(sec.heading), terms)
  }

  /**
   * A heading matches exactly when its trimmed text contains every
   * space-separated piece of the quality string longer than two UTF-16
   * units; an empty quality string matches every heading.
   */
  lemma HeadingMatchesQuality(sec: Section, quality: string)
    ensures HeadingMatches(sec, SearchTerms(quality)) <==>
      forall t :: t in Split(quality, " ") && Utf16Length(t) > 2 ==> Contains(Trim(sec.heading), t)
    ensures quality == "" ==> HeadingMatches(sec, SearchTerms(quality))
  {
    var terms := SearchTerms(quality);
    var text := Trim(sec.heading);
    EveryIff(text, terms);
    forall t ensures t in terms <==> t in Split(quality, " ") && Utf16Length(t) > 2 {
      SearchTermsMembership(quality, t);
    }
    if quality == "" {
      assert Split(quality, " ") == [""];
    }
  }

  lemma SearchTermsMembership(quality: string, t: string)
    ensures t in SearchTerms(quality) <==> t in Split(quality, " ") && Utf16Length(t) > 2
  {
    var pieces := Split(quality, " ");
    Seqs.FilterMapMembership(pieces, LongEnough, t);
    if t in pieces && Utf16Length(t) > 2 {
      var i :| 0 <= i < |pieces| && pieces[i] == t;
      assert LongEnough(pieces[i]) == Some(t);
    }
  }

  function Matcher(terms: seq<string>): Section -> bool
  {
    sec => HeadingMatches(sec, terms)
  }

  /** The `targetDiv` the heading loop ends with: None, or the last matching heading's block. */
  function LastMatch(sections: seq<Section>, terms: seq<string>): Option<Option<seq<Anchor>>>
  {
    match Seqs.LastWhere(sections, Matcher(terms))
    case None => None
    case Some(i) => Some(sections[i].buttons)
  }

  /** The loop selects the block after the last matching heading, and nothing when none matches. */
  lemma LastMatchSpec(sections: seq<Section>, terms: seq<string>)
    ensures LastMatch(sections, terms).None? <==> forall i :: 0 <= i < |sections| ==> !HeadingMatches(sections[i], terms)
    ensures LastMatch(sections, terms).Some? ==> exists i ::
      && 0 <= i < |sections| && HeadingMatches(sections[i], terms)
      && LastMatch(sections, terms).value == sections[i].buttons
      && forall j :: i < j < |sections| ==> !HeadingMatches(sections[j], terms)
  {
    Seqs.LastWhereSpec(sections, Matcher(terms));
    assert forall i :: 0 <= i < |sections| ==> (Matcher(terms)(sections[i]) <==> HeadingMatches(sections[i], terms));
  }

  /** The `$(".download-links-div h4").each(...)` loop that overwrites `targetDiv`. */
  method SelectSection(sections: seq<Section>, terms: seq<string>) returns (targetDiv: Option<Option<seq<Anchor>>>)
    ensures targetDiv == LastMatch(sections, terms)
  {
    targetDiv := None;
    var i := 0;
    while i < |sections|
      invariant 0 <= i <= |sections|
      invariant targetDiv == LastMatch(sections[..i], terms)
    {
      var text := Trim(sections[i].heading);
      var isMatch := Every(text, terms);
      assert sections[..i + 1] == sections[..i] + [sections[i]];
      Seqs.LastWhereSnoc(sections[..i], sections[i], Matcher(terms));
      if isMatch {
        targetDiv := Some(sections[i].buttons);
      } else if Seqs.LastWhere(sections[..i], Matcher(terms)).Some? {
        var k := Seqs.LastWhere(sections[..i], Matcher(terms)).value;
        assert sections[..i + 1][k] == sections[..i][k];
      }
      i := i + 1;
    }
    assert sections[..i] == sections;
  }

  /** `targetDiv.find("a")`: no anchors without a match or with an empty block. */
  function TargetAnchors(targetDiv: Option<Option<seq<Anchor>>>): seq<Anchor>
  {
    match targetDiv
    case Some(Some(anchors)) => anchors
    case _ => []
  }

  /** What one anchor contributes: a link for a hubcloud, gdflix or Google Drive href. */
  function LinkOf(a: Anchor): Option<Link>
  {
    if a.href.None? || a.href.value == "" then None
    else
      var href := a.href.value;
      if Includes(href, "hubcloud") then Some(Link("N-Cloud", href, "ncloud"))
      else if Includes(href, "gdflix") then Some(Link("V-Cloud", href, "vcloud"))
      else if Includes(href, "drive.google") then Some(Link("G-Drive", href, "gdrive"))
      else None
  }

  /**
   * An anchor yields a link exactly when its href is non-empty and names
   * one of the three hosts; the link points at that href, and the first
   * host in the order hubcloud, gdflix, drive.google decides its type.
   */
  lemma LinkOfSpec(a: Anchor)
    ensures LinkOf(a).Some? <==> (
      && a.href.Some? && a.href.value != ""
      && (Contains(a.href.value, "hubcloud") || Contains(a.href.value, "gdflix") || Contains(a.href.value, "drive.google")))
    ensures LinkOf(a).Some? ==> var l := LinkOf(a).value; var h := a.href.value;
      l.url == h &&
      (l.kind == "ncloud" <==> Contains(h, "hubcloud")) &&
      (l.kind == "vcloud" <==> !Contains(h, "hubcloud") && Contains(h, "gdflix")) &&
      (l.kind == "gdrive" <==> !Contains(h, "hubcloud") && !Contains(h, "gdflix")) &&
      ((l.name, l.kind) == ("N-Cloud", "ncloud") || (l.name, l.kind) == ("V-Cloud", "vcloud") ||
       (l.name, l.kind) == ("G-Drive", "gdrive"))
  {
  }

  /** The `targetDiv.find("a").each(...)` loop that pushes onto `links`. */
  method ClassifyLinks(anchors: seq<Anchor>) returns (links: seq<Link>)
    ensures links == Seqs.FilterMap(anchors, LinkOf)
  {
    links := [];
    var i := 0;
    while i < |anchors|
      invariant 0 <= i <= |anchors|
      invariant links == Seqs.FilterMap(anchors[..i], LinkOf)
    {
      var href := anchors[i].href;
      Seqs.FilterMapStep(anchors, i, LinkOf);
      if href.Some? && href.value != "" {
        if Includes(href.value, "hubcloud") {
          links := links + [Link("N-Cloud", href.value, "ncloud")];
        } else if Includes(href.value, "gdflix") {
          links := links + [Link("V-Cloud", href.value, "vcloud")];
        } else if Includes(href.value, "drive.google") {
          links := links + [Link("G-Drive", href.value, "gdrive")];
        } else {
          assert LinkOf(anchors[i]) == None;
        }
      } else {
        assert LinkOf(anchors[i]) == None;
      }
      i := i + 1;
    }
    assert anchors[..i] == anchors;
  }

  /** `searchParams.get("quality") || ""`. */
  function QualityText(quality: Option<string>): string
  {
    if quality.Some? then quality.value else ""
  }

  /** The response for the `key` and `quality` parameters, given the proxy and the heading parser. */
  function VlyxdriveResponse(key: Option<string>, quality: Option<string>,
                             net: string -> Option<string>, parse: string -> seq<Section>): Response
  {
    if key.None? || key.value == "" then Response(400, Error("Missing Key"))
    else match KeyLink(key.value)
      case Unparsable => Response(500, Failure(SyntaxError))
      case NullValue => Response(500, Failure(TypeError))
      case Linked(m4uLink) =>
        var html := net(Codec.ProxiedUrl(m4uLink));
        if !Fetched(html) then Response(500, Failure(Thrown("Failed")))
        else
          var targetDiv := LastMatch(parse(html.value), SearchTerms(QualityText(quality)));
          Response(200, Links(Seqs.FilterMap(TargetAnchors(targetDiv), LinkOf)))
  }

  /** The route handler. */
  method Get(key: Option<string>, quality: Option<string>,
             net: string -> Option<string>, parse: string -> seq<Section>) returns (r: Response)
    ensures r == VlyxdriveResponse(key, quality, net, parse)
  {
    var qualityText := QualityText(quality);
    if key.None? || key.value == "" {
      return Response(400, Error("Missing Key"));
    }
    var decoded := KeyLink(key.value);
    if decoded.Unparsable? {
      return Response(500, Failure(SyntaxError));
    } else if decoded.NullValue? {
      return Response(500, Failure(TypeError));
    }
    var m4uLink := decoded.link;
    var html := net(Codec.ProxiedUrl(m4uLink));
    if !Fetched(html) {
      return Response(500, Failure(Thrown("Failed")));
    }
    // The search terms do not depend on the heading; they are computed once.
    var searchTerms := SearchTerms(qualityText);
    var targetDiv := SelectSection(parse(html.value), searchTerms);
    var links := ClassifyLinks(TargetAnchors(targetDiv));
    r := Response(200, Links(links));
  }

  /**
   * The links come from buttons of the last heading matching the terms,
   * each with a non-empty URL taken from such a button, and there are
   * none when no heading matches.
   */
  lemma SelectedLinks(sections: seq<Section>, terms: seq<string>)
    ensures var links := Seqs.FilterMap(TargetAnchors(LastMatch(sections, terms)), LinkOf);
      && ((forall i :: 0 <= i < |sections| ==> !HeadingMatches(sections[i], terms)) ==> links == [])
      && (forall l :: l in links ==> l.url != "" && exists a :: a in TargetAnchors(LastMatch(sections, terms)) && a.href == Some(l.url))
  {
    var anchors := TargetAnchors(LastMatch(sections, terms));
    if forall i :: 0 <= i < |sections| ==> !HeadingMatches(sections[i], terms) {
      LastMatchSpec(sections, terms);
      assert anchors == [];
    }
    LinksFromAnchors(anchors);
  }

  /** Every classified link carries the non-empty href of one of the anchors. */
  lemma LinksFromAnchors(anchors: seq<Anchor>)
    ensures forall l :: l in Seqs.FilterMap(anchors, LinkOf) ==>
      l.url != "" && exists a :: a in anchors && a.href == Some(l.url)
  {
    forall l | l in Seqs.FilterMap(anchors, LinkOf)
      ensures l.url != "" && exists a :: a in anchors && a.href == Some(l.url)
    {
      Seqs.FilterMapMembership(anchors, LinkOf, l);
      var i :| 0 <= i < |anchors| && LinkOf(anchors[i]) == Some(l);
      assert anchors[i] in anchors;
    }
  }

  /**
   * For a key made by the movie route, the route fetches that link and
   * answers 200 exactly when the page arrives, with the links of the
   * last heading matching the quality.
   */
  lemma VlyxdriveFromMovieKey(link: string, quality: Option<string>,
                              net: string -> Option<string>, parse: string -> seq<Section>)
    ensures var r := VlyxdriveResponse(Some(MovieRoute.GenerateVlyxKey(link)), quality, net, parse);
      && (r.status == 200 <==> Fetched(net(Codec.ProxiedUrl(link))))
      && (r.status != 200 ==> r == Response(500, Failure(Thrown("Failed"))))
      && (r.status == 200 ==> r.body == Links(Seqs.FilterMap(
            TargetAnchors(LastMatch(parse(net(Codec.ProxiedUrl(link)).value), SearchTerms(QualityText(quality)))), LinkOf)))
  {
    KeyLinkOfVlyxKey(link);
    MovieRoute.VlyxKeyNonEmpty(link);
  }

  /**
   * The route answers 400 exactly for a missing or empty key and 200
   * exactly when the key carries a link whose page arrives; a key that
   * does not parse and a page that does not arrive are 500s.
   */
  lemma VlyxdriveOutcomes(key: Option<string>, quality: Option<string>,
                          net: string -> Option<string>, parse: string -> seq<Section>)
    ensures var r := VlyxdriveResponse(key, quality, net, parse);
      && (r.status == 400 <==> key.None? || key.value == "")
      && (r.status == 200 <==> key.Some? && key.value != "" && KeyLink(key.value).Linked? &&
                               Fetched(net(Codec.ProxiedUrl(KeyLink(key.value).link))))
      && (r.status == 200 || r.status == 400 || r.status == 500)
      && (key.Some? && key.value != "" && KeyLink(key.value).Unparsable? ==> r == Response(500, Failure(SyntaxError)))
      && (key.Some? && key.value != "" && KeyLink(key.value).Linked? && !Fetched(net(Codec.ProxiedUrl(KeyLink(key.value).link)))
          ==> r == Response(500, Failure(Thrown("Failed"))))
  {
  }
}
