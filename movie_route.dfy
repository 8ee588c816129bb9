/**
 * GET /api/movie?slug=… (app/api/movie/route.js): decode the listing's
 * slug token back to the post's URL, fetch the detail page, and list each
 * download heading's first ordinary button with a resolution, a size, an
 * HEVC flag and a `vlyx_key` token for the quality matcher.
 */
module MovieRoute {
  import opened Wrappers
  import opened Strings
  import opened Page
  import Seqs
  import Title
  import Codec
  import Json
  import Labels
  import Listing

  /** One pushed episode link. */
  datatype Episode = Episode(labelText: string, res: string, isHevc: bool, size: string, url: string, vlyxKey: string)

  /** An `h3` and the text of its next sibling when that sibling is a `p`. */
  datatype Subheading = Subheading(text: string, nextParagraph: Option<string>)

  /**
   * The parts of the detail page the route reads: the texts of the `h1`s,
   * the src of the first `.post-thumbnail img`, the `h3`s, and the
   * `.download-links-div h4` headings.
   */
  datatype DetailPage = DetailPage(headlines: seq<string>, posterSrc: Option<string>,
                                   subheadings: seq<Subheading>, sections: seq<Section>)

  /** The `data` object; a missing poster is an absent field. */
  datatype Details = Details(title: string, poster: Option<string>, description: string,
                             episodeLinks: seq<Episode>, batchLinks: seq<Episode>)

  /** `{ status: true, data }`, `{ error }`, or `{ status: false, error }`. */
  datatype Body = Data(details: Details) | Error(message: string) | Failure(message: string)

  datatype Response = Response(status: int, body: Body)

  /** `generateVlyxKey(link)`: the token of `JSON.stringify({ link })`. */
  function GenerateVlyxKey(link: string): string
  {
    Codec.EncodeBase64(Json.StringifyField("link", link))
  }

  /** A `vlyx_key` decodes and parses back to `{ link }`, whose `link` is the original link. */
  lemma VlyxKeyRoundTrip(link: string)
    ensures Codec.DecodeBase64(GenerateVlyxKey(link)) == Some(Json.StringifyField("link", link))
    ensures Json.Parse(Json.StringifyField("link", link)) == Some(Json.Object([("link", link)]))
    ensures Json.Get([("link", link)], "link") == Some(link)
  {
    Codec.DecodeEncode(Json.StringifyField("link", link));
    Json.ParseStringifyField("link", link);
  }

  /** A key is never empty, so the routes that receive one never report it missing. */
  lemma VlyxKeyNonEmpty(link: string)
    ensures GenerateVlyxKey(link) != ""
  {
    var text := Json.StringifyField("link", link);
    assert text[0] == '{';
    Codec.EncodeBase64Shape(text);
  }

  /** Different links get different keys. */
  lemma VlyxKeyInjective(a: string, b: string)
    requires GenerateVlyxKey(a) == GenerateVlyxKey(b)
    ensures a == b
  {
    VlyxKeyRoundTrip(a);
    VlyxKeyRoundTrip(b);
  }

  /**
   * `${baseUrl}/${path}/` for `[path, baseUrl] = decoded.split("|||")`; a
   * missing second piece interpolates as "undefined".
   */
  function TargetUrl(decoded: string): string
  {
    var pieces := Split(decoded, Listing.Delimiter);
    var baseUrl := if |pieces| >= 2 then pieces[1] else "undefined";
    baseUrl + "/" + pieces[0] + "/"
  }

  /** Text without the delimiter is taken as a path under "undefined". */
  lemma TargetUrlNoDelimiter(decoded: string)
    requires !Contains(decoded, Listing.Delimiter)
    ensures TargetUrl(decoded) == "undefined/" + decoded + "/"
  {
  }

  /** The URL the route fetches for a slug, or None when the slug does not decode. */
  function RequestedUrl(slug: string): Option<string>
  {
    match Codec.DecodeBase64(slug)
    case None => None
    case Some(decoded) => Some(TargetUrl(decoded))
  }

  /** A string without `|` has the delimiter only where one is appended to it. */
  lemma DelimiterAppended(a: string)
    requires '|' !in a
    ensures IndexOf(a + Listing.Delimiter, Listing.Delimiter) == Some(|a|)
  {
    var s := a + Listing.Delimiter;
    assert OccursAt(s, Listing.Delimiter, |a|);
    forall j | 0 <= j < |a| ensures !OccursAt(s, Listing.Delimiter, j) {
      assert s[j..j + 3][0] == s[j] == a[j];
      assert a[j] in a;
    }
    ContainsWitness(s, Listing.Delimiter, |a|);
  }

  lemma NoDelimiter(s: string)
    requires '|' !in s
    ensures !Contains(s, Listing.Delimiter)
  {
    forall i | 0 <= i <= |s| - 3 ensures !OccursAt(s, Listing.Delimiter, i) {
      assert s[i..i + 3][0] == s[i];
      assert s[i] in s;
    }
  }

  /** The listing strips the domain and every `/` from a link under the domain. */
  lemma SlugPartOfLink(domain: string, path: string)
    requires '/' !in path
    ensures Listing.SlugPart(domain + "/" + path + "/", domain) == path
  {
    var link := domain + "/" + path + "/";
    assert link[..|domain|] == domain;
    assert OccursAt(link, domain, 0);
    assert IndexOf(link, domain) == Some(0);
    assert RemoveFirst(link, domain) == "/" + path + "/" by {
      assert link[0 + |domain|..] == "/" + path + "/";
    }
    RemoveAllAppend("/" + path, "/", '/');
    RemoveAllAppend("/", path, '/');
    RemoveAllAbsent(path, '/');
  }

  /**
   * The slug round trip: the slug the listing emits for a post whose link
   * is `domain/path/` makes this route fetch that same link, provided
   * neither the path nor the domain holds a `|`.
   */
  lemma SlugRoundTrip(domain: string, path: string)
    requires '/' !in path && '|' !in path && '|' !in domain
    ensures RequestedUrl(Codec.EncodeBase64(Listing.SlugText(domain + "/" + path + "/", domain)))
      == Some(domain + "/" + path + "/")
  {
    var link := domain + "/" + path + "/";
    SlugPartOfLink(domain, path);
    Codec.DecodeEncode(Listing.SlugText(link, domain));
    NoDelimiter(domain);
    TargetUrlJoin(path, domain);
  }

  /** Text made of a `|`-free part, the delimiter and a delimiter-free rest targets `rest/part/`. */
  lemma TargetUrlJoin(a: string, rest: string)
    requires '|' !in a && !Contains(rest, Listing.Delimiter)
    ensures TargetUrl(a + Listing.Delimiter + rest) == rest + "/" + a + "/"
  {
    DelimiterAppended(a);
    SplitJoin(a, Listing.Delimiter, rest);
  }

  /**
   * Without the `|` restriction the round trip breaks: a path ending in `|`
   * runs into the delimiter, so the split cuts one character early and the
   * route asks for a different URL.
   */
  lemma SlugTrailingBar(path: string, domain: string)
    requires '|' !in path && '|' !in domain
    ensures TargetUrl(path + "|" + Listing.Delimiter + domain) == "|" + domain + "/" + path + "/"
    ensures TargetUrl(path + "|" + Listing.Delimiter + domain) != domain + "/" + path + "|" + "/"
  {
    var rest := "|" + domain;
    ShiftBar(path, domain);
    BarNoDelimiter(domain);
    TargetUrlJoin(path, rest);
    FirstChars(rest, path, domain);
  }

  lemma ShiftBar(path: string, domain: string)
    ensures path + "|" + Listing.Delimiter + domain == path + Listing.Delimiter + ("|" + domain)
  {
  }

  lemma FirstChars(rest: string, path: string, domain: string)
    requires rest == "|" + domain && '|' !in domain
    ensures rest + "/" + path + "/" != domain + "/" + path + "|" + "/"
  {
    assert (rest + "/" + path + "/")[0] == '|';
    assert (domain + "/" + path + "|" + "/")[0] == (if domain == [] then '/' else domain[0]);
  }

  lemma BarNoDelimiter(domain: string)
    requires '|' !in domain
    ensures !Contains("|" + domain, Listing.Delimiter)
  {
    var s := "|" + domain;
    forall i | 0 <= i <= |s| - 3 ensures !OccursAt(s, Listing.Delimiter, i) {
      assert s[i..i + 3][1] == s[i + 1] == domain[i];
      assert domain[i] in domain;
    }
  }

  /** The element matches `a.btn:not(.btn-zip)`. */
  predicate IsNormal(a: Anchor) { IsBtn(a) && "btn-zip" !in a.classes }

  /** `.find("a.btn:not(.btn-zip)").attr("href")`: the href of the first such anchor. */
  function FirstNormalHref(anchors: seq<Anchor>): Option<string>
  {
    if anchors == [] then None
    else if IsNormal(anchors[0]) then anchors[0].href
    else FirstNormalHref(anchors[1..])
  }

  /** It is the first ordinary button's href, or None when there is no such button. */
  lemma {:induction false} FirstNormalHrefSpec(anchors: seq<Anchor>)
    ensures (forall i :: 0 <= i < |anchors| ==> !IsNormal(anchors[i])) ==> FirstNormalHref(anchors) == None
    ensures forall i :: (0 <= i < |anchors| && IsNormal(anchors[i]) && (forall j :: 0 <= j < i ==> !IsNormal(anchors[j])))
                        ==> FirstNormalHref(anchors) == anchors[i].href
  {
    if anchors != [] {
      FirstNormalHrefSpec(anchors[1..]);
      forall i | 0 < i < |anchors| && IsNormal(anchors[i]) && (forall j :: 0 <= j < i ==> !IsNormal(anchors[j]))
        ensures FirstNormalHref(anchors) == anchors[i].href
      {
        assert !IsNormal(anchors[0]);
        assert anchors[1..][i - 1] == anchors[i];
        forall j | 0 <= j < i - 1 ensures !IsNormal(anchors[1..][j]) {
          assert anchors[1..][j] == anchors[j + 1];
        }
      }
      if forall i :: 0 <= i < |anchors| ==> !IsNormal(anchors[i]) {
        forall j | 0 <= j < |anchors| - 1 ensures !IsNormal(anchors[1..][j]) {
          assert anchors[1..][j] == anchors[j + 1];
        }
      }
    }
  }

  /** The heading's button, when the heading has a buttons block. */
  function NormalButton(buttons: Option<seq<Anchor>>): Option<string>
  {
    match buttons
    case None => None
    case Some(anchors) => FirstNormalHref(anchors)
  }

  /** What one heading contributes: an episode when its button has a non-empty href. */
  function EpisodeOf(sec: Section): Option<Episode>
  {
    var labelText := Trim(sec.heading);
    var btn := NormalButton(sec.buttons);
    if btn.Some? && btn.value != "" then
      Some(Episode(labelText, Labels.Resolution(labelText), Labels.IsHevc(labelText), Labels.Size(labelText),
                   btn.value, GenerateVlyxKey(btn.value)))
    else None
  }

  /**
   * A heading yields an episode exactly when its button has a non-empty
   * href; the episode links to that href, carries a key that decodes back
   * to it, and its resolution, size and HEVC flag are those of its own
   * trimmed label: "HD"/"N/A" or texts of the recognised shapes.
   */
  lemma EpisodeFields(sec: Section)
    ensures EpisodeOf(sec).Some? <==> NormalButton(sec.buttons).Some? && NormalButton(sec.buttons).value != ""
    ensures EpisodeOf(sec).Some? ==> var e := EpisodeOf(sec).value;
      e.url == NormalButton(sec.buttons).value && e.url != "" && e.labelText == Trim(sec.heading) &&
      Codec.DecodeBase64(e.vlyxKey) == Some(Json.StringifyField("link", e.url)) &&
      e.res == Labels.Resolution(e.labelText) && e.size == Labels.Size(e.labelText) &&
      e.isHevc == Labels.IsHevc(e.labelText) &&
      (e.res == "HD" || Labels.IsRes(e.res)) && (e.size == "N/A" || Labels.IsSize(e.size))
  {
    var labelText := Trim(sec.heading);
    Labels.ResolutionSpec(labelText);
    Labels.SizeSpec(labelText);
    if EpisodeOf(sec).Some? {
      var e := EpisodeOf(sec).value;
      VlyxKeyRoundTrip(e.url);
      if e.size != "N/A" {
        var i: nat :| Labels.BracketedSizeAt(labelText, i, e.size) &&
          forall j: nat, m :: j < i ==> !Labels.BracketedSizeAt(labelText, j, m);
      }
    }
  }

  lemma EpisodesStep(sections: seq<Section>, i: nat)
    requires i < |sections|
    ensures var sec, labelText, btn := sections[i], Trim(sections[i].heading), NormalButton(sections[i].buttons);
      Seqs.FilterMap(sections[..i + 1], EpisodeOf) == Seqs.FilterMap(sections[..i], EpisodeOf) +
        if btn.Some? && btn.value != "" then
          [Episode(labelText, Labels.Resolution(labelText), Labels.IsHevc(labelText), Labels.Size(labelText),
                   btn.value, GenerateVlyxKey(btn.value))]
        else []
  {
    Seqs.FilterMapStep(sections, i, EpisodeOf);
  }

  /** The `$(".download-links-div h4").each(...)` loop that pushes onto `episodeLinks`. */
  method ExtractEpisodes(sections: seq<Section>) returns (episodeLinks: seq<Episode>)
    ensures episodeLinks == Seqs.FilterMap(sections, EpisodeOf)
  {
    episodeLinks := [];
    var i := 0;
    while i < |sections|
      invariant 0 <= i <= |sections|
      invariant episodeLinks == Seqs.FilterMap(sections[..i], EpisodeOf)
    {
      var sec := sections[i];
      var labelText := Trim(sec.heading);
      var res := Labels.Resolution(labelText);
      var isHevc := Labels.IsHevc(labelText);
      var normalBtn := NormalButton(sec.buttons);
      EpisodesStep(sections, i);
      if normalBtn.Some? && normalBtn.value != "" {
        var size := Labels.Size(labelText);
        episodeLinks := episodeLinks + [Episode(labelText, res, isHevc, size, normalBtn.value, GenerateVlyxKey(normalBtn.value))];
      }
      i := i + 1;
    }
    assert sections[..i] == sections;
  }

  /** `.text()` of a selection: its elements' texts run together. */
  function Concat(texts: seq<string>): string
  {
    if texts == [] then "" else Concat(texts[..|texts| - 1]) + texts[|texts| - 1]
  }

  /** An `h3` whose text contains "Storyline" contributes its next paragraph. */
  function StorylineOf(h: Subheading): Option<string>
  {
    if Includes(h.text, "Storyline") then h.nextParagraph else None
  }

  function PageTitle(page: DetailPage): string
  {
    Title.CleanTitle(Trim(if |page.headlines| > 0 then page.headlines[0] else ""))
  }

  function Description(page: DetailPage): string
  {
    Trim(Concat(Seqs.FilterMap(page.subheadings, StorylineOf)))
  }

  /** The response for a `slug` query parameter, given the proxy and the page parser. */
  function MovieResponse(slug: Option<string>, net: string -> Option<string>, parse: string -> DetailPage): Response
  {
    if slug.None? || slug.value == "" then Response(400, Error("Missing Slug"))
    else match RequestedUrl(slug.value)
      case None => Response(400, Error("Invalid Slug"))
      case Some(target) =>
        var html := net(Codec.ProxiedUrl(target));
        if !Fetched(html) then Response(500, Failure("Source Down"))
        else
          var page := parse(html.value);
          Response(200, Data(Details(PageTitle(page), page.posterSrc, Description(page),
                                     Seqs.FilterMap(page.sections, EpisodeOf), [])))
  }

  /** The route handler. */
  method Get(slug: Option<string>, net: string -> Option<string>, parse: string -> DetailPage) returns (r: Response)
    ensures r == MovieResponse(slug, net, parse)
  {
    if slug.None? || slug.value == "" {
      return Response(400, Error("Missing Slug"));
    }
    var decoded := Codec.DecodeBase64(slug.value);
    if decoded.None? {
      return Response(400, Error("Invalid Slug"));
    }
    var targetUrl := TargetUrl(decoded.value);
    var html := net(Codec.ProxiedUrl(targetUrl));
    if !Fetched(html) {
      return Response(500, Failure("Source Down"));
    }
    var page := parse(html.value);
    var title := PageTitle(page);
    var description := Description(page);
    var episodeLinks := ExtractEpisodes(page.sections);
    var batchLinks: seq<Episode> := [];
    r := Response(200, Data(Details(title, page.posterSrc, description, episodeLinks, batchLinks)));
  }

  /**
   * The route answers 400 for a missing or undecodable slug, 500 when the
   * page cannot be fetched, and 200 otherwise.
   */
  lemma MovieResponseOutcomes(slug: Option<string>, net: string -> Option<string>, parse: string -> DetailPage)
    ensures var r := MovieResponse(slug, net, parse);
      (r.status == 400 <==> slug.None? || slug.value == "" || Codec.DecodeBase64(slug.value).None?) &&
      (r.status == 200 <==> slug.Some? && slug.value != "" && RequestedUrl(slug.value).Some? &&
                            Fetched(net(Codec.ProxiedUrl(RequestedUrl(slug.value).value)))) &&
      (r.status == 200 || r.status == 400 || r == Response(500, Failure("Source Down")))
  {
  }

  /**
   * A 200 carries the details: no batch links, a marker-free title, a
   * description without surrounding whitespace, and episodes whose keys
   * decode to their own URLs.
   */
  lemma MovieResponseDetails(slug: Option<string>, net: string -> Option<string>, parse: string -> DetailPage)
    ensures var r := MovieResponse(slug, net, parse);
      r.status == 200 ==> (
        && r.body.Data?
        && r.body.details.batchLinks == []
        && Title.MarkerFree(r.body.details.title)
        && (var d := r.body.details.description; d == "" || (!IsJsSpace(d[0]) && !IsJsSpace(d[|d| - 1])))
        && (forall e :: e in r.body.details.episodeLinks ==>
              e.url != "" && Codec.DecodeBase64(e.vlyxKey) == Some(Json.StringifyField("link", e.url))))
  {
    var r := MovieResponse(slug, net, parse);
    if r.status == 200 {
      var page := parse(net(Codec.ProxiedUrl(RequestedUrl(slug.value).value)).value);
      Title.CleanTitleMarkerFree(Trim(if |page.headlines| > 0 then page.headlines[0] else ""));
      TrimSlice(Concat(Seqs.FilterMap(page.subheadings, StorylineOf)));
      EpisodeKeys(page.sections);
    }
  }

  /** Every listed episode has a non-empty URL and a key that decodes to `{"link": url}`. */
  lemma EpisodeKeys(sections: seq<Section>)
    ensures forall e :: e in Seqs.FilterMap(sections, EpisodeOf) ==>
      e.url != "" && Codec.DecodeBase64(e.vlyxKey) == Some(Json.StringifyField("link", e.url))
  {
    forall e | e in Seqs.FilterMap(sections, EpisodeOf)
      ensures e.url != "" && Codec.DecodeBase64(e.vlyxKey) == Some(Json.StringifyField("link", e.url))
    {
      Seqs.FilterMapMembership(sections, EpisodeOf, e);
      var i :| 0 <= i < |sections| && EpisodeOf(sections[i]) == Some(e);
      EpisodeFields(sections[i]);
    }
  }
}
