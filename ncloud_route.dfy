/**
 * GET /api/ncloud?key=…|url=… (app/api/ncloud/route.ts): find the hub
 * page's URL, take the gamer link from it, and list the file servers on
 * the gamer page.
 */
module NcloudRoute {
  import opened Wrappers
  import opened Strings
  import opened Page
  import Seqs
  import Codec
  import Json
  import MovieRoute

  /** One pushed server: its trimmed button text, its href and its type. */
  datatype Server = Server(name: string, url: string, kind: string)

  /**
   * `{ status: true, servers }`, `{ error }`, `{ status: false, error }`,
   * or the failure outside any `try` (see `Undecodable`).
   */
  datatype Body = Servers(servers: seq<Server>) | Error(message: string) | Failure(message: string) | Unhandled

  datatype Response = Response(status: int, body: Body)

  /**
   * What the input block leaves in `hubUrl`: a URL, no input at all, or a
   * token that neither decode call accepts (the second call is outside the
   * `try`).
   */
  datatype HubInput = Hub(url: string) | Missing | Undecodable

  /**
   * `decoded.url || decoded.link` for a key whose text parses to an
   * object: a missing `link` behind an empty or missing `url` is
   * `undefined`, which the proxy call turns into the text "undefined". Text
   * that does not parse, or parses to `null` (whose property access
   * throws), is taken as the URL itself.
   */
  function KeyHub(key: string): HubInput
  {
    match Codec.DecodeBase64(key)
    case None => Undecodable
    case Some(text) =>
      match Json.Parse(text)
      case Some(Object(members)) =>
        var url := Json.Get(members, "url");
        if url.Some? && url.value != "" then Hub(url.value)
        else (
          match Json.Get(members, "link")
          case None => Hub("undefined")
          case Some(link) => Hub(link))
      case _ => Hub(text)
  }

  /** The `if (key) … else if (urlParam) … else` block: a non-empty key wins over `url`. */
  function HubUrl(key: Option<string>, urlParam: Option<string>): HubInput
  {
    if key.Some? && key.value != "" then KeyHub(key.value)
    else if urlParam.Some? && urlParam.value != "" then Hub(urlParam.value)
    else Missing
  }

  /** A `vlyx_key` from the movie route leads to the link it was made from. */
  lemma KeyHubOfVlyxKey(link: string)
    ensures KeyHub(MovieRoute.GenerateVlyxKey(link)) == Hub(link)
  {
    MovieRoute.VlyxKeyRoundTrip(link);
    var members := [("link", link)];
    assert Json.Get(members, "url") == None by {
      assert Json.Get(members[..0], "url") == None;
    }
    KeyHubOfLink(MovieRoute.GenerateVlyxKey(link), Json.StringifyField("link", link), members, link);
  }

  /** A key whose object has no `url` but a `link` leads to that link. */
  lemma KeyHubOfLink(key: string, text: string, members: seq<(string, string)>, link: string)
    requires Codec.DecodeBase64(key) == Some(text) && Json.Parse(text) == Some(Json.Object(members))
    requires Json.Get(members, "url") == None && Json.Get(members, "link") == Some(link)
    ensures KeyHub(key) == Hub(link)
  {
  }

  /**
   * The token of a plain URL (text outside the modelled JSON subset, or
   * `null`) leads to that URL: the fallback decode in the `catch`.
   */
  lemma KeyHubOfPlainText(url: string)
    requires Json.Parse(url).None? || Json.Parse(url) == Some(Json.Null)
    ensures KeyHub(Codec.EncodeBase64(url)) == Hub(url)
  {
    Codec.DecodeEncode(url);
  }

  /**
   * The token of a JSON object leads to its `url` when that is non-empty,
   * else to its `link`, else to "undefined".
   */
  lemma KeyHubOfObject(text: string, members: seq<(string, string)>)
    requires Json.Parse(text) == Some(Json.Object(members))
    ensures Usable(Json.Get(members, "url")) ==> KeyHub(Codec.EncodeBase64(text)) == Hub(Json.Get(members, "url").value)
    ensures !Usable(Json.Get(members, "url")) && Json.Get(members, "link").Some? ==>
      KeyHub(Codec.EncodeBase64(text)) == Hub(Json.Get(members, "link").value)
    ensures !Usable(Json.Get(members, "url")) && Json.Get(members, "link").None? ==>
      KeyHub(Codec.EncodeBase64(text)) == Hub("undefined")
  {
    Codec.DecodeEncode(text);
  }

  /** The `url` parameter counts only when the key is missing or empty, and both missing is a 400 case. */
  lemma HubUrlPrecedence(key: Option<string>, urlParam: Option<string>)
    ensures key.Some? && key.value != "" ==> HubUrl(key, urlParam) == KeyHub(key.value)
    ensures (key.None? || key.value == "") && urlParam.Some? && urlParam.value != "" ==> HubUrl(key, urlParam) == Hub(urlParam.value)
    ensures HubUrl(key, urlParam) == Missing <==> (key.None? || key.value == "") && (urlParam.None? || urlParam.value == "")
  {
  }

  /** `$1("a#download").attr("href")`: the href of the first anchor with id `download`. */
  function DownloadHref(anchors: seq<Anchor>): Option<string>
  {
    if anchors == [] then None
    else if anchors[0].id == Some("download") then anchors[0].href
    else DownloadHref(anchors[1..])
  }

  lemma {:induction false} DownloadHrefSpec(anchors: seq<Anchor>)
    ensures (forall i :: 0 <= i < |anchors| ==> anchors[i].id != Some("download")) ==> DownloadHref(anchors) == None
    ensures forall i :: (0 <= i < |anchors| && anchors[i].id == Some("download") &&
                         (forall j :: 0 <= j < i ==> anchors[j].id != Some("download")))
                        ==> DownloadHref(anchors) == anchors[i].href
  {
    if anchors != [] {
      DownloadHrefSpec(anchors[1..]);
      assert forall j :: 0 <= j < |anchors| - 1 ==> anchors[1..][j] == anchors[j + 1];
    }
  }

  /** An `a.btn` whose text (untrimmed) offers the direct download link. */
  predicate IsGenerateButton(a: Anchor)
  {
    IsBtn(a) && Contains(a.text, "Generate Direct Download Link")
  }

  function GenerateButton(): Anchor -> bool
  {
    a => IsGenerateButton(a)
  }

  /** A usable link: present and non-empty. */
  predicate Usable(link: Option<string>) { link.Some? && link.value != "" }

  /**
   * The `gamerLink` hop 1 ends with: the download anchor's href when it is
   * usable, else the href of the last generate button (even a missing
   * one), else the download anchor's href as it was.
   */
  function GamerLink(anchors: seq<Anchor>): Option<string>
  {
    var first := DownloadHref(anchors);
    if Usable(first) then first
    else match Seqs.LastWhere(anchors, GenerateButton())
      case None => first
      case Some(i) => anchors[i].href
  }

  /** Hop 1: the download anchor, then the `$1("a.btn").each(...)` loop that overwrites `gamerLink`. */
  method FindGamerLink(anchors: seq<Anchor>) returns (gamerLink: Option<string>)
    ensures gamerLink == GamerLink(anchors)
  {
    gamerLink := DownloadHref(anchors);
    if !Usable(gamerLink) {
      ghost var first := gamerLink;
      var i := 0;
      while i < |anchors|
        invariant 0 <= i <= |anchors|
        invariant gamerLink == match Seqs.LastWhere(anchors[..i], GenerateButton())
                               case None => first
                               case Some(k) => anchors[k].href
      {
        assert anchors[..i + 1] == anchors[..i] + [anchors[i]];
        Seqs.LastWhereSnoc(anchors[..i], anchors[i], GenerateButton());
        if IsBtn(anchors[i]) && Includes(anchors[i].text, "Generate Direct Download Link") {
          gamerLink := anchors[i].href;
        } else if Seqs.LastWhere(anchors[..i], GenerateButton()).Some? {
          var k := Seqs.LastWhere(anchors[..i], GenerateButton()).value;
          assert anchors[..i + 1][k] == anchors[..i][k];
        }
        i := i + 1;
      }
      assert anchors[..i] == anchors;
    }
  }

  /**
   * A usable download anchor decides the gamer link; otherwise the last
   * generate button does, and without one the link is the unusable
   * download href, so the route reports the link as not found.
   */
  lemma GamerLinkSpec(anchors: seq<Anchor>)
    ensures Usable(DownloadHref(anchors)) ==> GamerLink(anchors) == DownloadHref(anchors)
    ensures !Usable(DownloadHref(anchors)) && (forall i :: 0 <= i < |anchors| ==> !IsGenerateButton(anchors[i]))
      ==> !Usable(GamerLink(anchors))
    ensures !Usable(DownloadHref(anchors)) ==>
      forall i :: LastGenerateButton(anchors, i) ==> GamerLink(anchors) == anchors[i].href
  {
    var p := GenerateButton();
    Seqs.LastWhereSpec(anchors, p);
    forall i | 0 <= i < |anchors| ensures p(anchors[i]) <==> IsGenerateButton(anchors[i]) {
    }
    match Seqs.LastWhere(anchors, p)
    case None =>
    case Some(k) =>
      forall i | LastGenerateButton(anchors, i) ensures i == k {
      }
  }

  /** Anchor `i` is a generate button and no later one is. */
  predicate LastGenerateButton(anchors: seq<Anchor>, i: int)
  {
    && 0 <= i < |anchors| && IsGenerateButton(anchors[i])
    && forall j :: i < j < |anchors| ==> !IsGenerateButton(anchors[j])
  }

  /** `type` for a button: the first of fslv2, fsl, pixel (or a pixeldrain href), zipdisk, else unknown. */
  function ServerKind(lower: string, href: string): string
  {
    if Includes(lower, "fslv2") then "FSLv2"
    else if Includes(lower, "fsl") then "FSL"
    else if Includes(lower, "pixel") || Includes(href, "pixeldrain") then "Pixel"
    else if Includes(lower, "zipdisk") then "ZipDisk"
    else "unknown"
  }

  /** What one anchor of the gamer page contributes. */
  function ServerOf(a: Anchor): Option<Server>
  {
    if IsBtn(a) && Usable(a.href) && !StartsWith(a.href.value, "#") && !StartsWith(a.href.value, "javascript") then
      var name := Trim(a.text);
      var kind := ServerKind(ToLower(name), a.href.value);
      if kind != "unknown" then Some(Server(name, a.href.value, kind)) else None
    else None
  }

  lemma FslPrefix(s: string)
    requires Contains(s, "fslv2")
    ensures Contains(s, "fsl")
  {
    var i :| 0 <= i <= |s| - 5 && OccursAt(s, "fslv2", i);
    assert s[i..i + 3] == s[i..i + 5][..3];
    assert OccursAt(s, "fsl", i);
  }

  /**
   * A gamer-page anchor yields a server exactly when it is a button with a
   * usable href that is neither a fragment nor a `javascript` link and
   * its lower-cased trimmed text names fsl, pixel or zipdisk (or the href
   * names pixeldrain); the server is never of unknown type, and the
   * first of fslv2, fsl, pixel (or a pixeldrain href), zipdisk decides
   * the type.
   */
  lemma ServerOfSpec(a: Anchor)
    ensures ServerOf(a).Some? <==> (
      && IsBtn(a) && Usable(a.href) && !StartsWith(a.href.value, "#") && !StartsWith(a.href.value, "javascript")
      && (var lower := ToLower(Trim(a.text));
          Contains(lower, "fsl") || Contains(lower, "pixel") || Contains(a.href.value, "pixeldrain") || Contains(lower, "zipdisk")))
    ensures ServerOf(a).Some? ==> (
      var s := ServerOf(a).value; var lower := ToLower(Trim(a.text));
      && s.url == a.href.value && s.name == Trim(a.text)
      && (s.kind == "FSLv2" || s.kind == "FSL" || s.kind == "Pixel" || s.kind == "ZipDisk")
      && (s.kind == "FSLv2" <==> Contains(lower, "fslv2"))
      && (s.kind == "FSL" <==> Contains(lower, "fsl") && !Contains(lower, "fslv2"))
      && (s.kind == "Pixel" <==> !Contains(lower, "fsl") && (Contains(lower, "pixel") || Contains(a.href.value, "pixeldrain")))
      && (s.kind == "ZipDisk" <==> !Contains(lower, "fsl") && !Contains(lower, "pixel") &&
                                   !Contains(a.href.value, "pixeldrain") && Contains(lower, "zipdisk")))
  {
    if IsBtn(a) && Usable(a.href) {
      var lower := ToLower(Trim(a.text));
      if Contains(lower, "fslv2") {
        FslPrefix(lower);
      }
    }
  }

  /** Hop 2: the `$2("a.btn").each(...)` loop that pushes onto `finalLinks`. */
  method CollectServers(anchors: seq<Anchor>) returns (finalLinks: seq<Server>)
    ensures finalLinks == Seqs.FilterMap(anchors, ServerOf)
  {
    finalLinks := [];
    var i := 0;
    while i < |anchors|
      invariant 0 <= i <= |anchors|
      invariant finalLinks == Seqs.FilterMap(anchors[..i], ServerOf)
    {
      var el := anchors[i];
      Seqs.FilterMapStep(anchors, i, ServerOf);
      if !IsBtn(el) {
        assert ServerOf(el) == None;
      } else {
        var href := el.href;
        if href.Some? && href.value != "" && !StartsWith(href.value, "#") && !StartsWith(href.value, "javascript") {
          var name := Trim(el.text);
          var kind := ServerKind(ToLower(name), href.value);
          if kind != "unknown" {
            assert ServerOf(el) == Some(Server(name, href.value, kind));
            finalLinks := finalLinks + [Server(name, href.value, kind)];
          } else {
            assert ServerOf(el) == None;
          }
        } else {
          assert ServerOf(el) == None;
        }
      }
      i := i + 1;
    }
    assert anchors[..i] == anchors;
  }

  /** The response for the `key` and `url` parameters, given the proxy and the anchor parser. */
  function NcloudResponse(key: Option<string>, urlParam: Option<string>,
                          net: string -> Option<string>, parse: string -> seq<Anchor>): Response
  {
    match HubUrl(key, urlParam)
    case Missing => Response(400, Error("Missing input"))
    case Undecodable => Response(500, Unhandled)
    case Hub(hubUrl) =>
      var html1 := net(Codec.ProxiedUrl(hubUrl));
      if !Fetched(html1) then Response(500, Failure("HubCloud Failed"))
      else
        var gamerLink := GamerLink(parse(html1.value));
        if !Usable(gamerLink) then Response(500, Failure("Gamer Link Not Found"))
        else
          var html2 := net(Codec.ProxiedUrl(gamerLink.value));
          if !Fetched(html2) then Response(500, Failure("GamerXYT Failed"))
          else Response(200, Servers(Seqs.FilterMap(parse(html2.value), ServerOf)))
  }

  /** The route handler. */
  method Get(key: Option<string>, urlParam: Option<string>,
             net: string -> Option<string>, parse: string -> seq<Anchor>) returns (r: Response)
    ensures r == NcloudResponse(key, urlParam, net, parse)
  {
    var hubUrl := "";
    if key.Some? && key.value != "" {
      var hub := KeyHub(key.value);
      if hub.Undecodable? {
        return Response(500, Unhandled);
      }
      hubUrl := hub.url;
    } else if urlParam.Some? && urlParam.value != "" {
      hubUrl := urlParam.value;
    } else {
      return Response(400, Error("Missing input"));
    }
    var html1 := net(Codec.ProxiedUrl(hubUrl));
    if !Fetched(html1) {
      return Response(500, Failure("HubCloud Failed"));
    }
    var gamerLink := FindGamerLink(parse(html1.value));
    if !Usable(gamerLink) {
      return Response(500, Failure("Gamer Link Not Found"));
    }
    var html2 := net(Codec.ProxiedUrl(gamerLink.value));
    if !Fetched(html2) {
      return Response(500, Failure("GamerXYT Failed"));
    }
    var finalLinks := CollectServers(parse(html2.value));
    r := Response(200, Servers(finalLinks));
  }

  /**
   * The route answers 400 exactly when neither parameter is given, and a
   * 200 lists only servers of a known type whose links are usable and
   * neither fragments nor `javascript` links.
   */
  lemma NcloudOutcomes(key: Option<string>, urlParam: Option<string>,
                       net: string -> Option<string>, parse: string -> seq<Anchor>)
    ensures var r := NcloudResponse(key, urlParam, net, parse);
      && (r.status == 400 <==> (key.None? || key.value == "") && (urlParam.None? || urlParam.value == ""))
      && (r.status == 200 || r.status == 400 || r.status == 500)
      && (r.status == 200 ==> r.body.Servers? && forall s :: s in r.body.servers ==>
            && s.url != "" && !StartsWith(s.url, "#") && !StartsWith(s.url, "javascript")
            && (s.kind == "FSLv2" || s.kind == "FSL" || s.kind == "Pixel" || s.kind == "ZipDisk"))
  {
    var r := NcloudResponse(key, urlParam, net, parse);
    if r.status == 200 {
      var anchors := parse(net(Codec.ProxiedUrl(GamerLink(parse(net(Codec.ProxiedUrl(HubUrl(key, urlParam).url)).value)).value)).value);
      forall s | s in r.body.servers
        ensures s.url != "" && !StartsWith(s.url, "#") && !StartsWith(s.url, "javascript")
        ensures s.kind == "FSLv2" || s.kind == "FSL" || s.kind == "Pixel" || s.kind == "ZipDisk"
      {
        Seqs.FilterMapMembership(anchors, ServerOf, s);
        var i :| 0 <= i < |anchors| && ServerOf(anchors[i]) == Some(s);
        ServerOfSpec(anchors[i]);
      }
    }
  }

  /**
   * From a movie-route key the first hop fetches the key's link; a failed
   * fetch at either hop, or no usable gamer link, is a 500 with no
   * servers, and otherwise the servers are those of the gamer page.
   */
  lemma NcloudFromMovieKey(link: string, urlParam: Option<string>,
                           net: string -> Option<string>, parse: string -> seq<Anchor>)
    ensures var r := NcloudResponse(Some(MovieRoute.GenerateVlyxKey(link)), urlParam, net, parse);
      && (!Fetched(net(Codec.ProxiedUrl(link))) ==> r == Response(500, Failure("HubCloud Failed")))
      && (Fetched(net(Codec.ProxiedUrl(link))) ==>
            var gamerLink := GamerLink(parse(net(Codec.ProxiedUrl(link)).value));
            && (!Usable(gamerLink) ==> r == Response(500, Failure("Gamer Link Not Found")))
            && (Usable(gamerLink) ==>
                  var html2 := net(Codec.ProxiedUrl(gamerLink.value));
                  && (!Fetched(html2) ==> r == Response(500, Failure("GamerXYT Failed")))
                  && (Fetched(html2) ==> r == Response(200, Servers(Seqs.FilterMap(parse(html2.value), ServerOf))))))
  {
    KeyHubOfVlyxKey(link);
    MovieRoute.VlyxKeyNonEmpty(link);
    NcloudFromHub(Some(MovieRoute.GenerateVlyxKey(link)), urlParam, link, net, parse);
  }

  /**
   * Whichever parameter names the hub, the first hop fetches it; a failed
   * fetch at either hop, or no usable gamer link, is a 500 with no
   * servers, and otherwise the servers are those of the gamer page.
   */
  lemma NcloudFromHub(key: Option<string>, urlParam: Option<string>, hub: string,
                      net: string -> Option<string>, parse: string -> seq<Anchor>)
    requires HubUrl(key, urlParam) == Hub(hub)
    ensures var r := NcloudResponse(key, urlParam, net, parse);
      && (!Fetched(net(Codec.ProxiedUrl(hub))) ==> r == Response(500, Failure("HubCloud Failed")))
      && (Fetched(net(Codec.ProxiedUrl(hub))) ==>
            var gamerLink := GamerLink(parse(net(Codec.ProxiedUrl(hub)).value));
            && (!Usable(gamerLink) ==> r == Response(500, Failure("Gamer Link Not Found")))
            && (Usable(gamerLink) ==>
                  var html2 := net(Codec.ProxiedUrl(gamerLink.value));
                  && (!Fetched(html2) ==> r == Response(500, Failure("GamerXYT Failed")))
                  && (Fetched(html2) ==> r == Response(200, Servers(Seqs.FilterMap(parse(html2.value), ServerOf))))))
  {
  }
}
