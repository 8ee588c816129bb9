/**
 * The post loop shared by app/api/home/route.ts and app/api/route.ts:
 * every `article.post` with a title, a link and a poster becomes a movie
 * whose slug is the token of `slugPart|||SOURCE_DOMAIN`.
 */
module Listing {
  import opened Wrappers
  import opened Strings
  import opened Page
  import Title
  import Codec
  import Seqs

  datatype Movie = Movie(title: string, poster: string, slug: string)

  const Delimiter: string := "|||"

  /** The post has a non-empty trimmed title, a non-empty link and a non-empty poster. */
  predicate Qualifies(p: Post)
  {
    Trim(p.titleText) != "" && p.titleHref.Some? && p.titleHref.value != ""
    && p.posterSrc.Some? && p.posterSrc.value != ""
  }

  /** `link.replace(SOURCE_DOMAIN, "").replace(/\//g, "")`. */
  function SlugPart(link: string, domain: string): (r: string)
    ensures '/' !in r
    ensures forall c :: c in r ==> c in link
  {
    var s := RemoveFirst(link, domain);
    assert forall c :: c in s ==> c in link by {
      if IndexOf(link, domain).Some? {
        var i := IndexOf(link, domain).value;
        assert s == link[..i] + link[i + |domain|..];
      }
    }
    RemoveAll(s, '/')
  }

  /** The text the slug token carries: `${slugPart}|||${SOURCE_DOMAIN}`. */
  function SlugText(link: string, domain: string): string
  {
    SlugPart(link, domain) + Delimiter + domain
  }

  /** The movie emitted for a qualifying post. */
  function Entry(p: Post, domain: string): Movie
    requires Qualifies(p)
  {
    Movie(Title.CleanTitle(Trim(p.titleText)), p.posterSrc.value, Codec.EncodeBase64(SlugText(p.titleHref.value, domain)))
  }

  /**
   * An emitted movie has the post's poster, a marker-free title, and a
   * slug that decodes to `slugPart|||domain`, where `slugPart` has no `/`.
   */
  lemma EntryFields(p: Post, domain: string)
    requires Qualifies(p)
    ensures Entry(p, domain).poster == p.posterSrc.value != ""
    ensures Title.MarkerFree(Entry(p, domain).title)
    ensures Codec.DecodeBase64(Entry(p, domain).slug) == Some(SlugText(p.titleHref.value, domain))
    ensures '/' !in SlugPart(p.titleHref.value, domain)
  {
    Codec.DecodeEncode(SlugText(p.titleHref.value, domain));
    Title.CleanTitleMarkerFree(Trim(p.titleText));
  }

  /** What one post contributes: its movie, or nothing. */
  function Emit(domain: string): Post -> Option<Movie>
  {
    p => if Qualifies(p) then Some(Entry(p, domain)) else None
  }

  /** The movies of a page, post by post in document order. */
  function Movies(posts: seq<Post>, domain: string): seq<Movie>
  {
    Seqs.FilterMap(posts, Emit(domain))
  }

  lemma MoviesStep(posts: seq<Post>, i: nat, domain: string)
    requires i < |posts|
    ensures Movies(posts[..i + 1], domain) ==
      Movies(posts[..i], domain) + (if Qualifies(posts[i]) then [Entry(posts[i], domain)] else [])
  {
    Seqs.FilterMapStep(posts, i, Emit(domain));
  }

  /** The `$("article.post").each(...)` loop that pushes onto `movies`. */
  method ExtractMovies(posts: seq<Post>, domain: string) returns (movies: seq<Movie>)
    ensures movies == Movies(posts, domain)
  {
    movies := [];
    var i := 0;
    while i < |posts|
      invariant 0 <= i <= |posts|
      invariant movies == Movies(posts[..i], domain)
    {
      var p := posts[i];
      var rawTitle := Trim(p.titleText);
      MoviesStep(posts, i, domain);
      if rawTitle != "" && p.titleHref.Some? && p.titleHref.value != "" && p.posterSrc.Some? && p.posterSrc.value != "" {
        movies := movies + [Entry(p, domain)];
      }
      i := i + 1;
    }
    assert posts[..i] == posts;
  }

  /**
   * A movie is listed exactly when some post qualifies and yields it; the
   * listing is never longer than the page.
   */
  lemma MoviesMembership(posts: seq<Post>, domain: string, m: Movie)
    ensures |Movies(posts, domain)| <= |posts|
    ensures m in Movies(posts, domain) <==>
      exists i :: 0 <= i < |posts| && Qualifies(posts[i]) && m == Entry(posts[i], domain)
  {
    Seqs.FilterMapMembership(posts, Emit(domain), m);
  }

  /** The listing of two runs of posts is the two listings in order. */
  lemma MoviesAppend(a: seq<Post>, b: seq<Post>, domain: string)
    ensures Movies(a + b, domain) == Movies(a, domain) + Movies(b, domain)
  {
    Seqs.FilterMapAppend(a, b, Emit(domain));
  }

  /** A post lacking a title, a link or a poster is skipped, and the rest are kept. */
  lemma MoviesSkip(a: seq<Post>, p: Post, b: seq<Post>, domain: string)
    requires !Qualifies(p)
    ensures Movies(a + [p] + b, domain) == Movies(a, domain) + Movies(b, domain)
  {
    Seqs.FilterMapSkip(a, p, b, Emit(domain));
    MoviesAppend(a, b, domain);
  }

  datatype Body = MovieList(movies: seq<Movie>) | Error(message: string)

  datatype Response = Response(status: int, body: Body)

  /**
   * The response of a listing route for one `fetchProxy` result: the
   * movies of the parsed page, or a 500 with no list when the fetch gave
   * null or "".
   */
  function ListingResponse(html: Option<string>, parse: string -> seq<Post>, domain: string): Response
  {
    if Fetched(html) then Response(200, MovieList(Movies(parse(html.value), domain)))
    else Response(500, Error("Failed to fetch home"))
  }

  /**
   * A listing route succeeds exactly when the fetch gave markup; a page
   * with no usable post is still a success with an empty list, and a
   * failure carries no list at all.
   */
  lemma ListingResponseOutcomes(html: Option<string>, parse: string -> seq<Post>, domain: string)
    ensures ListingResponse(html, parse, domain).status == 200 <==> Fetched(html)
    ensures !Fetched(html) ==> ListingResponse(html, parse, domain) == Response(500, Error("Failed to fetch home"))
    ensures Fetched(html) ==> |ListingResponse(html, parse, domain).body.movies| <= |parse(html.value)|
    ensures Fetched(html) && (forall i :: 0 <= i < |parse(html.value)| ==> !Qualifies(parse(html.value)[i]))
      ==> ListingResponse(html, parse, domain) == Response(200, MovieList([]))
  {
    if Fetched(html) {
      var posts := parse(html.value);
      if forall i :: 0 <= i < |posts| ==> !Qualifies(posts[i]) {
        EmptyListing(posts, domain);
      }
    }
  }

  lemma {:induction false} EmptyListing(posts: seq<Post>, domain: string)
    requires forall i :: 0 <= i < |posts| ==> !Qualifies(posts[i])
    ensures Movies(posts, domain) == []
  {
    if posts != [] {
      var init := posts[..|posts| - 1];
      EmptyListing(init, domain);
      Seqs.FilterMapSnoc(init, posts[|posts| - 1], Emit(domain));
      assert posts == init + [posts[|posts| - 1]];
    }
  }
}
