/** GET /api/home (app/api/home/route.ts). */
module HomeRoute {
  import opened Wrappers
  import opened Page
  import Listing
  import Codec

  /**
   * Fetch the source domain's front page through the proxy and list its
   * posts. `net` is the proxy's answer for a requested address (null on any
   * failure); `parse` stands for loading the markup and selecting
   * `article.post`.
   */
  method Get(net: string -> Option<string>, parse: string -> seq<Post>) returns (r: Listing.Response)
    ensures r == Listing.ListingResponse(net(Codec.ProxiedUrl(Codec.SourceDomain)), parse, Codec.SourceDomain)
  {
    var html := net(Codec.ProxiedUrl(Codec.SourceDomain));
    if !Fetched(html) {
      return Listing.Response(500, Listing.Error("Failed to fetch home"));
    }
    var movies := Listing.ExtractMovies(parse(html.value), Codec.SourceDomain);
    // An empty list is only logged as a warning; the response is unchanged.
    r := Listing.Response(200, Listing.MovieList(movies));
  }
}
