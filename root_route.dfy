/** GET /api (app/api/route.ts), the duplicate of the home listing route. */
module RootRoute {
  import opened Wrappers
  import opened Page
  import Listing
  import Codec

  /**
   * The same fetch and post loop as the home route, without its warning;
   * for the same page it returns the same response.
   */
  method Get(net: string -> Option<string>, parse: string -> seq<Post>) returns (r: Listing.Response)
    ensures r == Listing.ListingResponse(net(Codec.ProxiedUrl(Codec.SourceDomain)), parse, Codec.SourceDomain)
  {
    var html := net(Codec.ProxiedUrl(Codec.SourceDomain));
    if !Fetched(html) {
      return Listing.Response(500, Listing.Error("Failed to fetch home"));
    }
    var movies := Listing.ExtractMovies(parse(html.value), Codec.SourceDomain);
    r := Listing.Response(200, Listing.MovieList(movies));
  }
}
