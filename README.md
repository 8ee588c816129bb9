# Link resolution of the movie scraper, in Dafny

This project models the server side of a Next.js movie browser. Five API
routes scrape a movie site through a CORS proxy and hand the browser
opaque base64 tokens that name the next page to scrape:

- `GET /api/home` and `GET /api` list the posts of the site's front page.
  A post becomes a movie with a cleaned title, a poster and a *slug*: the
  token of `slugPart|||SOURCE_DOMAIN`.
- `GET /api/movie?slug=…` decodes the slug back into the post's URL and
  fetches the detail page. Each download heading's first ordinary button
  becomes an episode link with a resolution, a size, an HEVC flag and a
  `vlyx_key`, the token of `{"link": url}`.
- `GET /api/vlyxdrive?key=…&quality=…` decodes a `vlyx_key` and picks the
  last heading that mentions every search term of the quality. It then
  classifies that heading's links as N-Cloud, V-Cloud or G-Drive.
- `GET /api/ncloud?key=…|url=…` resolves a hub page in two hops: the hub
  page gives the "gamer" link, and the gamer page lists file servers by type.

The modules follow the program. `Base64`, `Utf8` and `Codec` are the token
codec of `lib/utils.ts`. `Json` is the one-field `JSON.stringify` and the
subset of `JSON.parse` that the keys need. `Strings` holds the JavaScript
string built-ins the routes call. `Title` is `cleanTitle`. `Labels` holds
the resolution and size regular expressions. `Page` holds the records the
cheerio selectors read. `Listing`, `HomeRoute`, `RootRoute`, `MovieRoute`,
`VlyxdriveRoute` and `NcloudRoute` are the routes.

Each loop that pushes onto an array is a method with a `while` loop. Each
such method is proved equal to a filter-and-transform function (`Seqs.FilterMap`),
or to a last-match function (`Seqs.LastWhere`) for a loop that overwrites a
variable. Each route handler is a method proved equal to a response
function. The lemmas state what the routes promise about those functions:
- the token round trips;
- the slug and key round trips across routes;
- which heading, button and server is chosen;
- which error each failure gives.

The network (`fetchProxy`) and the HTML parser are parameters. `net` maps
the address the proxy is asked for to its answer: `None` for `null`,
otherwise the text. `parse` maps markup to the records the selectors read.

## Model

| member | source | states |
|---|---|---|
| Base64.EncodeLength | lib/utils.ts:14 | a token has 4·⌈n/3⌉ characters for n input octets |
| Base64.EncodeAlphabet | lib/utils.ts:14 | every token character is in the standard alphabet (`A`-`Z`, `a`-`z`, `0`-`9`, `+`, `/`), except `=` in the last two positions |
| Base64.EncodePadding | lib/utils.ts:14 | a token ends in two `=` when n mod 3 = 1, one when n mod 3 = 2, and none otherwise |
| Base64.DecodeEncode | lib/utils.ts:13-21 | decoding the encoding of any octet string gives it back |
| Base64.EncodeDecode | lib/utils.ts:13-21 | a token that decodes is the encoding of what it decodes to (only canonical tokens decode) |
| Base64.DecodeIff | lib/utils.ts:13-21 | a token decodes to bs exactly when it is the encoding of bs |
| Utf8.EncodeChar | lib/utils.ts:14 | a character takes one to four bytes, one exactly for ASCII, and a multi-byte form starts at 0xC2 or above and continues with continuation bytes |
| Utf8.DecodeHead | lib/utils.ts:19 | a decoded first character takes 1 to 4 of the available bytes, and those bytes are exactly its encoding |
| Utf8.DecodeEncode | lib/utils.ts:13-21 | strict UTF-8 decoding gives back every string from its bytes |
| Utf8.EncodeDecode | lib/utils.ts:13-21 | bytes that decode are the encoding of the decoded string (no overlong or surrogate forms) |
| Utf8.EncodeInjective | lib/utils.ts:14 | distinct strings have distinct UTF-8 bytes |
| Codec.ProxiedUrl | lib/utils.ts:27 | the proxied address is PROXY_BASE followed by the raw target, unencoded |
| Codec.EncodeBase64Shape | lib/utils.ts:14 | a string's token has 4·⌈n/3⌉ characters for n UTF-8 bytes, padding fixed by n mod 3, only alphabet characters before the padding, and is empty only for the empty string |
| Codec.DecodeEncode | lib/utils.ts:13-21 | `decodeBase64(encodeBase64(s)) == s` for every string |
| Codec.DecodeIff | lib/utils.ts:13-21 | a token decodes to s exactly when it is the token of s |
| Codec.EncodeInjective | lib/utils.ts:13-21 | distinct strings get distinct tokens |
| Codec.Btoa | lib/utils.ts:15 | `btoa` succeeds exactly when every character is below U+0100 |
| Codec.UnescapeUriEncode | lib/utils.ts:15 | replacing the `%XX` escapes of `encodeURIComponent(s)` by characters gives one character per UTF-8 byte of s |
| Codec.BrowserMatchesServer | lib/utils.ts:14-15 | the browser branch of `encodeBase64` succeeds and gives the same token as the server branch |
| Json.EscapeChar | app/api/movie/route.js:6 | `JSON.stringify` writes a character as itself unless it is `"`, `\` or a control character, and otherwise as an escape of at least two characters starting with `\` |
| Json.ParseStringifyField | app/api/movie/route.js:6 | `JSON.parse(JSON.stringify({ [key]: value }))` is the one-member object (key, value) |
| Strings.IndexOf | app/api/home/route.ts:25 | the position found is an occurrence with none before it, and there is none exactly when the pattern does not occur |
| Strings.RemoveFirst | app/api/home/route.ts:25 | `replace` with a string pattern removes only the leftmost occurrence, and leaves a string without one unchanged |
| Strings.RemoveAll | app/api/home/route.ts:25 | `replace(/\//g, "")` leaves no `/`, and a character other than `/` occurs in the result exactly when it occurs in the link; the result is never longer |
| Strings.RemoveAllAppend | app/api/home/route.ts:25 | removal distributes over concatenation, so the kept characters stay in their order and number |
| Strings.Split | app/api/movie/route.js:17 | `split` gives at least one piece; joining the pieces with the separator gives the text back; no piece holds the separator; when the separator occurs the first piece is the text before its leftmost occurrence and there are at least two pieces; text without the separator is one piece |
| Strings.SplitJoin | app/api/movie/route.js:17 | a text joined with a separator splits back into its two parts when neither holds the separator and none straddles the join |
| Strings.TrimSlice | app/api/home/route.ts:19 | `trim` removes exactly the whitespace at both ends: the result is a slice with only whitespace outside it, and it neither starts nor ends with whitespace |
| Strings.TrimIdempotent | app/api/home/route.ts:5 | trimming twice is trimming once |
| Strings.ToLower | app/api/movie/route.js:41 | the lower-casing maps character by character, and `A`-`Z` go to `a`-`z` (see Left out for the characters JavaScript treats differently) |
| Strings.Utf16Length | app/api/vlyxdrive/route.ts:24 | the JavaScript length lies between the character count and twice that count |
| Title.CutFrom | app/api/home/route.ts:5 | the first piece of the split ends at the leftmost case-insensitive marker, or at the end when there is none |
| Title.CleanTitleMarkerFree | app/api/home/route.ts:5 | the cleaned title contains no marker and is a slice of the raw title that ends before the first marker |
| Title.CleanTitleBeforeFirstMarker | app/api/home/route.ts:5 | the cleaned title is the trimmed text before the leftmost marker |
| Title.CleanTitleNoMarker | app/api/home/route.ts:5 | a title without markers is only trimmed |
| Title.CleanTitleLeadingMarker | app/api/home/route.ts:5 | a title that starts with a marker cleans to "" |
| Title.CleanTitleIdempotent | app/api/home/route.ts:5 | cleaning a cleaned title changes nothing |
| Listing.SlugPart | app/api/home/route.ts:25 | the slug part has no `/` and only characters of the link |
| Listing.EntryFields | app/api/home/route.ts:23-34 | an emitted movie has the post's non-empty poster, a marker-free title, and a slug that decodes to the slug part, the triple-bar delimiter and the domain, with no `/` in the slug part |
| Listing.ExtractMovies | app/api/home/route.ts:18-36 | the post loop emits one movie per qualifying post, in document order |
| Listing.MoviesMembership | app/api/home/route.ts:18-36 | a movie is listed exactly when some post with title, link and poster yields it, and the list is no longer than the page |
| Listing.MoviesAppend | app/api/home/route.ts:18-36 | the movies of two runs of posts are the two lists in order |
| Listing.MoviesSkip | app/api/home/route.ts:23 | a post lacking a title, a link or a poster is dropped without disturbing the others |
| Listing.ListingResponseOutcomes | app/api/home/route.ts:11-46 | the route answers 200 exactly when the fetch gives markup; a page with no usable post is a 200 with an empty list, and a failed fetch is a 500 "Failed to fetch home" with no list |
| HomeRoute.Get | app/api/home/route.ts:7-48 | the handler fetches the source domain through the proxy and returns the listing response of the page |
| RootRoute.Get | app/api/route.ts:7-36 | the duplicate handler returns exactly the home route's response for the same page |
| MovieRoute.VlyxKeyRoundTrip | app/api/movie/route.js:6 | a `vlyx_key` decodes to `{"link": link}`, which parses to an object whose `link` is the link |
| MovieRoute.VlyxKeyNonEmpty | app/api/movie/route.js:6 | a `vlyx_key` is never empty |
| MovieRoute.VlyxKeyInjective | app/api/movie/route.js:6 | different links get different keys |
| MovieRoute.TargetUrlNoDelimiter | app/api/movie/route.js:16-18 | decoded text without the triple-bar delimiter is fetched as `undefined/<text>/` |
| MovieRoute.TargetUrlJoin | app/api/movie/route.js:16-18 | a path, the delimiter and a base, with no bar in the path and no delimiter in the base, target `base/path/` |
| MovieRoute.SlugPartOfLink | app/api/home/route.ts:25 | the slug part of a link `domain/path/` is path when path has no `/` |
| MovieRoute.SlugRoundTrip | app/api/movie/route.js:14-18 | the slug the listing emits for `domain/path/` makes the movie route fetch `domain/path/`, when neither path nor domain holds a bar character |
| MovieRoute.SlugTrailingBar | app/api/movie/route.js:17-18 | a path ending in a bar runs into the delimiter: the route then asks for the domain with a bar in front, not the post's URL |
| MovieRoute.FirstNormalHrefSpec | app/api/movie/route.js:43 | the button href is that of the first `a.btn` without `btn-zip`, and there is none when no such button exists |
| MovieRoute.EpisodeFields | app/api/movie/route.js:37-51 | a heading yields an episode exactly when its button's href is non-empty; the episode has that url, the trimmed label, a key decoding to `{"link": url}`, and the resolution, size and HEVC flag of that label (the leftmost `\d{3,4}p` text or "HD", the leftmost bracketed size or "N/A", whether the lower-cased label contains "hevc") |
| MovieRoute.ExtractEpisodes | app/api/movie/route.js:36-53 | the heading loop emits one episode per heading with a usable button, in heading order |
| MovieRoute.EpisodeKeys | app/api/movie/route.js:46-51 | every listed episode has a non-empty url and a key that decodes to `{"link": url}` |
| MovieRoute.Get | app/api/movie/route.js:8-60 | the handler returns the response of its slug, proxy answer and page |
| MovieRoute.MovieResponseOutcomes | app/api/movie/route.js:12-59 | 400 exactly for a missing, empty or undecodable slug; 200 exactly when the target page arrives; otherwise 500 "Source Down" |
| MovieRoute.MovieResponseDetails | app/api/movie/route.js:27-55 | a 200 carries an empty `batchLinks`, a marker-free title, a description without surrounding whitespace, and episodes whose keys decode to their urls |
| Labels.ResAtIff | app/api/movie/route.js:39 | `\d{3,4}p` matches at a position exactly when a text of three or four ASCII digits and `p` starts there, four digits tried first |
| Labels.ResolutionSpec | app/api/movie/route.js:39-40 | the resolution is "HD" exactly when no such text occurs, and otherwise the leftmost one |
| Labels.SizeAtSound | app/api/movie/route.js:45 | a size match is a bracketed `\d+(\.\d+)?[GM]B` text closed by `]` or `/E]` |
| Labels.SizeAtComplete | app/api/movie/route.js:45 | every bracketed size text closed by `]` or `/E]` is matched, giving that text |
| Labels.SizeSpec | app/api/movie/route.js:45-48 | the size is "N/A" exactly when no bracketed size occurs, and otherwise the one at the leftmost such bracket |
| Labels.SizeExample | app/api/movie/route.js:45-48 | "720p HEVC [1.2GB/E]" has size "1.2GB" |
| Labels.IsHevc | app/api/movie/route.js:41 | the flag holds exactly when the lower-cased label contains "hevc" |
| VlyxdriveRoute.KeyLinkOfVlyxKey | app/api/vlyxdrive/route.ts:13-14 | a key made by the movie route leads to the link it was made from |
| VlyxdriveRoute.KeyLinkOfPlainText | app/api/vlyxdrive/route.ts:13 | the token of text that is not JSON fails to parse; it is not taken as a link |
| VlyxdriveRoute.EveryIff | app/api/vlyxdrive/route.ts:25 | `every` holds exactly when the text contains each term |
| VlyxdriveRoute.SearchTermsMembership | app/api/vlyxdrive/route.ts:24 | the search terms are exactly the space-separated pieces longer than two UTF-16 units |
| VlyxdriveRoute.HeadingMatchesQuality | app/api/vlyxdrive/route.ts:23-25 | a heading matches exactly when its trimmed text contains every piece longer than two units, case-sensitively; an empty quality matches every heading |
| VlyxdriveRoute.LastMatchSpec | app/api/vlyxdrive/route.ts:20-27 | the selected block follows the last matching heading, and nothing is selected when no heading matches |
| VlyxdriveRoute.SelectSection | app/api/vlyxdrive/route.ts:22-27 | the overwrite loop ends with the block of the last matching heading |
| VlyxdriveRoute.LinkOfSpec | app/api/vlyxdrive/route.ts:32-37 | an anchor yields a link exactly when its href is non-empty and names hubcloud, gdflix or drive.google; the first host in that order decides the type, and the link keeps the href |
| VlyxdriveRoute.ClassifyLinks | app/api/vlyxdrive/route.ts:31-38 | the link loop classifies the anchors one by one, in order |
| VlyxdriveRoute.LinksFromAnchors | app/api/vlyxdrive/route.ts:31-38 | every link has the non-empty href of one of the anchors |
| VlyxdriveRoute.SelectedLinks | app/api/vlyxdrive/route.ts:29-39 | no matching heading gives an empty list, and every link comes from the selected block |
| VlyxdriveRoute.Get | app/api/vlyxdrive/route.ts:5-45 | the handler returns the response of its key, quality, proxy answer and page |
| VlyxdriveRoute.VlyxdriveOutcomes | app/api/vlyxdrive/route.ts:10-44 | 400 exactly for a missing or empty key; 200 exactly when the key's link page arrives; an unparsable key and a failed fetch are 500s |
| VlyxdriveRoute.VlyxdriveFromMovieKey | app/api/vlyxdrive/route.ts:13-41 | for a movie-route key the route fetches that link, answers 200 exactly when the page arrives, and returns the links of the last heading matching the quality |
| NcloudRoute.KeyHubOfVlyxKey | app/api/ncloud/route.ts:12-14 | a movie-route key leads the first hop to the key's link |
| NcloudRoute.KeyHubOfLink | app/api/ncloud/route.ts:13-14 | an object with no `url` and a `link` leads to the link |
| NcloudRoute.KeyHubOfObject | app/api/ncloud/route.ts:13-14 | an object's non-empty `url` wins, then its `link`, then "undefined" |
| NcloudRoute.KeyHubOfPlainText | app/api/ncloud/route.ts:15 | the token of text outside the modelled JSON subset, or of `null`, leads to the text itself |
| NcloudRoute.HubUrlPrecedence | app/api/ncloud/route.ts:10-20 | a non-empty key wins over `url`, `url` is used only without one, and neither is the missing-input case |
| NcloudRoute.DownloadHrefSpec | app/api/ncloud/route.ts:27 | `a#download`'s href is that of the first anchor with that id, and none without one |
| NcloudRoute.FindGamerLink | app/api/ncloud/route.ts:27-34 | hop 1 yields the download href when usable, else the last generate button's href |
| NcloudRoute.GamerLinkSpec | app/api/ncloud/route.ts:27-35 | a usable download href decides; otherwise the last `a.btn` whose text has "Generate Direct Download Link" decides; with neither the link is unusable |
| NcloudRoute.ServerOfSpec | app/api/ncloud/route.ts:43-54 | a gamer-page button yields a server exactly when its href is usable, not `#…` or `javascript…`, and its lower-cased trimmed text (or a pixeldrain href) names a known host; the name is the trimmed text, the type is never unknown, and the chain decides it: FSLv2 for fslv2, else FSL for fsl, else Pixel for pixel or a pixeldrain href, else ZipDisk for zipdisk |
| NcloudRoute.CollectServers | app/api/ncloud/route.ts:41-56 | the server loop keeps the classified buttons in document order |
| NcloudRoute.Get | app/api/ncloud/route.ts:5-63 | the handler returns the response of its parameters, proxy answers and pages |
| NcloudRoute.NcloudOutcomes | app/api/ncloud/route.ts:10-62 | 400 exactly when neither parameter is given; a 200 lists only servers with usable non-fragment, non-`javascript` urls and a known type |
| NcloudRoute.NcloudFromHub | app/api/ncloud/route.ts:10-62 | whichever parameter names the hub, hop 1 fetches it: a failed fetch is 500 "HubCloud Failed", no usable gamer link is 500 "Gamer Link Not Found", a failed second fetch is 500 "GamerXYT Failed", all without servers, and otherwise 200 with the classified buttons of the gamer page |
| NcloudRoute.NcloudFromMovieKey | app/api/ncloud/route.ts:11-62 | the same outcomes for the key of a movie-route link, whose first hop fetches that link |

## Left out

- `fetchProxy` (lib/utils.ts:24-51) is the `net` parameter. It stands for the network, the proxy's status codes, the content-type check and the `json.html` envelope. `null` and `""` both count as a failed fetch, as every caller tests `!html`.
- Cheerio parsing and selection are the `parse` parameters. They return the records in `Page` and `MovieRoute.DetailPage`.
- `Codec.DecodeBase64`: Node's `Buffer` decoding is lenient. It skips characters outside the alphabet and turns bad UTF-8 into U+FFFD instead of throwing. The model decodes canonical tokens carrying valid UTF-8 only, and any other token is a decode failure. That failure becomes 400 "Invalid Slug" in the movie route, although that `catch` is practically unreachable in the source. In the vlyxdrive route it becomes a parse failure (500). In the ncloud route it becomes an unhandled error, because the fallback decode sits outside the `try`.
- The browser branch of `decodeBase64` (lib/utils.ts:20) is not modelled. The browser branch of `encodeBase64` is, and it is proved equal to the server branch.
- `Json.Parse` accepts only `null` and objects whose members are all strings. Other JSON values count as parse failures. `\u` escapes that name surrogates are rejected. Parse tests for an object before it tests for `null`; the two start with different characters, so the order does not matter.
- `KeyHub`, `KeyLink`: a key whose text is valid JSON outside that subset (`123`, `"x"`, `{"url":1}`) is not handled as the source does. The source reads `undefined` (or the non-string value) as the hub or link. The model's vlyxdrive route answers 500 SyntaxError instead, and its ncloud route fetches the raw decoded text. `NcloudRoute.KeyHubOfPlainText` covers such text too.
- Strings are sequences of Unicode scalar values. A JavaScript string holding a lone surrogate (which `Buffer.from` encodes as EF BF BD) cannot be represented.
- `Json.Get`: its contract says the value belongs to some member with the key, not that the last such member wins. Only the body states that.
- `decodeURIComponent(quality)` (app/api/vlyxdrive/route.ts:24) is not modelled. The quality parameter is taken as already decoded. Two effects follow. A quality whose once-decoded value holds a malformed `%` (`?quality=100%25` arrives as "100%") makes the source throw URIError. The source then answers 500 "URI malformed" whenever the page has at least one download heading, where the model answers 200. A doubly encoded value such as `%2520` is matched as a space by the source, and as the text "%20" by the model.
- The search terms are computed once, not once per heading. They do not depend on the heading.
- `MovieRoute.SlugRoundTrip` requires no `|` in the path or the domain. That is stronger than "no `|||` in the slug part": `MovieRoute.SlugTrailingBar` shows that a path ending in `|` already breaks the round trip.
- Logging (`console.log`, `console.warn`, `console.error`) is not modelled. The home route's empty-list warning does not change its response.
- `cn` (lib/utils.ts:4-6), the React pages and the build configuration are outside the routes' logic.
- Response headers and JSON serialisation of the response bodies are not modelled. Bodies are datatypes.
- `Strings.ToLower` lowercases only `A`-`Z` and the Kelvin sign, and leaves every other character as it is. JavaScript also lowercases non-ASCII letters, and turns U+0130 into the two characters `i` U+0307, changing the length. Route results do not change: only ASCII needles ("hevc", "fslv2", "fsl", "pixel", "zipdisk") are searched for; other letters lowercase to non-ASCII characters; and an `i` from U+0130 is always followed by U+0307, while no needle ends in `i`.
