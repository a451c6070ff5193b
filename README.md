# GitHub releases summary: a Dafny model of the release walk

The web page in js/main.js asks the GitHub REST API for a repository's
releases. It follows the `Link` header from page to page, writes a
`total_downloads` into every release, and shows four figures: the number of
releases, their combined downloads, the latest release and the latest stable
release. This project models that logic and proves what it computes. The page
and the browser are not modelled.

- `releases.dfy` (module `Releases`): release and asset records, the
  per-release download total and the two `forEach` loops that compute it
  (`TallyRelease`, `TallyPage`).
- `link_header.dfy` (module `LinkHeader`): the two tests applied to the `Link`
  header, in the link relation format of RFC 8288, section 3.
  - `Contains(s, t)` is `s.includes(t)`, which is case-sensitive, and
    `AnnouncesNext` is `includes('rel="next"')` on the header.
  - `NextUrl` is `match(/(?<=<)([\S]*)(?=>; rel="Next")/i)[0]`. It is written
    as a plain string search that tries start positions left to right and,
    at each start, match ends from longest to shortest, as the regular
    expression engine does.
  - `MatchAt` is the declarative reading of the pattern.
- `pagination.dfy` (module `Pagination`): the server is a finite table from
  URL to reply. `Walk` is the value fetchReleasesData resolves to, and
  `Requests` is the list of URLs it asks for. `FetchReleasesData` is the
  `while (getNextPage)` loop, proved equal to both.
- `summary.dfy` (module `Summary`): the statistics fold of generateSummary
  (`SummarizeReleases`). `GenerateSummary` picks one of three outcomes:
  invalid name, no release data, or a report.

What the code does, as the model has it:

- A rejected request leaves `response` undefined. `response.data` then throws
  into the outer `catch`, so the whole call yields `undefined` (`None`). Any
  release already collected is discarded. A 404 is handled by its own branch
  of the `.catch` handler, but it ends the same way as every other error.
- A header that contains `rel="next"` where the pattern finds no URL makes
  `match(...)` return null, so `[0]` throws. The result is `undefined` again.
- The code tests for a next page case-sensitively but extracts the URL
  case-insensitively. A header with only `rel="Next"` therefore ends the walk.
  The extraction needs `>; rel="next"`, with exactly one space, after some
  link: a header that contains `rel="next"` but has no space at all makes the
  whole call undefined (`NoSpaceNoUrl`).
- A 404 on the first page, or on any later page, is not told apart from any
  other failure: the call returns `undefined`, and generateSummary shows "no
  release data", exactly as it does for an empty list.
- There is no per-release flag for whether any count was known, and no
  "unknown" total: missing counts add nothing, and the total is an ordinary
  sum that can be 0.
- A next link the pattern cannot read is not reported as such: the `[0]` of
  the null match throws the same TypeError that ends in `undefined`.

## Model

| member | source | states |
|---|---|---|
| `Releases.CountIsTruthy` | js/main.js:114 | `if (element.download_count)`: the count is present, not null and not 0 |
| `Releases.Contribution` | js/main.js:114-115 | what one asset adds to `total_downloads`: its count when the count is truthy, and 0 otherwise |
| `Releases.SumContributions` | js/main.js:113-116 | the running `total_downloads` after the asset `forEach` has visited a list, left to right, adding only truthy counts |
| `Releases.AssetTotal` | js/main.js:111-117 | a release's total is the sum of the download counts its assets report; it is 0 when `assets` is absent or empty |
| `Releases.TotalIsSumOfKnownCounts` | js/main.js:111-117 | the left-to-right sum of truthy counts equals the sum of all known counts: missing and null counts add nothing, and a 0 count adds 0 |
| `Releases.SumContributionsAppend` | js/main.js:113-116 | the totals of consecutive asset lists add up |
| `Releases.IgnoredAssetAddsNothing` | js/main.js:114-115 | an asset whose count is missing, null or 0 leaves the total unchanged wherever it is inserted |
| `Releases.CountBoundedByTotal` | js/main.js:113-116 | every reported asset count is at most the release total |
| `Releases.Tallied` | js/main.js:111-117 | a release after the loop body: `total_downloads` replaced by the asset total, every other field as received |
| `Releases.TallyAll` | js/main.js:110-119 | tallying a page keeps its length and order; element i is release i with its total recomputed and every other field unchanged |
| `Releases.TallyRelease` | js/main.js:111-117 | the loop that resets `total_downloads` to 0 and adds each truthy count yields the release with total `AssetTotal(assets)` and no other change |
| `Releases.TallyPage` | js/main.js:110-119 | the page loop appends the page's tallied releases, in server order, to those already collected |
| `LinkHeader.Contains` | js/main.js:123 | `String.prototype.includes`: whether the literal occurs in the header, case respected |
| `LinkHeader.AnnouncesNext` | js/main.js:123 | `linkHeader.includes('rel="next"')` |
| `LinkHeader.ContainsFromMeaning` | js/main.js:123 | the search finds `t` at or after index i exactly when some occurrence of `t` starts there |
| `LinkHeader.ContainsMeaning` | js/main.js:123 | `includes` holds exactly when the literal occurs somewhere in the header, with case respected |
| `LinkHeader.NextUrl` | js/main.js:124-125 | `linkHeader.match(nextPagePattern)[0]`: the text of the first match, or None for the null match whose `[0]` throws |
| `LinkHeader.IsSpace` | js/main.js:96 | the characters `\s` matches: the ECMAScript WhiteSpace and LineTerminator characters |
| `LinkHeader.AsciiUpper` | js/main.js:96 | the upper case of an ASCII letter, and every other character unchanged |
| `LinkHeader.SameIgnoringCase` | js/main.js:96 | two characters that the `i` flag treats as equal, under ASCII case folding |
| `LinkHeader.LookaheadAt` | js/main.js:96 | the lookahead `(?=>; rel="Next")` holds at q: the header continues at q with `>; rel="next"`, case ignored |
| `LinkHeader.MatchAt` | js/main.js:96 | the pattern matches exactly h[p..q]: a `<` right before p, no whitespace from p to q, and the lookahead holding at q |
| `LinkHeader.RunEnd` | js/main.js:96 | where the greedy `[\S]*` started at p first stops: the first whitespace at or after p, or the end of the header |
| `LinkHeader.Backtrack` | js/main.js:96 | the engine giving back characters of the run one by one, from end q down to p, until the lookahead `>; rel="next"` (case ignored) holds |
| `LinkHeader.Search` | js/main.js:124-125 | the left-to-right scan of `match`: the first start after a `<` at which backtracking succeeds, with the end it finds there |
| `LinkHeader.RunEndMeaning` | js/main.js:96 | the greedy `[\S]*` from p covers only non-whitespace and stops at whitespace or at the end of the header |
| `LinkHeader.BacktrackMeaning` | js/main.js:96 | backtracking returns the longest end, no further than q, at which the lookahead `>; rel="next"` (case ignored) holds, or none when no end works |
| `LinkHeader.MatchFromStart` | js/main.js:96 | from a start right after a `<`, the greedy run followed by backtracking finds the longest match there, or none when no end works |
| `LinkHeader.SearchMeaning` | js/main.js:96 | the search returns the leftmost start and, at that start, the longest match; it returns none exactly when the pattern matches nowhere from p on |
| `LinkHeader.NextUrlMeaning` | js/main.js:96 | the extracted URL is absent exactly when the pattern matches nowhere; otherwise it is a run without whitespace right after a `<` and right before `>; rel="next"` (case ignored), at the leftmost such position, matched greedily |
| `LinkHeader.MarkerPrefix` | js/main.js:96 | where the lookahead holds, the header reads `>`, `;` and a space exactly |
| `LinkHeader.MatchEndIsUnique` | js/main.js:96 | from a given start the pattern can end in one place only, so greedy and lazy matching agree |
| `LinkHeader.FirstLinkIsNext` | js/main.js:125 | when no `<` comes before a match, the URL of that match is the one extracted |
| `LinkHeader.NextLinkFirst` | js/main.js:122-125 | a header `<url>; rel="next"...`, as GitHub sends it, announces a next page and yields `url` when `url` has no whitespace |
| `LinkHeader.NoSpaceNoUrl` | js/main.js:96 | a header with no space yields no URL, whatever relations it names |
| `Pagination.Get` | js/main.js:100-106 | `axios.get(url)` with its `.catch`: the server's reply for a URL it holds, a 404 rejection for any other URL |
| `Pagination.ReplyReleases` | js/main.js:108-119 | what a page adds to `releases`: its `data`, tallied, when the reply was received with data, and nothing otherwise |
| `Pagination.WantsNextPage` | js/main.js:122-123 | the loop condition `getNextPage`: the link header is present and contains `rel="next"` |
| `Pagination.StepOf` | js/main.js:100-126 | one pass of the loop body: a rejected request throws; a received reply ends the loop unless its link header contains `rel="next"`; then a missing URL throws, and an extracted one is the next request |
| `Pagination.Walk` | js/main.js:92-133 | the value fetchReleasesData resolves to: `undefined` when a step throws, otherwise the tallied releases of every page up to the one that ends the loop |
| `Pagination.FirstUrl` | js/main.js:95 | the first request: `https://api.github.com/repos/<owner>/<repo>/releases?per_page=<perPage>` |
| `Pagination.Decimal` | js/main.js:95 | `${perPage}`: a natural number written in decimal |
| `Pagination.DecimalMeaning` | js/main.js:95 | `${n}` is a non-empty string of decimal digits that denotes n and has no leading zero unless n is 0 |
| `Pagination.FirstUrlAt50` | js/main.js:41 | the first page generateSummary requests is `https://api.github.com/repos/<owner>/<repo>/releases?per_page=50` |
| `Pagination.Requests` | js/main.js:95-127 | the first request is the initial URL, and a chain that ends within `fuel` steps makes at most `fuel + 1` requests |
| `Pagination.RequestsFollowNextLinks` | js/main.js:121-126 | each request but the last was received, its link header contains `rel="next"`, and the URL extracted from it is the next request; the last request was rejected, or its reply does not announce a next page, or no URL can be extracted from it |
| `Pagination.WalkIsAllOrNothing` | js/main.js:92-133 | the call yields a list exactly when its last response stops the loop cleanly; that list is the tallied releases of every requested page, in request order and in server order within each page |
| `Pagination.FailureDiscardsEverything` | js/main.js:100-108 | one rejected request anywhere in the chain, a 404 included, makes the whole result undefined |
| `Pagination.UnreadableNextLinkDiscardsEverything` | js/main.js:123-132 | a response that contains `rel="next"` without an extractable URL makes the whole result undefined |
| `Pagination.EndsWithinMonotone` | js/main.js:99-127 | a chain that ends within n further requests also ends within any larger bound |
| `Pagination.FuelIsIrrelevant` | js/main.js:99-127 | every bound under which the chain ends gives the same result and the same requests |
| `Pagination.CollectedLength` | js/main.js:108-119 | the number of releases collected equals the number the pages hold: nothing dropped, nothing duplicated |
| `Pagination.FetchReleasesData` | js/main.js:92-133 | the loop's result is `Walk` of the initial URL, and its requests, in order, are `Requests` of that URL |
| `Summary.SumTotals` | js/main.js:49 | `totalDownloads += data.total_downloads` over the releases, first to last |
| `Summary.SumTotalsAppend` | js/main.js:49 | the repository total of two consecutive lists of releases is the sum of their totals |
| `Summary.ReleaseBoundedByTotal` | js/main.js:49 | no release has more downloads than the repository total |
| `Summary.TotalOverPages` | js/main.js:43-49 | the repository total over all fetched pages is the sum of the per-page totals |
| `Summary.SummarizeReleases` | js/main.js:42-58 | undefined or empty input gives no statistics; otherwise the count is the list length, the total is the sum of `total_downloads`, the latest release is element 0, and the latest stable release is the first non-prerelease, absent exactly when every release is a prerelease |
| `Summary.GenerateSummary` | js/main.js:33-81 | an empty owner or name gives the invalid-name outcome; otherwise an undefined or empty fetch gives "no release data", and a report carries the count, the total, element 0 as latest, and as latest stable release the first release that is not a prerelease, absent exactly when every release is a prerelease |

## Left out

- Everything that touches the page is left out. This covers `init`, the query string, the innerHTML building, `getReleaseDiv` and the click handler (js/main.js:12-31, 60-73, 83-90). It is presentation only.
- axios, promises and `await` are left out, and so is `console.log`. The server is a finite map from URL to reply. A URL the map does not hold is answered with 404.
- FetchReleasesData: requires the chain of next links to end within `fuel` requests. The code has no bound, and for an endless or self-referential chain it loops forever. The model says nothing about such chains.
- GenerateSummary: the outcome names which of the three messages is shown, not the HTML. The `catch` at js/main.js:77-78 is not modelled. It cannot be reached from the logic modelled here, because fetchReleasesData catches every error itself; only an error in the HTML writes at js/main.js:60-75, such as a missing `#summary` element, reaches it.
- Numbers are JavaScript floating point in the source. Download counts are natural numbers in the model, so non-integer, negative or NaN counts are not represented.
- JSON shapes the code does not expect are not represented. This means a `data` that is not an array, where `forEach` would throw, and a `prerelease` that is not a boolean.
- The in-place write of `total_downloads` is modelled on values. Each response is freshly parsed JSON that nothing else refers to, so no aliasing is lost.
- Strings are sequences of Unicode scalar values, while JavaScript uses UTF-16 code units. This changes nothing for this pattern, because neither half of a surrogate pair is `<` or whitespace.
- General regular expressions are left out. Only this one pattern is modelled, and its `i` flag is modelled as ASCII case folding. In non-unicode mode that is exact for the ASCII characters of `>; rel="Next"`.
