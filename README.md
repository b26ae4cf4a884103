# Site comparator: crawl, crop and batch comparison

A Dafny model of the core of an Express service that compares two versions of a
website visually. The service crawls each site breadth-first, merges the two
page lists, screenshots every page on both sites and counts the differing pixels.
The model covers the four pieces of sequential logic under the browser and the
PNG plumbing:

- **Link filter** (`link_filter.dfy`, module `LinkFilter`). This is the
  `$$eval('a[href]', …)` pipeline. It keeps the links on the seed URL's
  hostname, resolves them, drops fragments, `mailto:`, `tel:` and binary
  downloads, and keeps at most 50.
- **Crawl** (`crawler.dfy`, module `Crawler`). This is `crawlSite`. It keeps
  a `visited` set, a FIFO `toVisit` frontier and an insertion-ordered
  `allPages` set capped by `maxPages`, in an imperative `while` loop, and is
  proved equal to a recursive definition of the crawl and breadth-first. The
  browser is an oracle `load: string -> PageLoad`: each visit either fails or
  yields the anchors' `href` values. Each of the two crawls of a batch gets its
  own oracle.
- **Crop** (`image_diff.dfy`, module `ImageDiff`). This is `compareImages`.
  Nested loops copy the common top-left rectangle of two RGBA images into
  fresh arrays. The model then hands the two arrays to the comparator.
- **Batch** (`batch.dfy`, module `Batch`). This is the `/compare-full-site`
  handler. It merges the two crawls into a deduplicated list, rewrites each
  path onto both origins, and runs a loop that records exactly one tagged
  result per path.

`ordered_sets.dfy` (module `OrderedSets`) models JavaScript `Set`s of strings:
iteration in insertion order, with later duplicates dropped. `strings.dfy`
(module `Strings`) holds the JavaScript string operations used
above: `includes`, `indexOf`, `replace` with a string pattern, `split('#')[0]`,
ASCII case folding and decimal rendering of an index. `urls.dfy` (module `Urls`)
stands in for the WHATWG URL parser. `wrappers.dfy` (module `Wrappers`) holds
`Option`, `Result`, `Outcome`, `Min`/`Max`, `slice(0, end)` and the `NoDups`
predicate.

Foreign code is passed in as functions:
- `UrlEnv.parse` and `UrlEnv.resolve` stand for `new URL(s)` and
  `new URL(href, base)`. `None` means the constructor throws.
- `PageLoad` is the result of one browser visit.
- `Capture` is the result of `robustScreenshot`: its boolean, or an
  exception.
- `ImageIo.readPng` stands for PNG decoding of a file, and
  `ImageIo.pixelmatch` for the pixel comparator.
- `BatchIo.writeFile` stands for writing the diff image.

Where the code departs from the service's documented design, the model
follows the code:
- The crawl returns the seed even when `maxPages` is 0 or negative, so the
  bound is `max(maxPages, 1)`, not `maxPages`.
- Only the text after `#` is cut off a link. Query strings are kept.
- Link extraction has one strategy, the `a[href]` query. There is no fallback
  strategy.
- When the primary capture path fails, `robustScreenshot` returns `false` even
  if its emergency screenshot succeeds. The model's `Capture` therefore
  carries only the boolean.
- Mismatched sizes are always cropped, never scaled.
- The code has no severity level, diff percentage, similarity or
  `/debug-crawl` route, so the model has none.
- `slice(0, maxPages)` keeps JavaScript's meaning for a negative `maxPages`:
  it counts from the end of the list.
- The merged list is a union of full URLs, not of paths. A page both sites
  have (`http://a/about` and `http://b/about`) is two entries, and both
  rewrite to the same pair of URLs, so that pair is compared twice. Site A
  with `/` and `/about` and site B with `/` give three items, not two.
- The `new URL(...)` calls that rewrite a path (index.js:321-322) sit outside
  the per-item `try`. A path or base URL that does not parse therefore aborts
  the whole batch instead of producing a `critical_error` item.

## Model

| member | source | states |
|---|---|---|
| `Wrappers.SliceTo` | index.js:315 | `slice(0, end)` returns a prefix of length `min(end, n)`, or `max(n + end, 0)` for a negative `end` |
| `OrderedSets.SetOf` | index.js:20 | the set of a list holds exactly the list's elements |
| `OrderedSets.DedupFrom` | index.js:315 | iterating a `Set` built from a list yields each element not already seen once, no duplicates, and nothing else |
| `OrderedSets.DedupAppend` | index.js:84 | the insertion-order law of a `Set`: adding `x` appends it at the end unless it is already present, in which case nothing changes |
| `OrderedSets.DedupKeepsDistinctPrefix` | index.js:315 | a duplicate-free first list passes through the union unchanged, ahead of the new elements of the second |
| `Strings.ReplaceFirst` | index.js:321-322 | `replace(p, q)` with a string pattern leaves a string without `p` unchanged, and otherwise changes its length by `|q| - |p|` |
| `Strings.ReplaceFirstAt` | index.js:321-322 | when `p` first occurs at `i`, `replace(p, q)` returns everything before `i`, then `q`, then everything after that occurrence: it is the first occurrence that is replaced |
| `Strings.ContainsAt` | index.js:68-70 | `includes(p)` holds whenever `p` occurs at some index |
| `Strings.BeforeHash` | index.js:79 | `split('#')[0]` is a prefix of the link that has no `#` and stops exactly at the first `#` |
| `Strings.NoHashMeansWhole` | index.js:79 | a link without `#` is returned whole by `split('#')[0]` |
| `Strings.ReplaceFirstAtStart` | index.js:321-322 | `replace(p, q)` on a string that starts with `p` swaps exactly that prefix for `q` |
| `Strings.ReplaceFirstSelf` | index.js:321-322 | `replace(p, p)` never changes the string |
| `Strings.ParseNatToString` | index.js:327-340 | the decimal rendering of an item index reads back to that index |
| `Strings.NatToStringInjective` | index.js:327-340 | distinct indices render to distinct decimal strings |
| `LinkFilter.SameHostHrefs` | index.js:50-59 | a link survives the first filter iff it is non-empty and its resolution against the seed has the seed's hostname (a throwing `new URL` rejects it) |
| `LinkFilter.SameHostHrefsIsFilter` | index.js:50-59 | the host filter works link by link: filtering a concatenation filters each part and keeps their order |
| `LinkFilter.SameHostHrefsSingle` | index.js:50-59 | a single link is kept iff it is non-empty and resolves onto the seed's hostname |
| `LinkFilter.Absolutize` | index.js:60-66 | each link maps, in place and in order, to its resolution's serialization, or to `null` when `new URL` throws |
| `LinkFilter.NoNullAfterHostFilter` | index.js:60-67 | after the host filter no resolution yields `null`, so the `null` test never drops a link |
| `LinkFilter.KeepNavigable` | index.js:67-71 | a resolved link survives iff it has no `#`, `mailto:` or `tel:` and does not end in a blocked extension, case-insensitively |
| `LinkFilter.KeepNavigableIsFilter` | index.js:67-71 | the second filter works entry by entry: filtering a concatenation filters each part and keeps their order |
| `LinkFilter.KeepNavigableSingle` | index.js:67-71 | a `null` entry is dropped, and a single link is kept iff it is navigable |
| `LinkFilter.Navigable` | index.js:68-71 | a link is navigable iff it contains no `#`, `mailto:` or `tel:` and does not end in a blocked extension |
| `LinkFilter.HasBlockedExtension` | index.js:71 | a link ends in `.pdf`, `.doc`, `.docx`, `.xls`, `.xlsx`, `.zip`, `.rar`, `.mp3` or `.mp4`, in any ASCII case |
| `LinkFilter.ExtractLinks` | index.js:47-72 | the whole pipeline: host filter, resolution, navigability filter, then at most 50 links |
| `LinkFilter.ExtractedLinkFacts` | index.js:47-72 | every extracted link is navigable and is the serialization of an anchor's resolution on the seed's host; at most 50 are extracted |
| `LinkFilter.ExtractedLinkOnSeedHost` | index.js:53-55 | under a parser whose serializations re-parse to themselves, every extracted link parses to the seed's hostname |
| `LinkFilter.ExtractLinksComplete` | index.js:48-72 | when at most 50 links qualify, every qualifying anchor is extracted: the cap is the only thing that drops a qualifying link |
| `LinkFilter.ExtractedLinkIsClean` | index.js:67-79 | for an extracted link, `split('#')[0]` is the link itself |
| `Crawler.LinksOf` | index.js:37-73 | a failed visit yields no links, a loaded page at most 50 |
| `Crawler.Enqueued` | index.js:78-86 | considering the links in order, each link cut at `#` is appended when it is new and below the cap; the old list stays a prefix of the new one |
| `Crawler.EnqueuedIsCappedDedup` | index.js:78-86 | the discovered list after a visit is the old list followed by the page's links, cut at `#`, deduplicated against the list and each other in link order (first occurrence wins), cut to the room left below `maxPages` |
| `Crawler.EnqueuedFacts` | index.js:78-86 | the list stays duplicate-free, every new entry is a link of the page cut at `#`, the list never exceeds the cap (or its old size), and every link is recorded unless the cap is reached |
| `Crawler.EnqueueLinks` | index.js:78-86 | given that the discovered list holds exactly the visited and queued pages, the loop appends to the discovered list exactly what `Enqueued` appends, and pushes those same pages, in the same order, onto the back of the frontier |
| `Crawler.VisitKeepsBookkeeping` | index.js:44-91 | after a visit, every discovered page still comes from a visited page, and every link of every visited page is discovered unless the cap is reached |
| `Crawler.VisitKeepsBreadthFirst` | index.js:30-93 | visiting the next page and enqueuing its new links keeps the crawl breadth-first: each new page's parent is the page just visited, which is the first visited page linking to it, and parents never decrease along the list |
| `Crawler.VisitFront` | index.js:31-93 | one iteration takes the front of the frontier (FIFO), which is never already visited (the skip at line 33 never fires), marks it visited on success and on failure, appends its new links to the discovered list as `Enqueued` does and to the back of the rest of the frontier, and keeps the crawl invariant |
| `Crawler.CrawlFrom` | index.js:30-94 | the crawl loop as a recursive definition: visit the front of the frontier while it is non-empty and the list is below the cap |
| `Crawler.Crawl` | index.js:17-20 | the crawl starts from the frontier `[seed]` and the discovered list `[seed]` |
| `Crawler.CrawlSite` | index.js:17-102 | the result is `Crawl` of the same inputs; it starts with the seed, has no duplicates, has at most `max(maxPages, 1)` entries and is `[seed]` when `maxPages <= 1`; pages are visited in discovery order; every other page was extracted from a visited page; the crawl is breadth-first (each page's parent is the first visited page that links to it, and parents never decrease); below the cap every page was visited and every extracted link is in the result |
| `Crawler.DiscoveredPageOnSeedHost` | index.js:47-85 | every discovered page but the seed is navigable and has the seed's hostname |
| `ImageDiff.Crop` | index.js:163-183 | the crop of an image to `w` by `h` has `w*h*4` bytes |
| `ImageDiff.CropPixel` | index.js:163-183 | output byte `(minW*y+x)*4+c` of the crop is input byte `(w*y+x)*4+c`, and for a well-formed image that byte lies inside the input |
| `ImageDiff.CropWhole` | index.js:151-183 | cropping a well-formed image to its own size returns its bytes unchanged |
| `ImageDiff.ShiftLeft2IsTimesFour` | index.js:165-167 | the 32-bit `<< 2` of a pixel index below 2^29 equals the index times four |
| `ImageDiff.CopyPixel` | index.js:165-181 | one pixel step copies the four channels and extends the correctly filled prefix of the output by four bytes, leaving every byte past them unchanged; the guard of line 169 (and 176) holds |
| `ImageDiff.CropToCommon` | index.js:151-183 | the outputs are two fresh, distinct buffers of width `min(w1,w2)`, height `min(h1,h2)`, length `minW*minH*4`, and are the top-left crops of each input; cropping an image against itself gives two equal buffers |
| `ImageDiff.CompareSpec` | index.js:147-204 | reading either file can fail; otherwise the comparator counts over the two crops at the common size |
| `ImageDiff.CompareImages` | index.js:147-205 | `compareImages` throws only where reading a file throws, otherwise returns the comparator's count over the two crops with the common size |
| `ImageDiff.CompareFailsOnlyOnRead` | index.js:147-204 | a size mismatch is never an error: the comparison fails iff a read fails, and it compares a region of the smaller width by the smaller height |
| `ImageDiff.SelfComparison` | index.js:185-204 | comparing a well-formed file with itself hands the comparator the image's own bytes twice, at its own size |
| `Batch.UniqueUrls` | index.js:315 | the merged list is the `Set` union of the two crawls, first site first, cut by `slice(0, maxPages)` |
| `Batch.UniqueUrlsFacts` | index.js:315 | the merged list is duplicate-free, holds only pages of the two crawls, has at most `maxPages` entries when `maxPages >= 0`, and holds every page when nothing is cut off |
| `Batch.FirstSiteFirst` | index.js:315 | the first site's pages open the merged list, in crawl order, up to the cap |
| `Batch.SharedPageComparedTwice` | index.js:315-322 | when nothing is cut off, a page found on both sites under the same path is two entries of the merged list, and the two entries rewrite to the same URL on a site, so the same pair is compared twice |
| `Batch.RewriteOrigin` | index.js:321-322 | rewriting succeeds iff the path and the base URL both parse, and a path that does not contain its own origin is left unchanged |
| `Batch.RewriteSwapsOrigin` | index.js:321-322 | a path that starts with its origin keeps its remainder and takes the site's origin |
| `Batch.RewriteOntoOwnOrigin` | index.js:321-322 | rewriting a path onto a site with the same origin leaves it unchanged |
| `Batch.ItemResult` | index.js:324-383 | one item's tagged result, given the two captures, the comparison and the diff write |
| `Batch.CompareItem` | index.js:324-383 | the item's control flow produces exactly the specified tagged result |
| `Batch.ItemStatus` | index.js:330-383 | the `status` field is `success` iff both captures return true and the comparison and diff write go through; `screenshot_error` iff both captures return and one is false; `comparison_error` iff both are true and the comparison or write throws; `critical_error` iff a capture throws |
| `Batch.ScreenshotErrorSkipsComparison` | index.js:330-372 | a `screenshot_error` item does not depend on the image reader, the comparator or the file writer at all: no diff is attempted or written |
| `Batch.NumberedNameInjective` | index.js:327-340 | a file name that embeds an item's index in decimal between a fixed prefix and suffix determines the index |
| `Batch.CaptureFileNamesDistinct` | index.js:327-328 | the two sites' screenshot files never coincide, and different items use different screenshot files |
| `Batch.DiffFileNamesDistinct` | index.js:340 | `diff-batch-${index}.png` differs for different indices |
| `Batch.SuccessDiffUrlsDistinct` | index.js:340-345 | two successful items link to different diff images |
| `Batch.ItemFor` | index.js:320-383 | the item of a path: its two rewritten URLs, then its tagged result |
| `Batch.CompareAll` | index.js:318-386 | the loop succeeds iff every path and base URL parses; it then records exactly one result per path, in list order, each the item's specified result |
| `Batch.CrawlBothSites` | index.js:307-313 | each site is crawled with the same cap, and each result is exactly the crawl of that site; the first is duplicate-free, opens with its seed and is just the seed when at most one page is allowed |
| `Batch.CompareFullSite` | index.js:295-395 | the merged list is the `Set` union of the two crawls of the two sites, each with its own browser oracle, cut to `maxPages`; it is duplicate-free, at most `maxPages` long, starts with the first seed, and is `[baseUrl1]` for `maxPages == 1`; on success `totalCompared == totalPagesFound`, each result is its path's item result, and for `maxPages == 1` the one result compares the first seed itself |

## Left out

- HTTP plumbing is not modelled: the Express app, `/health`, `/`, the single-pair `/compare` route, `app.listen`, request-body defaults and JSON response shaping (index.js:11-13, 207-285, 397-405). `compareImages`, which `/compare` calls, is modelled.
- Browser I/O is not modelled: Playwright launch, page open and close, timeouts, settle delays and the one-second politeness wait. A crawl visit is the `PageLoad` oracle. A capture is the `Capture` oracle, which returns the boolean of `robustScreenshot` or an exception thrown by opening or closing its page. Failures of `chromium.launch`, of `browser.newPage` in `crawlSite` or of `browser.close` abort the request and are outside the model.
- The oracles are functions, so a URL always loads the same way within one crawl. The two crawls of a batch take separate oracles, so the two sites may serve different pages. Within one crawl no URL is visited twice (proved), so a function restricts nothing there. Captures are keyed by URL and by the file name, and the screenshot files of the two sites and of different items are all distinct (proved), so two captures of the same URL never share a file.
- PNG decoding and encoding, the `pixelmatch` comparator with its 0.1 threshold, and the content of the diff raster are not modelled. Only the comparator's difference count and whether the diff write succeeded are.
- WHATWG URL parsing is abstract. The re-parse property `WellBehaved` is a hypothesis of the hostname lemmas only.
- The extension regex is modelled as a suffix test with ASCII case folding. For these letters this is what the case-insensitive non-Unicode pattern does.
- `Strings.ReplaceFirst`: `$` patterns in the replacement string (`$&`, `$$`, …) are not interpreted. The replacement is an origin, and origins do not contain them in practice.
- `ImageDiff.CropToCommon`: buffer offsets are computed over unbounded integers, where the source uses the 32-bit `<< 2`. `ImageDiff.ShiftLeft2IsTimesFour` shows the two agree for every pixel index below 2^29. Full-page screenshots stay below that.
- `maxPages` is an integer. JSON request bodies that pass a string or a fraction are not modelled.
- The progress percentage (`Math.round` of a float division), all `console.log` output and the best-effort deletion of `public/*.png` are not modelled (index.js:228-232, 290-294, 385).
