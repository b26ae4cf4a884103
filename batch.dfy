/**
 * The `/compare-full-site` handler (index.js:288-404) without its HTTP
 * shell: crawl both sites, merge the two page lists, and compare each page
 * of the merged list on both sites, recording one tagged result per page.
 */
module Batch {
  import opened Wrappers
  import opened OrderedSets
  import opened Strings
  import opened Urls
  import Crawler
  import opened ImageDiff

  // ---------------------------------------------------------------------
  // The merged page list of index.js:315
  // ---------------------------------------------------------------------

  /** `[...new Set([...pages1, ...pages2])].slice(0, maxPages)` */
  function UniqueUrls(pages1: seq<string>, pages2: seq<string>, maxPages: int): seq<string>
  {
    SliceTo(DedupFrom(pages1 + pages2, {}), maxPages)
  }

  /**
   * The merged list is duplicate-free, holds only pages of the two crawls,
   * is no longer than `maxPages` when `maxPages` is not negative, and holds
   * every page of both crawls when none is cut off.
   */
  lemma UniqueUrlsFacts(pages1: seq<string>, pages2: seq<string>, maxPages: int)
    ensures NoDups(UniqueUrls(pages1, pages2, maxPages))
    ensures forall x :: x in UniqueUrls(pages1, pages2, maxPages) ==> x in pages1 || x in pages2
    ensures maxPages >= 0 ==> |UniqueUrls(pages1, pages2, maxPages)| <= maxPages
    ensures |pages1| + |pages2| <= maxPages ==>
      forall x :: x in pages1 || x in pages2 ==> x in UniqueUrls(pages1, pages2, maxPages)
  {
    var d := DedupFrom(pages1 + pages2, {});
    var r := UniqueUrls(pages1, pages2, maxPages);
    assert r == d[..|r|];
    forall x | x in r ensures x in pages1 || x in pages2 {
      assert x in d;
    }
    if |pages1| + |pages2| <= maxPages {
      assert r == d;
    }
  }

  /** A duplicate-free first crawl opens the merged list, in its own order, up to the cap. */
  lemma FirstSiteFirst(pages1: seq<string>, pages2: seq<string>, maxPages: int)
    requires NoDups(pages1)
    requires maxPages >= 0
    ensures var n := Min(maxPages, |pages1|);
      |UniqueUrls(pages1, pages2, maxPages)| >= n && UniqueUrls(pages1, pages2, maxPages)[..n] == pages1[..n]
  {
    DedupKeepsDistinctPrefix(pages1, pages2, {});
  }

  /**
   * The union is over full URLs, not paths: a page that both crawls found,
   * `o1 + rest` on the first site and `o2 + rest` on the second, is two
   * entries of the merged list that rewrite to the same URL on either site,
   * so the same pair of URLs is compared twice.
   */
  lemma SharedPageComparedTwice(env: UrlEnv, pages1: seq<string>, pages2: seq<string>, maxPages: int,
                                rest: string, path1: string, path2: string, baseUrl: string)
    requires path1 in pages1 && path2 in pages2 && path1 != path2
    requires |pages1| + |pages2| <= maxPages
    requires env.parse(path1).Some? && env.parse(path2).Some? && env.parse(baseUrl).Some?
    requires path1 == env.parse(path1).value.origin + rest
    requires path2 == env.parse(path2).value.origin + rest
    ensures path1 in UniqueUrls(pages1, pages2, maxPages) && path2 in UniqueUrls(pages1, pages2, maxPages)
    ensures RewriteOrigin(env, path1, baseUrl) == RewriteOrigin(env, path2, baseUrl)
  {
    UniqueUrlsFacts(pages1, pages2, maxPages);
    var o1, o2 := env.parse(path1).value.origin, env.parse(path2).value.origin;
    assert IsPrefix(o1, path1) && path1[|o1|..] == rest;
    assert IsPrefix(o2, path2) && path2[|o2|..] == rest;
    RewriteSwapsOrigin(env, path1, baseUrl);
    RewriteSwapsOrigin(env, path2, baseUrl);
  }

  // ---------------------------------------------------------------------
  // The per-path URL rewrite of index.js:321-322
  // ---------------------------------------------------------------------

  /**
   * `path.replace(new URL(path).origin, new URL(baseUrl).origin)`, or `None`
   * where either `new URL` throws.
   */
  function RewriteOrigin(env: UrlEnv, path: string, baseUrl: string): (r: Option<string>)
    ensures r.Some? <==> env.parse(path).Some? && env.parse(baseUrl).Some?
    ensures r.Some? && !Contains(path, env.parse(path).value.origin) ==> r.value == path
  {
    match env.parse(path)
    case None => None
    case Some(p) =>
      match env.parse(baseUrl)
      case None => None
      case Some(b) => Some(ReplaceFirst(path, p.origin, b.origin))
  }

  /** A path that starts with its origin keeps everything after it and takes the site's origin. */
  lemma RewriteSwapsOrigin(env: UrlEnv, path: string, baseUrl: string)
    requires env.parse(path).Some? && env.parse(baseUrl).Some?
    requires IsPrefix(env.parse(path).value.origin, path)
    ensures RewriteOrigin(env, path, baseUrl) ==
      Some(env.parse(baseUrl).value.origin + path[|env.parse(path).value.origin|..])
  {
    ReplaceFirstAtStart(path, env.parse(path).value.origin, env.parse(baseUrl).value.origin);
  }

  /** Rewriting a path onto a site with its own origin leaves it unchanged. */
  lemma RewriteOntoOwnOrigin(env: UrlEnv, path: string, baseUrl: string)
    requires env.parse(path).Some? && env.parse(baseUrl).Some?
    requires env.parse(baseUrl).value.origin == env.parse(path).value.origin
    ensures RewriteOrigin(env, path, baseUrl) == Some(path)
  {
    ReplaceFirstSelf(path, env.parse(path).value.origin);
  }

  // ---------------------------------------------------------------------
  // One item of the batch, index.js:324-383
  // ---------------------------------------------------------------------

  /** What `robustScreenshot` gives: its boolean, or an exception thrown past its `catch` (opening or closing the page). */
  datatype Capture = Captured(ok: bool) | CaptureThrew(message: string)

  /**
   * The effects a batch item performs: `capture(url, file)` is
   * `robustScreenshot(browser, url, file)`, `images` serves `compareImages`,
   * and `writeFile(file)` writes the diff image.
   */
  datatype BatchIo = BatchIo(
    capture: (string, string) -> Capture,
    images: ImageIo,
    writeFile: string -> Outcome)

  datatype ComparisonResult =
    | Success(name: string, diffUrl: string, numDiffPixels: nat, url1: string, url2: string, path: string)
    | ComparisonError(name: string, error: string, url1: string, url2: string)
    | ScreenshotError(name: string, error: string, url1: string, url2: string)
    | CriticalError(name: string, error: string, url1: string, url2: string)

  /** The `status` field of a result. */
  function Status(r: ComparisonResult): string
  {
    match r
    case Success(_, _, _, _, _, _) => "success"
    case ComparisonError(_, _, _, _) => "comparison_error"
    case ScreenshotError(_, _, _, _) => "screenshot_error"
    case CriticalError(_, _, _, _) => "critical_error"
  }

  function Site1File(index: nat): string { "public/site1-batch-" + NatToString(index) + ".png" }

  function Site2File(index: nat): string { "public/site2-batch-" + NatToString(index) + ".png" }

  function DiffFileName(index: nat): string { "diff-batch-" + NatToString(index) + ".png" }

  /** `Página ${index + 1}: ${pathname || '/'}` */
  function PageName(index: nat, pathname: string): string
  {
    "Página " + NatToString(index + 1) + ": " + (if pathname == "" then "/" else pathname)
  }

  const ComparisonErrorPrefix: string := "Erro na comparação: "

  const ScreenshotErrorMessage: string := "Falha ao capturar screenshots de uma ou ambas as páginas"

  /** The result the item at `index` records, for a path with the given pathname and rewritten URLs. */
  function ItemResult(io: BatchIo, index: nat, pathname: string, url1: string, url2: string): ComparisonResult
  {
    var name := PageName(index, pathname);
    match io.capture(url1, Site1File(index))
    case CaptureThrew(m) => CriticalError(name, m, url1, url2)
    case Captured(ok1) =>
      match io.capture(url2, Site2File(index))
      case CaptureThrew(m) => CriticalError(name, m, url1, url2)
      case Captured(ok2) =>
        if ok1 && ok2 then
          match CompareSpec(io.images, Site1File(index), Site2File(index))
          case Err(m) => ComparisonError(name, ComparisonErrorPrefix + m, url1, url2)
          case Ok(cmp) =>
            match io.writeFile("public/" + DiffFileName(index))
            case Fail(m) => ComparisonError(name, ComparisonErrorPrefix + m, url1, url2)
            case Pass => Success(name, "/" + DiffFileName(index), cmp.numDiffPixels, url1, url2, pathname)
        else
          ScreenshotError(name, ScreenshotErrorMessage, url1, url2)
  }

  /** The body of the `try` of index.js:324-383 with its two `catch` blocks. */
  method CompareItem(io: BatchIo, index: nat, pathname: string, url1: string, url2: string)
    returns (result: ComparisonResult)
    ensures result == ItemResult(io, index, pathname, url1, url2)
  {
    var name := PageName(index, pathname);
    var capture1 := io.capture(url1, Site1File(index));
    if capture1.CaptureThrew? {
      return CriticalError(name, capture1.message, url1, url2);
    }
    var capture2 := io.capture(url2, Site2File(index));
    if capture2.CaptureThrew? {
      return CriticalError(name, capture2.message, url1, url2);
    }
    if capture1.ok && capture2.ok {
      var compared := CompareImages(io.images, Site1File(index), Site2File(index));
      if compared.Err? {
        return ComparisonError(name, ComparisonErrorPrefix + compared.message, url1, url2);
      }
      var diffFilename := DiffFileName(index);
      var written := io.writeFile("public/" + diffFilename);
      if written.Fail? {
        return ComparisonError(name, ComparisonErrorPrefix + written.message, url1, url2);
      }
      result := Success(name, "/" + diffFilename, compared.value.numDiffPixels, url1, url2, pathname);
    } else {
      result := ScreenshotError(name, ScreenshotErrorMessage, url1, url2);
    }
  }

  /**
   * The `status` of an item: `success` exactly when both captures returned
   * true and the comparison and the diff write went through;
   * `screenshot_error` exactly when both captures returned and one of them
   * returned false; `comparison_error` when both captures succeeded but the
   * comparison or the write threw; `critical_error` exactly when a capture threw.
   */
  lemma ItemStatus(io: BatchIo, index: nat, pathname: string, url1: string, url2: string)
    ensures var r := ItemResult(io, index, pathname, url1, url2);
      var c1 := io.capture(url1, Site1File(index));
      var c2 := io.capture(url2, Site2File(index));
      && (Status(r) == "success" <==>
            c1 == Captured(true) && c2 == Captured(true)
            && CompareSpec(io.images, Site1File(index), Site2File(index)).Ok?
            && io.writeFile("public/" + DiffFileName(index)).Pass?)
      && (Status(r) == "screenshot_error" <==> c1.Captured? && c2.Captured? && !(c1.ok && c2.ok))
      && (Status(r) == "comparison_error" <==>
            c1 == Captured(true) && c2 == Captured(true)
            && (CompareSpec(io.images, Site1File(index), Site2File(index)).Err?
                || io.writeFile("public/" + DiffFileName(index)).Fail?))
      && (Status(r) == "critical_error" <==> c1.CaptureThrew? || (c1.Captured? && c2.CaptureThrew?))
  {
  }

  /** A screenshot failure records its result without reading, comparing or writing any image. */
  lemma ScreenshotErrorSkipsComparison(io: BatchIo, images: ImageIo, writeFile: string -> Outcome,
                                       index: nat, pathname: string, url1: string, url2: string)
    requires ItemResult(io, index, pathname, url1, url2).ScreenshotError?
    ensures ItemResult(io.(images := images, writeFile := writeFile), index, pathname, url1, url2)
      == ItemResult(io, index, pathname, url1, url2)
  {
  }

  /** A file name that embeds an index in decimal determines the index. */
  lemma NumberedNameInjective(prefix: string, suffix: string, i: nat, j: nat)
    ensures prefix + NatToString(i) + suffix == prefix + NatToString(j) + suffix ==> i == j
  {
    var a, b := NatToString(i), NatToString(j);
    if prefix + a + suffix == prefix + b + suffix {
      assert |a| == |b|;
      assert a == (prefix + a + suffix)[|prefix|..|prefix| + |a|];
      assert b == (prefix + b + suffix)[|prefix|..|prefix| + |b|];
      NatToStringInjective(i, j);
    }
  }

  /** Distinct items write distinct diff images. */
  lemma DiffFileNamesDistinct(i: nat, j: nat)
    requires i != j
    ensures DiffFileName(i) != DiffFileName(j)
  {
    NumberedNameInjective("diff-batch-", ".png", i, j);
  }

  /**
   * Each item captures into its own two files: the two sites' files never
   * coincide, and different items use different files.
   */
  lemma CaptureFileNamesDistinct(i: nat, j: nat)
    ensures Site1File(i) != Site2File(j)
    ensures i != j ==> Site1File(i) != Site1File(j) && Site2File(i) != Site2File(j)
  {
    assert Site1File(i)[11] == '1' && Site2File(j)[11] == '2';
    NumberedNameInjective("public/site1-batch-", ".png", i, j);
    NumberedNameInjective("public/site2-batch-", ".png", i, j);
  }

  /** Two items that both succeed link to different diff images. */
  lemma SuccessDiffUrlsDistinct(io: BatchIo, i: nat, j: nat, pathname1: string, pathname2: string,
                                urlA1: string, urlA2: string, urlB1: string, urlB2: string)
    requires i != j
    requires ItemResult(io, i, pathname1, urlA1, urlA2).Success?
    requires ItemResult(io, j, pathname2, urlB1, urlB2).Success?
    ensures ItemResult(io, i, pathname1, urlA1, urlA2).diffUrl != ItemResult(io, j, pathname2, urlB1, urlB2).diffUrl
  {
    DiffFileNamesDistinct(i, j);
    assert ("/" + DiffFileName(i))[1..] == DiffFileName(i);
    assert ("/" + DiffFileName(j))[1..] == DiffFileName(j);
  }

  // ---------------------------------------------------------------------
  // The batch loop of index.js:318-386 and the handler around it
  // ---------------------------------------------------------------------

  /** Neither `new URL(path)` nor `new URL(baseUrl)` of index.js:321-322 throws for `path`. */
  predicate Rewritable(env: UrlEnv, path: string, baseUrl1: string, baseUrl2: string)
  {
    RewriteOrigin(env, path, baseUrl1).Some? && RewriteOrigin(env, path, baseUrl2).Some?
  }

  /** The result recorded for the path at `index` of the merged list. */
  function ItemFor(env: UrlEnv, io: BatchIo, index: nat, path: string, baseUrl1: string, baseUrl2: string)
    : ComparisonResult
    requires Rewritable(env, path, baseUrl1, baseUrl2)
  {
    ItemResult(io, index, env.parse(path).value.pathname,
               RewriteOrigin(env, path, baseUrl1).value, RewriteOrigin(env, path, baseUrl2).value)
  }

  /** The message of the `TypeError` that `new URL` throws on input it cannot parse. */
  const InvalidUrlMessage: string := "Invalid URL"

  /**
   * The `for` loop of index.js:320-386: one result per path, in list order.
   * The rewrites sit outside the per-item `try`, so a path or base URL that
   * does not parse aborts the whole batch.
   */
  method CompareAll(env: UrlEnv, io: BatchIo, urls: seq<string>, baseUrl1: string, baseUrl2: string)
    returns (r: Result<seq<ComparisonResult>>)
    ensures r.Ok? <==> forall i :: 0 <= i < |urls| ==> Rewritable(env, urls[i], baseUrl1, baseUrl2)
    ensures r.Err? ==> r.message == InvalidUrlMessage
    ensures r.Ok? ==> |r.value| == |urls|
    ensures r.Ok? ==> forall i :: 0 <= i < |urls| ==>
      Rewritable(env, urls[i], baseUrl1, baseUrl2) && r.value[i] == ItemFor(env, io, i, urls[i], baseUrl1, baseUrl2)
  {
    var results: seq<ComparisonResult> := [];
    var index := 0;
    while index < |urls|
      invariant 0 <= index <= |urls|
      invariant |results| == index
      invariant forall i :: 0 <= i < index ==>
        Rewritable(env, urls[i], baseUrl1, baseUrl2) && results[i] == ItemFor(env, io, i, urls[i], baseUrl1, baseUrl2)
    {
      var path := urls[index];
      var url1 := RewriteOrigin(env, path, baseUrl1);
      var url2 := RewriteOrigin(env, path, baseUrl2);
      if url1.None? || url2.None? {
        assert !Rewritable(env, urls[index], baseUrl1, baseUrl2);
        return Err(InvalidUrlMessage);
      }
      var pathname := env.parse(path).value.pathname;
      var result := CompareItem(io, index, pathname, url1.value, url2.value);
      results := results + [result];
      index := index + 1;
    }
    r := Ok(results);
  }

  /** The JSON body of a successful `/compare-full-site` response. */
  datatype Report = Report(totalPagesFound: nat, totalCompared: nat, results: seq<ComparisonResult>)

  /**
   * Crawl the first site, then the second, with the same cap. Each result is
   * the crawl of its site; the first is duplicate-free, opens with its seed
   * and is just the seed when at most one page is allowed.
   */
  method CrawlBothSites(env: UrlEnv, load1: string -> Crawler.PageLoad, load2: string -> Crawler.PageLoad,
                        baseUrl1: string, baseUrl2: string, maxPages: int)
    returns (pages1: seq<string>, pages2: seq<string>)
    ensures pages1 == Crawler.Crawl(env, load1, baseUrl1, maxPages)
    ensures pages2 == Crawler.Crawl(env, load2, baseUrl2, maxPages)
    ensures NoDups(pages1) && |pages1| >= 1 && pages1[0] == baseUrl1
    ensures maxPages <= 1 ==> pages1 == [baseUrl1]
  {
    ghost var trace1, parent1, trace2, parent2;
    pages1, trace1, parent1 := Crawler.CrawlSite(env, load1, baseUrl1, maxPages);
    pages2, trace2, parent2 := Crawler.CrawlSite(env, load2, baseUrl2, maxPages);
  }

  /**
   * The `/compare-full-site` handler (index.js:295-395) after the browser is
   * launched: crawl both sites with the same cap, merge the lists, compare
   * every merged path on both sites. The ghost `urls` is the merged list.
   * Each crawl sees the browser through its own oracle, since the two
   * crawls load pages at different times and may reach the same URL.
   */
  method CompareFullSite(env: UrlEnv, load1: string -> Crawler.PageLoad, load2: string -> Crawler.PageLoad,
                         io: BatchIo, baseUrl1: string, baseUrl2: string, maxPages: int)
    returns (r: Result<Report>, ghost urls: seq<string>)
    // the merged list is the `Set` union of the two crawls, cut to `maxPages`
    ensures urls == UniqueUrls(Crawler.Crawl(env, load1, baseUrl1, maxPages),
                               Crawler.Crawl(env, load2, baseUrl2, maxPages), maxPages)
    ensures NoDups(urls)
    ensures maxPages >= 0 ==> |urls| <= maxPages
    ensures maxPages >= 1 ==> |urls| >= 1 && urls[0] == baseUrl1
    ensures maxPages == 1 ==> urls == [baseUrl1]
    ensures r.Ok? <==> forall i :: 0 <= i < |urls| ==> Rewritable(env, urls[i], baseUrl1, baseUrl2)
    ensures r.Ok? ==> r.value.totalCompared == r.value.totalPagesFound == |urls| == |r.value.results|
    ensures r.Ok? ==> forall i :: 0 <= i < |urls| ==>
      Rewritable(env, urls[i], baseUrl1, baseUrl2)
      && r.value.results[i] == ItemFor(env, io, i, urls[i], baseUrl1, baseUrl2)
    // with one page allowed, the single result is the first site's seed against itself
    ensures r.Ok? && maxPages == 1 ==> |r.value.results| == 1 && r.value.results[0].url1 == baseUrl1
  {
    var pages1, pages2 := CrawlBothSites(env, load1, load2, baseUrl1, baseUrl2, maxPages);
    var allUniqueUrls := UniqueUrls(pages1, pages2, maxPages);
    UniqueUrlsFacts(pages1, pages2, maxPages);
    if maxPages >= 1 {
      FirstSiteFirst(pages1, pages2, maxPages);
      assert allUniqueUrls[..1] == pages1[..1];
    }
    urls := allUniqueUrls;

    var compared := CompareAll(env, io, allUniqueUrls, baseUrl1, baseUrl2);
    if compared.Err? {
      return Err(compared.message), urls;
    }
    var results := compared.value;
    if maxPages == 1 {
      assert Rewritable(env, urls[0], baseUrl1, baseUrl2);
      RewriteOntoOwnOrigin(env, baseUrl1, baseUrl1);
    }
    r := Ok(Report(|allUniqueUrls|, |results|, results));
  }
}
