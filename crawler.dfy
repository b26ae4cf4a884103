/**
 * The bounded breadth-first crawl of `crawlSite` (index.js:17-102). The
 * browser is an oracle `load`: visiting a URL either fails (navigation,
 * settle wait or link query threw) or yields the `href` of every anchor.
 */
module Crawler {
  import opened Wrappers
  import opened OrderedSets
  import opened Strings
  import opened Urls
  import opened LinkFilter

  datatype PageLoad = NavigationFailed | Loaded(anchors: seq<string>)

  /** The links one visit contributes to the frontier: none when the visit failed. */
  function LinksOf(env: UrlEnv, seed: string, page: PageLoad): (r: seq<string>)
    ensures |r| <= MaxLinksPerPage
    ensures page.NavigationFailed? ==> r == []
  {
    match page
    case NavigationFailed => []
    case Loaded(anchors) => ExtractLinks(env, seed, anchors)
  }

  /** `link` was extracted from one of the pages visited so far. */
  ghost predicate FoundOnVisitedPage(env: UrlEnv, seed: string, load: string -> PageLoad,
                                     trace: seq<string>, link: string)
  {
    exists j :: 0 <= j < |trace| && link in LinksOf(env, seed, load(trace[j]))
  }

  lemma FoundOnLongerTrace(env: UrlEnv, seed: string, load: string -> PageLoad,
                           trace: seq<string>, next: string, link: string)
    requires FoundOnVisitedPage(env, seed, load, trace, link)
    ensures FoundOnVisitedPage(env, seed, load, trace + [next], link)
  {
    var j :| 0 <= j < |trace| && link in LinksOf(env, seed, load(trace[j]));
    assert (trace + [next])[j] == trace[j];
  }

  /** `x` is one of `links` cut at its first `#`. */
  ghost predicate CutFromLinks(links: seq<string>, x: string)
  {
    exists l :: l in links && x == BeforeHash(l)
  }

  /** Nothing in the back part of a duplicate-free sequence occurs in its front part. */
  lemma NoDupsApart<T>(front: seq<T>, back: seq<T>, x: T)
    requires NoDups(front + back)
    requires x in back
    ensures x !in front
  {
    var j :| 0 <= j < |back| && back[j] == x;
    forall i | 0 <= i < |front| ensures front[i] != x {
      assert (front + back)[i] == front[i];
      assert (front + back)[|front| + j] == x;
    }
  }

  /**
   * The discovered list after the `for` loop of index.js:78-86 has
   * considered `links` in order, starting from `pages`: each link cut at its
   * first `#` is appended when it is new and the list is below the cap.
   */
  function Enqueued(links: seq<string>, pages: seq<string>, maxPages: int): (r: seq<string>)
    ensures |pages| <= |r| && r[..|pages|] == pages
    decreases |links|
  {
    if links == [] then pages
    else
      var c := BeforeHash(links[0]);
      var pages' := if c !in pages && |pages| < maxPages then pages + [c] else pages;
      assert pages'[..|pages|] == pages;
      Enqueued(links[1..], pages', maxPages)
  }

  /** One step of `Enqueued`: the link at `k` is appended when new and below the cap. */
  lemma EnqueuedAt(links: seq<string>, k: nat, pages: seq<string>, maxPages: int)
    requires k < |links|
    ensures var c := BeforeHash(links[k]);
      Enqueued(links[k..], pages, maxPages)
      == Enqueued(links[k + 1..], if c !in pages && |pages| < maxPages then pages + [c] else pages, maxPages)
  {
    assert links[k..][0] == links[k] && links[k..][1..] == links[k + 1..];
  }

  /** Appending to a list keeps its first `n` entries and extends what follows them. */
  lemma AppendKeepsSlices(pages: seq<string>, c: string, n: nat)
    requires n <= |pages|
    ensures (pages + [c])[..n] == pages[..n] && (pages + [c])[n..] == pages[n..] + [c]
  {
  }

  /** Every link cut at its first `#`. */
  function CleanLinks(links: seq<string>): (r: seq<string>)
    ensures |r| == |links| && forall i :: 0 <= i < |links| ==> r[i] == BeforeHash(links[i])
  {
    seq(|links|, i requires 0 <= i < |links| => BeforeHash(links[i]))
  }

  /**
   * The loop appends the new cut links in link order, each at its first
   * occurrence, and stops appending once the list reaches `maxPages`.
   */
  lemma {:induction false} EnqueuedIsCappedDedup(links: seq<string>, pages: seq<string>, maxPages: int)
    requires NoDups(pages)
    ensures Enqueued(links, pages, maxPages) ==
      pages + SliceTo(DedupFrom(CleanLinks(links), SetOf(pages)), Max(maxPages - |pages|, 0))
    decreases |links|
  {
    if links == [] {
      assert CleanLinks(links) == [];
    } else {
      var c := BeforeHash(links[0]);
      var tail := CleanLinks(links[1..]);
      assert CleanLinks(links) == [c] + tail;
      if c in pages || |pages| >= maxPages {
        assert Enqueued(links, pages, maxPages) == Enqueued(links[1..], pages, maxPages);
        EnqueuedIsCappedDedup(links[1..], pages, maxPages);
      } else {
        assert Enqueued(links, pages, maxPages) == Enqueued(links[1..], pages + [c], maxPages);
        AppendFresh(pages, c);
        EnqueuedIsCappedDedup(links[1..], pages + [c], maxPages);
        DedupSliceStep(c, tail, pages, maxPages - |pages|);
      }
    }
  }

  /** Appending a new element to the list and taking one fewer from the rest is taking from both. */
  lemma DedupSliceStep(c: string, tail: seq<string>, pages: seq<string>, n: int)
    requires c !in pages && n >= 1
    ensures pages + [c] + SliceTo(DedupFrom(tail, SetOf(pages) + {c}), Max(n - 1, 0))
         == pages + SliceTo(DedupFrom([c] + tail, SetOf(pages)), Max(n, 0))
  {
    var rest := DedupFrom(tail, SetOf(pages) + {c});
    assert ([c] + tail)[1..] == tail;
    assert DedupFrom([c] + tail, SetOf(pages)) == [c] + rest;
    SliceToCons(c, rest, n);
    assert pages + [c] + SliceTo(rest, n - 1) == pages + ([c] + SliceTo(rest, n - 1));
  }

  /** Appending an element not yet present keeps a list duplicate-free and adds it to the set. */
  lemma AppendFresh(pages: seq<string>, c: string)
    requires NoDups(pages) && c !in pages
    ensures NoDups(pages + [c]) && SetOf(pages + [c]) == SetOf(pages) + {c}
  {
    var pages' := pages + [c];
    forall i, j | 0 <= i < j < |pages'| ensures pages'[i] != pages'[j] {
      assert pages'[i] == pages[i];
    }
  }

  lemma SliceToCons(c: string, rest: seq<string>, n: int)
    requires n >= 1
    ensures SliceTo([c] + rest, n) == [c] + SliceTo(rest, n - 1)
  {
  }

  /**
   * What the loop leaves behind: a duplicate-free list that gained only cut
   * links, holds at most `maxPages` entries unless it started above that,
   * and holds every cut link unless the cap was reached.
   */
  lemma EnqueuedFacts(links: seq<string>, pages: seq<string>, maxPages: int)
    requires NoDups(pages)
    ensures NoDups(Enqueued(links, pages, maxPages))
    ensures forall i :: |pages| <= i < |Enqueued(links, pages, maxPages)| ==>
      CutFromLinks(links, Enqueued(links, pages, maxPages)[i])
    ensures |Enqueued(links, pages, maxPages)| <= Max(maxPages, |pages|)
    ensures forall l :: l in links ==>
      BeforeHash(l) in Enqueued(links, pages, maxPages) || |Enqueued(links, pages, maxPages)| >= maxPages
  {
    EnqueuedIsCappedDedup(links, pages, maxPages);
    var seen := SetOf(pages);
    var d := DedupFrom(CleanLinks(links), seen);
    var n := Max(maxPages - |pages|, 0);
    var added := SliceTo(d, n);
    var r := pages + added;
    assert r == Enqueued(links, pages, maxPages);
    assert added == d[..|added|];
    forall i, j | 0 <= i < j < |r| ensures r[i] != r[j] {
      if j < |pages| {
        assert r[i] == pages[i] && r[j] == pages[j];
      } else if i >= |pages| {
        assert r[i] == d[i - |pages|] && r[j] == d[j - |pages|];
      } else {
        assert r[i] == pages[i] && r[j] == d[j - |pages|];
        assert r[j] in d && r[i] in seen;
      }
    }
    forall i | |pages| <= i < |r| ensures CutFromLinks(links, r[i]) {
      assert r[i] == d[i - |pages|];
      assert r[i] in CleanLinks(links);
      var k :| 0 <= k < |links| && CleanLinks(links)[k] == r[i];
      assert links[k] in links;
    }
    forall l | l in links ensures BeforeHash(l) in r || |r| >= maxPages {
      var k :| 0 <= k < |links| && links[k] == l;
      assert CleanLinks(links)[k] == BeforeHash(l);
      if BeforeHash(l) !in pages && |added| == |d| {
        assert BeforeHash(l) in d;
        assert added == d;
      }
    }
  }

  /**
   * The `for (const link of links)` loop of index.js:78-86: each link, cut
   * at its first `#`, is pushed onto the frontier and added to the
   * discovered pages unless already visited, already queued, or the cap
   * `maxPages` is reached. The discovered pages are the visited ones and
   * the queued ones.
   */
  method EnqueueLinks(links: seq<string>, visited: set<string>, toVisit: seq<string>,
                      allPages: seq<string>, maxPages: int)
    returns (toVisit': seq<string>, allPages': seq<string>)
    requires forall x :: x in allPages <==> x in visited || x in toVisit
    ensures allPages' == Enqueued(links, allPages, maxPages)
    ensures toVisit' == toVisit + allPages'[|allPages|..]
  {
    toVisit', allPages' := toVisit, allPages;
    var k := 0;
    while k < |links|
      invariant 0 <= k <= |links|
      invariant Enqueued(links[k..], allPages', maxPages) == Enqueued(links, allPages, maxPages)
      invariant |allPages| <= |allPages'| && allPages == allPages'[..|allPages|]
      invariant toVisit' == toVisit + allPages'[|allPages|..]
      invariant forall x :: x in allPages' <==> x in visited || x in toVisit'
    {
      var cleanLink := BeforeHash(links[k]);
      EnqueuedAt(links, k, allPages', maxPages);
      assert cleanLink in allPages' <==> cleanLink in visited || cleanLink in toVisit';
      if cleanLink !in visited && cleanLink !in toVisit' && |allPages'| < maxPages {
        AppendKeepsSlices(allPages', cleanLink, |allPages|);
        toVisit' := toVisit' + [cleanLink];
        allPages' := allPages' + [cleanLink];
      }
      k := k + 1;
    }
    assert links[k..] == [];
  }

  /** Every discovered page but the seed was extracted from a page in `trace`. */
  ghost predicate Provenance(env: UrlEnv, seed: string, load: string -> PageLoad,
                             trace: seq<string>, pages: seq<string>)
  {
    forall i :: 1 <= i < |pages| ==> FoundOnVisitedPage(env, seed, load, trace, pages[i])
  }

  /** Every link extracted from a page in `trace` was discovered, unless the cap was reached. */
  ghost predicate LinksRecorded(env: UrlEnv, seed: string, load: string -> PageLoad,
                                trace: seq<string>, pages: seq<string>, maxPages: int)
  {
    forall j, link :: 0 <= j < |trace| && link in LinksOf(env, seed, load(trace[j])) ==>
      link in pages || |pages| >= maxPages
  }

  /** Visiting `current` and enqueuing its links keeps both bookkeeping facts. */
  lemma VisitKeepsBookkeeping(env: UrlEnv, seed: string, load: string -> PageLoad, trace: seq<string>,
                              current: string, pages: seq<string>, pages': seq<string>, maxPages: int)
    requires Provenance(env, seed, load, trace, pages)
    requires LinksRecorded(env, seed, load, trace, pages, maxPages)
    requires |pages| <= |pages'| && pages == pages'[..|pages|]
    requires forall i :: |pages| <= i < |pages'| ==> CutFromLinks(LinksOf(env, seed, load(current)), pages'[i])
    requires forall l :: l in LinksOf(env, seed, load(current)) ==> BeforeHash(l) in pages' || |pages'| >= maxPages
    ensures Provenance(env, seed, load, trace + [current], pages')
    ensures LinksRecorded(env, seed, load, trace + [current], pages', maxPages)
  {
    var trace' := trace + [current];
    var links := LinksOf(env, seed, load(current));
    assert trace'[|trace|] == current;
    forall i | 1 <= i < |pages'| ensures FoundOnVisitedPage(env, seed, load, trace', pages'[i]) {
      if i < |pages| {
        assert pages'[i] == pages[i];
        FoundOnLongerTrace(env, seed, load, trace, current, pages[i]);
      } else {
        assert CutFromLinks(links, pages'[i]);
        var l :| l in links && pages'[i] == BeforeHash(l);
        ExtractedLinkIsClean(env, seed, load(current).anchors, l);
      }
    }
    forall j, link | 0 <= j < |trace'| && link in LinksOf(env, seed, load(trace'[j]))
      ensures link in pages' || |pages'| >= maxPages
    {
      if j < |trace| {
        assert trace'[j] == trace[j];
        if link in pages {
          var k :| 0 <= k < |pages| && pages[k] == link;
          assert pages'[k] == link;
        }
      } else {
        ExtractedLinkIsClean(env, seed, load(current).anchors, link);
      }
    }
  }

  /**
   * `parent[i]` is the position in `trace` of the visit that discovered
   * `pages[i]`: that page links to it, no earlier visited page does, and
   * parents never decrease along `pages`, so the pages are listed level by
   * level in breadth-first order. The seed has no parent.
   */
  ghost predicate BreadthFirst(env: UrlEnv, seed: string, load: string -> PageLoad,
                               trace: seq<string>, pages: seq<string>, parent: seq<int>)
  {
    && |parent| == |pages| >= 1 && parent[0] == -1
    && (forall i :: 1 <= i < |pages| ==> 0 <= parent[i] < |trace| && parent[i] < i)
    && (forall i :: 1 <= i < |pages| ==> pages[i] in LinksOf(env, seed, load(trace[parent[i]])))
    && (forall i, j :: 1 <= i < |pages| && 0 <= j < parent[i] ==> pages[i] !in LinksOf(env, seed, load(trace[j])))
    && (forall i, k :: 1 <= i < k < |pages| ==> parent[i] <= parent[k])
  }

  /** A page the current visit appends is one of its links, and no page visited before links to it. */
  lemma FirstFoundByCurrent(env: UrlEnv, seed: string, load: string -> PageLoad, trace: seq<string>,
                            current: string, pages: seq<string>, pages': seq<string>, maxPages: int, i: int)
    requires LinksRecorded(env, seed, load, trace, pages, maxPages) && |pages| < maxPages
    requires NoDups(pages') && |pages| <= i < |pages'| && pages == pages'[..|pages|]
    requires CutFromLinks(LinksOf(env, seed, load(current)), pages'[i])
    ensures pages'[i] in LinksOf(env, seed, load(current))
    ensures forall j :: 0 <= j < |trace| ==> pages'[i] !in LinksOf(env, seed, load(trace[j]))
  {
    var l :| l in LinksOf(env, seed, load(current)) && pages'[i] == BeforeHash(l);
    ExtractedLinkIsClean(env, seed, load(current).anchors, l);
    assert pages' == pages + pages'[|pages|..];
    NoDupsApart(pages, pages'[|pages|..], pages'[i]);
  }

  /** The pages a visit below the cap appends get the visit as parent, which keeps the order breadth-first. */
  lemma VisitKeepsBreadthFirst(env: UrlEnv, seed: string, load: string -> PageLoad, trace: seq<string>,
                               current: string, pages: seq<string>, pages': seq<string>,
                               parent: seq<int>, maxPages: int)
    requires BreadthFirst(env, seed, load, trace, pages, parent)
    requires LinksRecorded(env, seed, load, trace, pages, maxPages)
    requires |trace| < |pages| < maxPages
    requires NoDups(pages')
    requires |pages| <= |pages'| && pages == pages'[..|pages|]
    requires forall i :: |pages| <= i < |pages'| ==> CutFromLinks(LinksOf(env, seed, load(current)), pages'[i])
    ensures BreadthFirst(env, seed, load, trace + [current], pages',
                         parent + seq(|pages'| - |pages|, _ => |trace|))
  {
    var trace' := trace + [current];
    var parent' := parent + seq(|pages'| - |pages|, _ => |trace|);
    var links := LinksOf(env, seed, load(current));
    assert trace'[|trace|] == current;
    assert pages' == pages + pages'[|pages|..];
    forall i | 1 <= i < |pages'|
      ensures 0 <= parent'[i] < |trace'| && parent'[i] < i
      ensures pages'[i] in LinksOf(env, seed, load(trace'[parent'[i]]))
      ensures forall j :: 0 <= j < parent'[i] ==> pages'[i] !in LinksOf(env, seed, load(trace'[j]))
    {
      if i < |pages| {
        assert parent'[i] == parent[i] && pages'[i] == pages[i];
        assert trace'[parent[i]] == trace[parent[i]];
        forall j | 0 <= j < parent[i] ensures pages[i] !in LinksOf(env, seed, load(trace'[j])) {
          assert trace'[j] == trace[j];
        }
      } else {
        assert parent'[i] == |trace|;
        FirstFoundByCurrent(env, seed, load, trace, current, pages, pages', maxPages, i);
        forall j | 0 <= j < |trace| ensures pages'[i] !in LinksOf(env, seed, load(trace'[j])) {
          assert trace'[j] == trace[j];
        }
      }
    }
    forall i, k | 1 <= i < k < |pages'| ensures parent'[i] <= parent'[k] {
      if k < |pages| {
        assert parent'[i] == parent[i] && parent'[k] == parent[k];
      } else if i < |pages| {
        assert parent'[i] == parent[i];
      }
    }
  }

  /** The facts that hold of the crawl state at every head of the `while` loop of index.js:30. */
  ghost predicate CrawlInvariant(env: UrlEnv, load: string -> PageLoad, seed: string, maxPages: int,
                                 visited: set<string>, toVisit: seq<string>, allPages: seq<string>,
                                 trace: seq<string>, parent: seq<int>)
  {
    && |allPages| >= 1 && allPages[0] == seed
    // the discovered pages are the visited ones, in visiting order, followed by the frontier
    && allPages == trace + toVisit
    && NoDups(allPages)
    && (forall x :: x in visited <==> x in trace)
    && |allPages| <= Max(maxPages, 1)
    && Provenance(env, seed, load, trace, allPages)
    && LinksRecorded(env, seed, load, trace, allPages, maxPages)
    && BreadthFirst(env, seed, load, trace, allPages, parent)
  }

  /** A visit below the cap keeps the discovered list the visited pages followed by the frontier, seed first, duplicate-free and capped. */
  lemma VisitKeepsShape(links: seq<string>, seed: string, maxPages: int, toVisit: seq<string>,
                        allPages: seq<string>, trace: seq<string>, toVisit': seq<string>, allPages': seq<string>)
    requires |allPages| >= 1 && allPages[0] == seed && NoDups(allPages)
    requires allPages == trace + toVisit && toVisit != [] && |allPages| < maxPages
    requires allPages' == Enqueued(links, allPages, maxPages)
    requires toVisit' == toVisit[1..] + allPages'[|allPages|..]
    ensures |allPages'| >= 1 && allPages'[0] == seed && NoDups(allPages')
    ensures allPages' == trace + [toVisit[0]] + toVisit'
    ensures |allPages'| <= Max(maxPages, 1)
  {
    var added := allPages'[|allPages|..];
    calc {
      allPages';
      allPages'[..|allPages|] + added;
      allPages + added;
      trace + toVisit + added;
      { assert toVisit == [toVisit[0]] + toVisit[1..]; }
      trace + ([toVisit[0]] + toVisit[1..]) + added;
      trace + [toVisit[0]] + (toVisit[1..] + added);
    }
    EnqueuedFacts(links, allPages, maxPages);
  }

  /** Visiting the front of the frontier below the cap keeps the crawl invariant. */
  lemma VisitKeepsInvariant(env: UrlEnv, load: string -> PageLoad, seed: string, maxPages: int,
                            visited: set<string>, toVisit: seq<string>, allPages: seq<string>,
                            trace: seq<string>, parent: seq<int>,
                            toVisit': seq<string>, allPages': seq<string>)
    requires CrawlInvariant(env, load, seed, maxPages, visited, toVisit, allPages, trace, parent)
    requires toVisit != [] && |allPages| < maxPages
    requires allPages' == Enqueued(LinksOf(env, seed, load(toVisit[0])), allPages, maxPages)
    requires toVisit' == toVisit[1..] + allPages'[|allPages|..]
    ensures CrawlInvariant(env, load, seed, maxPages, visited + {toVisit[0]}, toVisit', allPages',
                           trace + [toVisit[0]], parent + seq(|allPages'| - |allPages|, _ => |trace|))
  {
    var current := toVisit[0];
    var links := LinksOf(env, seed, load(current));
    VisitKeepsShape(links, seed, maxPages, toVisit, allPages, trace, toVisit', allPages');
    EnqueuedFacts(links, allPages, maxPages);
    VisitKeepsBookkeeping(env, seed, load, trace, current, allPages, allPages', maxPages);
    VisitKeepsBreadthFirst(env, seed, load, trace, current, allPages, allPages', parent, maxPages);
  }

  /** Moving the front of the frontier to the visited pages keeps the discovered pages their union. */
  lemma FrontMovesToVisited(visited: set<string>, trace: seq<string>, toVisit: seq<string>, allPages: seq<string>)
    requires allPages == trace + toVisit && toVisit != []
    requires forall x :: x in visited <==> x in trace
    ensures forall x :: x in allPages <==> x in visited + {toVisit[0]} || x in toVisit[1..]
  {
    assert allPages == trace + [toVisit[0]] + toVisit[1..] by {
      assert toVisit == [toVisit[0]] + toVisit[1..];
    }
  }

  /**
   * One iteration of the crawl loop (index.js:31-93): take the front of the
   * frontier, visit it, mark it visited, and enqueue the new links it yields.
   */
  method VisitFront(env: UrlEnv, load: string -> PageLoad, seed: string, maxPages: int,
                    visited: set<string>, toVisit: seq<string>, allPages: seq<string>,
                    ghost trace: seq<string>, ghost parent: seq<int>)
    returns (visited': set<string>, toVisit': seq<string>, allPages': seq<string>,
             ghost trace': seq<string>, ghost parent': seq<int>)
    requires CrawlInvariant(env, load, seed, maxPages, visited, toVisit, allPages, trace, parent)
    requires toVisit != [] && |allPages| < maxPages
    ensures CrawlInvariant(env, load, seed, maxPages, visited', toVisit', allPages', trace', parent')
    ensures trace' == trace + [toVisit[0]]
    ensures visited' == visited + {toVisit[0]}
    // `shift` takes from the front, `push` appends at the back
    ensures allPages' == Enqueued(LinksOf(env, seed, load(toVisit[0])), allPages, maxPages)
    ensures toVisit' == toVisit[1..] + allPages'[|allPages|..]
  {
    var current := toVisit[0];
    var rest := toVisit[1..];
    NoDupsApart(trace, toVisit, current);
    // the `visited.has(currentUrl)` skip of index.js:33 is never taken
    assert current !in visited;

    // both the success path and the `catch` mark the URL visited; a failed
    // visit contributes no links
    visited' := visited + {current};
    trace' := trace + [current];
    FrontMovesToVisited(visited, trace, toVisit, allPages);
    var links := LinksOf(env, seed, load(current));
    toVisit', allPages' := EnqueueLinks(links, visited', rest, allPages, maxPages);
    parent' := parent + seq(|allPages'| - |allPages|, _ => |trace|);
    VisitKeepsInvariant(env, load, seed, maxPages, visited, toVisit, allPages, trace, parent, toVisit', allPages');
  }

  /**
   * The pages `crawlSite` returns once its loop has run from frontier
   * `toVisit` and discovered list `allPages`: the front page's links are
   * enqueued and the rest of the frontier is crawled, until the frontier is
   * empty or the list holds `maxPages` pages.
   */
  function CrawlFrom(env: UrlEnv, load: string -> PageLoad, seed: string, maxPages: int,
                     toVisit: seq<string>, allPages: seq<string>): seq<string>
    decreases maxPages - |allPages| + |toVisit|
  {
    if toVisit == [] || |allPages| >= maxPages then allPages
    else
      var allPages' := Enqueued(LinksOf(env, seed, load(toVisit[0])), allPages, maxPages);
      CrawlFrom(env, load, seed, maxPages, toVisit[1..] + allPages'[|allPages|..], allPages')
  }

  /** The pages `crawlSite(browser, seed, maxPages)` returns. */
  function Crawl(env: UrlEnv, load: string -> PageLoad, seed: string, maxPages: int): seq<string>
  {
    CrawlFrom(env, load, seed, maxPages, [seed], [seed])
  }

  /**
   * `crawlSite(browser, seed, maxPages)`: `visited` is the set of URLs
   * visited, `toVisit` the FIFO frontier and `allPages` the insertion-ordered
   * set of discovered URLs that is returned. The ghost `trace` lists the
   * visited URLs in visiting order, and `parent` the visit that discovered
   * each page.
   */
  method CrawlSite(env: UrlEnv, load: string -> PageLoad, seed: string, maxPages: int)
    returns (pages: seq<string>, ghost trace: seq<string>, ghost parent: seq<int>)
    ensures pages == Crawl(env, load, seed, maxPages)
    ensures |pages| >= 1 && pages[0] == seed
    ensures NoDups(pages)
    ensures |pages| <= Max(maxPages, 1)
    ensures maxPages <= 1 ==> pages == [seed]
    // pages are visited in the order they were discovered
    ensures |trace| <= |pages| && trace == pages[..|trace|]
    // every page but the seed was extracted from a visited page
    ensures Provenance(env, seed, load, trace, pages)
    // breadth-first: each page was discovered by the first visited page linking to it, level by level
    ensures BreadthFirst(env, seed, load, trace, pages, parent)
    // below the cap the crawl is closed: every page was visited and every link found is in the result
    ensures |pages| < maxPages ==> trace == pages
    ensures |pages| < maxPages ==>
      forall j, link :: 0 <= j < |trace| && link in LinksOf(env, seed, load(trace[j])) ==> link in pages
  {
    var visited: set<string> := {};
    var toVisit := [seed];
    var allPages := [seed];
    trace := [];
    parent := [-1];

    while toVisit != [] && |allPages| < maxPages
      invariant CrawlInvariant(env, load, seed, maxPages, visited, toVisit, allPages, trace, parent)
      invariant CrawlFrom(env, load, seed, maxPages, toVisit, allPages) == Crawl(env, load, seed, maxPages)
      decreases maxPages - |allPages| + |toVisit|
    {
      var visited', toVisit', allPages', trace', parent' :=
        VisitFront(env, load, seed, maxPages, visited, toVisit, allPages, trace, parent);
      assert CrawlFrom(env, load, seed, maxPages, toVisit', allPages') == CrawlFrom(env, load, seed, maxPages, toVisit, allPages);
      visited, toVisit, allPages, trace, parent := visited', toVisit', allPages', trace', parent';
    }
    pages := allPages;
  }

  /**
   * Every page the crawl discovers besides the seed is navigable and, under
   * a well-behaved URL parser, on the seed's host.
   */
  lemma DiscoveredPageOnSeedHost(env: UrlEnv, seed: string, load: string -> PageLoad,
                                 trace: seq<string>, pages: seq<string>, i: int)
    requires WellBehaved(env)
    requires Provenance(env, seed, load, trace, pages)
    requires 1 <= i < |pages|
    ensures Navigable(pages[i])
    ensures Hostname(env, seed).Some? && Hostname(env, pages[i]) == Hostname(env, seed)
  {
    assert FoundOnVisitedPage(env, seed, load, trace, pages[i]);
    var j :| 0 <= j < |trace| && pages[i] in LinksOf(env, seed, load(trace[j]));
    var anchors := load(trace[j]).anchors;
    ExtractedLinkFacts(env, seed, anchors, pages[i]);
    ExtractedLinkOnSeedHost(env, seed, anchors, pages[i]);
  }
}
