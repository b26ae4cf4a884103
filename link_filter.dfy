/**
 * The link extraction run inside the page for every crawled URL
 * (`page.$$eval('a[href]', ...)`): a host filter, absolutisation, a filter
 * dropping non-navigable targets, and a cap of fifty links.
 */
module LinkFilter {
  import opened Wrappers
  import opened Strings
  import opened Urls

  const MaxLinksPerPage: int := 50

  const BlockedExtensions: seq<string> :=
    ["pdf", "doc", "docx", "xls", "xlsx", "zip", "rar", "mp3", "mp4"]

  /**
   * The first filter: a non-empty `href` whose resolution against the seed
   * URL has the seed's hostname. A throwing constructor rejects the link.
   */
  predicate OnSeedHost(env: UrlEnv, seed: string, href: string)
  {
    && href != ""
    && Hostname(env, seed).Some?
    && env.resolve(href, seed).Some?
    && env.resolve(href, seed).value.hostname == Hostname(env, seed).value
  }

  /** `/\.(pdf|doc|docx|xls|xlsx|zip|rar|mp3|mp4)$/i` matches `s`. */
  predicate HasBlockedExtension(s: string)
  {
    exists e :: e in BlockedExtensions && EndsWithExtension(s, e)
  }

  /** The last filter: no fragment, no mail or telephone scheme, no binary download. */
  predicate Navigable(s: string)
  {
    && !Contains(s, "#")
    && !Contains(s, "mailto:")
    && !Contains(s, "tel:")
    && !HasBlockedExtension(s)
  }

  function SameHostHrefs(env: UrlEnv, seed: string, hrefs: seq<string>): (r: seq<string>)
    ensures |r| <= |hrefs|
    ensures forall h :: h in r <==> h in hrefs && OnSeedHost(env, seed, h)
  {
    if hrefs == [] then []
    else if OnSeedHost(env, seed, hrefs[0]) then [hrefs[0]] + SameHostHrefs(env, seed, hrefs[1..])
    else SameHostHrefs(env, seed, hrefs[1..])
  }

  /**
   * The host filter is `Array.prototype.filter`: it keeps the survivors of
   * each part in their order and with their multiplicity.
   */
  lemma {:induction false} SameHostHrefsIsFilter(env: UrlEnv, seed: string, a: seq<string>, b: seq<string>)
    ensures SameHostHrefs(env, seed, a + b) == SameHostHrefs(env, seed, a) + SameHostHrefs(env, seed, b)
    decreases |a|
  {
    if a == [] {
      assert a + b == b;
    } else {
      assert (a + b)[0] == a[0] && (a + b)[1..] == a[1..] + b;
      SameHostHrefsIsFilter(env, seed, a[1..], b);
    }
  }

  /** On a single link the host filter keeps it exactly when it is on the seed's host. */
  lemma SameHostHrefsSingle(env: UrlEnv, seed: string, h: string)
    ensures SameHostHrefs(env, seed, [h]) == if OnSeedHost(env, seed, h) then [h] else []
  {
    assert [h][1..] == [];
  }

  /** `new URL(href, seed).href` for each link, `None` standing for the `null` of a throw. */
  function Absolutize(env: UrlEnv, seed: string, hrefs: seq<string>): (r: seq<Option<string>>)
    ensures |r| == |hrefs|
  {
    seq(|hrefs|, i requires 0 <= i < |hrefs| =>
      match env.resolve(hrefs[i], seed)
      case None => None
      case Some(u) => Some(u.href))
  }

  function KeepNavigable(opts: seq<Option<string>>): (r: seq<string>)
    ensures |r| <= |opts|
    ensures forall s :: s in r <==> Some(s) in opts && Navigable(s)
  {
    if opts == [] then []
    else if opts[0].Some? && Navigable(opts[0].value) then [opts[0].value] + KeepNavigable(opts[1..])
    else KeepNavigable(opts[1..])
  }

  /**
   * The last filter is `Array.prototype.filter` too: survivors keep their
   * order and multiplicity, and a `null` never survives.
   */
  lemma {:induction false} KeepNavigableIsFilter(a: seq<Option<string>>, b: seq<Option<string>>)
    ensures KeepNavigable(a + b) == KeepNavigable(a) + KeepNavigable(b)
    decreases |a|
  {
    if a == [] {
      assert a + b == b;
    } else {
      assert (a + b)[0] == a[0] && (a + b)[1..] == a[1..] + b;
      KeepNavigableIsFilter(a[1..], b);
    }
  }

  /** On a single entry the last filter drops a `null` and keeps a link exactly when it is navigable. */
  lemma KeepNavigableSingle(s: string)
    ensures KeepNavigable([None]) == []
    ensures KeepNavigable([Some(s)]) == if Navigable(s) then [s] else []
  {
    var none: seq<Option<string>> := [None];
    assert none[1..] == [];
    assert [Some(s)][1..] == [];
  }

  /** The whole pipeline of index.js:48-72 over the anchors' `href` values. */
  function ExtractLinks(env: UrlEnv, seed: string, hrefs: seq<string>): (r: seq<string>)
    ensures |r| <= MaxLinksPerPage
  {
    SliceTo(KeepNavigable(Absolutize(env, seed, SameHostHrefs(env, seed, hrefs))), MaxLinksPerPage)
  }

  /** A link that passes the host filter always resolves, so the `null` filter never drops one. */
  lemma NoNullAfterHostFilter(env: UrlEnv, seed: string, hrefs: seq<string>)
    ensures None !in Absolutize(env, seed, SameHostHrefs(env, seed, hrefs))
  {
    var kept := SameHostHrefs(env, seed, hrefs);
    var abs := Absolutize(env, seed, kept);
    forall i | 0 <= i < |abs| ensures abs[i] != None {
      assert kept[i] in kept;
    }
  }

  /**
   * Every extracted link is the serialization of an anchor's resolution that
   * has the seed's hostname, and it is navigable; at most fifty are kept.
   */
  lemma ExtractedLinkFacts(env: UrlEnv, seed: string, hrefs: seq<string>, link: string)
    requires link in ExtractLinks(env, seed, hrefs)
    ensures Navigable(link)
    ensures exists h :: h in hrefs && OnSeedHost(env, seed, h) && env.resolve(h, seed).value.href == link
    ensures |ExtractLinks(env, seed, hrefs)| <= MaxLinksPerPage
  {
    var kept := SameHostHrefs(env, seed, hrefs);
    var abs := Absolutize(env, seed, kept);
    assert link in KeepNavigable(abs);
    var i :| 0 <= i < |abs| && abs[i] == Some(link);
    assert kept[i] in kept;
  }

  /** Under a well-behaved parser, an extracted link parses to a URL on the seed's host. */
  lemma ExtractedLinkOnSeedHost(env: UrlEnv, seed: string, hrefs: seq<string>, link: string)
    requires WellBehaved(env)
    requires link in ExtractLinks(env, seed, hrefs)
    ensures Hostname(env, seed).Some?
    ensures Hostname(env, link) == Hostname(env, seed)
  {
    ExtractedLinkFacts(env, seed, hrefs, link);
    var h :| h in hrefs && OnSeedHost(env, seed, h) && env.resolve(h, seed).value.href == link;
  }

  /**
   * When no more than fifty candidates survive the filters, every anchor
   * that passes them is extracted: the cap is the only thing that drops a
   * qualifying link.
   */
  lemma ExtractLinksComplete(env: UrlEnv, seed: string, hrefs: seq<string>, h: string)
    requires h in hrefs && OnSeedHost(env, seed, h)
    requires Navigable(env.resolve(h, seed).value.href)
    requires |KeepNavigable(Absolutize(env, seed, SameHostHrefs(env, seed, hrefs)))| <= MaxLinksPerPage
    ensures env.resolve(h, seed).value.href in ExtractLinks(env, seed, hrefs)
  {
    var kept := SameHostHrefs(env, seed, hrefs);
    var abs := Absolutize(env, seed, kept);
    var i :| 0 <= i < |kept| && kept[i] == h;
    assert abs[i] == Some(env.resolve(h, seed).value.href);
  }

  /** An extracted link has no `#`, so `link.split('#')[0]` hands the crawler the link itself. */
  lemma ExtractedLinkIsClean(env: UrlEnv, seed: string, hrefs: seq<string>, link: string)
    requires link in ExtractLinks(env, seed, hrefs)
    ensures BeforeHash(link) == link
  {
    ExtractedLinkFacts(env, seed, hrefs, link);
    NoHashMeansWhole(link);
  }
}
