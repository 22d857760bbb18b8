/** The crawler: the module-level state of the link extractor (the two link
    sets, the visit counter and the printed messages) held by one object,
    with the link handlers, the per-page link filter and the recursive
    crawl as methods that update it.

    Fetching a page and listing its tags' `href` attributes (an HTTP GET
    with a random user agent, then an HTML parse) is the given function
    `fetch`: it yields, for a page URL, one optional href per tag in
    document order. */
module LinkExtractor {
  import opened Wrappers
  import opened Urls
  import opened LinkFilter

  /** The larger of `a` and `b`. */
  function Max(a: int, b: int): int {
    if a < b then b else a
  }

  /** What is left of the budget `maxUrls` when the counter reads `t`: the
      number of further calls that may still start, or zero when there is
      no budget or it is spent. */
  function Budget(maxUrls: int, t: int): nat {
    if maxUrls > 0 && t <= maxUrls then maxUrls + 1 - t else 0
  }

  /** If `a` is a subset of `b` that misses `x` of `b`, it is strictly smaller. */
  lemma {:induction false} SubsetSmaller<T>(a: set<T>, b: set<T>, x: T)
    requires a <= b && x in b && x !in a
    ensures |a| < |b|
  {
    SubsetAtMost(a, b - {x});
  }

  /** A subset is no larger than its superset. */
  lemma {:induction false} SubsetAtMost<T>(a: set<T>, b: set<T>)
    requires a <= b
    ensures |a| <= |b|
    decreases a
  {
    if a != {} {
      var e :| e in a;
      SubsetAtMost(a - {e}, b - {e});
    }
  }

  /** The entries of `v` from `from` on are distinct URLs of `internal`
      that were not in `base`. */
  ghost predicate FreshVisits(v: seq<string>, from: nat, internal: set<string>, base: set<string>) {
    from <= |v| &&
    (forall i :: from <= i < |v| ==> v[i] in internal && v[i] !in base) &&
    (forall i, j :: from <= i < j < |v| ==> v[i] != v[j])
  }

  /** The URLs among the entries of `v` from `from` on. */
  ghost function Seen(v: seq<string>, from: nat): set<string> {
    set i | from <= i < |v| :: v[i]
  }

  /** Every URL of `internal` missing from `base` is pending in `rest` or
      among the entries of `v` from `from` on. */
  ghost predicate Covered(internal: set<string>, base: set<string>, rest: set<string>, v: seq<string>, from: nat) {
    internal - base <= rest + Seen(v, from)
  }

  /** A sequence extending `v1` splits at the end of `v1`. */
  lemma SplitVisits(v1: seq<string>, v: seq<string>, n0: nat)
    requires n0 <= |v1| <= |v| && v[..|v1|] == v1
    ensures v[n0..] == v1[n0..] + v[|v1|..] && v[..n0] == v1[..n0]
  {
  }

  /** Once every link of `links` has been visited, covering the links found
      after them covers all links found since `i0`. */
  lemma CoverPage(ia: set<string>, i0: set<string>, links: set<string>, v: seq<string>, from: nat)
    requires Covered(ia, i0 + links, links, v, from) && links <= Seen(v, from)
    ensures Covered(ia, i0, {}, v, from)
  {
    forall u | u in ia - i0 ensures u in Seen(v, from) {
      if u !in links {
        assert u in ia - (i0 + links);
      }
    }
  }

  /** One iteration of the crawl loop: the recursive call on `link`, taken
      from the pending links `rest` of the page's links `links`, appends
      `link` and then visits of links new to the internal set `ib` (its value
      at the call) to the visits `v1`. `i0` and `i1` are the internal set
      before and after the page was scanned; `ia` is the internal set after
      the call. The loop's facts about the visits carry over. */
  lemma AppendVisits(v1: seq<string>, v: seq<string>, from: nat, link: string,
                     rest: set<string>, links: set<string>,
                     i0: set<string>, i1: set<string>, ib: set<string>, ia: set<string>)
    requires from <= |v1| < |v| && v[..|v1|] == v1 && v[|v1|] == link
    requires link in rest && rest <= links && links <= i1 <= ib <= ia && links !! i0 && i0 <= i1
    requires FreshVisits(v1, from, ib, i0)
    requires forall i :: from <= i < |v1| ==> v1[i] !in rest
    requires forall i :: from <= i < |v1| ==> v1[i] in links || v1[i] !in i1
    requires FreshVisits(v, |v1| + 1, ia, ib)
    ensures FreshVisits(v, from, ia, i0)
    ensures forall i :: from <= i < |v| ==> v[i] !in rest - {link}
    ensures forall i :: from <= i < |v| ==> v[i] in links || v[i] !in i1
    ensures Covered(ib, i1, rest, v1, from) && links - rest <= Seen(v1, from) &&
            Covered(ia, ib, {}, v, |v1| + 1) ==>
      Covered(ia, i1, rest - {link}, v, from) && links - (rest - {link}) <= Seen(v, from)
  {
    var m := |v1|;
    assert forall i :: 0 <= i < m ==> v[i] == v1[i];
    forall i, j | from <= i < j < |v| ensures v[i] != v[j] {
      if j == m {
        assert v1[i] !in rest;
      } else if i == m {
        assert v[j] !in ib;
      } else if i < m && m < j {
        assert v1[i] in ib && v[j] !in ib;
      }
    }
    assert Seen(v1, from) <= Seen(v, from) by {
      forall u | u in Seen(v1, from) ensures u in Seen(v, from) {
        var k :| from <= k < m && v1[k] == u;
        assert v[k] == u;
      }
    }
    assert link in Seen(v, from) by {
      assert v[m] == link;
    }
    assert Seen(v, m + 1) <= Seen(v, from);
  }

  /** The resolved URL of every accepted href on a page of `universe` that
      contains that page's network location, i.e. every link the crawl may
      follow from the page, is in `universe`. External links, which are
      never fetched, need not be. */
  ghost predicate Closed(lib: UrlLib, fetch: string -> seq<Option<string>>, universe: set<string>) {
    forall p, i :: (p in universe && 0 <= i < |fetch(p)| && Accepted(lib, p, fetch(p)[i]) &&
                    IsSubstring(DomainName(lib, p), Resolve(lib, p, fetch(p)[i].value))) ==>
      Resolve(lib, p, fetch(p)[i].value) in universe
  }

  class Crawler {
    const lib: UrlLib
    const fetch: string -> seq<Option<string>>

    var internalUrls: set<string>
    var externalUrls: set<string>
    var log: seq<Event>
    var totalUrlsVisited: nat
    /** The URL of every call of `Crawl`, in call order. */
    ghost var visited: seq<string>

    /** The link sets and the log as a value. */
    function Reg(): Registry
      reads this
    {
      Registry(internalUrls, externalUrls, log)
    }

    /** The counter counts the calls of `Crawl`. */
    ghost predicate Valid()
      reads this
    {
      totalUrlsVisited == |visited|
    }

    /** A closed universe holds every link found on one of its pages. */
    lemma LinksInUniverse(universe: set<string>, url: string, links: set<string>)
      requires Closed(lib, fetch, universe) && url in universe
      requires forall u :: u in links ==> FromAcceptedHref(lib, url, fetch(url), u)
      requires forall u :: u in links ==> IsSubstring(DomainName(lib, url), u)
      ensures links <= universe
    {
      forall u | u in links ensures u in universe {
        var i :| 0 <= i < |fetch(url)| && Accepted(lib, url, fetch(url)[i]) &&
          u == Resolve(lib, url, fetch(url)[i].value);
      }
    }

    /** The state at start-up: both sets empty, nothing visited. */
    constructor (lib: UrlLib, fetch: string -> seq<Option<string>>)
      ensures Valid()
      ensures this.lib == lib && this.fetch == fetch
      ensures internalUrls == {} && externalUrls == {} && log == []
      ensures totalUrlsVisited == 0 && visited == []
    {
      this.lib := lib;
      this.fetch := fetch;
      internalUrls, externalUrls, log := {}, {}, [];
      totalUrlsVisited := 0;
      visited := [];
    }

    /** Record and report `href` as external unless it already is. */
    method HandleExternalLink(href: string)
      modifies this
      ensures Reg() == AddExternal(old(Reg()), href)
      ensures totalUrlsVisited == old(totalUrlsVisited) && visited == old(visited)
    {
      if href !in externalUrls {
        log := log + [ExternalFound(href)];
        externalUrls := externalUrls + {href};
      }
    }

    /** Report `href` as internal and add it to the page's result and to the internal set. */
    method HandleInternalLink(href: string, urls: set<string>) returns (urls': set<string>)
      modifies this
      ensures Reg() == AddInternal(old(Reg()), href)
      ensures urls' == urls + {href}
      ensures totalUrlsVisited == old(totalUrlsVisited) && visited == old(visited)
    {
      log := log + [InternalFound(href)];
      urls' := urls + {href};
      internalUrls := internalUrls + {href};
    }

    /** The links of `url` that are new internal links, recording every
        link of the page on the way. */
    method GetAllWebsiteLinks(url: string) returns (urls: set<string>)
      modifies this
      ensures ScanState(Reg(), urls) == Scan(lib, url, fetch(url), old(Reg()))
      ensures internalUrls == old(internalUrls) + urls && urls !! old(internalUrls)
      ensures old(externalUrls) <= externalUrls && old(log) <= log
      ensures (externalUrls - old(externalUrls)) !! internalUrls
      ensures forall u :: u in urls ==> IsSubstring(DomainName(lib, url), u)
      ensures forall u :: u in urls ==> FromAcceptedHref(lib, url, fetch(url), u)
      ensures LogFaithful(old(Reg())) ==> LogFaithful(Reg())
      ensures forall u :: u in (internalUrls - old(internalUrls)) + (externalUrls - old(externalUrls)) ==>
        FromAcceptedHref(lib, url, fetch(url), u)
      ensures totalUrlsVisited == old(totalUrlsVisited) && visited == old(visited)
    {
      ghost var reg0 := Reg();
      urls := {};
      var domainName := lib.parse(url).netloc;
      var hrefs := fetch(url);
      for i := 0 to |hrefs|
        invariant ScanState(Reg(), urls) == Scan(lib, url, hrefs[..i], reg0)
        invariant totalUrlsVisited == old(totalUrlsVisited) && visited == old(visited)
      {
        assert hrefs[..i + 1][..i] == hrefs[..i];
        var href := hrefs[i];
        if href == None || href.value == "" {
          continue;
        }
        var parsed := lib.parse(lib.join(url, href.value));
        var h := parsed.scheme + "://" + parsed.netloc + parsed.path;
        if parsed.scheme in WrongSchemes {
          continue;
        }
        if !CheckUrlValidity(lib, h) {
          continue;
        }
        if h in internalUrls {
          continue;
        }
        if !IsSubstring(domainName, h) {
          HandleExternalLink(h);
          continue;
        }
        urls := HandleInternalLink(h, urls);
      }
      assert hrefs[..|hrefs|] == hrefs;
      ScanGrows(lib, url, hrefs, reg0);
      ScanFound(lib, url, hrefs, reg0);
      ScanRecordsAccepted(lib, url, hrefs, reg0);
      ScanNewExternalNotInternal(lib, url, hrefs, reg0);
      if LogFaithful(reg0) {
        ScanKeepsLogFaithful(lib, url, hrefs, reg0);
      }
    }

    /** `crawl`: count this visit, scan the page, then crawl its new
        internal links while the budget allows. `maxUrls` of zero or less
        means no limit. With a budget the recursion ends after at most
        `maxUrls + 1` calls; without one, the ghost `universe`, a finite set
        of URLs closed under the links of its pages, bounds it. */
    method Crawl(url: string, maxUrls: int, ghost universe: set<string>)
      requires Valid()
      requires maxUrls > 0 || (url in universe && Closed(lib, fetch, universe))
      modifies this
      decreases Budget(maxUrls, totalUrlsVisited), |universe - internalUrls|, 1
      ensures Valid()
      // this call is visited first, and counted once
      ensures |visited| > |old(visited)| && visited[..|old(visited)|] == old(visited)
      ensures visited[|old(visited)|] == url
      // the link sets and the log are those of scanning the visited pages in order
      ensures Reg() == ScanPages(lib, fetch, visited[|old(visited)|..], old(Reg()))
      ensures old(internalUrls) <= internalUrls
      // the calls it makes visit links that were new to the internal set, none twice
      ensures FreshVisits(visited, |old(visited)| + 1, internalUrls, old(internalUrls))
      // the budget
      ensures maxUrls > 0 ==> totalUrlsVisited <= Max(old(totalUrlsVisited) + 1, maxUrls + 1)
      // unless the budget was exceeded, every internal link found was crawled
      ensures (maxUrls <= 0 || totalUrlsVisited <= maxUrls) ==>
        Covered(internalUrls, old(internalUrls), {}, visited, |old(visited)| + 1)
    {
      ghost var n0, internal0, reg0 := |visited|, internalUrls, Reg();
      totalUrlsVisited := totalUrlsVisited + 1;
      visited := visited + [url];
      var links := GetAllWebsiteLinks(url);
      assert [url][..0] == [];
      if maxUrls <= 0 {
        LinksInUniverse(universe, url, links);
      }
      ghost var v1, reg1 := visited, Reg();
      CrawlLinks(links, maxUrls, universe, internal0);
      if maxUrls <= 0 || totalUrlsVisited <= maxUrls {
        CoverPage(internalUrls, internal0, links, visited, n0 + 1);
      }
      SplitVisits(v1, visited, n0);
      ScanPagesAppend(lib, fetch, [url], visited[n0 + 1..], reg0);
    }

    /** The loop of `crawl` over the links `links` a page yielded: before
        each link, stop once more pages than `maxUrls` have been counted
        (when `maxUrls` is positive); otherwise crawl the link. The links are
        taken in an unspecified order. `internal0` is the internal set
        before the page was scanned. */
    method CrawlLinks(links: set<string>, maxUrls: int, ghost universe: set<string>, ghost internal0: set<string>)
      requires Valid()
      requires maxUrls > 0 || (Closed(lib, fetch, universe) && links <= universe)
      requires links <= internalUrls && links !! internal0 && internal0 <= internalUrls
      modifies this
      decreases Budget(maxUrls, totalUrlsVisited - 1), |universe - internal0|, 0
      ensures Valid()
      ensures |visited| >= |old(visited)| && visited[..|old(visited)|] == old(visited)
      ensures Reg() == ScanPages(lib, fetch, visited[|old(visited)|..], old(Reg()))
      ensures old(internalUrls) <= internalUrls
      ensures FreshVisits(visited, |old(visited)|, internalUrls, internal0)
      ensures forall i :: |old(visited)| <= i < |visited| ==> visited[i] in links || visited[i] !in old(internalUrls)
      ensures maxUrls > 0 ==> totalUrlsVisited <= Max(old(totalUrlsVisited), maxUrls + 1)
      // the loop breaks only once the counter exceeds a positive budget
      ensures (maxUrls <= 0 || totalUrlsVisited <= maxUrls) ==>
        Covered(internalUrls, old(internalUrls), links, visited, |old(visited)|) &&
        links <= Seen(visited, |old(visited)|)
    {
      ghost var n0, internal1, reg1 := |visited|, internalUrls, Reg();
      var rest := links;
      while rest != {}
        invariant Valid()
        invariant rest <= links && internal1 <= internalUrls
        invariant |visited| >= n0 && visited[..n0] == old(visited)
        invariant Reg() == ScanPages(lib, fetch, visited[n0..], reg1)
        invariant FreshVisits(visited, n0, internalUrls, internal0)
        invariant forall i :: n0 <= i < |visited| ==> visited[i] !in rest
        invariant forall i :: n0 <= i < |visited| ==> visited[i] in links || visited[i] !in internal1
        invariant maxUrls > 0 ==> totalUrlsVisited <= Max(old(totalUrlsVisited), maxUrls + 1)
        invariant totalUrlsVisited >= old(totalUrlsVisited)
        invariant (maxUrls <= 0 || totalUrlsVisited <= maxUrls) ==>
          Covered(internalUrls, internal1, rest, visited, n0) && links - rest <= Seen(visited, n0)
        decreases rest
      {
        if maxUrls > 0 && totalUrlsVisited > maxUrls {
          break;
        }
        var link :| link in rest;
        ghost var rest0 := rest;
        rest := rest - {link};
        if maxUrls <= 0 {
          SubsetSmaller(universe - internalUrls, universe - internal0, link);
        }
        ghost var v1, internal2 := visited, internalUrls;
        Crawl(link, maxUrls, universe);
        SplitVisits(v1, visited, n0);
        ScanPagesAppend(lib, fetch, v1[n0..], visited[|v1|..], reg1);
        AppendVisits(v1, visited, n0, link, rest0, links, internal0, internal1, internal2, internalUrls);
      }
    }
  }

  /** A whole run: the globals at start-up, then `crawl(seed, max_urls)`.
      With a positive budget `maxUrls` at most `maxUrls + 1` pages are
      counted; pages other than the seed are crawled at most once, and each
      is in the final internal set; without a budget every internal link
      is crawled. Each link is reported once and is the rebuilt form of an
      accepted href of a visited page. */
  method RunCrawl(lib: UrlLib, fetch: string -> seq<Option<string>>, seed: string, maxUrls: int,
                  ghost universe: set<string>)
    returns (c: Crawler)
    requires maxUrls > 0 || (seed in universe && Closed(lib, fetch, universe))
    ensures c.lib == lib && c.fetch == fetch
    ensures c.totalUrlsVisited == |c.visited| >= 1 && c.visited[0] == seed
    ensures c.Reg() == ScanPages(lib, fetch, c.visited, Registry({}, {}, []))
    ensures forall i :: 1 <= i < |c.visited| ==> c.visited[i] in c.internalUrls
    ensures forall i, j :: 1 <= i < j < |c.visited| ==> c.visited[i] != c.visited[j]
    ensures maxUrls > 0 ==> c.totalUrlsVisited <= maxUrls + 1
    ensures (maxUrls <= 0 || c.totalUrlsVisited <= maxUrls) ==> c.internalUrls <= Seen(c.visited, 1)
    ensures LogFaithful(c.Reg())
    ensures forall u :: u in c.internalUrls + c.externalUrls ==> FoundOnPages(lib, fetch, c.visited, u)
  {
    c := new Crawler(lib, fetch);
    c.Crawl(seed, maxUrls, universe);
    assert c.visited[0..] == c.visited;
    ScanPagesKeepsLogFaithful(lib, fetch, c.visited, Registry({}, {}, []));
    ScanPagesRecordsAccepted(lib, fetch, c.visited, Registry({}, {}, []));
  }
}
