/** The per-page link filter as a function of values: the registry of
    recorded links, the decision taken for one `href`, and the scan of a
    page's hrefs in document order. The link handlers and the page scan of
    `LinkExtractor.Crawler` are proved to compute exactly these functions;
    its crawl is proved to leave the state `ScanPages` gives for the pages
    it visited. The lemmas here state what the filter promises. */
module LinkFilter {
  import opened Wrappers
  import opened Urls

  /** A console message: an external or an internal link was reported. */
  datatype Event = ExternalFound(url: string) | InternalFound(url: string)

  /** The two global link sets and the messages printed so far. */
  datatype Registry = Registry(internal: set<string>, external: set<string>, log: seq<Event>)

  /** The registry together with the links found new on the current page. */
  datatype ScanState = ScanState(reg: Registry, found: set<string>)

  /** Every link set member has been reported exactly once: a URL is in a
      set exactly when its message is in the log, and no message repeats. */
  ghost predicate LogFaithful(reg: Registry) {
    (forall u :: u in reg.external <==> ExternalFound(u) in reg.log) &&
    (forall u :: u in reg.internal <==> InternalFound(u) in reg.log) &&
    (forall i, j :: 0 <= i < j < |reg.log| ==> reg.log[i] != reg.log[j])
  }

  /** `handle_external_link`: record and report `u` unless it is already external. */
  function AddExternal(reg: Registry, u: string): (r: Registry)
    ensures r.internal == reg.internal && u in r.external && reg.external <= r.external
    ensures u in reg.external ==> r == reg
    ensures u !in reg.external ==>
      |r.external| == |reg.external| + 1 && r.log == reg.log + [ExternalFound(u)]
    ensures LogFaithful(reg) ==> LogFaithful(r)
  {
    if u in reg.external then reg
    else Registry(reg.internal, reg.external + {u}, reg.log + [ExternalFound(u)])
  }

  /** `handle_internal_link`, on the global state: record `u` as internal and report it. */
  function AddInternal(reg: Registry, u: string): (r: Registry)
    ensures r.external == reg.external && r.internal == reg.internal + {u}
    ensures r.log == reg.log + [InternalFound(u)]
    ensures LogFaithful(reg) && u !in reg.internal ==> LogFaithful(r)
  {
    Registry(reg.internal + {u}, reg.external, reg.log + [InternalFound(u)])
  }

  /** What the loop body of `get_all_website_links` does with one href. */
  datatype Decision =
    | Missing             // no href, or the empty string
    | WrongScheme         // a pseudo-scheme such as mailto:
    | Invalid             // the rebuilt URL lacks a scheme or a network location
    | Known               // already recorded as internal
    | External(url: string)
    | Internal(url: string)

  /** The decision for `href` found on `page`, given the internal set at that point. */
  function Decide(lib: UrlLib, page: string, internal: set<string>, href: Option<string>): Decision {
    match href
    case None => Missing
    case Some(h) =>
      if h == "" then Missing
      else
        var parsed := lib.parse(lib.join(page, h));
        var url := Strip(parsed);
        if parsed.scheme in WrongSchemes then WrongScheme
        else if !CheckUrlValidity(lib, url) then Invalid
        else if url in internal then Known
        else if !IsSubstring(DomainName(lib, page), url) then External(url)
        else Internal(url)
  }

  /** An href that survives the checks that do not depend on the registry. */
  predicate Accepted(lib: UrlLib, page: string, href: Option<string>) {
    href.Some? && href.value != "" &&
    lib.parse(lib.join(page, href.value)).scheme !in WrongSchemes &&
    CheckUrlValidity(lib, Resolve(lib, page, href.value))
  }

  /** The decision skips an href before consulting the registry exactly when
      it is not accepted; an accepted href is decided on its resolved URL. */
  lemma DecideAccepted(lib: UrlLib, page: string, internal: set<string>, href: Option<string>)
    ensures var d := Decide(lib, page, internal, href);
      !Accepted(lib, page, href) <==> (d.Missing? || d.WrongScheme? || d.Invalid?)
    ensures Accepted(lib, page, href) ==>
      var d := Decide(lib, page, internal, href);
      var u := Resolve(lib, page, href.value);
      (d.Known? <==> u in internal) &&
      (d.External? <==> u !in internal && !IsSubstring(DomainName(lib, page), u)) &&
      (d.Internal? <==> u !in internal && IsSubstring(DomainName(lib, page), u)) &&
      (d.External? || d.Internal? ==> d.url == u)
  {
  }

  /** Two hrefs whose resolutions differ only in parameters, query or
      fragment are decided alike. */
  lemma DecideIgnoresQuery(lib: UrlLib, page: string, internal: set<string>, h1: string, h2: string)
    requires h1 != "" && h2 != ""
    requires var p, q := lib.parse(lib.join(page, h1)), lib.parse(lib.join(page, h2));
      p.scheme == q.scheme && p.netloc == q.netloc && p.path == q.path
    ensures Decide(lib, page, internal, Some(h1)) == Decide(lib, page, internal, Some(h2))
  {
  }

  /** One iteration of the loop of `get_all_website_links`. */
  function Visit(lib: UrlLib, page: string, s: ScanState, href: Option<string>): ScanState {
    match Decide(lib, page, s.reg.internal, href)
    case External(u) => ScanState(AddExternal(s.reg, u), s.found)
    case Internal(u) => ScanState(AddInternal(s.reg, u), s.found + {u})
    case _ => s
  }

  /** The loop of `get_all_website_links` over `hrefs`, starting from `reg`
      with nothing found. */
  function Scan(lib: UrlLib, page: string, hrefs: seq<Option<string>>, reg: Registry): ScanState
    decreases |hrefs|
  {
    if hrefs == [] then ScanState(reg, {})
    else Visit(lib, page, Scan(lib, page, hrefs[..|hrefs| - 1], reg), hrefs[|hrefs| - 1])
  }

  /** The hrefs of `hrefs` that are accepted, in order. */
  function KeepAccepted(lib: UrlLib, page: string, hrefs: seq<Option<string>>): seq<Option<string>>
    decreases |hrefs|
  {
    if hrefs == [] then []
    else
      var rest := KeepAccepted(lib, page, hrefs[..|hrefs| - 1]);
      if Accepted(lib, page, hrefs[|hrefs| - 1]) then rest + [hrefs[|hrefs| - 1]] else rest
  }

  /** `u` is the resolved URL of some accepted href of `hrefs`. */
  ghost predicate FromAcceptedHref(lib: UrlLib, page: string, hrefs: seq<Option<string>>, u: string) {
    exists i :: 0 <= i < |hrefs| && Accepted(lib, page, hrefs[i]) && u == Resolve(lib, page, hrefs[i].value)
  }

  /** The scan never removes anything: both sets and the log only grow. */
  lemma {:induction false} ScanGrows(lib: UrlLib, page: string, hrefs: seq<Option<string>>, reg: Registry)
    ensures var r := Scan(lib, page, hrefs, reg).reg;
      reg.internal <= r.internal && reg.external <= r.external && reg.log <= r.log
    decreases |hrefs|
  {
    if hrefs != [] {
      ScanGrows(lib, page, hrefs[..|hrefs| - 1], reg);
    }
  }

  /** The links returned are exactly those added to the internal set: they
      were not internal before the scan, and each contains the page's
      network location. */
  lemma {:induction false} ScanFound(lib: UrlLib, page: string, hrefs: seq<Option<string>>, reg: Registry)
    ensures var s := Scan(lib, page, hrefs, reg);
      s.reg.internal == reg.internal + s.found && s.found !! reg.internal
    ensures forall u :: u in Scan(lib, page, hrefs, reg).found ==> IsSubstring(DomainName(lib, page), u)
    decreases |hrefs|
  {
    if hrefs != [] {
      ScanFound(lib, page, hrefs[..|hrefs| - 1], reg);
    }
  }

  /** Hrefs that are missing, empty, of a pseudo-scheme or invalid change
      nothing: scanning only the accepted ones gives the same registry,
      the same log and the same result. */
  lemma {:induction false} ScanIgnoresRejected(lib: UrlLib, page: string, hrefs: seq<Option<string>>, reg: Registry)
    ensures Scan(lib, page, hrefs, reg) == Scan(lib, page, KeepAccepted(lib, page, hrefs), reg)
    decreases |hrefs|
  {
    if hrefs != [] {
      var front, last := hrefs[..|hrefs| - 1], hrefs[|hrefs| - 1];
      ScanIgnoresRejected(lib, page, front, reg);
      var kept := KeepAccepted(lib, page, front);
      if Accepted(lib, page, last) {
        assert (kept + [last])[..|kept + [last]| - 1] == kept;
      } else {
        DecideAccepted(lib, page, Scan(lib, page, front, reg).reg.internal, last);
      }
    }
  }

  /** Every URL the scan records, internal or external, is the resolved and
      rebuilt form `Strip(parse(join(page, h)))` of an accepted href `h` of
      the page. */
  lemma {:induction false} ScanRecordsAccepted(lib: UrlLib, page: string, hrefs: seq<Option<string>>, reg: Registry)
    ensures var r := Scan(lib, page, hrefs, reg).reg;
      forall u :: u in (r.internal - reg.internal) + (r.external - reg.external) ==>
        FromAcceptedHref(lib, page, hrefs, u)
    decreases |hrefs|
  {
    if hrefs != [] {
      var front, last := hrefs[..|hrefs| - 1], hrefs[|hrefs| - 1];
      ScanRecordsAccepted(lib, page, front, reg);
      var s := Scan(lib, page, front, reg);
      var r := Scan(lib, page, hrefs, reg).reg;
      DecideAccepted(lib, page, s.reg.internal, last);
      forall u | u in (r.internal - reg.internal) + (r.external - reg.external)
        ensures FromAcceptedHref(lib, page, hrefs, u)
      {
        if u in (s.reg.internal - reg.internal) + (s.reg.external - reg.external) {
          assert FromAcceptedHref(lib, page, front, u);
          var i :| 0 <= i < |front| && Accepted(lib, page, front[i]) && u == Resolve(lib, page, front[i].value);
          assert hrefs[i] == front[i];
        } else {
          assert u == Resolve(lib, page, last.value);
          assert hrefs[|hrefs| - 1] == last;
        }
      }
    }
  }

  /** Classification of an accepted href whose URL was not internal before
      the scan: it ends up internal and returned exactly when the page's
      network location is a substring of the URL, and external otherwise.
      Conversely, every URL added to the external set lacks that substring. */
  lemma {:induction false} ScanClassifies(lib: UrlLib, page: string, hrefs: seq<Option<string>>, reg: Registry)
    ensures var s := Scan(lib, page, hrefs, reg);
      forall i :: (0 <= i < |hrefs| && Accepted(lib, page, hrefs[i]) &&
                   Resolve(lib, page, hrefs[i].value) !in reg.internal) ==>
        if IsSubstring(DomainName(lib, page), Resolve(lib, page, hrefs[i].value))
        then Resolve(lib, page, hrefs[i].value) in s.found
        else Resolve(lib, page, hrefs[i].value) in s.reg.external &&
             Resolve(lib, page, hrefs[i].value) !in s.reg.internal
    ensures var r := Scan(lib, page, hrefs, reg).reg;
      forall u :: u in r.external - reg.external ==> !IsSubstring(DomainName(lib, page), u)
    decreases |hrefs|
  {
    if hrefs != [] {
      var front, last := hrefs[..|hrefs| - 1], hrefs[|hrefs| - 1];
      ScanClassifies(lib, page, front, reg);
      ScanFound(lib, page, front, reg);
      var s := Scan(lib, page, front, reg);
      DecideAccepted(lib, page, s.reg.internal, last);
      var d := DomainName(lib, page);
      forall i | 0 <= i < |hrefs| && Accepted(lib, page, hrefs[i]) &&
        Resolve(lib, page, hrefs[i].value) !in reg.internal
        ensures var t := Scan(lib, page, hrefs, reg);
          if IsSubstring(d, Resolve(lib, page, hrefs[i].value))
          then Resolve(lib, page, hrefs[i].value) in t.found
          else Resolve(lib, page, hrefs[i].value) in t.reg.external &&
               Resolve(lib, page, hrefs[i].value) !in t.reg.internal
      {
        if i < |front| {
          assert front[i] == hrefs[i];
        }
      }
    }
  }

  /** A URL the scan adds to the external set is not internal at the end of
      the scan: it was not internal when added (line 84 skips internal URLs),
      and it cannot become internal later on the same page, as it lacks the
      page's network location. */
  lemma {:induction false} ScanNewExternalNotInternal(lib: UrlLib, page: string, hrefs: seq<Option<string>>, reg: Registry)
    ensures var r := Scan(lib, page, hrefs, reg).reg;
      (r.external - reg.external) !! r.internal
    decreases |hrefs|
  {
    if hrefs != [] {
      var front, last := hrefs[..|hrefs| - 1], hrefs[|hrefs| - 1];
      ScanNewExternalNotInternal(lib, page, front, reg);
      ScanClassifies(lib, page, front, reg);
      var s := Scan(lib, page, front, reg);
      DecideAccepted(lib, page, s.reg.internal, last);
    }
  }

  /** The scan keeps every recorded link reported exactly once; in
      particular the "External link" message appears once per unique URL. */
  lemma {:induction false} ScanKeepsLogFaithful(lib: UrlLib, page: string, hrefs: seq<Option<string>>, reg: Registry)
    requires LogFaithful(reg)
    ensures LogFaithful(Scan(lib, page, hrefs, reg).reg)
    decreases |hrefs|
  {
    if hrefs != [] {
      ScanKeepsLogFaithful(lib, page, hrefs[..|hrefs| - 1], reg);
    }
  }

  /** The registry after scanning the pages `pages` in order, each with the
      hrefs `fetch` yields for it: the effect of a crawl on the link sets. */
  function ScanPages(lib: UrlLib, fetch: string -> seq<Option<string>>, pages: seq<string>, reg: Registry): Registry
    decreases |pages|
  {
    if pages == [] then reg
    else
      var page := pages[|pages| - 1];
      Scan(lib, page, fetch(page), ScanPages(lib, fetch, pages[..|pages| - 1], reg)).reg
  }

  /** Scanning `a` and then `b` is scanning `a + b`. */
  lemma {:induction false} ScanPagesAppend(lib: UrlLib, fetch: string -> seq<Option<string>>,
                                           a: seq<string>, b: seq<string>, reg: Registry)
    ensures ScanPages(lib, fetch, a + b, reg) == ScanPages(lib, fetch, b, ScanPages(lib, fetch, a, reg))
    decreases |b|
  {
    if b == [] {
      assert a + b == a;
    } else {
      assert (a + b)[..|a + b| - 1] == a + b[..|b| - 1];
      ScanPagesAppend(lib, fetch, a, b[..|b| - 1], reg);
    }
  }

  /** A crawl never removes a link or a message. */
  lemma {:induction false} ScanPagesGrows(lib: UrlLib, fetch: string -> seq<Option<string>>, pages: seq<string>, reg: Registry)
    ensures var r := ScanPages(lib, fetch, pages, reg);
      reg.internal <= r.internal && reg.external <= r.external && reg.log <= r.log
    decreases |pages|
  {
    if pages != [] {
      var page := pages[|pages| - 1];
      ScanPagesGrows(lib, fetch, pages[..|pages| - 1], reg);
      ScanGrows(lib, page, fetch(page), ScanPages(lib, fetch, pages[..|pages| - 1], reg));
    }
  }

  /** A crawl keeps every recorded link reported exactly once. */
  lemma {:induction false} ScanPagesKeepsLogFaithful(lib: UrlLib, fetch: string -> seq<Option<string>>,
                                                     pages: seq<string>, reg: Registry)
    requires LogFaithful(reg)
    ensures LogFaithful(ScanPages(lib, fetch, pages, reg))
    decreases |pages|
  {
    if pages != [] {
      var page := pages[|pages| - 1];
      ScanPagesKeepsLogFaithful(lib, fetch, pages[..|pages| - 1], reg);
      ScanKeepsLogFaithful(lib, page, fetch(page), ScanPages(lib, fetch, pages[..|pages| - 1], reg));
    }
  }

  /** A crawl never records as external a URL that was internal when it
      began. */
  lemma {:induction false} ScanPagesNewExternalNotInternal(lib: UrlLib, fetch: string -> seq<Option<string>>,
                                                           pages: seq<string>, reg: Registry)
    ensures var r := ScanPages(lib, fetch, pages, reg);
      (r.external - reg.external) !! reg.internal
    decreases |pages|
  {
    if pages != [] {
      var page, front := pages[|pages| - 1], pages[..|pages| - 1];
      var mid := ScanPages(lib, fetch, front, reg);
      ScanPagesNewExternalNotInternal(lib, fetch, front, reg);
      ScanPagesGrows(lib, fetch, front, reg);
      ScanGrows(lib, page, fetch(page), mid);
      ScanNewExternalNotInternal(lib, page, fetch(page), mid);
    }
  }

  /** `u` is the resolved URL of an accepted href of one of the pages `pages`. */
  ghost predicate FoundOnPages(lib: UrlLib, fetch: string -> seq<Option<string>>, pages: seq<string>, u: string) {
    exists k :: 0 <= k < |pages| && FromAcceptedHref(lib, pages[k], fetch(pages[k]), u)
  }

  /** Every link a crawl records is the resolved and rebuilt form of an
      accepted href of one of the pages it scanned. */
  lemma {:induction false} ScanPagesRecordsAccepted(lib: UrlLib, fetch: string -> seq<Option<string>>,
                                                    pages: seq<string>, reg: Registry)
    ensures var r := ScanPages(lib, fetch, pages, reg);
      forall u :: u in (r.internal - reg.internal) + (r.external - reg.external) ==>
        FoundOnPages(lib, fetch, pages, u)
    decreases |pages|
  {
    if pages != [] {
      var page := pages[|pages| - 1];
      var mid := ScanPages(lib, fetch, pages[..|pages| - 1], reg);
      var front := pages[..|pages| - 1];
      ScanPagesRecordsAccepted(lib, fetch, front, reg);
      ScanPagesGrows(lib, fetch, front, reg);
      ScanRecordsAccepted(lib, page, fetch(page), mid);
      var r := ScanPages(lib, fetch, pages, reg);
      forall u | u in (r.internal - reg.internal) + (r.external - reg.external)
        ensures FoundOnPages(lib, fetch, pages, u)
      {
        if u in (mid.internal - reg.internal) + (mid.external - reg.external) {
          var k :| 0 <= k < |front| && FromAcceptedHref(lib, front[k], fetch(front[k]), u);
          assert pages[k] == front[k];
        } else {
          assert FromAcceptedHref(lib, pages[|pages| - 1], fetch(pages[|pages| - 1]), u);
        }
      }
    }
  }
}
