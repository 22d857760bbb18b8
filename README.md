# Link crawler core in Dafny

A model of the crawl-control and link-classification logic of the
`link_extractor.py` crawler, with proofs of what it promises.

The crawler starts at a seed URL and fetches pages. It lists every tag's
`href` and resolves each one against the page URL. It rebuilds the result as
`scheme + "://" + netloc + path`, dropping parameters, query and fragment. It then
sorts each link into two global sets: internal, when the page's network
location is a substring of the link, and external otherwise. After that it
recurses into the internal links it has just found, with a budget on the
number of pages counted.

Files and modules:

- `wrappers.dfy` (`Wrappers`): `Option`, the type of one tag's `href` attribute.
- `urls.dfy` (`Urls`): the `urlparse` result with its six components. `urljoin`
  and `urlparse` are arbitrary functions bundled in `UrlLib`, and the model
  never interprets them (it treats them as total; see "## Left out"). The module also holds `WrongSchemes`
  (`mailto`, `market`), `CheckUrlValidity`, the rebuilt form `Strip`, and
  Python's substring test `IsSubstring`.
- `link_filter.dfy` (`LinkFilter`): the per-page filter as pure values:
  - `Registry`: the two link sets and the log of printed messages;
  - `Decide`: the outcome for one href;
  - `Scan`: the loop over a page's hrefs;
  - `ScanPages`: a sequence of page scans;
  - the lemmas about all of these.
- `link_extractor.dfy` (`LinkExtractor`): class `Crawler`.
  - Its fields hold the module-level state: `internalUrls`, `externalUrls`,
    `totalUrlsVisited`, and the printed messages as `log`.
  - `HandleExternalLink`, `HandleInternalLink`, `GetAllWebsiteLinks`,
    `Crawl` and `CrawlLinks` update that state in place.
  - `HandleExternalLink`, `HandleInternalLink` and `GetAllWebsiteLinks` are
    proved to compute exactly what their `LinkFilter` functions describe.
  - A ghost sequence `visited` records the URL of every `Crawl` call.
    `Crawl` and `CrawlLinks` are proved to leave the state that `ScanPages`
    gives for the pages in `visited`. The contracts constrain that sequence:
    each call's own URL comes first, later visits are distinct links new to
    the internal set, the budget bounds the counter, and unless the budget
    was exceeded every internal link found is visited. The sequence itself
    is not computed by a function.

Fetching a page and parsing it into hrefs is the given function `fetch`. It
maps a page URL to one optional href per tag, in document order. The source
does this with `requests.get` and `BeautifulSoup(...).findAll()`.

Termination: with a positive `max_urls` = k the recursion ends on any link
graph, since a call starts only while the counter is at most k. Without a
budget it ends exactly when finitely many pages can be reached through the
links the crawl follows: accepted links that contain the network location of
the page they are on. External links are recorded but never fetched. `Crawl`
therefore takes a ghost finite set `universe` that holds the seed and is
closed under those followed links of its pages (`Closed`). It requires this
set only when there is no budget. The set of pages a terminating
unbudgeted run visits is such a universe. The loop
of `crawl` (lines 104-107) is the method `CrawlLinks`, which calls `Crawl`
and is called by it. Their lexicographic measure starts with the budget
left (`Budget`), then `|universe - internal|`, then 1 for `Crawl` and 0 for
`CrawlLinks`.

Some behaviour of the code is easy to misread. The model follows the code:

- With `max_urls = k > 0`, a link is crawled while the counter is at most `k`,
  so a run counts up to `k + 1` pages, not `k`.
- Crawling the seed does not add it to `internal_urls`. A scanned page that
  links to the seed's rebuilt form adds it there (line 90) and returns it, so
  the seed gets crawled again. Only non-seed pages are crawled at most once.
- The domain tested is the network location of the page being scanned
  (line 67), not of the seed. The test is a substring test against the whole
  rebuilt URL (line 86).
- The two sets can overlap, in one direction only. Line 84 checks only
  `internal_urls`, so a URL that is already external can later be recorded
  as internal from a page on another host. A URL that is internal is never
  added to the external set afterwards (`ScanNewExternalNotInternal`,
  `ScanPagesNewExternalNotInternal`).
- A negative `max_urls` also means "no limit", since the test is
  `max_urls > 0`.

## Model

| member | source | states |
|---|---|---|
| Urls.IsSubstringIff | link_extractor.py:86 | the substring test holds exactly when the domain occurs at some position of the URL |
| LinkFilter.AddExternal | link_extractor.py:41-44 | an absent URL is added to the external set, which grows by exactly one, and one "External link" message is logged; a present URL changes nothing; log faithfulness is kept |
| LinkFilter.AddInternal | link_extractor.py:47-50 | the URL joins the internal set, the external set is untouched, and exactly one `InternalFound` message for it is appended, whether or not it was internal already; a URL not yet internal keeps the log faithful |
| LinkFilter.DecideAccepted | link_extractor.py:71-90 | an href is skipped before the registry lookup exactly when it is missing or empty, has a wrong scheme, or its rebuilt URL has no scheme or netloc; an accepted href is Known, External or Internal according to internal-set membership and the substring test on its rebuilt URL |
| LinkFilter.DecideIgnoresQuery | link_extractor.py:75-79 | hrefs whose resolutions differ only in params, query or fragment get the same decision, so the same URL is recorded for them (this follows directly from the rebuilt form `Strip` keeping only scheme, netloc and path) |
| LinkFilter.ScanGrows | link_extractor.py:41-50 | one page scan removes nothing: both sets grow and the log only gets appended to |
| LinkFilter.ScanFound | link_extractor.py:84-91 | the returned set is exactly what the internal set gained; it is disjoint from the internal set at the start; each element contains the page's netloc |
| LinkFilter.ScanIgnoresRejected | link_extractor.py:71-83 | removing every missing, empty, wrong-scheme or invalid href from the page leaves the scan's sets, log and result unchanged |
| LinkFilter.ScanRecordsAccepted | link_extractor.py:75-83 | every URL the scan adds to either set is `Strip(parse(join(page, h)))` for an accepted href `h` of the page: non-empty, not a wrong scheme, and with a valid rebuilt form |
| LinkFilter.ScanClassifies | link_extractor.py:84-90 | an accepted href whose URL was not internal ends up internal and returned when the page's netloc is a substring of it, and otherwise external and not internal; nothing added to the external set has the substring |
| LinkFilter.ScanNewExternalNotInternal | link_extractor.py:84-90 | a URL the scan adds to the external set is not in the internal set at the end of the scan: it was skipped if internal, and it lacks the page's netloc, so the same page cannot make it internal later |
| LinkFilter.ScanKeepsLogFaithful | link_extractor.py:41-50 | after a scan, each set is still exactly the URLs of its kind of message and no message repeats: "External link" is printed once per unique URL |
| LinkFilter.ScanPagesGrows | link_extractor.py:94-107 | a crawl's scans never shrink either set or the log |
| LinkFilter.ScanPagesKeepsLogFaithful | link_extractor.py:94-107 | a crawl's scans keep every recorded URL reported exactly once |
| LinkFilter.ScanPagesNewExternalNotInternal | link_extractor.py:84-107 | a crawl never adds to the external set a URL that was internal when it began |
| LinkFilter.ScanPagesRecordsAccepted | link_extractor.py:94-107 | every URL a crawl records is `Strip(parse(join(p, h)))` for an accepted href `h` of one of the scanned pages `p`, so no params, query or fragment reach the sets |
| LinkExtractor.Crawler.constructor | link_extractor.py:17-22 | start-up state: both sets empty, empty log, counter zero |
| LinkExtractor.Crawler.HandleExternalLink | link_extractor.py:41-44 | the new state is `AddExternal` of the old one; the counter is untouched |
| LinkExtractor.Crawler.HandleInternalLink | link_extractor.py:47-50 | the new state is `AddInternal` of the old one and the caller's set gains the URL |
| LinkExtractor.Crawler.GetAllWebsiteLinks | link_extractor.py:53-91 | the new state and the result equal `Scan` of the page's hrefs from the old state; the internal set gains exactly the result, which is new, contains the page's netloc and comes from accepted hrefs; the external set and log grow, and no URL it adds to the external set is internal afterwards; faithfulness is kept; every new internal or external URL comes from an accepted href of the page; the counter is untouched |
| LinkExtractor.Crawler.Crawl | link_extractor.py:94-103 | the counter rises by one for this call before the page is scanned; the new state is `ScanPages` over the pages visited; later visits are distinct, and each was new to the internal set; with k > 0 the counter ends at most max(old + 1, k + 1); with no limit, or when the counter ends at most k, every newly found internal URL is crawled; a finite universe closed under the links the crawl follows is needed only without a budget |
| LinkExtractor.Crawler.CrawlLinks | link_extractor.py:104-107 | each visit it makes was new to the internal set, none twice; the counter ends at most max(old, k + 1); the loop breaks only when k > 0 and the counter exceeds k: with no limit, or when the counter ends at most k, every link of the page and every internal URL found meanwhile is crawled |
| LinkExtractor.RunCrawl | link_extractor.py:121 | a run from the start-up state counts at most k + 1 pages when k > 0; the seed is visited first; the other visits are distinct internal URLs; with no limit, or when at most k pages were counted, every internal URL is visited; the log is faithful; every recorded URL is the rebuilt form of an accepted href of a visited page |

## Left out

- `requests.get`, the request headers, `get_user_agent` and `USER_AGENTS`: network I/O and a random choice. The given function `fetch` replaces them.
- BeautifulSoup's parsing (`findAll`, `attrs.get`): a foreign library. `fetch` yields its result as a sequence of optional hrefs.
- The internals of `urljoin` and `urlparse`: library code. They are arbitrary functions in `UrlLib`, so every proof holds for every resolution scheme.
- Exceptions from `urlparse` and `urljoin`: the real `urlparse` raises `ValueError`, for example on a network location with an unbalanced `[`. That aborts the whole crawl. Here both are total, so this path is not modelled.
- Failure of a fetch: `requests.get` raising ends the whole program, since the code has no handler. `fetch` is total, so this path is not modelled.
- `colorama` and the console: colours and output format are not modelled. Each `print` of a link becomes an entry appended to `log`.
- The `__main__` block (lines 110-135): argument parsing, the count printout and file writing. Only the call at line 121 is modelled, by `RunCrawl`.
- Python's recursion limit: deep recursion that would raise `RecursionError` is not modelled.
- LinkExtractor.Crawler.Crawl: without a budget, it requires a finite `universe` closed under the followed links (accepted and containing the page's netloc). When infinitely many pages are reachable through such links, the source does not terminate, and that run is not modelled. External links place no demand on the universe. Budgeted crawls are covered on any link graph.
- LinkExtractor.Crawler.Crawl: the depth-first nesting of lines 104-107 is stated only in part. The contract says the call's own URL is visited first and is followed by the visits of its sub-crawls. It does not say that each sub-crawl's visits form one contiguous block headed by a link of the page.
- LinkExtractor.Crawler.CrawlLinks: iteration over the Python set `links` has no specified order. The model picks an arbitrary remaining element each time, so the proofs hold for every order.
- LinkExtractor.Crawler.HandleInternalLink: the caller's `urls` set is updated in place in the source. Here it is returned. That set is local to one page scan, so no aliasing is lost.
- Full disjointness of the internal and external sets is not claimed, because the code does not guarantee it. Only the direction proved by `ScanPagesNewExternalNotInternal` holds.
