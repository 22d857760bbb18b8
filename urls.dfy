/** URL helpers of the link extractor: the parse result of `urlparse`, the
    rebuilt form `scheme://netloc/path` under which every link is recorded,
    the validity test and Python's substring test `a in b`.

    `urljoin` and `urlparse` are library code that this model does not
    interpret: they enter as arbitrary total functions bundled in a `UrlLib`,
    and nothing below depends on how they resolve or split a URL. */
module Urls {

  /** The six components `urlparse` returns. */
  datatype Parsed = Parsed(
    scheme: string, netloc: string, path: string,
    params: string, query: string, fragment: string)

  /** The two library functions the extractor calls. */
  datatype UrlLib = UrlLib(join: (string, string) -> string, parse: string -> Parsed)

  /** Pseudo-schemes whose links are never recorded. */
  const WrongSchemes: seq<string> := ["mailto", "market"]

  /** `check_url_validity`: the URL, parsed, has both a network location and a scheme. */
  predicate CheckUrlValidity(lib: UrlLib, url: string) {
    lib.parse(url).netloc != "" && lib.parse(url).scheme != ""
  }

  /** The string a parsed link is recorded under: parameters, query and
      fragment are dropped. */
  function Strip(p: Parsed): string {
    p.scheme + "://" + p.netloc + p.path
  }

  /** The recorded form of `href` found on `page`: joined against the page, parsed, stripped. */
  function Resolve(lib: UrlLib, page: string, href: string): string {
    Strip(lib.parse(lib.join(page, href)))
  }

  /** The network location of the page being crawled. */
  function DomainName(lib: UrlLib, page: string): string {
    lib.parse(page).netloc
  }

  /** Python's `needle in hay` on strings. */
  predicate IsSubstring(needle: string, hay: string)
    decreases |hay|
  {
    needle <= hay || (hay != [] && IsSubstring(needle, hay[1..]))
  }

  /** `needle` occurs in `hay` starting at position `i`. */
  ghost predicate OccursAt(needle: string, hay: string, i: int) {
    0 <= i <= |hay| - |needle| && hay[i..i + |needle|] == needle
  }

  /** The substring test agrees with its definition by position. */
  lemma {:induction false} IsSubstringIff(needle: string, hay: string)
    ensures IsSubstring(needle, hay) <==> exists i :: OccursAt(needle, hay, i)
    decreases |hay|
  {
    if needle <= hay {
      assert OccursAt(needle, hay, 0);
    } else if hay == [] {
      assert forall i :: !OccursAt(needle, hay, i);
    } else {
      IsSubstringIff(needle, hay[1..]);
      if IsSubstring(needle, hay) {
        var i :| OccursAt(needle, hay[1..], i);
        assert hay[i + 1..i + 1 + |needle|] == hay[1..][i..i + |needle|];
        assert OccursAt(needle, hay, i + 1);
      }
      if exists i :: OccursAt(needle, hay, i) {
        var i :| OccursAt(needle, hay, i);
        assert i != 0;
        assert hay[1..][i - 1..i - 1 + |needle|] == hay[i..i + |needle|];
        assert OccursAt(needle, hay[1..], i - 1);
      }
    }
  }

}
