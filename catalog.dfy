/**
 * The catalog scraper of Parser.py: `parse_page` turns one fetched page into
 * product records, `get_next_page_url` finds the next-page link, and
 * `scrape_category` follows those links from a start URL, collecting products.
 *
 * A page is an abstract value (its product containers and its anchors), and
 * fetching a URL is a lookup in a given map from URLs to pages: a URL the map
 * does not hold stands for a request that raises.
 */
module Catalog {
  import opened Common

  type Url = string

  /** One `article.l-product` container: the text of the span inside the
      `l-product__name` div, and the text of the `l-product__price-base` div;
      None where that element is missing. */
  datatype Container = Container(nameText: Option<string>, priceText: Option<string>)

  /** An `<a>` element: its `id` and its `href` attribute, if it has one. */
  datatype Anchor = Anchor(id: string, href: Option<string>)

  /** A parsed page: its product containers and its anchors, in document order. */
  datatype Page = Page(containers: seq<Container>, anchors: seq<Anchor>)

  /** The `{'name': ..., 'price': ...}` dictionary built for each container. */
  datatype Product = Product(name: string, price: string)

  /** The exceptions that end a walk: the request for a URL fails; a container
      has no name element (AttributeError on None); the next-page anchor has no
      `href` (KeyError). */
  datatype ScrapeError =
    | FetchFailed(url: Url)
    | NameMissing(url: Url, container: nat)
    | HrefMissing(url: Url)

  /** What `get_next_page_url` finds. */
  datatype NextLink = NoNextLink | NextLink(href: string) | NextLinkWithoutHref

  const NextPageAnchorId: string := "navigation_2_next_page"
  const MissingPrice: string := "N/A"

  /** The ASCII characters that Python's `str.strip()` removes. */
  predicate IsSpace(c: char) {
    var k := c as int;
    k == 32 || 9 <= k <= 13 || 28 <= k <= 31
  }

  /** The index of the first non-space character of `s` at or after `i`. */
  function SkipSpaces(s: string, i: nat): (k: nat)
    requires i <= |s|
    ensures i <= k <= |s|
    decreases |s| - i
  {
    if i < |s| && IsSpace(s[i]) then SkipSpaces(s, i + 1) else i
  }

  lemma {:induction false} SkipSpacesSkipsSpaces(s: string, i: nat)
    requires i <= |s|
    ensures var k := SkipSpaces(s, i);
      (forall j :: i <= j < k ==> IsSpace(s[j])) && (k < |s| ==> !IsSpace(s[k]))
    decreases |s| - i
  {
    if i < |s| && IsSpace(s[i]) {
      SkipSpacesSkipsSpaces(s, i + 1);
    }
  }

  /** The index just past the last non-space character of `s` before `j`,
      looking no further back than `lo`. */
  function SkipSpacesBack(s: string, lo: nat, j: nat): (e: nat)
    requires lo <= j <= |s|
    ensures lo <= e <= j
    decreases j
  {
    if j > lo && IsSpace(s[j - 1]) then SkipSpacesBack(s, lo, j - 1) else j
  }

  lemma {:induction false} SkipSpacesBackSkipsSpaces(s: string, lo: nat, j: nat)
    requires lo <= j <= |s|
    ensures var e := SkipSpacesBack(s, lo, j);
      (forall m :: e <= m < j ==> IsSpace(s[m])) && (e > lo ==> !IsSpace(s[e - 1]))
    decreases j
  {
    if j > lo && IsSpace(s[j - 1]) {
      SkipSpacesBackSkipsSpaces(s, lo, j - 1);
    }
  }

  /** `r` sits in `s` at index `k` with only whitespace before and after it, and
      `r` neither starts nor ends with whitespace. */
  ghost predicate IsStripAt(s: string, k: nat, r: string) {
    && k + |r| <= |s|
    && r == s[k..k + |r|]
    && (forall i :: 0 <= i < k ==> IsSpace(s[i]))
    && (forall i :: k + |r| <= i < |s| ==> IsSpace(s[i]))
    && (r == [] || (!IsSpace(r[0]) && !IsSpace(r[|r| - 1])))
  }

  /** `str.strip()` with no argument. */
  function Strip(s: string): (r: string)
    ensures |r| <= |s|
    ensures r == [] || (!IsSpace(r[0]) && !IsSpace(r[|r| - 1]))
  {
    var a := SkipSpaces(s, 0);
    var b := SkipSpacesBack(s, a, |s|);
    SkipSpacesSkipsSpaces(s, 0);
    SkipSpacesBackSkipsSpaces(s, a, |s|);
    assert a < b ==> !IsSpace(s[a]);
    s[a..b]
  }

  /** `Strip` removes exactly the leading and trailing whitespace. */
  lemma StripRemovesOuterSpace(s: string)
    ensures IsStripAt(s, SkipSpaces(s, 0), Strip(s))
  {
    var a := SkipSpaces(s, 0);
    var b := SkipSpacesBack(s, a, |s|);
    SkipSpacesSkipsSpaces(s, 0);
    SkipSpacesBackSkipsSpaces(s, a, |s|);
    assert a < b ==> !IsSpace(s[a]);
  }

  /** Whatever `Strip` returns is the only whitespace-free core of `s`. */
  lemma StripIsUnique(s: string, k: nat, r: string)
    requires IsStripAt(s, k, r)
    ensures r == Strip(s)
  {
    var q := Strip(s);
    var j := SkipSpaces(s, 0);
    StripRemovesOuterSpace(s);
    if r != [] && q != [] {
      assert s[k] == r[0] && s[j] == q[0];
      var ek, ej := k + |r| - 1, j + |q| - 1;
      assert s[ek] == r[|r| - 1] && s[ej] == q[|q| - 1];
    }
  }

  lemma StripIdempotent(s: string)
    ensures Strip(Strip(s)) == Strip(s)
  {
    var r := Strip(s);
    StripRemovesOuterSpace(s);
    assert r[0..0 + |r|] == r;
    StripIsUnique(r, 0, r);
  }

  /** The per-container rule of `parse_page`: the name is the name span's text;
      the price is the stripped price text, or "N/A" when the price element is
      missing; no record when the name element is missing. */
  function ExtractProduct(c: Container): (r: Option<Product>)
    ensures r.Some? <==> c.nameText.Some?
    ensures r.Some? ==> r.value.name == c.nameText.value
    ensures r.Some? && c.priceText.Some? ==> r.value.price == Strip(c.priceText.value)
    ensures r.Some? && c.priceText.None? ==> r.value.price == MissingPrice
  {
    match c.nameText
    case None => None
    case Some(name) =>
      var text := if c.priceText.Some? then c.priceText.value else MissingPrice;
      assert SkipSpaces(MissingPrice, 0) == 0;
      assert SkipSpacesBack(MissingPrice, 0, 3) == 3;
      Some(Product(name, Strip(text)))
  }

  /** The products of one page: one per container, in container order, or the
      error for the first container without a name. */
  function PageProducts(url: Url, cs: seq<Container>): (r: Result<seq<Product>, ScrapeError>)
    ensures r.Success? <==> forall i :: 0 <= i < |cs| ==> cs[i].nameText.Some?
    ensures r.Success? ==>
      |r.value| == |cs| && forall i :: 0 <= i < |cs| ==> ExtractProduct(cs[i]) == Some(r.value[i])
    ensures r.Failure? ==>
      && r.error.NameMissing? && r.error.url == url
      && r.error.container < |cs|
      && cs[r.error.container].nameText.None?
      && forall j :: 0 <= j < r.error.container ==> cs[j].nameText.Some?
  {
    if cs == [] then Success([])
    else
      var n := |cs| - 1;
      var front := PageProducts(url, cs[..n]);
      assert forall i :: 0 <= i < n ==> cs[..n][i] == cs[i];
      if front.Failure? then front
      else
        var p := ExtractProduct(cs[n]);
        if p.None? then Failure(NameMissing(url, n))
        else
          var ps := front.value + [p.value];
          assert forall i :: 0 <= i < n ==> ps[i] == front.value[i];
          Success(ps)
  }

  /** Fetching `url` and parsing the page: the products and the page itself. */
  function FetchAndParse(site: map<Url, Page>, url: Url): (r: Result<(seq<Product>, Page), ScrapeError>)
    ensures url !in site <==> r == Failure(FetchFailed(url))
    ensures r.Success? ==> r.value.1 == site[url] && PageProducts(url, site[url].containers) == Success(r.value.0)
    ensures url in site && PageProducts(url, site[url].containers).Success? ==> r.Success?
    ensures url in site && PageProducts(url, site[url].containers).Failure? ==>
      r == Failure(PageProducts(url, site[url].containers).error)
  {
    if url !in site then Failure(FetchFailed(url))
    else
      var page := site[url];
      match PageProducts(url, page.containers)
      case Failure(e) => Failure(e)
      case Success(ps) => Success((ps, page))
  }

  /** `parse_page`: fetch the page, then build one product per container. */
  method ParsePage(site: map<Url, Page>, url: Url) returns (r: Result<(seq<Product>, Page), ScrapeError>)
    ensures r == FetchAndParse(site, url)
  {
    if url !in site {
      return Failure(FetchFailed(url));
    }
    var page := site[url];
    var cs := page.containers;
    var products: seq<Product> := [];
    var i := 0;
    while i < |cs|
      invariant 0 <= i <= |cs| && |products| == i
      invariant forall j :: 0 <= j < i ==> ExtractProduct(cs[j]) == Some(products[j])
    {
      var p := ExtractProduct(cs[i]);
      if p.None? {
        ghost var expected := PageProducts(url, cs);
        assert !expected.Success?;
        assert expected == Failure(NameMissing(url, i));
        return Failure(NameMissing(url, i));
      }
      products := products + [p.value];
      i := i + 1;
    }
    ghost var expected := PageProducts(url, cs);
    assert expected.Success?;
    assert expected.value == products by {
      assert forall j :: 0 <= j < |cs| ==> Some(expected.value[j]) == Some(products[j]);
    }
    r := Success((products, page));
  }

  function LinkOf(a: Anchor): NextLink {
    if a.href.Some? then NextLink(a.href.value) else NextLinkWithoutHref
  }

  /** `get_next_page_url`: the first anchor whose id is the next-page id decides;
      its `href` if it has one. */
  function GetNextPageUrl(anchors: seq<Anchor>): (r: NextLink)
    ensures r.NoNextLink? <==> forall i :: 0 <= i < |anchors| ==> anchors[i].id != NextPageAnchorId
    ensures forall k ::
      (0 <= k < |anchors| && anchors[k].id == NextPageAnchorId &&
       forall j :: 0 <= j < k ==> anchors[j].id != NextPageAnchorId) ==> r == LinkOf(anchors[k])
  {
    if anchors == [] then NoNextLink
    else if anchors[0].id == NextPageAnchorId then LinkOf(anchors[0])
    else
      var r := GetNextPageUrl(anchors[1..]);
      assert forall k :: 1 <= k < |anchors| ==> anchors[k] == anchors[1..][k - 1];
      r
  }

  /** How a walk ends: with all products; with the error that aborted it (the
      products gathered so far are lost with the exception); or, in the model
      only, when the page budget runs out while a next URL remains. */
  datatype WalkOutcome = Finished(products: seq<Product>) | Aborted(error: ScrapeError) | OutOfPages

  /** A walk's outcome together with the URLs it fetched, in order. */
  datatype WalkTrace = WalkTrace(fetched: seq<Url>, outcome: WalkOutcome)

  /** Products gathered before a walk continues are kept in front of the rest. */
  function Resume(before: seq<Product>, o: WalkOutcome): WalkOutcome {
    match o
    case Finished(ps) => Finished(before + ps)
    case _ => o
  }

  /** What one round of the `while url:` loop learns from a page: its products
      and the `href` of its next-page anchor (None when there is no anchor), or
      the error that aborts the walk there. */
  type Visitor = Url -> Result<(seq<Product>, Option<string>), ScrapeError>

  /** The round for `url` in `scrape_category`: `parse_page`, then
      `get_next_page_url` on the same page. */
  function Visit(site: map<Url, Page>, url: Url): (r: Result<(seq<Product>, Option<string>), ScrapeError>)
    ensures r.Success? ==> FetchAndParse(site, url).Success? && r.value.0 == FetchAndParse(site, url).value.0
    ensures r.Success? ==>
      GetNextPageUrl(site[url].anchors) == if r.value.1.Some? then NextLink(r.value.1.value) else NoNextLink
    ensures FetchAndParse(site, url).Failure? ==> r == Failure(FetchAndParse(site, url).error)
    ensures r.Failure? && FetchAndParse(site, url).Success? ==>
      r.error == HrefMissing(url) && GetNextPageUrl(site[url].anchors).NextLinkWithoutHref?
  {
    var parsed := FetchAndParse(site, url);
    if parsed.Failure? then Failure(parsed.error)
    else
      match GetNextPageUrl(parsed.value.1.anchors)
      case NoNextLink => Success((parsed.value.0, None))
      case NextLink(href) => Success((parsed.value.0, Some(href)))
      case NextLinkWithoutHref => Failure(HrefMissing(url))
  }

  function VisitorOf(site: map<Url, Page>): Visitor {
    url => Visit(site, url)
  }

  /** The URL the loop goes to next: `base_url` + the fragment, or "" where the
      loop stops (no fragment, or an empty one, which Python treats as false). */
  function FollowLink(baseUrl: Url, next: Option<string>): (url: Url)
    ensures url != "" <==> next.Some? && next.value != ""
    ensures url != "" ==> url == baseUrl + next.value
  {
    if next.Some? && next.value != "" then baseUrl + next.value else ""
  }

  /** The walk of `scrape_category` from `url`, fetching at most `budget` pages. */
  function Walk(visit: Visitor, baseUrl: Url, url: Url, budget: nat): (w: WalkTrace)
    ensures |w.fetched| <= budget
    ensures w.fetched == [] <==> url == "" || budget == 0
    ensures w.fetched != [] ==> w.fetched[0] == url
    ensures url == "" ==> w.outcome == Finished([])
    decreases budget
  {
    if url == "" then WalkTrace([], Finished([]))
    else if budget == 0 then WalkTrace([], OutOfPages)
    else
      var v := visit(url);
      if v.Failure? then WalkTrace([url], Aborted(v.error))
      else
        var rest := Walk(visit, baseUrl, FollowLink(baseUrl, v.value.1), budget - 1);
        WalkTrace([url] + rest.fetched, Resume(v.value.0, rest.outcome))
  }

  /** `scrape_category` over the pages of `site`. */
  function CategoryWalk(site: map<Url, Page>, baseUrl: Url, url: Url, budget: nat): WalkTrace {
    Walk(VisitorOf(site), baseUrl, url, budget)
  }

  /** Every URL in `urls` from index `from` on starts with `baseUrl`. */
  ghost predicate AllUnder(baseUrl: Url, urls: seq<Url>, from: nat) {
    forall i :: from <= i < |urls| ==> baseUrl <= urls[i]
  }

  lemma FollowLinkUnderBase(baseUrl: Url, next: Option<string>)
    ensures FollowLink(baseUrl, next) != "" ==> baseUrl <= FollowLink(baseUrl, next)
  {
    if next.Some? && next.value != "" {
      assert (baseUrl + next.value)[..|baseUrl|] == baseUrl;
    }
  }

  lemma AllUnderAfterFirst(baseUrl: Url, url: Url, rest: seq<Url>)
    requires AllUnder(baseUrl, rest, 0)
    ensures AllUnder(baseUrl, [url] + rest, 1)
  {
    forall i | 1 <= i < |[url] + rest| ensures baseUrl <= ([url] + rest)[i] {
      assert ([url] + rest)[i] == rest[i - 1];
    }
  }

  /** Every URL the walk fetches after the first begins with the base URL
      string. */
  lemma {:induction false} LaterUrlsUnderBase(visit: Visitor, baseUrl: Url, url: Url, budget: nat)
    ensures AllUnder(baseUrl, Walk(visit, baseUrl, url, budget).fetched, 1)
    decreases budget
  {
    if url != "" && budget > 0 && visit(url).Success? {
      var next := FollowLink(baseUrl, visit(url).value.1);
      var rest := Walk(visit, baseUrl, next, budget - 1).fetched;
      LaterUrlsUnderBase(visit, baseUrl, next, budget - 1);
      FollowLinkUnderBase(baseUrl, visit(url).value.1);
      assert AllUnder(baseUrl, rest, 0);
      AllUnderAfterFirst(baseUrl, url, rest);
    }
  }

  /** Each URL of `urls` after the first is the one its predecessor's page
      links to. */
  ghost predicate LinkedRun(visit: Visitor, baseUrl: Url, urls: seq<Url>) {
    forall i :: 0 <= i < |urls| - 1 ==> Links(visit, baseUrl, urls[i], urls[i + 1])
  }

  /** Each URL a walk fetches after the first is the base URL followed by the
      next-page fragment of the page fetched just before it, whether the walk
      finishes, aborts or runs out of pages. */
  lemma {:induction false} WalkFollowsLinks(visit: Visitor, baseUrl: Url, url: Url, budget: nat)
    ensures LinkedRun(visit, baseUrl, Walk(visit, baseUrl, url, budget).fetched)
    decreases budget
  {
    if url != "" && budget > 0 && visit(url).Success? {
      var next := FollowLink(baseUrl, visit(url).value.1);
      var rest := Walk(visit, baseUrl, next, budget - 1).fetched;
      WalkFollowsLinks(visit, baseUrl, next, budget - 1);
      if rest != [] {
        assert rest[0] == next && next != "";
        assert Links(visit, baseUrl, url, rest[0]);
      }
      LinkedCons(visit, baseUrl, url, rest);
    }
  }

  lemma LinkedCons(visit: Visitor, baseUrl: Url, url: Url, rest: seq<Url>)
    requires LinkedRun(visit, baseUrl, rest)
    requires rest != [] ==> Links(visit, baseUrl, url, rest[0])
    ensures LinkedRun(visit, baseUrl, [url] + rest)
  {
    var urls := [url] + rest;
    forall i | 0 <= i < |urls| - 1 ensures Links(visit, baseUrl, urls[i], urls[i + 1]) {
      if i > 0 {
        assert urls[i] == rest[i - 1] && urls[i + 1] == rest[i];
      }
    }
  }

  /** How a walk ends: an aborted walk failed on the last URL it fetched, with
      that page's error, and a walk out of pages fetched as many pages as the
      budget allows. */
  lemma {:induction false} WalkEnding(visit: Visitor, baseUrl: Url, url: Url, budget: nat)
    ensures var w := Walk(visit, baseUrl, url, budget);
      w.outcome.Aborted? ==> w.fetched != [] && visit(w.fetched[|w.fetched| - 1]) == Failure(w.outcome.error)
    ensures var w := Walk(visit, baseUrl, url, budget);
      w.outcome.OutOfPages? ==> |w.fetched| == budget
    decreases budget
  {
    if url != "" && budget > 0 && visit(url).Success? {
      var next := FollowLink(baseUrl, visit(url).value.1);
      var rest := Walk(visit, baseUrl, next, budget - 1);
      WalkEnding(visit, baseUrl, next, budget - 1);
      if rest.fetched != [] {
        assert ([url] + rest.fetched)[|rest.fetched|] == rest.fetched[|rest.fetched| - 1];
      }
    }
  }

  /** On a site, an aborted walk's error names the last URL it fetched. */
  lemma AbortedWalkNamesItsUrl(site: map<Url, Page>, baseUrl: Url, url: Url, budget: nat)
    ensures var w := CategoryWalk(site, baseUrl, url, budget);
      w.outcome.Aborted? ==> w.fetched != [] && w.outcome.error.url == w.fetched[|w.fetched| - 1]
  {
    var w := Walk(VisitorOf(site), baseUrl, url, budget);
    WalkEnding(VisitorOf(site), baseUrl, url, budget);
    if w.outcome.Aborted? {
      var last := w.fetched[|w.fetched| - 1];
      assert VisitorOf(site)(last) == Visit(site, last);
      VisitFailureNamesUrl(site, last);
    }
  }

  lemma VisitFailureNamesUrl(site: map<Url, Page>, url: Url)
    ensures Visit(site, url).Failure? ==> Visit(site, url).error.url == url
  {
  }

  /** One more round of the loop keeps the walk's result the same: the page's
      products are appended and the walk goes on from the next URL. */
  lemma {:induction false} WalkRoundFinishes(visit: Visitor, baseUrl: Url, url: Url, budget: nat, left: nat,
                                             before: seq<Product>, products: seq<Product>, next: Option<string>)
    requires url != "" && budget == left + 1
    requires visit(url) == Success((products, next))
    ensures Resume(before, Walk(visit, baseUrl, url, budget).outcome)
         == Resume(before + products, Walk(visit, baseUrl, FollowLink(baseUrl, next), left).outcome)
  {
    var o := Walk(visit, baseUrl, FollowLink(baseUrl, next), left).outcome;
    if o.Finished? {
      assert before + (products + o.products) == (before + products) + o.products;
    }
  }

  /** A round whose page fails ends the walk with that error. */
  lemma WalkRoundAborts(visit: Visitor, baseUrl: Url, url: Url, budget: nat, before: seq<Product>, e: ScrapeError)
    requires url != "" && budget > 0
    requires visit(url) == Failure(e)
    ensures Resume(before, Walk(visit, baseUrl, url, budget).outcome) == Aborted(e)
  {
  }

  /** One round of `scrape_category`'s loop, read off the page's fetch and
      parse results. */
  lemma VisitFromParse(site: map<Url, Page>, url: Url, parsed: Result<(seq<Product>, Page), ScrapeError>)
    requires parsed == FetchAndParse(site, url)
    ensures parsed.Failure? ==> VisitorOf(site)(url) == Failure(parsed.error)
    ensures parsed.Success? ==>
      var link := GetNextPageUrl(parsed.value.1.anchors);
      VisitorOf(site)(url) ==
        if link.NextLinkWithoutHref? then Failure(HrefMissing(url))
        else Success((parsed.value.0, if link.NextLink? then Some(link.href) else None))
  {
  }

  lemma ResumeNothing(o: WalkOutcome)
    ensures Resume([], o) == o
  {
    if o.Finished? {
      assert [] + o.products == o.products;
    }
  }

  /** `scrape_category`: the `while url:` loop, with a page budget. */
  method ScrapeCategory(site: map<Url, Page>, baseUrl: Url, startUrl: Url, maxPages: nat) returns (outcome: WalkOutcome)
    ensures outcome == CategoryWalk(site, baseUrl, startUrl, maxPages).outcome
  {
    ghost var visit := VisitorOf(site);
    ghost var goal := Walk(visit, baseUrl, startUrl, maxPages).outcome;
    var url := startUrl;
    var allProducts: seq<Product> := [];
    var pagesLeft: nat := maxPages;
    ResumeNothing(goal);
    while url != ""
      invariant goal == Resume(allProducts, Walk(visit, baseUrl, url, pagesLeft).outcome)
      decreases pagesLeft
    {
      if pagesLeft == 0 {
        return OutOfPages;
      }
      var parsed := ParsePage(site, url);
      VisitFromParse(site, url, parsed);
      if parsed.Failure? {
        WalkRoundAborts(visit, baseUrl, url, pagesLeft, allProducts, parsed.error);
        return Aborted(parsed.error);
      }
      var products, page := parsed.value.0, parsed.value.1;
      var link := GetNextPageUrl(page.anchors);
      if link.NextLinkWithoutHref? {
        WalkRoundAborts(visit, baseUrl, url, pagesLeft, allProducts, HrefMissing(url));
        return Aborted(HrefMissing(url));
      }
      var nextPageUrl := if link.NextLink? then Some(link.href) else None;
      ghost var before, here, budget := allProducts, url, pagesLeft;
      allProducts := allProducts + products;
      url := FollowLink(baseUrl, nextPageUrl);
      pagesLeft := pagesLeft - 1;
      WalkRoundFinishes(visit, baseUrl, here, budget, pagesLeft, before, products, nextPageUrl);
    }
    assert allProducts + [] == allProducts;
    outcome := Finished(allProducts);
  }

  const ShopBaseUrl: Url := "https://www.maxidom.ru"
  const BathsCategoryUrl: Url := "https://www.maxidom.ru/catalog/vanny/"

  /** `get_price`: the walk of the bath-tub category of the shop. */
  method GetPrice(site: map<Url, Page>, maxPages: nat) returns (outcome: WalkOutcome)
    ensures outcome == CategoryWalk(site, ShopBaseUrl, BathsCategoryUrl, maxPages).outcome
  {
    outcome := ScrapeCategory(site, ShopBaseUrl, BathsCategoryUrl, maxPages);
  }

  // ---------------------------------------------------------------------------
  // Chains of pages

  /** Page `u` is visited without error and its next link leads to `v`. */
  ghost predicate Links(visit: Visitor, baseUrl: Url, u: Url, v: Url) {
    && u != ""
    && visit(u).Success?
    && v != ""
    && FollowLink(baseUrl, visit(u).value.1) == v
  }

  /** Page `u` is visited without error and has no next link, or an empty one. */
  ghost predicate IsLast(visit: Visitor, baseUrl: Url, u: Url) {
    && u != ""
    && visit(u).Success?
    && FollowLink(baseUrl, visit(u).value.1) == ""
  }

  /** `urls` is a complete run of next links, ending at a last page. */
  ghost predicate IsChain(visit: Visitor, baseUrl: Url, urls: seq<Url>) {
    && |urls| >= 1
    && (forall i :: 0 <= i < |urls| - 1 ==> Links(visit, baseUrl, urls[i], urls[i + 1]))
    && IsLast(visit, baseUrl, urls[|urls| - 1])
  }

  /** The products of the pages at `urls`, concatenated in that order. */
  ghost function ChainProducts(visit: Visitor, urls: seq<Url>): seq<Product> {
    if urls == [] then []
    else
      var v := visit(urls[0]);
      (if v.Success? then v.value.0 else []) + ChainProducts(visit, urls[1..])
  }

  /** A walk that finishes fetched a chain from its start URL to a last page,
      following `baseUrl` + fragment at each step, and returns the products of
      those pages in visit order. */
  lemma {:induction false} FinishedWalkIsChain(visit: Visitor, baseUrl: Url, url: Url, budget: nat)
    requires Walk(visit, baseUrl, url, budget).outcome.Finished?
    requires url != ""
    ensures var w := Walk(visit, baseUrl, url, budget);
      IsChain(visit, baseUrl, w.fetched) && w.outcome.products == ChainProducts(visit, w.fetched)
    decreases budget
  {
    var w := Walk(visit, baseUrl, url, budget);
    var v := visit(url);
    var next := FollowLink(baseUrl, v.value.1);
    var rest := Walk(visit, baseUrl, next, budget - 1);
    assert w.fetched == [url] + rest.fetched;
    if next == "" {
      assert w.fetched == [url];
      assert IsLast(visit, baseUrl, url);
      assert ChainProducts(visit, [url]) == v.value.0 + ChainProducts(visit, []);
    } else {
      FinishedWalkIsChain(visit, baseUrl, next, budget - 1);
      assert Links(visit, baseUrl, url, next);
      assert w.fetched[1..] == rest.fetched;
      forall i | 0 <= i < |w.fetched| - 1
        ensures Links(visit, baseUrl, w.fetched[i], w.fetched[i + 1])
      {
        if i > 0 {
          assert w.fetched[i] == rest.fetched[i - 1] && w.fetched[i + 1] == rest.fetched[i];
        }
      }
    }
  }

  /** Conversely, from the first URL of a chain of k pages the walk fetches
      exactly those k pages (given a budget of at least k) and returns the
      concatenation of their products. */
  lemma {:induction false} ChainIsWalked(visit: Visitor, baseUrl: Url, urls: seq<Url>, budget: nat)
    requires IsChain(visit, baseUrl, urls)
    requires budget >= |urls|
    ensures Walk(visit, baseUrl, urls[0], budget) == WalkTrace(urls, Finished(ChainProducts(visit, urls)))
    decreases |urls|
  {
    var v := visit(urls[0]);
    if |urls| == 1 {
      assert ChainProducts(visit, urls) == v.value.0 + ChainProducts(visit, []);
    } else {
      var tail := urls[1..];
      ChainTail(visit, baseUrl, urls);
      ChainIsWalked(visit, baseUrl, tail, budget - 1);
      var rest := Walk(visit, baseUrl, urls[1], budget - 1);
      WalkAlongLink(visit, baseUrl, urls[0], urls[1], budget);
      assert ChainProducts(visit, urls) == v.value.0 + ChainProducts(visit, tail);
      assert Resume(v.value.0, rest.outcome) == Finished(ChainProducts(visit, urls));
      assert [urls[0]] + tail == urls;
    }
  }

  /** A walk from a page linked to `next` fetches that page, then walks on
      from `next` with one page less. */
  lemma WalkAlongLink(visit: Visitor, baseUrl: Url, url: Url, next: Url, budget: nat)
    requires Links(visit, baseUrl, url, next) && budget > 0
    ensures var rest := Walk(visit, baseUrl, next, budget - 1);
      Walk(visit, baseUrl, url, budget) == WalkTrace([url] + rest.fetched, Resume(visit(url).value.0, rest.outcome))
  {
  }

  /** A chain of two or more pages is its first page linked to the chain of
      the rest. */
  lemma ChainTail(visit: Visitor, baseUrl: Url, urls: seq<Url>)
    requires IsChain(visit, baseUrl, urls) && |urls| >= 2
    ensures Links(visit, baseUrl, urls[0], urls[1])
    ensures IsChain(visit, baseUrl, urls[1..])
  {
    assert Links(visit, baseUrl, urls[0], urls[1]);
    var tail := urls[1..];
    forall i | 0 <= i < |tail| - 1 ensures Links(visit, baseUrl, tail[i], tail[i + 1]) {
      assert Links(visit, baseUrl, urls[i + 1], urls[i + 2]);
    }
  }

  /** The walk has no visited-URL guard: from any page of a cycle of next links
      it keeps going until the page budget is spent, whatever the budget. */
  lemma {:induction false} CycleNeverFinishes(visit: Visitor, baseUrl: Url, cycle: seq<Url>, k: nat, budget: nat)
    requires |cycle| >= 1 && k < |cycle|
    requires forall i :: 0 <= i < |cycle| - 1 ==> Links(visit, baseUrl, cycle[i], cycle[i + 1])
    requires Links(visit, baseUrl, cycle[|cycle| - 1], cycle[0])
    ensures Walk(visit, baseUrl, cycle[k], budget).outcome == OutOfPages
    ensures |Walk(visit, baseUrl, cycle[k], budget).fetched| == budget
    decreases budget
  {
    var k' := if k + 1 < |cycle| then k + 1 else 0;
    assert Links(visit, baseUrl, cycle[k], cycle[k']);
    if budget > 0 {
      CycleNeverFinishes(visit, baseUrl, cycle, k', budget - 1);
    }
  }

  /** The same holds for a walk that reaches the cycle only after a path of
      other pages: once it is in, it never gets out. */
  lemma {:induction false} WalkIntoCycleNeverFinishes(visit: Visitor, baseUrl: Url, path: seq<Url>, cycle: seq<Url>, budget: nat)
    requires |path| >= 1 && |cycle| >= 1
    requires forall i :: 0 <= i < |path| - 1 ==> Links(visit, baseUrl, path[i], path[i + 1])
    requires Links(visit, baseUrl, path[|path| - 1], cycle[0])
    requires forall i :: 0 <= i < |cycle| - 1 ==> Links(visit, baseUrl, cycle[i], cycle[i + 1])
    requires Links(visit, baseUrl, cycle[|cycle| - 1], cycle[0])
    ensures Walk(visit, baseUrl, path[0], budget).outcome == OutOfPages
    ensures |Walk(visit, baseUrl, path[0], budget).fetched| == budget
    decreases |path|
  {
    if |path| == 1 {
      assert Links(visit, baseUrl, path[0], cycle[0]);
    } else {
      assert Links(visit, baseUrl, path[0], path[1]);
    }
    if budget > 0 {
      if |path| == 1 {
        assert Links(visit, baseUrl, path[0], cycle[0]);
        CycleNeverFinishes(visit, baseUrl, cycle, 0, budget - 1);
      } else {
        var tail := path[1..];
        assert Links(visit, baseUrl, path[0], tail[0]);
        assert forall i :: 0 <= i < |tail| - 1 ==> Links(visit, baseUrl, tail[i], tail[i + 1]) by {
          forall i | 0 <= i < |tail| - 1 ensures Links(visit, baseUrl, tail[i], tail[i + 1]) {
            assert Links(visit, baseUrl, path[i + 1], path[i + 2]);
          }
        }
        WalkIntoCycleNeverFinishes(visit, baseUrl, tail, cycle, budget - 1);
      }
    }
  }

  /** `get_price` fetches the bath-tub category first, and every URL it fetches
      begins with the base URL string. That is a statement about text, not
      hosts: a fragment such as ".evil.example/x" still yields a URL that
      begins with it. */
  lemma GetPriceUrlsStartWithBase(site: map<Url, Page>, maxPages: nat)
    ensures var w := CategoryWalk(site, ShopBaseUrl, BathsCategoryUrl, maxPages);
      (maxPages > 0 ==> w.fetched[0] == BathsCategoryUrl)
      && AllUnder(ShopBaseUrl, w.fetched, 0)
  {
    LaterUrlsUnderBase(VisitorOf(site), ShopBaseUrl, BathsCategoryUrl, maxPages);
    assert BathsCategoryUrl == ShopBaseUrl + "/catalog/vanny/";
    assert BathsCategoryUrl[..|ShopBaseUrl|] == ShopBaseUrl;
  }
}
