/**
 * The listing paginator of sushichef.py: a counter that walks the page URLs
 * `url?page=<n>` from the initial page towards the last page, whose number
 * `find_max` reads off the listing's page-jump widget.
 */
module Pagination {
  import opened Wrappers
  import opened Strings

  /**
   * The paginator's four attributes. `lastPage == None` is Python's
   * `last=None`, the state before `find_max` has run: no bound at all.
   */
  datatype Paginator = Paginator(url: string, initialPage: int, lastPage: Option<int>, counter: int)

  /** `Paginator(url, initial, last)`: the counter starts at the initial page. */
  function NewPaginator(url: string, initial: int, last: Option<int>): Paginator {
    Paginator(url, initial, last, initial)
  }

  const PageQuery := "?page="

  /** The text `build_page_url` produces for page `page`. */
  function PageUrl(url: string, page: int): string {
    url + PageQuery + IntToString(page)
  }

  /** Reads the page number back out of a page URL built from `url`. */
  function PageNumber(url: string, pageUrl: string): Option<int> {
    if StartsWith(pageUrl, url + PageQuery) then ParseInt(pageUrl[|url + PageQuery|..]) else None
  }

  /** A page URL names its page number unambiguously. */
  lemma PageUrlRoundTrip(url: string, page: int)
    ensures PageNumber(url, PageUrl(url, page)) == Some(page)
  {
    ParseIntRoundTrip(page);
    assert PageUrl(url, page)[|url + PageQuery|..] == IntToString(page);
  }

  /** `__next__`: the URL of the current page, and the counter moved on by one. */
  function Next(p: Paginator): (r: (string, Paginator))
    ensures r.1.counter == p.counter + 1 && r.1 == p.(counter := r.1.counter)
  {
    (PageUrl(p.url, p.counter), p.(counter := p.counter + 1))
  }

  /** The URL `__next__` yields names the page the counter stood at, under the paginator's URL. */
  lemma NextNamesCounter(p: Paginator)
    ensures StartsWith(Next(p).0, p.url + PageQuery)
    ensures PageNumber(p.url, Next(p).0) == Some(p.counter)
  {
    PageUrlRoundTrip(p.url, p.counter);
  }

  /** The test `__iter__` makes before yielding each page. */
  predicate Continues(p: Paginator) {
    match p.lastPage
    case None => true
    case Some(last) => p.initialPage <= p.counter <= last
  }

  /** How many pages `__iter__` still yields when the last page is known. */
  function Remaining(p: Paginator): nat {
    match p.lastPage
    case None => 0
    case Some(last) => if p.initialPage <= p.counter <= last then last - p.counter + 1 else 0
  }

  /**
   * Running `for page in paginator` to completion: the pages yielded and the
   * paginator afterwards. `None` when the last page is unknown, for then the
   * loop never ends.
   */
  function Iterate(p: Paginator): (r: Option<(seq<string>, Paginator)>)
    ensures r.None? <==> p.lastPage.None?
    decreases Remaining(p)
  {
    match p.lastPage
    case None => None
    case Some(last) =>
      if p.initialPage <= p.counter <= last then
        var next := Next(p);
        var rest := Iterate(next.1);
        Some(([next.0] + rest.value.0, rest.value.1))
      else
        Some(([], p))
  }

  /** The URLs of pages `first` to `last`, in order. */
  function PagesFrom(url: string, first: int, last: int): seq<string>
    decreases last - first
  {
    if first > last then [] else [PageUrl(url, first)] + PagesFrom(url, first + 1, last)
  }

  lemma {:induction false} PagesFromLength(url: string, first: int, last: int)
    ensures |PagesFrom(url, first, last)| == if first <= last then last - first + 1 else 0
    decreases last - first
  {
    if first <= last {
      PagesFromLength(url, first + 1, last);
    }
  }

  /** Entry `i` of `PagesFrom` is the URL of page `k`, that is `first + i`. */
  lemma {:induction false} PagesFromAt(url: string, first: int, last: int, i: nat, k: int)
    requires first + i <= last && k == first + i
    ensures i < |PagesFrom(url, first, last)| && PagesFrom(url, first, last)[i] == PageUrl(url, k)
    decreases i
  {
    PagesFromLength(url, first, last);
    if i > 0 {
      PagesFromAt(url, first + 1, last, i - 1, k);
    }
  }

  /** Different page numbers give different page URLs. */
  lemma PageUrlInjective(url: string, a: int, b: int)
    requires a != b
    ensures PageUrl(url, a) != PageUrl(url, b)
  {
    PageUrlRoundTrip(url, a);
    PageUrlRoundTrip(url, b);
  }

  /**
   * With a known last page, a run yields exactly the pages from the counter
   * up to the last page, in order (none when the counter is below the
   * initial page), and leaves the counter just past them, at a point where
   * the loop test fails.
   */
  lemma {:induction false} IterateYields(p: Paginator)
    requires p.lastPage.Some?
    ensures Iterate(p).Some?
    ensures Iterate(p).value.0 == if p.initialPage <= p.counter then PagesFrom(p.url, p.counter, p.lastPage.value) else []
    ensures |Iterate(p).value.0| == Remaining(p)
    ensures Iterate(p).value.1 == p.(counter := p.counter + Remaining(p))
    ensures !Continues(Iterate(p).value.1)
    decreases Remaining(p)
  {
    PagesFromLength(p.url, p.counter, p.lastPage.value);
    if Continues(p) {
      var q := p.(counter := p.counter + 1);
      assert Next(p) == (PageUrl(p.url, p.counter), q);
      assert Remaining(p) == Remaining(q) + 1;
      IterateYields(q);
    }
  }

  /**
   * A fresh paginator over pages `initial..last` yields exactly
   * `url?page=initial`, ..., `url?page=last` and ends with the counter at
   * `last + 1`.
   */
  lemma FreshIteration(url: string, initial: int, last: int)
    requires initial <= last
    ensures var r := Iterate(NewPaginator(url, initial, Some(last)));
      && r.Some?
      && r.value.0 == seq(last - initial + 1, i => PageUrl(url, initial + i))
      && r.value.1.counter == last + 1
  {
    var p := NewPaginator(url, initial, Some(last));
    IterateYields(p);
    var pages := Iterate(p).value.0;
    var expected := seq(last - initial + 1, i => PageUrl(url, initial + i));
    assert |pages| == |expected|;
    forall i | 0 <= i < |pages|
      ensures pages[i] == expected[i]
    {
      PagesFromAt(url, initial, last, i, initial + i);
    }
  }

  /** The pages of a run all differ. */
  lemma PagesFromDistinct(url: string, first: int, last: int)
    ensures forall i, j :: 0 <= i < j < |PagesFrom(url, first, last)| ==> PagesFrom(url, first, last)[i] != PagesFrom(url, first, last)[j]
  {
    PagesFromLength(url, first, last);
    var pages := PagesFrom(url, first, last);
    forall i, j | 0 <= i < j < |pages|
      ensures pages[i] != pages[j]
    {
      PagesFromAt(url, first, last, i, first + i);
      PagesFromAt(url, first, last, j, first + j);
      PageUrlInjective(url, first + i, first + j);
    }
  }

  /** No page URL is yielded twice in one run. */
  lemma IteratePagesDistinct(p: Paginator)
    requires p.lastPage.Some?
    ensures forall i, j :: 0 <= i < j < |Iterate(p).value.0| ==> Iterate(p).value.0[i] != Iterate(p).value.0[j]
  {
    IterateYields(p);
    PagesFromDistinct(p.url, p.counter, p.lastPage.value);
  }

  /**
   * The counter persists, so iterating the same paginator a second time,
   * once it is exhausted, yields nothing.
   */
  lemma NotRestartable(p: Paginator)
    requires p.lastPage.Some?
    ensures var after := Iterate(p).value.1; Iterate(after) == Some(([], after))
  {
    IterateYields(p);
  }

  /**
   * The first `n` pages a consumer draws from `for page in paginator`
   * (fewer if the loop ends first), and the paginator after them.
   */
  function Take(p: Paginator, n: nat): (r: (seq<string>, Paginator))
    decreases n
  {
    if n == 0 || !Continues(p) then
      ([], p)
    else
      var next := Next(p);
      var rest := Take(next.1, n - 1);
      ([next.0] + rest.0, rest.1)
  }

  /**
   * With no last page the loop never stops: however many pages are drawn,
   * that many come, numbered on from the counter.
   */
  lemma Unbounded(p: Paginator, n: nat)
    requires p.lastPage.None?
    ensures |Take(p, n).0| == n
    ensures forall i :: 0 <= i < n ==> Take(p, n).0[i] == PageUrl(p.url, p.counter + i)
  {
    TakeLength(p, n);
    forall i | 0 <= i < n
      ensures Take(p, n).0[i] == PageUrl(p.url, p.counter + i)
    {
      TakeAt(p, n, i, p.counter + i);
    }
  }

  lemma {:induction false} TakeLength(p: Paginator, n: nat)
    requires p.lastPage.None?
    ensures |Take(p, n).0| == n
    decreases n
  {
    if n > 0 {
      TakeLength(p.(counter := p.counter + 1), n - 1);
    }
  }

  /** Without a last page, draw `i` is the URL of page `k`, that is counter + `i`. */
  lemma {:induction false} TakeAt(p: Paginator, n: nat, i: nat, k: int)
    requires p.lastPage.None? && i < n && k == p.counter + i
    ensures i < |Take(p, n).0| && Take(p, n).0[i] == PageUrl(p.url, k)
    decreases i
  {
    TakeLength(p, n);
    if i > 0 {
      TakeAt(p.(counter := p.counter + 1), n - 1, i - 1, k);
    }
  }

  /** With a known last page, drawing pages one at a time sees a prefix of the full run. */
  lemma {:induction false} TakeIsPrefix(p: Paginator, n: nat)
    requires p.lastPage.Some?
    ensures var all := Iterate(p).value.0;
      Take(p, n).0 == all[..if n < |all| then n else |all|]
    decreases n
  {
    if n > 0 && Continues(p) {
      TakeIsPrefix(Next(p).1, n - 1);
    }
  }

  /** The `input` of the page-jump widget, with its `max` attribute if present. */
  datatype MaxInput = MaxInput(max: Option<string>)

  /** The `li.ipsPagination_pageJump` widget, with its `input` if present. */
  datatype PageJump = PageJump(input: Option<MaxInput>)

  /** What `find_max` looks at in the downloaded listing page. */
  datatype ListingPage = ListingPage(pageJump: Option<PageJump>)

  /** The exceptions that escape `find_max`. */
  datatype FindMaxError = AttributeError | ValueError

  datatype FindMaxResult = Found(paginator: Paginator) | Raised(error: FindMaxError)

  /**
   * `find_max`. `fetched` is what `download(self.url)` returned, `None`
   * standing for its `False` (whose `.find` raises AttributeError). Without
   * the widget the listing has one page; without a `max` attribute the page
   * count is read as `int("0")`.
   */
  function FindMax(p: Paginator, fetched: Option<ListingPage>): (r: FindMaxResult)
    ensures fetched.None? ==> r == Raised(AttributeError)
    ensures r.Found? ==> r.paginator.lastPage.Some? && r.paginator == p.(lastPage := r.paginator.lastPage)
    ensures fetched == Some(ListingPage(None)) ==> r == Found(p.(lastPage := Some(1)))
    ensures fetched == Some(ListingPage(Some(PageJump(None)))) ==> r == Raised(AttributeError)
    ensures fetched == Some(ListingPage(Some(PageJump(Some(MaxInput(None)))))) ==> r == Found(p.(lastPage := Some(0)))
  {
    match fetched
    case None => Raised(AttributeError)
    case Some(ListingPage(None)) => Found(p.(lastPage := Some(1)))
    case Some(ListingPage(Some(PageJump(None)))) => Raised(AttributeError)
    case Some(ListingPage(Some(PageJump(Some(MaxInput(max)))))) =>
      match ParseInt(max.GetOr("0"))
      case None => Raised(ValueError)
      case Some(last) => Found(p.(lastPage := Some(last)))
  }

  /** A `max` attribute holding the decimal text of `n` sets the last page to `n`. */
  lemma FindMaxReadsMax(p: Paginator, n: int)
    ensures FindMax(p, Some(ListingPage(Some(PageJump(Some(MaxInput(Some(IntToString(n)))))))))
      == Found(p.(lastPage := Some(n)))
  {
    ParseIntRoundTrip(n);
  }

  /** A listing without the page-jump widget is walked as the single page `url?page=1`. */
  lemma SinglePageListing(url: string)
    ensures var r := FindMax(NewPaginator(url, 1, None), Some(ListingPage(None)));
      && r.Found?
      && Iterate(r.paginator).Some?
      && Iterate(r.paginator).value.0 == [PageUrl(url, 1)]
  {
    FreshIteration(url, 1, 1);
  }

  /** A widget whose `input` lacks `max` gives last page 0, and the loop yields nothing. */
  lemma MissingMaxYieldsNothing(url: string)
    ensures var r := FindMax(NewPaginator(url, 1, None), Some(ListingPage(Some(PageJump(Some(MaxInput(None)))))));
      && r.Found?
      && r.paginator.lastPage == Some(0)
      && Iterate(r.paginator) == Some(([], r.paginator))
  {
  }

  /** Before `find_max` has set a last page, iteration never ends. */
  lemma NeverEndsWithoutMax(url: string, n: nat)
    ensures |Take(NewPaginator(url, 1, None), n).0| == n
    ensures Iterate(NewPaginator(url, 1, None)).None?
  {
    TakeLength(NewPaginator(url, 1, None), n);
  }
}
