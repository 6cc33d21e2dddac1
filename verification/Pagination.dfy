/** The page links of `internal/handler/frontend.go`, with 64-bit integers. */
module Pagination {
  import opened Common
  import opened Text

  const MAX_INT := 0x7fff_ffff_ffff_ffff
  const MIN_INT := -0x8000_0000_0000_0000

  const DEFAULT_PER_PAGE := 10

  predicate IsInt64(n: int)
  {
    MIN_INT <= n <= MAX_INT
  }

  /** The sum of two machine integers, of which one is small. */
  function Wrap(n: int): (r: int)
    requires MIN_INT - MAX_INT <= n <= 2 * MAX_INT
    ensures IsInt64(n) ==> r == n
  {
    if n > MAX_INT then n - 0x1_0000_0000_0000_0000
    else if n < MIN_INT then n + 0x1_0000_0000_0000_0000
    else n
  }

  datatype PageLink = PageLink(number: int, url: string, isCurrent: bool, isEllipsis: bool)

  const ELLIPSIS := PageLink(0, "", false, true)

  // ---------- The window ----------

  datatype Window = Window(first: int, last: int)

  function WindowOf(currentPage: int, totalPages: int): Window
    requires IsInt64(currentPage) && 1 <= totalPages < MAX_INT
  {
    var start, end := Wrap(currentPage - 2), Wrap(currentPage + 2);
    var w := if start < 1 then Window(1, 5) else Window(start, end);
    if w.last > totalPages then
      Window(if totalPages - 4 < 1 then 1 else totalPages - 4, totalPages)
    else w
  }

  function Link(n: int, currentPage: int, buildURL: int -> string): PageLink
  {
    PageLink(n, buildURL(n), n == currentPage, false)
  }

  function Links(first: int, last: int, currentPage: int, buildURL: int -> string): (links: seq<PageLink>)
    ensures |links| == if first <= last then last - first + 1 else 0
    ensures forall i :: 0 <= i < |links| ==> links[i] == Link(first + i, currentPage, buildURL)
    decreases last - first + 1
  {
    if first > last then [] else Links(first, last - 1, currentPage, buildURL) + [Link(last, currentPage, buildURL)]
  }

  function Head(w: Window, buildURL: int -> string): seq<PageLink>
  {
    if w.first <= 1 then []
    else [PageLink(1, buildURL(1), false, false)] + (if w.first > 2 then [ELLIPSIS] else [])
  }

  function Tail(w: Window, totalPages: int, buildURL: int -> string): seq<PageLink>
  {
    if w.last >= totalPages then []
    else (if w.last < totalPages - 1 then [ELLIPSIS] else []) + [PageLink(totalPages, buildURL(totalPages), false, false)]
  }

  function Joined(w: Window, currentPage: int, totalPages: int, buildURL: int -> string): seq<PageLink>
  {
    Head(w, buildURL) + Links(w.first, w.last, currentPage, buildURL) + Tail(w, totalPages, buildURL)
  }

  function PageLinks(currentPage: int, totalPages: int, buildURL: int -> string): seq<PageLink>
    requires IsInt64(currentPage) && 1 <= totalPages < MAX_INT
  {
    Joined(WindowOf(currentPage, totalPages), currentPage, totalPages, buildURL)
  }

  method BuildPaginationPages(currentPage: int, totalPages: int, buildURL: int -> string) returns (pages: seq<PageLink>)
    requires IsInt64(currentPage) && 1 <= totalPages < MAX_INT
    ensures pages == PageLinks(currentPage, totalPages, buildURL)
  {
    pages := [];
    var start, end := Wrap(currentPage - 2), Wrap(currentPage + 2);
    if start < 1 {
      start := 1;
      end := 5;
    }
    if end > totalPages {
      end := totalPages;
      start := end - 4;
      if start < 1 {
        start := 1;
      }
    }
    if start > 1 {
      pages := pages + [PageLink(1, buildURL(1), false, false)];
      if start > 2 {
        pages := pages + [ELLIPSIS];
      }
    }
    ghost var w := Window(start, end);
    assert w == WindowOf(currentPage, totalPages) && pages == Head(w, buildURL);
    pages := AddRun(pages, start, end, currentPage, buildURL);
    var after := [];
    if end < totalPages {
      if end < totalPages - 1 {
        after := after + [ELLIPSIS];
      }
      after := after + [PageLink(totalPages, buildURL(totalPages), false, false)];
    }
    assert after == Tail(w, totalPages, buildURL);
    pages := pages + after;
  }

  /** The loop over the window. */
  method AddRun(head: seq<PageLink>, start: int, end: int, currentPage: int, buildURL: int -> string)
    returns (pages: seq<PageLink>)
    ensures pages == head + Links(start, end, currentPage, buildURL)
  {
    pages := head;
    var i := start;
    while i <= end
      invariant start <= i && (i <= end + 1 || i == start)
      invariant pages == head + Links(start, i - 1, currentPage, buildURL)
      decreases end - i
    {
      pages := pages + [Link(i, currentPage, buildURL)];
      i := i + 1;
    }
    assert Links(start, i - 1, currentPage, buildURL) == Links(start, end, currentPage, buildURL);
  }

  // ---------- What a reader of the links expects ----------

  /** A link shows a page in range and flags the current one; an ellipsis shows none. */
  ghost predicate SoundLink(p: PageLink, currentPage: int, totalPages: int, buildURL: int -> string)
  {
    if p.isEllipsis then p.number == 0 && p.url == "" && !p.isCurrent
    else
      && 1 <= p.number <= totalPages && p.url == buildURL(p.number)
      && (p.isCurrent <==> p.number == currentPage)
  }

  /** Neighbouring pages are linked side by side, and an ellipsis stands exactly where some are skipped. */
  ghost predicate SoundAt(pages: seq<PageLink>, i: int)
    requires 0 <= i < |pages|
  {
    if pages[i].isEllipsis then
      && 0 < i < |pages| - 1
      && !pages[i - 1].isEllipsis && !pages[i + 1].isEllipsis
      && pages[i - 1].number + 1 < pages[i + 1].number
    else
      i + 1 < |pages| && !pages[i + 1].isEllipsis ==> pages[i + 1].number == pages[i].number + 1
  }

  function Min(a: int, b: int): int
  {
    if a < b then a else b
  }

  /** The first page of the run: two before the current page, as far as five pages fit. */
  function RunStart(currentPage: int, totalPages: int): int
  {
    var latest := if totalPages > 4 then totalPages - 4 else 1;
    if currentPage - 2 < 1 then 1 else Min(currentPage - 2, latest)
  }

  /** The links around the current page: `Min(5, totalPages)` of them, in one run that starts at index `at`. */
  ghost predicate HasRun(pages: seq<PageLink>, at: int, currentPage: int, totalPages: int)
  {
    && 0 <= at && at + Min(5, totalPages) <= |pages|
    && (forall k :: at <= k < at + Min(5, totalPages) ==>
          !pages[k].isEllipsis && pages[k].number == RunStart(currentPage, totalPages) + (k - at))
    && (1 <= currentPage <= totalPages ==>
          pages[at].number <= currentPage < pages[at].number + Min(5, totalPages))
  }

  ghost predicate WellFormed(pages: seq<PageLink>, currentPage: int, totalPages: int, buildURL: int -> string)
  {
    && 1 <= |pages| <= 9
    && (forall i :: 0 <= i < |pages| ==> SoundLink(pages[i], currentPage, totalPages, buildURL))
    && (forall i :: 0 <= i < |pages| ==> SoundAt(pages, i))
    && !pages[0].isEllipsis && pages[0].number == 1
    && !pages[|pages| - 1].isEllipsis && pages[|pages| - 1].number == totalPages
    && exists at :: HasRun(pages, at, currentPage, totalPages)
  }

  /** The two extremes of the page range at which the window arithmetic wraps. */
  predicate WindowFits(currentPage: int)
  {
    MIN_INT + 2 <= currentPage <= MAX_INT - 2
  }

  /** Five pages, or all of them, around the current one if it exists. */
  predicate SoundWindow(w: Window, currentPage: int, totalPages: int)
  {
    && 1 <= totalPages && 1 <= w.first && w.last <= totalPages && w.last - w.first + 1 == Min(5, totalPages)
    && w.first == RunStart(currentPage, totalPages)
    && (1 <= currentPage <= totalPages ==> w.first <= currentPage <= w.last)
  }

  lemma WindowIsSound(currentPage: int, totalPages: int)
    requires IsInt64(currentPage) && 1 <= totalPages < MAX_INT && WindowFits(currentPage)
    ensures SoundWindow(WindowOf(currentPage, totalPages), currentPage, totalPages)
  {
  }

  /** The entries by index: the run starts after the head, the tail after the run. */
  lemma JoinedAt(w: Window, currentPage: int, totalPages: int, buildURL: int -> string)
    requires SoundWindow(w, currentPage, totalPages)
    ensures var pages, h, m := Joined(w, currentPage, totalPages, buildURL), |Head(w, buildURL)|, Min(5, totalPages);
            && |pages| == h + m + |Tail(w, totalPages, buildURL)|
            && (forall i :: 0 <= i < h ==> pages[i] == Head(w, buildURL)[i])
            && (forall i :: h <= i < h + m ==> pages[i] == Link(w.first + (i - h), currentPage, buildURL))
            && (forall i :: h + m <= i < |pages| ==> pages[i] == Tail(w, totalPages, buildURL)[i - h - m])
  {
  }

  lemma EndsAreSound(w: Window, currentPage: int, totalPages: int, buildURL: int -> string)
    requires SoundWindow(w, currentPage, totalPages)
    ensures forall p :: p in Head(w, buildURL) ==> SoundLink(p, currentPage, totalPages, buildURL)
    ensures forall p :: p in Tail(w, totalPages, buildURL) ==> SoundLink(p, currentPage, totalPages, buildURL)
  {
  }

  lemma JoinedLinksAreSound(w: Window, currentPage: int, totalPages: int, buildURL: int -> string, i: nat)
    requires SoundWindow(w, currentPage, totalPages) && i < |Joined(w, currentPage, totalPages, buildURL)|
    ensures SoundLink(Joined(w, currentPage, totalPages, buildURL)[i], currentPage, totalPages, buildURL)
  {
    JoinedAt(w, currentPage, totalPages, buildURL);
    EndsAreSound(w, currentPage, totalPages, buildURL);
    var p := Joined(w, currentPage, totalPages, buildURL)[i];
    assert p in Head(w, buildURL) || p in Tail(w, totalPages, buildURL) || SoundLink(p, currentPage, totalPages, buildURL);
  }

  lemma JoinedIsSoundAt(w: Window, currentPage: int, totalPages: int, buildURL: int -> string, i: nat)
    requires SoundWindow(w, currentPage, totalPages) && i < |Joined(w, currentPage, totalPages, buildURL)|
    ensures SoundAt(Joined(w, currentPage, totalPages, buildURL), i)
  {
    JoinedAt(w, currentPage, totalPages, buildURL);
  }

  lemma JoinedHasRunAndEnds(w: Window, currentPage: int, totalPages: int, buildURL: int -> string)
    requires SoundWindow(w, currentPage, totalPages)
    ensures var pages := Joined(w, currentPage, totalPages, buildURL);
            && 1 <= |pages| <= 9
            && HasRun(pages, |Head(w, buildURL)|, currentPage, totalPages)
            && !pages[0].isEllipsis && pages[0].number == 1
            && !pages[|pages| - 1].isEllipsis && pages[|pages| - 1].number == totalPages
  {
    JoinedAt(w, currentPage, totalPages, buildURL);
  }

  lemma SoundWindowGivesSoundLinks(w: Window, currentPage: int, totalPages: int, buildURL: int -> string)
    requires SoundWindow(w, currentPage, totalPages)
    ensures WellFormed(Joined(w, currentPage, totalPages, buildURL), currentPage, totalPages, buildURL)
  {
    var pages := Joined(w, currentPage, totalPages, buildURL);
    JoinedHasRunAndEnds(w, currentPage, totalPages, buildURL);
    forall i | 0 <= i < |pages|
      ensures SoundLink(pages[i], currentPage, totalPages, buildURL) && SoundAt(pages, i)
    {
      JoinedLinksAreSound(w, currentPage, totalPages, buildURL, i);
      JoinedIsSoundAt(w, currentPage, totalPages, buildURL, i);
    }
  }

  /** Where the arithmetic wraps, two ellipses meet in the middle. */
  lemma WrappedWindowIsUnsound(currentPage: int, totalPages: int, buildURL: int -> string)
    requires IsInt64(currentPage) && 1 <= totalPages < MAX_INT && !WindowFits(currentPage)
    ensures !WellFormed(PageLinks(currentPage, totalPages, buildURL), currentPage, totalPages, buildURL)
  {
    var pages := PageLinks(currentPage, totalPages, buildURL);
    assert pages[1] == ELLIPSIS && pages[2] == ELLIPSIS;
    assert !SoundAt(pages, 1);
  }

  /**
   The link list is well formed exactly when the window does not wrap; every page number a
   visitor can reach by links is far below that.
   */
  lemma LinksAreWellFormed(currentPage: int, totalPages: int, buildURL: int -> string)
    requires IsInt64(currentPage) && 1 <= totalPages < MAX_INT
    ensures WellFormed(PageLinks(currentPage, totalPages, buildURL), currentPage, totalPages, buildURL)
            <==> WindowFits(currentPage)
  {
    if WindowFits(currentPage) {
      WindowIsSound(currentPage, totalPages);
      SoundWindowGivesSoundLinks(WindowOf(currentPage, totalPages), currentPage, totalPages, buildURL);
    } else {
      WrappedWindowIsUnsound(currentPage, totalPages, buildURL);
    }
  }

  /** In a well-formed list page numbers increase strictly, across ellipses too. */
  lemma {:induction false} NumbersIncrease(pages: seq<PageLink>, currentPage: int, totalPages: int,
                                           buildURL: int -> string, i: int, j: int)
    requires WellFormed(pages, currentPage, totalPages, buildURL)
    requires 0 <= i < j < |pages| && !pages[i].isEllipsis && !pages[j].isEllipsis
    ensures pages[i].number < pages[j].number
    decreases j
  {
    var k := if pages[j - 1].isEllipsis then j - 2 else j - 1;
    assert SoundAt(pages, j - 1);
    if i < k {
      NumbersIncrease(pages, currentPage, totalPages, buildURL, i, k);
    }
  }

  /** The current page is flagged exactly once when it is in range, and never otherwise. */
  lemma CurrentIsFlaggedOnce(pages: seq<PageLink>, currentPage: int, totalPages: int, buildURL: int -> string)
    requires 1 <= totalPages && WellFormed(pages, currentPage, totalPages, buildURL)
    ensures (exists i :: 0 <= i < |pages| && pages[i].isCurrent) <==> 1 <= currentPage <= totalPages
    ensures forall i, j :: 0 <= i < j < |pages| ==> !(pages[i].isCurrent && pages[j].isCurrent)
  {
    var at :| HasRun(pages, at, currentPage, totalPages);
    if 1 <= currentPage <= totalPages {
      var i := at + (currentPage - pages[at].number);
      assert pages[i].number == currentPage;
      assert SoundLink(pages[i], currentPage, totalPages, buildURL);
    }
    forall i | 0 <= i < |pages| && pages[i].isCurrent ensures pages[i].number == currentPage && !pages[i].isEllipsis {
      assert SoundLink(pages[i], currentPage, totalPages, buildURL);
    }
    forall i, j | 0 <= i < j < |pages| && pages[i].isCurrent ensures !pages[j].isCurrent {
      if pages[j].isCurrent { NumbersIncrease(pages, currentPage, totalPages, buildURL, i, j); }
    }
  }

  // ---------- The frontend pagination ----------

  datatype Pagination = Pagination(currentPage: int, totalPages: int, totalItems: int, perPage: int,
                                   hasPrev: bool, hasNext: bool, hasFirst: bool, hasLast: bool,
                                   prevURL: string, nextURL: string, firstURL: string, lastURL: string,
                                   pages: seq<PageLink>)

  /** Go's division of a machine integer by ten, which truncates. */
  function DivTen(n: int): int
  {
    if n < 0 then -(-n / 10) else n / 10
  }

  function TotalPages(totalItems: int): (n: int)
    requires IsInt64(totalItems)
    ensures 1 <= n < MAX_INT
  {
    var n := DivTen(Wrap(totalItems + 9));
    if n < 1 then 1 else n
  }

  function PageURL(baseURL: string, page: int): string
  {
    baseURL + (if '?' in baseURL then "&page=" else "?page=") + FormatInt(page)
  }

  /** Every item lies on a page, and no page past the last is needed, unless the sum wraps. */
  lemma PagesHoldTheItems(totalItems: int)
    requires 1 <= totalItems <= MAX_INT
    ensures (10 * (TotalPages(totalItems) - 1) < totalItems <= 10 * TotalPages(totalItems))
            <==> totalItems <= MAX_INT - 9
  {
  }

  /** The number of pages is at least one; that is also what a sum that wraps leaves. */
  lemma FewItemsAreOnePage(totalItems: int)
    requires IsInt64(totalItems)
    ensures totalItems <= 10 || totalItems > MAX_INT - 9 ==> TotalPages(totalItems) == 1
  {
  }

  /** The query of an address: what follows its first question mark. */
  ghost function QueryOf(url: string): Option<string>
  {
    if url == "" then None else if url[0] == '?' then Some(url[1..]) else QueryOf(url[1..])
  }

  ghost function PathOf(url: string): string
  {
    if url == "" || url[0] == '?' then "" else [url[0]] + PathOf(url[1..])
  }

  ghost function ParametersOf(url: string): seq<string>
  {
    match QueryOf(url) case None => [] case Some(query) => Split(query, '&')
  }

  lemma {:induction false} QueryGrows(url: string, more: string)
    requires '?' in url
    ensures QueryOf(url).Some? && QueryOf(url + more) == Some(QueryOf(url).value + more)
    ensures PathOf(url + more) == PathOf(url)
  {
    assert (url + more)[1..] == url[1..] + more;
    if url[0] != '?' {
      assert url == [url[0]] + url[1..];
      QueryGrows(url[1..], more);
    }
  }

  lemma {:induction false} QueryStarts(url: string, query: string)
    requires '?' !in url
    ensures QueryOf(url + "?" + query) == Some(query) && PathOf(url + "?" + query) == url
    ensures QueryOf(url) == None && PathOf(url) == url
  {
    var all := url + "?" + query;
    if url == "" {
      assert all == "?" + query && all[1..] == query;
    } else {
      assert url == [url[0]] + url[1..];
      QueryStarts(url[1..], query);
      assert all[0] == url[0] && all[1..] == url[1..] + "?" + query;
    }
  }

  lemma ParameterIsAppended(url: string, p: string)
    requires '?' in url && Free(p, '&')
    ensures PathOf(url + ("&" + p)) == PathOf(url)
    ensures ParametersOf(url + ("&" + p)) == ParametersOf(url) + [p]
  {
    QueryGrows(url, "&" + p);
    var query := QueryOf(url).value;
    assert query + ("&" + p) == query + ['&'] + p;
    SplitEnds(query, '&', p);
  }

  lemma ParameterIsFirst(url: string, p: string)
    requires '?' !in url && Free(p, '&')
    ensures PathOf(url + "?" + p) == PathOf(url)
    ensures ParametersOf(url + "?" + p) == ParametersOf(url) + [p]
  {
    QueryStarts(url, p);
    SplitWhole(p, '&');
  }

  lemma PageParameter(baseURL: string, page: int) returns (p: string)
    ensures p == "page=" + FormatInt(page) && Free(p, '&')
    ensures PageURL(baseURL, page) == if '?' in baseURL then baseURL + ("&" + p) else baseURL + "?" + p
  {
    var n := FormatInt(page);
    p := "page=" + n;
    FormatIntFree(page, '&');
    assert baseURL + "&page=" + n == baseURL + ("&" + p);
    assert baseURL + "?page=" + n == baseURL + "?" + p;
  }

  /** The address of a page has the path of the base and its parameters, and `page` as the last one. */
  lemma PageURLAddsParameter(baseURL: string, page: int)
    ensures PathOf(PageURL(baseURL, page)) == PathOf(baseURL)
    ensures ParametersOf(PageURL(baseURL, page)) == ParametersOf(baseURL) + ["page=" + FormatInt(page)]
  {
    var p := PageParameter(baseURL, page);
    if '?' in baseURL {
      ParameterIsAppended(baseURL, p);
    } else {
      ParameterIsFirst(baseURL, p);
    }
  }

  /** Different pages have different addresses. */
  lemma PageURLInjective(baseURL: string, m: int, n: int)
    ensures PageURL(baseURL, m) == PageURL(baseURL, n) <==> m == n
  {
    var start := baseURL + (if '?' in baseURL then "&page=" else "?page=");
    FormatIntInjective(m, n);
    assert PageURL(baseURL, m)[|start|..] == FormatInt(m);
    assert PageURL(baseURL, n)[|start|..] == FormatInt(n);
  }

  /** `ParsePageParam` never passes a page below 1. */
  method BuildPagination(currentPage: int, totalItems: int, baseURL: string) returns (p: Pagination)
    requires 1 <= currentPage <= MAX_INT && IsInt64(totalItems)
    ensures p.currentPage == currentPage && p.totalItems == totalItems && p.perPage == 10
    ensures p.totalPages == TotalPages(totalItems)
    ensures WellFormed(p.pages, currentPage, p.totalPages, n => PageURL(baseURL, n)) <==> currentPage <= MAX_INT - 2
    ensures p.hasPrev == p.hasFirst == (currentPage > 1) && p.hasNext == p.hasLast == (currentPage < p.totalPages)
    ensures p.prevURL == (if p.hasPrev then PageURL(baseURL, currentPage - 1) else "")
    ensures p.nextURL == (if p.hasNext then PageURL(baseURL, currentPage + 1) else "")
    ensures p.firstURL == (if p.hasFirst then PageURL(baseURL, 1) else "")
    ensures p.lastURL == (if p.hasLast then PageURL(baseURL, p.totalPages) else "")
  {
    var totalPages := TotalPages(totalItems);
    var buildURL := n => PageURL(baseURL, n);
    var hasPrev, hasNext := currentPage > 1, currentPage < totalPages;
    var prevURL, nextURL, firstURL, lastURL := "", "", "", "";
    if hasPrev {
      prevURL := buildURL(currentPage - 1);
      firstURL := buildURL(1);
    }
    if hasNext {
      nextURL := buildURL(currentPage + 1);
      lastURL := buildURL(totalPages);
    }
    var pages := BuildPaginationPages(currentPage, totalPages, buildURL);
    LinksAreWellFormed(currentPage, totalPages, buildURL);
    p := Pagination(currentPage, totalPages, totalItems, DEFAULT_PER_PAGE, hasPrev, hasNext, hasPrev, hasNext,
                    prevURL, nextURL, firstURL, lastURL, pages);
  }
}
