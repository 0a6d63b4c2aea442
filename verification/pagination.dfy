/** The pagination control: the page-number window, the page-change guard,
    the "showing X-Y of N" arithmetic and the rule that hides the control. */
module PaginationControl {
  import opened Optional
  import opened Paging
  import opened Catalog
  import opened ProductFilter
  import opened ProductsSlice

  datatype PageEntry = PageNumber(n: int) | Ellipsis

  const MaxVisiblePages := 5

  function Max(a: int, b: int): int {
    if a >= b then a else b
  }

  /** The page buttons `lo..hi`, empty when `lo > hi`. */
  function PageRange(lo: int, hi: int): (r: seq<PageEntry>)
    ensures |r| == if lo <= hi then hi - lo + 1 else 0
    ensures forall i :: 0 <= i < |r| ==> r[i] == PageNumber(lo + i)
    decreases hi - lo
  {
    if lo > hi then [] else [PageNumber(lo)] + PageRange(lo + 1, hi)
  }

  /** The numbered entries increase strictly from left to right. */
  predicate Ascending(r: seq<PageEntry>) {
    forall i, j :: 0 <= i < j < |r| && r[i].PageNumber? && r[j].PageNumber? ==> r[i].n < r[j].n
  }

  /** Every numbered entry lies in `[lo, hi]`. */
  predicate Within(r: seq<PageEntry>, lo: int, hi: int) {
    forall i :: 0 <= i < |r| && r[i].PageNumber? ==> lo <= r[i].n <= hi
  }

  lemma AscendingConcat(a: seq<PageEntry>, b: seq<PageEntry>, lo: int, mid: int, hi: int)
    requires Ascending(a) && Within(a, lo, mid)
    requires Ascending(b) && Within(b, mid + 1, hi)
    requires lo <= mid + 1 && mid <= hi
    ensures Ascending(a + b) && Within(a + b, lo, hi)
  {
    var r := a + b;
    forall i, j | 0 <= i < j < |r| && r[i].PageNumber? && r[j].PageNumber?
      ensures r[i].n < r[j].n
    {
      if j < |a| {
        assert r[i] == a[i] && r[j] == a[j];
      } else if i < |a| {
        assert r[i] == a[i] && r[j] == b[j - |a|];
      } else {
        assert r[i] == b[i - |a|] && r[j] == b[j - |a|];
      }
    }
    forall i | 0 <= i < |r| && r[i].PageNumber?
      ensures lo <= r[i].n <= hi
    {
      if i < |a| {
        assert r[i] == a[i];
      } else {
        assert r[i] == b[i - |a|];
      }
    }
  }

  /** `getPageNumbers`: every page when there are at most five, otherwise the
      first page, an optional ellipsis, up to three pages around the current
      one, an optional ellipsis and the last page. */
  function GetPageNumbers(totalPages: int, currentPage: int): (r: seq<PageEntry>)
    ensures totalPages <= MaxVisiblePages ==>
      |r| == Max(totalPages, 0) && forall i :: 0 <= i < |r| ==> r[i] == PageNumber(i + 1)
    ensures totalPages > MaxVisiblePages ==>
      2 <= |r| && r[0] == PageNumber(1) && r[|r| - 1] == PageNumber(totalPages)
    ensures |r| <= 7
    ensures Ascending(r) && Within(r, 1, totalPages)
    ensures 1 <= currentPage <= totalPages ==> PageNumber(currentPage) in r
  {
    if totalPages <= MaxVisiblePages then
      InPageRange(1, totalPages, currentPage);
      PageRange(1, totalPages)
    else
      var start := Max(2, currentPage - 1);
      var end := Min(totalPages - 1, currentPage + 1);
      WindowShape(totalPages, currentPage);
      [PageNumber(1)]
        + (if start > 2 then [Ellipsis] else [])
        + PageRange(start, end)
        + (if end < totalPages - 1 then [Ellipsis] else [])
        + (if totalPages > 1 then [PageNumber(totalPages)] else [])
  }

  /** The pages offered: all of them when there are at most five, otherwise
      the first, the last, and those next to the current page. */
  lemma ShownPages(totalPages: int, currentPage: int, k: int)
    ensures PageNumber(k) in GetPageNumbers(totalPages, currentPage)
      <==> 1 <= k <= totalPages
           && (totalPages <= MaxVisiblePages || k == 1 || k == totalPages || currentPage - 1 <= k <= currentPage + 1)
  {
    if totalPages <= MaxVisiblePages {
      InPageRange(1, totalPages, k);
    } else {
      var start := Max(2, currentPage - 1);
      var end := Min(totalPages - 1, currentPage + 1);
      InPageRange(start, end, k);
      var lead: seq<PageEntry> := if start > 2 then [Ellipsis] else [];
      var trail: seq<PageEntry> := if end < totalPages - 1 then [Ellipsis] else [];
      assert GetPageNumbers(totalPages, currentPage)
        == [PageNumber(1)] + lead + PageRange(start, end) + trail + [PageNumber(totalPages)];
    }
  }

  /** Page `k` is among the buttons `lo..hi` exactly when it lies between them. */
  lemma InPageRange(lo: int, hi: int, k: int)
    ensures PageNumber(k) in PageRange(lo, hi) <==> lo <= k <= hi
  {
    if lo <= k <= hi {
      assert PageRange(lo, hi)[k - lo] == PageNumber(k);
    }
  }

  /** The entries of the window for more than five pages, given its parts. */
  function Window(totalPages: int, start: int, end: int): seq<PageEntry> {
    [PageNumber(1)]
      + (if start > 2 then [Ellipsis] else [])
      + PageRange(start, end)
      + (if end < totalPages - 1 then [Ellipsis] else [])
      + [PageNumber(totalPages)]
  }

  lemma WindowShape(totalPages: int, currentPage: int)
    requires totalPages > MaxVisiblePages
    ensures var start := Max(2, currentPage - 1);
      var end := Min(totalPages - 1, currentPage + 1);
      && Ascending(Window(totalPages, start, end)) && Within(Window(totalPages, start, end), 1, totalPages)
      && (1 <= currentPage <= totalPages ==> PageNumber(currentPage) in Window(totalPages, start, end))
  {
    var start := Max(2, currentPage - 1);
    var end := Min(totalPages - 1, currentPage + 1);
    WindowAscending(totalPages, start, end);
    if 1 <= currentPage <= totalPages {
      var lead: seq<PageEntry> := if start > 2 then [Ellipsis] else [];
      var middle := PageRange(start, end);
      var r := Window(totalPages, start, end);
      if currentPage == 1 {
        assert r[0] == PageNumber(1);
      } else if currentPage == totalPages {
        assert r[|r| - 1] == PageNumber(totalPages);
      } else {
        assert middle[currentPage - start] == PageNumber(currentPage);
        assert r == [PageNumber(1)] + lead + middle + r[1 + |lead| + |middle|..];
        assert r[1 + |lead| + currentPage - start] == PageNumber(currentPage);
      }
    }
  }

  lemma WindowAscending(totalPages: int, start: int, end: int)
    requires 2 <= start && end <= totalPages - 1 && totalPages > 2
    ensures Ascending(Window(totalPages, start, end)) && Within(Window(totalPages, start, end), 1, totalPages)
  {
    var lead: seq<PageEntry> := if start > 2 then [Ellipsis] else [];
    var trail: seq<PageEntry> := if end < totalPages - 1 then [Ellipsis] else [];
    var middle := PageRange(start, end);
    var one := [PageNumber(1)];
    AscendingConcat(one, lead, 1, 1, totalPages - 1);
    AscendingConcat(one + lead, middle, 1, 1, totalPages - 1);
    AscendingConcat(one + lead + middle, trail, 1, totalPages - 1, totalPages - 1);
    AscendingConcat(one + lead + middle + trail, [PageNumber(totalPages)], 1, totalPages - 1, totalPages);
  }

  /** Where each part of the window sits. */
  lemma WindowLayout(totalPages: int, start: int, end: int)
    requires start <= end
    ensures var r := Window(totalPages, start, end);
      var lead := if start > 2 then 1 else 0;
      var trail := if end < totalPages - 1 then 1 else 0;
      && |r| == 2 + lead + (end - start + 1) + trail
      && r[0] == PageNumber(1)
      && (lead == 1 ==> r[1] == Ellipsis)
      && (forall i :: 1 + lead <= i <= 1 + lead + end - start ==> r[i] == PageNumber(start + i - 1 - lead))
      && (trail == 1 ==> r[|r| - 2] == Ellipsis)
      && r[|r| - 1] == PageNumber(totalPages)
  {
    var lead: seq<PageEntry> := if start > 2 then [Ellipsis] else [];
    var trail: seq<PageEntry> := if end < totalPages - 1 then [Ellipsis] else [];
    var middle := PageRange(start, end);
    var r := Window(totalPages, start, end);
    assert r == [PageNumber(1)] + lead + middle + trail + [PageNumber(totalPages)];
    forall i | 1 + |lead| <= i <= 1 + |lead| + end - start
      ensures r[i] == PageNumber(start + i - 1 - |lead|)
    {
      assert r[i] == middle[i - 1 - |lead|];
    }
  }

  /** In a window whose middle run is non-empty, neighbouring numbers are
      consecutive pages and each ellipsis sits between two numbers that are not. */
  lemma WindowGaps(totalPages: int, start: int, end: int)
    requires 2 <= start <= end <= totalPages - 1
    ensures var r := Window(totalPages, start, end);
      && (forall i :: 0 <= i < |r| - 1 && r[i].PageNumber? && r[i + 1].PageNumber? ==> r[i + 1].n == r[i].n + 1)
      && (forall i :: 0 <= i < |r| && r[i] == Ellipsis ==>
            0 < i < |r| - 1 && r[i - 1].PageNumber? && r[i + 1].PageNumber? && r[i + 1].n > r[i - 1].n + 1)
  {
    var r := Window(totalPages, start, end);
    WindowLayout(totalPages, start, end);
    var lead := if start > 2 then 1 else 0;
    var last := 1 + lead + (end - start);
    assert r[1 + lead] == PageNumber(start);
    assert r[last] == PageNumber(end);
    forall i | 0 <= i < |r| - 1 && r[i].PageNumber? && r[i + 1].PageNumber?
      ensures r[i + 1].n == r[i].n + 1
    {
      if 1 + lead <= i < last {
        assert r[i] == PageNumber(start + i - 1 - lead);
        assert r[i + 1] == PageNumber(start + i - lead);
      }
    }
  }

  /** For any current page, a stranded one past the end included, the
      window reads as a run of pages in which an ellipsis stands exactly for a gap: neighbouring numbers are consecutive
      pages, and an ellipsis sits between two numbers that are not. */
  lemma EllipsisMarksGap(totalPages: int, currentPage: int)
    ensures var r := GetPageNumbers(totalPages, currentPage);
      && (forall i :: 0 <= i < |r| - 1 && r[i].PageNumber? && r[i + 1].PageNumber? ==> r[i + 1].n == r[i].n + 1)
      && (forall i :: 0 <= i < |r| && r[i] == Ellipsis ==>
            0 < i < |r| - 1 && r[i - 1].PageNumber? && r[i + 1].PageNumber? && r[i + 1].n > r[i - 1].n + 1)
  {
    if totalPages > MaxVisiblePages {
      var start := Max(2, currentPage - 1);
      var end := Min(totalPages - 1, currentPage + 1);
      assert GetPageNumbers(totalPages, currentPage) == Window(totalPages, start, end);
      if start <= end {
        WindowGaps(totalPages, start, end);
      } else {
        EmptyWindowGaps(totalPages, start, end);
      }
    }
  }

  /** With no page between the first and the last, the window is the first
      page, one ellipsis and the last page. */
  lemma EmptyWindowGaps(totalPages: int, start: int, end: int)
    requires totalPages > MaxVisiblePages && 2 <= start && end <= totalPages - 1 && end < start
    requires (start > 2) != (end < totalPages - 1)
    ensures var r := Window(totalPages, start, end);
      && (forall i :: 0 <= i < |r| - 1 && r[i].PageNumber? && r[i + 1].PageNumber? ==> r[i + 1].n == r[i].n + 1)
      && (forall i :: 0 <= i < |r| && r[i] == Ellipsis ==>
            0 < i < |r| - 1 && r[i - 1].PageNumber? && r[i + 1].PageNumber? && r[i + 1].n > r[i - 1].n + 1)
  {
    assert PageRange(start, end) == [];
    assert Window(totalPages, start, end) == [PageNumber(1), Ellipsis, PageNumber(totalPages)];
  }

  /** A leading ellipsis appears exactly when the middle run starts after
      page 2, and a trailing one exactly when it stops before the
      second-to-last page. */
  lemma EllipsisPlacement(totalPages: int, currentPage: int)
    requires totalPages > MaxVisiblePages && 1 <= currentPage <= totalPages
    ensures var r := GetPageNumbers(totalPages, currentPage);
      && (r[1] == Ellipsis <==> Max(2, currentPage - 1) > 2)
      && (r[|r| - 2] == Ellipsis <==> Min(totalPages - 1, currentPage + 1) < totalPages - 1)
  {
    var start := Max(2, currentPage - 1);
    var end := Min(totalPages - 1, currentPage + 1);
    WindowEllipses(totalPages, start, end);
    assert GetPageNumbers(totalPages, currentPage) == Window(totalPages, start, end);
  }

  lemma WindowEllipses(totalPages: int, start: int, end: int)
    requires 2 <= start <= end <= totalPages - 1
    ensures var r := Window(totalPages, start, end);
      && (r[1] == Ellipsis <==> start > 2)
      && (r[|r| - 2] == Ellipsis <==> end < totalPages - 1)
  {
    WindowLayout(totalPages, start, end);
    var r := Window(totalPages, start, end);
    var lead := if start > 2 then 1 else 0;
    assert r[1 + lead] == PageNumber(start);
    assert r[1 + lead + (end - start)] == PageNumber(end);
  }

  /** For any current page, in range or not, the window holds one ellipsis for
      each side whose condition holds. */
  lemma EllipsisCount(totalPages: int, currentPage: int)
    requires totalPages > MaxVisiblePages
    ensures multiset(GetPageNumbers(totalPages, currentPage))[Ellipsis]
      == (if Max(2, currentPage - 1) > 2 then 1 else 0)
       + (if Min(totalPages - 1, currentPage + 1) < totalPages - 1 then 1 else 0)
  {
    var start := Max(2, currentPage - 1);
    var end := Min(totalPages - 1, currentPage + 1);
    var lead: seq<PageEntry> := if start > 2 then [Ellipsis] else [];
    var trail: seq<PageEntry> := if end < totalPages - 1 then [Ellipsis] else [];
    var middle := PageRange(start, end);
    assert Ellipsis !in middle;
    assert GetPageNumbers(totalPages, currentPage) == [PageNumber(1)] + lead + middle + trail + [PageNumber(totalPages)];
  }

  /** `handlePageChange`: a page in `1..totalPages` is dispatched to
      `setCurrentPage`; any other request leaves the state untouched. */
  function HandlePageChange(s: ProductsState, page: int): (r: ProductsState)
    requires s.itemsPerPage > 0
    ensures !(1 <= page <= s.totalPages) ==> r == s
    ensures 1 <= page <= s.totalPages ==>
      r == s.(currentPage := page, products := r.products, hasNextPage := r.hasNextPage, hasPrevPage := r.hasPrevPage)
      && r.products == View(r).items
    ensures Consistent(s) ==> Consistent(r)
    ensures 1 <= r.currentPage <= r.totalPages || r.currentPage == s.currentPage
  {
    if 1 <= page <= s.totalPages then SetCurrentPage(s, page) else s
  }

  /** The first item number in "Showing X-Y of N". */
  function StartItem(s: ProductsState): int {
    Times(s.currentPage - 1, s.itemsPerPage) + 1
  }

  /** The last item number in "Showing X-Y of N". */
  function EndItem(s: ProductsState): int {
    Min(Times(s.currentPage, s.itemsPerPage), s.totalItems)
  }

  /** On a page in range, "Showing X-Y" names exactly the items on the page:
      positions `X..Y` (1-based) of the listing the page is cut from. */
  lemma ShowingRangeMatchesPage(s: ProductsState, listing: seq<Product>)
    requires ShowsPage(s, listing)
    requires 1 <= s.currentPage <= s.totalPages
    ensures EndItem(s) - StartItem(s) + 1 == |s.products|
    ensures 0 < StartItem(s) <= EndItem(s) <= |listing|
    ensures s.products == listing[StartItem(s) - 1..EndItem(s)]
  {
    ShowingRange(listing, s.currentPage, s.itemsPerPage, s.totalPages, s.totalItems, s.products);
  }

  /** The arithmetic behind `ShowingRangeMatchesPage`, over plain values. */
  lemma ShowingRange<T>(listing: seq<T>, page: int, n: int, totalPages: nat, totalItems: int, items: seq<T>)
    requires n > 0 && 1 <= page <= totalPages
    requires totalItems == |listing|
    requires Times(totalPages - 1, n) < |listing|
    requires items == listing[Min(Times(page - 1, n), |listing|)..Min(Times(page, n), |listing|)]
    ensures Min(Times(page, n), totalItems) - (Times(page - 1, n) + 1) + 1 == |items|
    ensures 0 < Times(page - 1, n) + 1 <= Min(Times(page, n), totalItems) <= |listing|
    ensures items == listing[Times(page - 1, n)..Min(Times(page, n), totalItems)]
  {
    ClippedSlice(listing, page, n, totalPages, items);
  }

  /** What the control shows: the item range and the page buttons. */
  datatype Control = Control(startItem: int, endItem: int, pages: seq<PageEntry>)

  /** The control renders nothing when there is at most one page. */
  function Render(s: ProductsState): (r: Option<Control>)
    ensures r.None? <==> s.totalPages <= 1
  {
    if s.totalPages <= 1 then None
    else Some(Control(StartItem(s), EndItem(s), GetPageNumbers(s.totalPages, s.currentPage)))
  }

  /** The control shows exactly when the listing holds more products than
      fit on one page. */
  lemma ControlShownIffSeveralPages(s: ProductsState, listing: seq<Product>)
    requires ShowsPage(s, listing)
    ensures Render(s).Some? <==> |listing| > s.itemsPerPage
  {
    var n := s.itemsPerPage;
    var t := s.totalPages;
    if t >= 2 {
      TimesMonotone(1, t - 1, n);
    }
  }

  /** The state sits on `page`, one past its last page: nothing is shown,
      the page's number is not offered, and "Showing X-Y" reads one past
      its end. */
  predicate Stranded(s: ProductsState, page: int) {
    && s.currentPage == page
    && s.totalPages == page - 1
    && s.products == []
    && PageNumber(page) !in GetPageNumbers(s.totalPages, page)
    && StartItem(s) == EndItem(s) + 1
  }

  /** A page just past a listing of full pages is stranded. */
  lemma StrandedPage(s: ProductsState, listing: seq<Product>, page: int, n: int)
    requires ShowsPage(s, listing)
    requires s.currentPage == page && s.itemsPerPage == n
    requires page >= 2 && |listing| == Times(page - 1, n)
    ensures Stranded(s, page)
  {
    FullPagesCount(listing, page, n, page - 1);
    PagesPastEndEmpty(listing, n, page);
    ShownPages(s.totalPages, page, page);
    TimesMonotone(page - 1, page, n);
  }

  /** `StrandedPage` for a state `r` showing a listing one shorter than the
      `s.totalItems` of an earlier state on the same page. */
  lemma StrandedAfterShrink(s: ProductsState, r: ProductsState, listing: seq<Product>)
    requires ShowsPage(r, listing) && |listing| == s.totalItems - 1
    requires r.currentPage == s.currentPage && r.itemsPerPage == s.itemsPerPage
    requires s.currentPage >= 2 && s.totalItems == Times(s.currentPage - 1, s.itemsPerPage) + 1
    ensures Stranded(r, s.currentPage)
  {
    StrandedPage(r, listing, s.currentPage, s.itemsPerPage);
  }

  /** The delete case keeps the current page. Deleting the one listed product
      on the last page therefore strands the state `r` on a page past the end. */
  lemma DeleteStrandsLastPage(s: ProductsState, i: int, r: ProductsState)
    requires Consistent(s)
    requires 0 <= i < |s.allProducts|
    requires forall k :: 0 <= k < |s.allProducts| && k != i ==> s.allProducts[k].id != s.allProducts[i].id
    requires Matches(s.allProducts[i], s.searchQuery, s.selectedCategory, s.minPrice, s.maxPrice)
    requires s.currentPage >= 2 && s.totalItems == Times(s.currentPage - 1, s.itemsPerPage) + 1
    requires r == Deleted(s, s.allProducts[i].id)
    ensures Stranded(r, s.currentPage)
  {
    var listing := DeleteShortensListing(s, i, r);
    StrandedAfterShrink(s, r, listing);
  }
}
