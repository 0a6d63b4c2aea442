/** `paginateProducts`: one page of a list plus the totals and the
    next/previous flags. */
module Paging {

  function Min(a: int, b: int): int {
    if a <= b then a else b
  }

  /** How `Array.prototype.slice` resolves one index against a length:
      negative indices count from the end, and the result is clamped to `[0, len]`. */
  function SliceIndex(len: nat, i: int): (r: nat)
    ensures r <= len
  {
    if i < 0 then (if len + i < 0 then 0 else len + i)
    else if i > len then len
    else i
  }

  /** `s.slice(start, end)`. */
  function JsSlice<T>(s: seq<T>, start: int, end: int): (r: seq<T>)
    ensures |r| <= |s|
    ensures 0 <= start <= end ==> r == s[Min(start, |s|)..Min(end, |s|)]
  {
    var from := SliceIndex(|s|, start);
    var to := SliceIndex(|s|, end);
    if from < to then s[from..to] else []
  }

  /** `a * n`, written as repeated addition. Page arithmetic is stated with
      it so that proofs use only the facts proved below (`TimesIsProduct`
      says it is the product) rather than general multiplication. */
  function Times(a: int, n: int): (r: int)
    ensures a >= 0 && n >= 0 ==> r >= 0
    decreases if a < 0 then -a else a
  {
    if a == 0 then 0
    else if a > 0 then Times(a - 1, n) + n
    else Times(a + 1, n) - n
  }

  lemma {:induction false} TimesIsProduct(a: int, n: int)
    ensures Times(a, n) == a * n
    decreases if a < 0 then -a else a
  {
    if a > 0 {
      TimesIsProduct(a - 1, n);
    } else if a < 0 {
      TimesIsProduct(a + 1, n);
    }
  }

  /** One more factor adds `n`. */
  lemma TimesStep(a: int, n: int)
    ensures Times(a - 1, n) + n == Times(a, n)
  {
    TimesIsProduct(a, n);
    TimesIsProduct(a - 1, n);
  }

  lemma TimesMonotone(a: int, b: int, n: int)
    requires a <= b && n >= 0
    ensures Times(a, n) <= Times(b, n)
  {
    TimesIsProduct(a, n);
    TimesIsProduct(b, n);
    MulMonotone(a, b, n);
  }

  lemma MulMonotone(a: int, b: int, n: int)
    requires a <= b && n >= 0
    ensures a * n <= b * n
  {
  }

  /** `Math.ceil(len / n)` for a positive page size: the fewest pages of
      `n` items that hold `len` items. */
  function CeilDiv(len: nat, n: int): (r: nat)
    requires n > 0
    ensures Times(r, n) >= len
    ensures r == 0 || Times(r - 1, n) < len
    ensures r == 0 <==> len == 0
  {
    var r := (len + n - 1) / n;
    TimesIsProduct(r, n);
    TimesIsProduct(r - 1, n);
    r
  }

  datatype Page<T> = Page(
    items: seq<T>,
    totalItems: nat,
    totalPages: nat,
    hasNextPage: bool,
    hasPrevPage: bool)

  /** One page of `s`: the items from `(page - 1) * n` up to `page * n`,
      clipped to the list. */
  function Paginate<T>(s: seq<T>, page: int, n: int): (r: Page<T>)
    requires n > 0
    ensures r.totalItems == |s|
    ensures Times(r.totalPages, n) >= |s| && (r.totalPages == 0 || Times(r.totalPages - 1, n) < |s|)
    ensures r.totalPages == 0 <==> |s| == 0
    ensures r.hasNextPage <==> page < r.totalPages
    ensures r.hasPrevPage <==> page > 1
    ensures |r.items| <= n
    ensures page >= 1 ==> r.items == s[Min(Times(page - 1, n), |s|)..Min(Times(page, n), |s|)]
  {
    var totalPages := CeilDiv(|s|, n);
    Page(PageSlice(s, page, n), |s|, totalPages, page < totalPages, page > 1)
  }

  /** `s.slice(startIndex, endIndex)` with `startIndex = (page - 1) * n` and
      `endIndex = startIndex + n`. */
  function PageSlice<T>(s: seq<T>, page: int, n: int): (r: seq<T>)
    requires n > 0
    ensures |r| <= n
    ensures page >= 1 ==> r == s[Min(Times(page - 1, n), |s|)..Min(Times(page, n), |s|)]
  {
    var startIndex := Times(page - 1, n);
    var endIndex := startIndex + n;
    PageIndices(page, n);
    SliceWidth(s, startIndex, n);
    JsSlice(s, startIndex, endIndex)
  }

  /** Page `page` spans indices `(page - 1) * n` up to `page * n`, which
      are not negative from page 1 on. */
  lemma PageIndices(page: int, n: int)
    requires n > 0
    ensures Times(page - 1, n) + n == Times(page, n)
    ensures page >= 1 ==> 0 <= Times(page - 1, n)
  {
    TimesStep(page, n);
    if page >= 1 {
      TimesMonotone(0, page - 1, n);
    }
  }

  /** A slice whose bounds are `n` apart holds at most `n` items. */
  lemma SliceWidth<T>(s: seq<T>, start: int, n: int)
    requires n > 0
    ensures |JsSlice(s, start, start + n)| <= n
  {
  }

  /** The items of pages `1..k`, in page order. */
  function PagesUpTo<T>(s: seq<T>, n: int, k: nat): seq<T>
    requires n > 0
  {
    if k == 0 then [] else PagesUpTo(s, n, k - 1) + Paginate(s, k, n).items
  }

  lemma {:induction false} PagesUpToIsPrefix<T>(s: seq<T>, n: int, k: nat)
    requires n > 0
    ensures PagesUpTo(s, n, k) == s[..Min(Times(k, n), |s|)]
  {
    if k > 0 {
      PagesUpToIsPrefix(s, n, k - 1);
      TimesMonotone(k - 1, k, n);
      var lo, hi := Min(Times(k - 1, n), |s|), Min(Times(k, n), |s|);
      assert Paginate(s, k, n).items == s[lo..hi];
      assert PagesUpTo(s, n, k) == s[..lo] + s[lo..hi];
      assert s[..lo] + s[lo..hi] == s[..hi];
    }
  }

  /** Concatenating pages `1..totalPages` gives back the whole list, so every
      item is on exactly one page, in order. */
  lemma PagesCoverList<T>(s: seq<T>, n: int)
    requires n > 0
    ensures PagesUpTo(s, n, Paginate(s, 1, n).totalPages) == s
  {
    PagesUpToIsPrefix(s, n, Paginate(s, 1, n).totalPages);
  }

  /** A page in `1..totalPages` starts inside the list and holds the items
      from its start index up to `min(page * n, |s|)`. */
  lemma PageInRange<T>(s: seq<T>, page: int, n: int)
    requires n > 0
    requires 1 <= page <= Paginate(s, page, n).totalPages
    ensures Times(page - 1, n) < |s|
    ensures Paginate(s, page, n).items == s[Times(page - 1, n)..Min(Times(page, n), |s|)]
    ensures |Paginate(s, page, n).items| == Min(Times(page, n), |s|) - Times(page - 1, n)
  {
    var r := Paginate(s, page, n);
    ClippedSlice(s, page, n, r.totalPages, r.items);
  }

  lemma ClippedSlice<T>(s: seq<T>, page: int, n: int, totalPages: nat, items: seq<T>)
    requires n > 0 && 1 <= page <= totalPages
    requires Times(totalPages - 1, n) < |s|
    requires items == s[Min(Times(page - 1, n), |s|)..Min(Times(page, n), |s|)]
    ensures Times(page - 1, n) < |s|
    ensures items == s[Times(page - 1, n)..Min(Times(page, n), |s|)]
    ensures |items| == Min(Times(page, n), |s|) - Times(page - 1, n)
  {
    TimesMonotone(page - 1, totalPages - 1, n);
    TimesMonotone(0, page - 1, n);
    TimesStep(page, n);
  }

  /** On a page in `1..totalPages`, there is no previous page exactly on
      page 1 and no next page exactly on the last page. */
  lemma BoundaryFlags<T>(s: seq<T>, page: int, n: int)
    requires n > 0
    requires 1 <= page <= Paginate(s, page, n).totalPages
    ensures !Paginate(s, page, n).hasPrevPage <==> page == 1
    ensures !Paginate(s, page, n).hasNextPage <==> page == Paginate(s, page, n).totalPages
  {
  }

  /** With at least `2n` items, page -1 is not empty: both slice ends count
      from the end of the list, so it shows the block before the last `n`
      items. */
  lemma MinusFirstPageFromEnd<T>(s: seq<T>, n: int)
    requires n > 0 && |s| >= 2 * n
    ensures Paginate(s, -1, n).items == s[|s| - 2 * n..|s| - n]
  {
    TimesIsProduct(-2, n);
  }

  /** A list of exactly `k` full pages has `k` pages. */
  lemma FullPagesCount<T>(s: seq<T>, page: int, n: int, k: int)
    requires n > 0 && k >= 0 && |s| == Times(k, n)
    ensures Paginate(s, page, n).totalPages == k
  {
    var t := Paginate(s, page, n).totalPages;
    if t < k {
      TimesStep(t + 1, n);
      TimesMonotone(t + 1, k, n);
      assert false;
    }
    if t > k {
      TimesMonotone(k, t - 1, n);
      assert false;
    }
  }

  /** Pages past the last one are empty. */
  lemma PagesPastEndEmpty<T>(s: seq<T>, n: int, page: int)
    requires n > 0
    requires page > Paginate(s, 1, n).totalPages
    ensures Paginate(s, page, n).items == []
  {
    var totalPages := Paginate(s, 1, n).totalPages;
    TimesMonotone(totalPages, page - 1, n);
  }

  /** Any page: the count is the least number of full pages, an in-range page
      is the non-empty stretch from `(page-1)*n` clipped to the length, and a
      page past the end is empty. */
  lemma PageOfList<T>(s: seq<T>, page: int, n: int)
    requires n > 0
    ensures Paginate(s, page, n).totalPages == CeilDiv(|s|, n)
    ensures 1 <= page <= Paginate(s, page, n).totalPages ==>
      Times(page - 1, n) < |s|
      && Paginate(s, page, n).items == s[Times(page - 1, n)..Min(Times(page, n), |s|)]
      && |Paginate(s, page, n).items| > 0
    ensures page > Paginate(s, page, n).totalPages ==> Paginate(s, page, n).items == []
  {
    if 1 <= page <= Paginate(s, page, n).totalPages {
      PageInRange(s, page, n);
    }
    if page > Paginate(s, page, n).totalPages {
      PagesPastEndEmpty(s, n, page);
    }
  }

  /** Page 0 is empty: `slice(-n, 0)` ends at index 0. */
  lemma PageZeroEmpty<T>(s: seq<T>, n: int)
    requires n > 0
    ensures Paginate(s, 0, n).items == []
  {
    TimesIsProduct(-1, n);
  }
}
