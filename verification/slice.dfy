/** The products slice: the catalog state and its reducers. Every reducer
    changes one input (a filter, the sort, the page, the page size, or the
    product collection) and then re-runs filter, sort and paginate. */
module ProductsSlice {
  import opened Optional
  import opened Seqs
  import opened Catalog
  import opened ProductFilter
  import opened ProductSort
  import opened Paging

  /** The slice state, without the request flags (`loading`, `error`,
      `uploading`) that only the asynchronous layer sets. */
  datatype ProductsState = ProductsState(
    products: seq<Product>,
    allProducts: seq<Product>,
    currentProduct: Option<Product>,
    searchQuery: string,
    selectedCategory: string,
    minPrice: Option<real>,
    maxPrice: Option<real>,
    sortBy: SortBy,
    sortOrder: SortOrder,
    currentPage: int,
    totalPages: int,
    totalItems: int,
    itemsPerPage: int,
    hasNextPage: bool,
    hasPrevPage: bool,
    categories: seq<string>)

  /** The state before anything is fetched. Its `totalPages` is 1 although
      the pipeline gives 0 pages for an empty list. */
  const InitialState := ProductsState(
    [], [], None, "", "", None, None, ByName, Asc, 1, 1, 0, 12, false, false, [])

  /** The filtered and sorted list the current page is cut from. */
  function Listing(s: ProductsState): seq<Product> {
    SortProducts(
      FilterProducts(s.allProducts, s.searchQuery, s.selectedCategory, s.minPrice, s.maxPrice),
      s.sortBy, s.sortOrder)
  }

  /** What the pipeline derives from the state's inputs. */
  function View(s: ProductsState): Page<Product>
    requires s.itemsPerPage > 0
  {
    Paginate(Listing(s), s.currentPage, s.itemsPerPage)
  }

  /** The listing holds each product exactly as often as the collection does
      when it passes the four tests and not at all otherwise; it is sorted by
      the comparator, and every other sorted list keeping each tie group of
      the matching products in collection order is this one. */
  lemma ListingSelectsAndSorts(s: ProductsState, other: seq<Product>)
    ensures forall x :: (multiset(Listing(s))[x] ==
      if Matches(x, s.searchQuery, s.selectedCategory, s.minPrice, s.maxPrice) then multiset(s.allProducts)[x] else 0)
    ensures Sorted(s.sortBy, s.sortOrder, Listing(s))
    ensures Sorted(s.sortBy, s.sortOrder, other)
      && (forall p :: Ties(s.sortBy, s.sortOrder, other, p)
            == Ties(s.sortBy, s.sortOrder, FilterProducts(s.allProducts, s.searchQuery, s.selectedCategory, s.minPrice, s.maxPrice), p))
      ==> other == Listing(s)
  {
    var matching := FilterProducts(s.allProducts, s.searchQuery, s.selectedCategory, s.minPrice, s.maxPrice);
    if Sorted(s.sortBy, s.sortOrder, other)
      && forall p :: Ties(s.sortBy, s.sortOrder, other, p) == Ties(s.sortBy, s.sortOrder, matching, p)
    {
      StableSortIsUnique(matching, s.sortBy, s.sortOrder, other);
    }
  }

  /** The five derived fields hold exactly what the pipeline gives. */
  predicate Consistent(s: ProductsState) {
    && s.itemsPerPage > 0
    && s.products == View(s).items
    && s.totalItems == View(s).totalItems
    && s.totalPages == View(s).totalPages
    && s.hasNextPage == View(s).hasNextPage
    && s.hasPrevPage == View(s).hasPrevPage
  }

  /** The derived fields show page `currentPage` of `listing`. */
  predicate ShowsPage(s: ProductsState, listing: seq<Product>) {
    && s.itemsPerPage > 0
    && s.products == Paginate(listing, s.currentPage, s.itemsPerPage).items
    && s.totalItems == |listing|
    && s.totalPages == Paginate(listing, s.currentPage, s.itemsPerPage).totalPages
  }

  /** A consistent state shows its current page of the filtered, sorted listing. */
  lemma ConsistentShowsListing(s: ProductsState)
    requires Consistent(s)
    ensures ShowsPage(s, Listing(s))
  {
  }

  /** `r` differs from `s` at most in the five derived fields. */
  predicate OnlyViewChanged(s: ProductsState, r: ProductsState) {
    r == s.(products := r.products, totalItems := r.totalItems, totalPages := r.totalPages,
            hasNextPage := r.hasNextPage, hasPrevPage := r.hasPrevPage)
  }

  /** Writes the whole pipeline output into the state. */
  function Refresh(s: ProductsState): (r: ProductsState)
    requires s.itemsPerPage > 0
    ensures Consistent(r)
    ensures OnlyViewChanged(s, r)
  {
    var page := View(s);
    s.(products := page.items, totalItems := page.totalItems, totalPages := page.totalPages,
       hasNextPage := page.hasNextPage, hasPrevPage := page.hasPrevPage)
  }

  /** `setSearchQuery`: new query, back to page 1, everything recomputed. */
  function SetSearchQuery(s: ProductsState, query: string): (r: ProductsState)
    requires s.itemsPerPage > 0
    ensures OnlyViewChanged(s.(searchQuery := query, currentPage := 1), r)
    ensures Consistent(r)
  {
    Refresh(s.(searchQuery := query, currentPage := 1))
  }

  /** `setSelectedCategory`: new category (`""` for none), back to page 1,
      everything recomputed. */
  function SetSelectedCategory(s: ProductsState, category: string): (r: ProductsState)
    requires s.itemsPerPage > 0
    ensures OnlyViewChanged(s.(selectedCategory := category, currentPage := 1), r)
    ensures Consistent(r)
  {
    Refresh(s.(selectedCategory := category, currentPage := 1))
  }

  /** `setPriceRange`: both bounds replaced, back to page 1, everything recomputed. */
  function SetPriceRange(s: ProductsState, minPrice: Option<real>, maxPrice: Option<real>): (r: ProductsState)
    requires s.itemsPerPage > 0
    ensures OnlyViewChanged(s.(minPrice := minPrice, maxPrice := maxPrice, currentPage := 1), r)
    ensures Consistent(r)
  {
    Refresh(s.(minPrice := minPrice, maxPrice := maxPrice, currentPage := 1))
  }

  /** `setSorting`: only the visible items are rewritten; the page and the
      totals stay. They stay correct, because sorting does not change how many
      products pass the filter. */
  function SetSorting(s: ProductsState, sortBy: SortBy, order: SortOrder): (r: ProductsState)
    requires s.itemsPerPage > 0
    ensures r == s.(sortBy := sortBy, sortOrder := order, products := r.products)
    ensures r.products == View(r).items
    ensures Consistent(s) ==> Consistent(r)
  {
    var next := s.(sortBy := sortBy, sortOrder := order);
    var page := View(next);
    var r := next.(products := page.items);
    SortKeepsLength(s, sortBy, order);
    r
  }

  /** How many products a state lists does not depend on the sort. */
  lemma SortKeepsLength(s: ProductsState, sortBy: SortBy, order: SortOrder)
    ensures |Listing(s.(sortBy := sortBy, sortOrder := order))| == |Listing(s)|
  {
    var filtered := FilterProducts(s.allProducts, s.searchQuery, s.selectedCategory, s.minPrice, s.maxPrice);
    assert |multiset(SortProducts(filtered, sortBy, order))| == |multiset(filtered)|;
    assert |multiset(SortProducts(filtered, s.sortBy, s.sortOrder))| == |multiset(filtered)|;
  }

  /** `setCurrentPage`: any page number is accepted; the items and the two
      flags are recomputed, the totals stay. */
  function SetCurrentPage(s: ProductsState, page: int): (r: ProductsState)
    requires s.itemsPerPage > 0
    ensures r == s.(currentPage := page, products := r.products,
                    hasNextPage := r.hasNextPage, hasPrevPage := r.hasPrevPage)
    ensures r.products == View(r).items
    ensures r.hasNextPage == View(r).hasNextPage && r.hasPrevPage == View(r).hasPrevPage
    ensures Consistent(s) ==> Consistent(r)
  {
    var next := s.(currentPage := page);
    var view := View(next);
    next.(products := view.items, hasNextPage := view.hasNextPage, hasPrevPage := view.hasPrevPage)
  }

  /** `setItemsPerPage`: new page size, back to page 1; `totalItems` is not
      written, which is harmless because it does not depend on the page size. */
  function SetItemsPerPage(s: ProductsState, n: int): (r: ProductsState)
    requires n > 0
    ensures r == s.(itemsPerPage := n, currentPage := 1, products := r.products, totalPages := r.totalPages,
                    hasNextPage := r.hasNextPage, hasPrevPage := r.hasPrevPage)
    ensures r.products == View(r).items && r.totalPages == View(r).totalPages
    ensures r.hasNextPage == View(r).hasNextPage && r.hasPrevPage == View(r).hasPrevPage
    ensures Consistent(s) ==> Consistent(r)
  {
    var next := s.(itemsPerPage := n, currentPage := 1);
    var view := View(next);
    next.(products := view.items, totalPages := view.totalPages,
          hasNextPage := view.hasNextPage, hasPrevPage := view.hasPrevPage)
  }

  /** `clearFilters`: query, category and bounds back to their defaults, page 1,
      the sort kept. The source sorts `allProducts` directly instead of
      filtering first; the result is the full pipeline's all the same. */
  function ClearFilters(s: ProductsState): (r: ProductsState)
    requires s.itemsPerPage > 0
    ensures OnlyViewChanged(s.(searchQuery := "", selectedCategory := "", minPrice := None, maxPrice := None,
                               currentPage := 1), r)
    ensures Consistent(r)
  {
    var sorted := SortProducts(s.allProducts, s.sortBy, s.sortOrder);
    var page := Paginate(sorted, 1, s.itemsPerPage);
    var r := s.(searchQuery := "", selectedCategory := "", minPrice := None, maxPrice := None, currentPage := 1,
                products := page.items, totalItems := page.totalItems, totalPages := page.totalPages,
                hasNextPage := page.hasNextPage, hasPrevPage := page.hasPrevPage);
    FilterWithoutCriteria(s.allProducts);
    r
  }

  /** Clearing the filters twice is clearing them once. */
  lemma ClearFiltersIdempotent(s: ProductsState)
    requires s.itemsPerPage > 0
    ensures ClearFilters(ClearFilters(s)) == ClearFilters(s)
  {
  }

  /** The fetch case: the collection is replaced, the category list rebuilt
      from it, and the view recomputed on the current page. */
  function Fetched(s: ProductsState, payload: seq<Product>): (r: ProductsState)
    requires s.itemsPerPage > 0
    ensures OnlyViewChanged(s.(allProducts := payload, categories := r.categories), r)
    ensures NoDuplicates(r.categories)
    ensures forall x :: x in r.categories <==> x != "" && Mentions(payload, x)
    ensures forall i, j :: 0 <= i < j < |r.categories| ==>
      FirstMention(payload, r.categories[i]) < FirstMention(payload, r.categories[j])
    ensures Consistent(r)
  {
    Refresh(s.(allProducts := payload, categories := Categories(payload)))
  }

  /** The create case: the product is appended, its category appended if new,
      and the view recomputed on the current page. */
  function Created(s: ProductsState, p: Product): (r: ProductsState)
    requires s.itemsPerPage > 0
    ensures OnlyViewChanged(s.(allProducts := r.allProducts, categories := r.categories), r)
    ensures |r.allProducts| == |s.allProducts| + 1
    ensures r.allProducts[..|s.allProducts|] == s.allProducts && r.allProducts[|s.allProducts|] == p
    ensures forall x :: x in r.categories <==> x in s.categories || (HasCategory(p.category) && p.category.value == x)
    ensures r.categories == s.categories
      + (if HasCategory(p.category) && p.category.value !in s.categories then [p.category.value] else [])
    ensures NoDuplicates(s.categories) ==> NoDuplicates(r.categories)
    ensures Consistent(r)
  {
    Refresh(s.(allProducts := s.allProducts + [p], categories := AddCategory(s.categories, p.category)))
  }

  /** The update case: the first product with the payload's id is replaced,
      the payload becomes the current product, its category is appended if new,
      and the view is recomputed on the current page. */
  function Updated(s: ProductsState, p: Product): (r: ProductsState)
    requires s.itemsPerPage > 0
    ensures OnlyViewChanged(s.(allProducts := r.allProducts, currentProduct := Some(p), categories := r.categories), r)
    ensures |r.allProducts| == |s.allProducts|
    ensures forall k :: 0 <= k < |s.allProducts| ==>
      r.allProducts[k] == if IsFirstWithId(s.allProducts, k, p.id) then p else s.allProducts[k]
    ensures forall x :: x in r.categories <==> x in s.categories || (HasCategory(p.category) && p.category.value == x)
    ensures r.categories == s.categories
      + (if HasCategory(p.category) && p.category.value !in s.categories then [p.category.value] else [])
    ensures NoDuplicates(s.categories) ==> NoDuplicates(r.categories)
    ensures Consistent(r)
  {
    Refresh(s.(allProducts := ReplaceById(s.allProducts, p), currentProduct := Some(p),
               categories := AddCategory(s.categories, p.category)))
  }

  /** The delete case: every product with the id is removed, the others keep
      their order, and the view is recomputed on the current page. */
  function Deleted(s: ProductsState, id: int): (r: ProductsState)
    requires s.itemsPerPage > 0
    ensures OnlyViewChanged(s.(allProducts := r.allProducts), r)
    ensures IsSubsequence(r.allProducts, s.allProducts)
    ensures forall x :: multiset(r.allProducts)[x] == if x.id != id then multiset(s.allProducts)[x] else 0
    ensures Consistent(r)
  {
    Refresh(s.(allProducts := RemoveById(s.allProducts, id)))
  }

  /** Deleting a product that passes the active filters, and is the only one
      with its id, lowers `totalItems` by exactly one and leaves it on no page. */
  lemma DeleteReflow(s: ProductsState, i: int)
    requires Consistent(s)
    requires 0 <= i < |s.allProducts|
    requires forall k :: 0 <= k < |s.allProducts| && k != i ==> s.allProducts[k].id != s.allProducts[i].id
    requires Matches(s.allProducts[i], s.searchQuery, s.selectedCategory, s.minPrice, s.maxPrice)
    ensures Deleted(s, s.allProducts[i].id).totalItems == s.totalItems - 1
    ensures s.allProducts[i] !in Listing(Deleted(s, s.allProducts[i].id))
  {
    var all := s.allProducts;
    var p := all[i];
    var r := Deleted(s, p.id);
    var keep := Criteria(s.searchQuery, s.selectedCategory, s.minPrice, s.maxPrice);
    RemoveUniqueId(all, i);
    FilterWithoutKeptElement(all, i, keep);
    var filteredBefore := FilterProducts(all, s.searchQuery, s.selectedCategory, s.minPrice, s.maxPrice);
    var filteredAfter := FilterProducts(r.allProducts, s.searchQuery, s.selectedCategory, s.minPrice, s.maxPrice);
    assert |filteredAfter| == |filteredBefore| - 1;
    assert |multiset(Listing(s))| == |multiset(filteredBefore)|;
    assert |multiset(Listing(r))| == |multiset(filteredAfter)|;
    assert multiset(r.allProducts)[p] == 0;
    assert multiset(Listing(r))[p] == 0;
  }

  /** After such a delete the state shows its current page of a listing
      one product shorter. */
  lemma DeleteShortensListing(s: ProductsState, i: int, r: ProductsState) returns (listing: seq<Product>)
    requires Consistent(s)
    requires 0 <= i < |s.allProducts|
    requires forall k :: 0 <= k < |s.allProducts| && k != i ==> s.allProducts[k].id != s.allProducts[i].id
    requires Matches(s.allProducts[i], s.searchQuery, s.selectedCategory, s.minPrice, s.maxPrice)
    requires r == Deleted(s, s.allProducts[i].id)
    ensures ShowsPage(r, listing) && |listing| == s.totalItems - 1
    ensures r.currentPage == s.currentPage && r.itemsPerPage == s.itemsPerPage
  {
    DeleteReflow(s, i);
    ConsistentShowsListing(r);
    listing := Listing(r);
  }

  /** The initial state disagrees with the pipeline:
      it claims one page where the pipeline counts none. */
  lemma InitialTotalPagesDiffers()
    ensures View(InitialState).totalPages == 0
    ensures InitialState.totalPages == 1
    ensures !Consistent(InitialState)
  {
    assert Listing(InitialState) == [];
  }
}
