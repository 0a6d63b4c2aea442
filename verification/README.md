# Catalog view engine — a Dafny model

This project models the client-side catalog view of a storefront. The
products slice keeps the full product collection (`allProducts`) together
with filter, sort and page inputs. Every reducer re-runs one pipeline:

1. `filterProducts`: case-insensitive text search, category, and an inclusive price range.
2. `sortProducts`: a stable sort by name, price or id, ascending or descending.
3. `paginateProducts`: a `slice` of the sorted list, with totals and next/previous flags.

The pipeline's output is stored in five derived fields: `products`,
`totalItems`, `totalPages`, `hasNextPage` and `hasPrevPage`.

The model also covers two components built on the slice:

- The pagination control: the page-number window with ellipses, the page-change guard, the "showing X-Y" arithmetic, and the rule that hides the control.
- The search-and-filter panel: the `key-direction` encoding of the sort select, and the "Active" badge.

Every reducer is a pure function from state to state. The pipeline itself
is `ProductsSlice.View`. `ProductsSlice.Consistent` says that the five
derived fields hold exactly what `View` computes. Every full-recompute
reducer establishes it, and the three partial reducers preserve it:

- `setSorting` rewrites only `products`.
- `setCurrentPage` rewrites `products` and the two flags.
- `setItemsPerPage` does not write `totalItems`.

Modules, one per file:

| file | module | models |
|---|---|---|
| optional.dfy | `Optional` | `T \| null` and `T \| undefined` values |
| seqs.dfy | `Seqs` | `Array.prototype.filter`, subsequences, reversal |
| text.dfy | `Text` | `toLowerCase` (ASCII), `includes`, `split('-')`, code-point string order |
| catalog.dfy | `Catalog` | the `Product` record; the collection updates of the fetch, create, update and delete cases |
| filter.dfy | `ProductFilter` | `filterProducts` |
| sort.dfy | `ProductSort` | `sortProducts` and its comparator |
| direction.dfy | `SortDirection` | how the ascending and descending sorts relate |
| paging.dfy | `Paging` | `paginateProducts`, `slice`, `Math.ceil` |
| slice.dfy | `ProductsSlice` | the state, the initial state, every reducer |
| pagination.dfy | `PaginationControl` | `Pagination.tsx` |
| search_filter.dfy | `SearchAndFilter` | `SearchAndFilter.tsx` |
| scenarios.dfy | `Scenarios` | worked examples on three and seven products |

Some conventions used throughout:

- Prices are `real`. The source only compares them and takes the sign of their difference.
- `null` and `undefined` become `Option`.
- Page arithmetic uses `Paging.Times`, multiplication written as repeated addition. `Paging.TimesIsProduct` proves it equal to `*`, and the proofs about pages reason about it step by step.
- `sort` is modelled as insertion sort. JavaScript's sort is stable, and `ProductSort.StableSortIsUnique` shows that every stable sort by the same comparator gives the same result. That makes the choice of algorithm irrelevant.

## Model

| member | source | states |
|---|---|---|
| Seqs.FilterIsExactSubsequence | src/redux/productsSlice.ts:212-227 | `filter` keeps an order-preserving subsequence, and keeps each passing element exactly as often as it occurs |
| Seqs.FilterMembers | src/redux/productsSlice.ts:212-227 | everything `filter` returns was in the input and passes the test |
| Seqs.FilterFilter | src/redux/productsSlice.ts:226 | two filters in a row equal one filter by the conjunction of their tests |
| Seqs.FilterDropsOne | src/redux/productsSlice.ts:588 | when exactly one position fails the test, `filter` removes exactly that position |
| Text.Lower | src/redux/productsSlice.ts:215-216 | `toLowerCase` keeps the length, lowers each letter and leaves no upper-case letter |
| Text.LowerIdempotent | src/redux/productsSlice.ts:215-216 | lowering twice is lowering once |
| Text.IncludesIffOccurs | src/redux/productsSlice.ts:215-216 | `includes` holds exactly when the needle occurs at some position |
| Text.IncludedCharsOccur | src/redux/productsSlice.ts:215-216 | every character of an included string occurs in the haystack |
| Text.Split | src/components/SearchAndFilter.tsx:46 | `split` gives at least one part, and no part contains the separator |
| Text.JoinSplit | src/components/SearchAndFilter.tsx:46 | joining the parts of a split with the separator restores the string |
| Text.SplitJoin | src/components/SearchAndFilter.tsx:147 | splitting a join of separator-free parts gives the parts back |
| Text.LexCompare | src/redux/productsSlice.ts:241 | the name comparison is -1, 0 or 1, and 0 exactly for equal strings |
| Text.LexCompareAntisymmetric | src/redux/productsSlice.ts:241 | swapping the strings negates the comparison |
| Text.LexCompareTransitive | src/redux/productsSlice.ts:241 | "not after" is transitive, so the name order is a total order |
| Catalog.FindIndexById | src/redux/productsSlice.ts:546 | `findIndex` gives the first position holding the id, or -1 exactly when no product has it |
| Catalog.ReplaceById | src/redux/productsSlice.ts:546-549 | only the first product with the payload's id is replaced; nothing changes when none has it |
| Catalog.RemoveById | src/redux/productsSlice.ts:588 | delete keeps, in order, every product whose id differs, with its multiplicity, and nothing else |
| Catalog.RemoveUniqueId | src/redux/productsSlice.ts:588 | deleting an id held by one product removes exactly that product |
| Catalog.AddCategory | src/redux/productsSlice.ts:509-511 | a truthy category not yet listed is appended; the list stays duplicate-free |
| Catalog.Categories | src/redux/productsSlice.ts:456-459 | the fetched category list is duplicate-free, holds exactly the non-empty categories present, in order of first appearance |
| Catalog.FirstMention | src/redux/productsSlice.ts:456-459 | the first position carrying a category, or the length when none does |
| ProductFilter.FilterProducts | src/redux/productsSlice.ts:205-228 | the result is a subsequence of the input; every kept product passes the search, category, minimum and maximum tests; a passing product is kept as often as it occurs |
| ProductFilter.Matches | src/redux/productsSlice.ts:212-226 | the four tests together; a selected category rules out a product with a missing or empty category, an inverted price range rules out every product, and with no criteria every product passes |
| ProductFilter.FilterKeepsExactlyMatches | src/redux/productsSlice.ts:212-227 | an input product is in the result exactly when it passes all four tests |
| ProductFilter.FilterWithoutCriteria | src/redux/productsSlice.ts:214-224 | with an empty query, no category and no bounds, nothing is dropped |
| ProductFilter.UncategorisedDropped | src/redux/productsSlice.ts:219-220 | with a category selected, a product whose category is missing or empty never passes |
| ProductFilter.FilterComposition | src/redux/productsSlice.ts:226 | the combined filter equals the search, category, minimum and maximum filters applied one after another |
| ProductFilter.FiltersCommute | src/redux/productsSlice.ts:226 | two filter passes give the same result in either order |
| ProductSort.KeyCompare | src/redux/productsSlice.ts:238-251 | the key comparison; `ProductSort.KeyCompareMeaning` states its meaning |
| ProductSort.KeyCompareMeaning | src/redux/productsSlice.ts:238-251 | by name: -1, 0 or 1, and 0 exactly for equal names; by price or by id: negative exactly when `a`'s key is smaller and 0 exactly when the keys are equal |
| ProductSort.Compare | src/redux/productsSlice.ts:236-254 | the comparator handed to `sort`; `ProductSort.CompareOrdersByKey` states its meaning and `ProductSort.CompareAntisymmetric` and `ProductSort.CompareTransitive` that it is a consistent comparator |
| ProductSort.CompareOrdersByKey | src/redux/productsSlice.ts:236-254 | the comparator ties exactly the products whose keys tie, and puts `a` first ascending when its key comes first and descending when `b`'s key comes first |
| ProductSort.CompareAntisymmetric | src/redux/productsSlice.ts:236-254 | swapping the two products negates the comparator, in both directions and for every key |
| ProductSort.CompareTransitive | src/redux/productsSlice.ts:236-254 | the comparator's "goes no later" relation is transitive |
| ProductSort.TieTransitive | src/redux/productsSlice.ts:236-254 | comparing equal is transitive |
| ProductSort.InsertPermutes | src/redux/productsSlice.ts:236 | one insertion step adds exactly the inserted product |
| ProductSort.InsertSorted | src/redux/productsSlice.ts:236 | inserting into a sorted list keeps it sorted |
| ProductSort.InsertTies | src/redux/productsSlice.ts:236 | the inserted product goes ahead of the products it ties with and leaves other tie groups alone |
| ProductSort.SortProducts | src/redux/productsSlice.ts:231-255 | the result is a permutation of the input, sorted by the comparator, and stable: each group of tied products keeps its input order |
| ProductSort.SortPair | src/redux/productsSlice.ts:236-254 | sorting two products swaps them exactly when the comparator says the first goes later |
| ProductSort.SortedStableUnique | src/redux/productsSlice.ts:236 | two sorted lists with the same tie groups are equal |
| ProductSort.StableSortIsUnique | src/redux/productsSlice.ts:236 | any sorted, stable rearrangement of the input is `SortProducts`'s result |
| SortDirection.DescendingReversesAscending | src/redux/productsSlice.ts:253 | when no two different products share a key, descending order is ascending order reversed |
| SortDirection.ReverseSorted | src/redux/productsSlice.ts:253 | a list sorted ascending, read backwards, is sorted descending |
| SortDirection.TiesBreakReversal | src/redux/productsSlice.ts:253 | two different products with equal keys keep their input order in both directions, so descending is then not the reverse of ascending |
| Paging.SliceIndex | src/redux/productsSlice.ts:265 | a `slice` index resolves into `[0, length]` |
| Paging.JsSlice | src/redux/productsSlice.ts:265 | for non-negative bounds, `slice` is the sub-list between the two bounds clipped to the length |
| Paging.CeilDiv | src/redux/productsSlice.ts:268 | `Math.ceil(len / n)` is the least page count whose pages hold `len` items, and 0 exactly for no items |
| Paging.Paginate | src/redux/productsSlice.ts:258-277 | totals are the list length and its ceiling page count; next exactly when before the last page; previous exactly after page 1; at most `n` items, the clipped slice for pages from 1 |
| Paging.PageSlice | src/redux/productsSlice.ts:263-265 | the page's items number at most `n`; for pages from 1 they are the list from `(page-1)*n` to `page*n`, both clipped to the length |
| Paging.PagesUpToIsPrefix | src/redux/productsSlice.ts:263-265 | pages `1..k` together are the first `min(k*n, len)` items |
| Paging.PagesCoverList | src/redux/productsSlice.ts:263-268 | pages `1..totalPages` together are the whole list, each item once, in order |
| Paging.PageInRange | src/redux/productsSlice.ts:263-268 | a page in `1..totalPages` starts inside the list and holds the items from its start index to `min(page*n, len)` |
| Paging.ClippedSlice | src/redux/productsSlice.ts:263-265 | with a page in range, the clipped slice bounds are the unclipped start index and `min(page*n, len)` |
| Paging.BoundaryFlags | src/redux/productsSlice.ts:274-275 | on a page in range, no previous page exactly on page 1 and no next page exactly on the last page |
| Paging.PagesPastEndEmpty | src/redux/productsSlice.ts:263-265 | pages past the last are empty |
| Paging.FullPagesCount | src/redux/productsSlice.ts:268 | a list of exactly `k` full pages has `k` pages |
| Paging.PageZeroEmpty | src/redux/productsSlice.ts:263-265 | page 0 is empty |
| Paging.MinusFirstPageFromEnd | src/redux/productsSlice.ts:263-265 | with at least `2n` items, page -1 is the block of `n` items before the last `n`: both slice bounds count from the end |
| Paging.PageOfList | src/redux/productsSlice.ts:258-277 | for any page: the page count is `Math.ceil(len / n)`, an in-range page is the non-empty stretch from `(page-1)*n` to `min(page*n, len)`, and a page past the end is empty |
| ProductsSlice.Listing | src/redux/productsSlice.ts:303-312 | the filtered, then sorted collection every reducer pages; `ProductsSlice.ListingSelectsAndSorts` characterises it |
| ProductsSlice.ListingSelectsAndSorts | src/redux/productsSlice.ts:303-312 | the listing holds each product as often as the collection does when it passes the four tests and never otherwise, is sorted, and is the only sorted list keeping each tie group of the matching products in collection order |
| ProductsSlice.View | src/redux/productsSlice.ts:314-320 | the page `currentPage` of the listing, cut by `paginateProducts`; `Paging.PageOfList` states what any page holds and `ProductsSlice.ConsistentShowsListing` that a consistent state shows it |
| ProductsSlice.Refresh | src/redux/productsSlice.ts:299-315 | writing the pipeline's output makes the state consistent and changes only the derived fields |
| ProductsSlice.SetSearchQuery | src/redux/productsSlice.ts:294-316 | sets the query and page 1, changes nothing else but the derived fields, and leaves a consistent state |
| ProductsSlice.SetSelectedCategory | src/redux/productsSlice.ts:318-339 | sets the category and page 1, changes nothing else but the derived fields, and leaves a consistent state |
| ProductsSlice.SetPriceRange | src/redux/productsSlice.ts:341-363 | sets both bounds and page 1, changes nothing else but the derived fields, and leaves a consistent state |
| ProductsSlice.SetSorting | src/redux/productsSlice.ts:365-382 | sets the sort, rewrites only `products`, and keeps a consistent state consistent |
| ProductsSlice.SortKeepsLength | src/redux/productsSlice.ts:377-381 | the sort does not change how many products are listed, so the stale totals stay right |
| ProductsSlice.SetCurrentPage | src/redux/productsSlice.ts:385-403 | accepts any page, rewrites only the items and the two flags, and keeps a consistent state consistent |
| ProductsSlice.SetItemsPerPage | src/redux/productsSlice.ts:405-425 | sets the size and page 1, rewrites items, page count and flags but not `totalItems`, and keeps a consistent state consistent |
| ProductsSlice.ClearFilters | src/redux/productsSlice.ts:427-442 | resets the four filter inputs and the page, keeps the sort, and leaves a consistent state, although the source sorts without filtering |
| ProductsSlice.ClearFiltersIdempotent | src/redux/productsSlice.ts:427-442 | clearing twice is clearing once |
| ProductsSlice.Fetched | src/redux/productsSlice.ts:451-479 | replaces the collection, rebuilds a duplicate-free category list of exactly the non-empty categories present, in order of first appearance, and leaves a consistent state |
| ProductsSlice.Created | src/redux/productsSlice.ts:503-531 | appends the product; appends its truthy category at the end of the list exactly when not yet listed, keeping the old list as a prefix; and leaves a consistent state |
| ProductsSlice.Updated | src/redux/productsSlice.ts:543-575 | replaces the first product with the id, makes the payload current, appends its truthy category at the end of the list exactly when not yet listed, keeps a duplicate-free category list duplicate-free, and leaves a consistent state |
| ProductsSlice.Deleted | src/redux/productsSlice.ts:586-608 | removes every product with the id, keeping the others in order, and leaves a consistent state |
| ProductsSlice.DeleteReflow | src/redux/productsSlice.ts:586-608 | deleting a listed product whose id is unique lowers `totalItems` by one and takes it off every page |
| ProductsSlice.DeleteShortensListing | src/redux/productsSlice.ts:586-608 | such a delete keeps the current page and page size, and the state then shows that page of a listing one product shorter |
| ProductsSlice.InitialTotalPagesDiffers | src/redux/productsSlice.ts:69-94 | the initial state claims one page where the pipeline counts none |
| PaginationControl.PageRange | src/components/Pagination.tsx:56-58 | the buttons `lo..hi` in order, none when `lo > hi` |
| PaginationControl.InPageRange | src/components/Pagination.tsx:56-58 | page `k` is among the buttons `lo..hi` exactly when it lies between them |
| PaginationControl.GetPageNumbers | src/components/Pagination.tsx:33-72 | all pages up to five; beyond that, first and last page and at most seven entries; numbers ascend within `1..totalPages`; a current page in `1..totalPages` is offered |
| PaginationControl.ShownPages | src/components/Pagination.tsx:33-72 | page `k` is offered exactly when it is in range and there are at most five pages, or it is the first, the last, or next to the current page |
| PaginationControl.EllipsisMarksGap | src/components/Pagination.tsx:47-63 | for every current page, a stranded one past the end included, neighbouring numbers are consecutive pages, and an ellipsis stands between two numbers that are not |
| PaginationControl.EllipsisPlacement | src/components/Pagination.tsx:51-63 | the leading ellipsis appears exactly when the window starts after page 2; the trailing one exactly when it stops before the second-to-last page |
| PaginationControl.EllipsisCount | src/components/Pagination.tsx:51-63 | at most two ellipses, one per side whose condition holds |
| PaginationControl.HandlePageChange | src/components/Pagination.tsx:20-26 | a page in `1..totalPages` is dispatched, any other leaves the state unchanged; consistency is kept |
| PaginationControl.StartItem | src/components/Pagination.tsx:78 | "Showing X": `ShowingRangeMatchesPage` states that on a page in range it is the 1-based listing position of the page's first item, and `StrandedPage` that past the end it is one more than Y |
| PaginationControl.EndItem | src/components/Pagination.tsx:79 | "-Y": `ShowingRangeMatchesPage` states that on a page in range it is the listing position of the page's last item, so Y - X + 1 items are shown |
| PaginationControl.ShowingRangeMatchesPage | src/components/Pagination.tsx:78-79 | on a page in range of a state showing a listing, "Showing X-Y" counts exactly the items on the page, and they are positions X..Y of the listing |
| PaginationControl.Render | src/components/Pagination.tsx:74-76 | the control renders nothing exactly when there is at most one page |
| PaginationControl.ControlShownIffSeveralPages | src/components/Pagination.tsx:74-76 | in a state showing a listing (every consistent state does, see `ProductsSlice.ConsistentShowsListing`) the control shows exactly when more products are listed than fit on one page |
| PaginationControl.StrandedPage | src/components/Pagination.tsx:33-79 | on a page just past a listing of whole pages, the page count is one less than the page, nothing is shown, the page's number is not among the buttons, and "Showing X-Y" has Y = X - 1 |
| PaginationControl.DeleteStrandsLastPage | src/redux/productsSlice.ts:586-608 | the delete case keeps the current page, so deleting the one listed product on the last page leaves the state on a page past the end, with the stranded display of `StrandedPage` |
| SearchAndFilter.ParseSortBy | src/components/SearchAndFilter.tsx:46 | a key name reads back to the key it names, and nothing else is accepted |
| SearchAndFilter.ParseSortOrder | src/components/SearchAndFilter.tsx:46 | a direction name reads back to the direction it names, and nothing else is accepted |
| SearchAndFilter.EncodeSortOption | src/components/SearchAndFilter.tsx:147 | the select value splits on `-` into the key name and the direction name |
| SearchAndFilter.DecodeSortOption | src/components/SearchAndFilter.tsx:46 | a value decodes to a sort exactly when it splits into at least two parts, the first the key's name and the second the direction's name; parts after the second are ignored |
| SearchAndFilter.DecodeEncode | src/components/SearchAndFilter.tsx:45-48 | decoding the select value gives back the sort it shows |
| SearchAndFilter.EncodeDecode | src/components/SearchAndFilter.tsx:45-48 | a value is a sort's encoding exactly when it decodes to that sort and splits into two parts |
| SearchAndFilter.OptionIsEncoding | src/components/SearchAndFilter.tsx:151-156 | each option value is the encoding of the sort it stands for |
| SearchAndFilter.SortOptionsCoverEverySort | src/components/SearchAndFilter.tsx:147-156 | the six options are distinct, each decodes to its sort, and every sort's encoding is among them |
| SearchAndFilter.HandleSortChange | src/components/SearchAndFilter.tsx:45-48 | the new sort is the one the first two `-`-separated parts of the value name; only the sort and the visible items change, the items being the current page under the new sort; a consistent state stays consistent; for a two-part value the select then shows that value |
| SearchAndFilter.SelectShowsChosenOption | src/components/SearchAndFilter.tsx:45-48 | after choosing any option, the select shows that option |
| SearchAndFilter.HasActiveFilters | src/components/SearchAndFilter.tsx:56 | the badge condition, with empty strings falsy; `SearchAndFilter.ActiveIffClearingChangesFilters` states it holds exactly when clearing would change a filter input |
| SearchAndFilter.ActiveIffClearingChangesFilters | src/components/SearchAndFilter.tsx:56 | the badge shows exactly when "Clear all filters" would change a filter input |
| SearchAndFilter.ClearedHasNoActiveFilters | src/components/SearchAndFilter.tsx:50-56 | after clearing, the badge is gone |
| SearchAndFilter.InactiveListsEverything | src/components/SearchAndFilter.tsx:56 | with no active filter the listing is the whole collection, sorted |
| SearchAndFilter.ClearingInactiveFiltersOnFirstPage | src/components/SearchAndFilter.tsx:50-56 | with no active filter, on page 1 of a consistent state, clearing changes nothing |
| Scenarios.SearchRed | src/redux/productsSlice.ts:214-216 | searching "Red" among Red Shirt, Blue Hat and Red Hat keeps the first and third, in order |
| Scenarios.PriceRange | src/redux/productsSlice.ts:223-224 | the range 12 to 20 keeps Blue Hat and Red Hat |
| Scenarios.SearchRedSorted | src/redux/productsSlice.ts:239-248 | oldest first keeps that order; the default name order puts Red Hat first |
| Scenarios.SevenItemsThreePerPage | src/redux/productsSlice.ts:263-275 | seven items, three per page: three pages, the last holding one item, no next page there, no previous page on page 1 |

## Left out

- The asynchronous thunks and the product and image services (`fetchProducts`, `fetchProductById`, `createProduct`, `updateProduct`, `deleteProduct`, `uploadImageToCloudinary`). They perform network I/O. Only the fulfilled cases of `fetchProducts`, `createProduct`, `updateProduct` and `deleteProduct` are modelled, with the payload as a parameter; the `fetchProductById` fulfilled case is left out, for the reason given two lines below.
- The pending and rejected cases, and the `loading`, `error` and `uploading` flags they set. These are request bookkeeping that the catalog view does not read.
- `clearCurrentProduct`, `clearError`, `setUploading` and the `fetchProductById` fulfilled case. They assign fields the catalog pipeline does not read: `currentProduct`, `error`, `uploading`, and for `fetchProductById` both `loading` and `currentProduct`.
- The components' rendering, `window.scrollTo`, and the local min/max price text fields of the filter panel, which hold UI-only state.
- `handlePriceRangeApply`'s `parseFloat`. Number parsing and `NaN` are not modelled, so the price bounds are taken as already-parsed `Option<real>` values.
- `handleItemsPerPageChange`'s `parseInt`. The select offers only 6, 12, 24 and 48.
- ProductsSlice.SetItemsPerPage: requires a positive page size. With a zero size the source's `Math.ceil(totalItems / itemsPerPage)` gives `Infinity` for a non-empty listing and `NaN` (from `0 / 0`) for an empty one; the select never offers a zero size. Every other reducer requires the same of the state's stored size.
- Text.Lower: lowers ASCII letters only. `toLowerCase` also folds non-ASCII letters by the Unicode tables.
- Text.LexCompare: code-point order, standing in for `localeCompare`. Locale collation is not modelled, so name-sorted listings can differ from the source whenever names differ in letter case or accents: code-point order puts every upper-case ASCII letter before every lower-case one ("Banana" before "apple"), where a usual locale puts "apple" first. `localeCompare` may also return 0 for distinct, canonically equivalent strings, while `LexCompare` is 0 only for equal strings.
- ProductSort.KeyCompare: prices are reals, so `a.price - b.price` has no rounding, `NaN` or infinities. Ids are unbounded integers.
- The comparator's `default` branch (productsSlice.ts:249-250). The sort key is one of three names, so the branch is unreachable.
- SearchAndFilter.HandleSortChange: requires a value that decodes. The source casts the parts without checking them, and only the six option values ever reach it.
- `cartSlice` and the other slices, pages and services of the application, which are outside the catalog view.
- Descending order is not in general ascending order reversed. Descending negates the comparator of a stable sort, so different products with equal keys keep their input order in both directions. `SortDirection.TiesBreakReversal` and `SortDirection.DescendingReversesAscending` state when reversal holds.
- `hasNextPage` is `currentPage < totalPages`, so it is false not only on the last page but also past the last page and on page 1 of an empty list, where there are 0 pages. `Paging.Paginate` and `Paging.BoundaryFlags` state this.
- Create, update and delete keep `currentPage`. After a delete empties the last page, the state sits on a page past the end: the page is empty, its button is missing, and the control reads "Showing 7-6 of 6" for seven items at three per page. The model keeps this behaviour; see `PaginationControl.DeleteStrandsLastPage`.
- The initial state stores `totalPages: 1` where the pipeline gives 0 for an empty list. The model keeps the source's constant; see `ProductsSlice.InitialTotalPagesDiffers`.
