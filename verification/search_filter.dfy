/** The search-and-filter panel: the sort select, whose values encode a sort
    key and a direction as `key-direction`, and the "Active" badge. */
module SearchAndFilter {
  import opened Optional
  import opened Text
  import opened ProductFilter
  import opened ProductSort
  import opened ProductsSlice

  /** The name a sort key carries in a select value. */
  function SortByName(b: SortBy): string {
    match b
    case ByName => "name"
    case ByPrice => "price"
    case ByCreated => "created"
  }

  /** The name a direction carries in a select value. */
  function SortOrderName(o: SortOrder): string {
    match o
    case Asc => "asc"
    case Desc => "desc"
  }

  /** Reads a sort key name; `None` for any other string. */
  function ParseSortBy(name: string): (r: Option<SortBy>)
    ensures forall b :: r == Some(b) <==> name == SortByName(b)
  {
    if name == "name" then Some(ByName)
    else if name == "price" then Some(ByPrice)
    else if name == "created" then Some(ByCreated)
    else None
  }

  /** Reads a direction name; `None` for any other string. */
  function ParseSortOrder(name: string): (r: Option<SortOrder>)
    ensures forall o :: r == Some(o) <==> name == SortOrderName(o)
  {
    if name == "asc" then Some(Asc)
    else if name == "desc" then Some(Desc)
    else None
  }

  /** The select's value for the current sort: `${sortBy}-${sortOrder}`. */
  function EncodeSortOption(b: SortBy, o: SortOrder): (r: string)
    ensures Split(r, '-') == [SortByName(b), SortOrderName(o)]
  {
    var parts := [SortByName(b), SortOrderName(o)];
    SplitJoin(parts, '-');
    assert Join(parts, '-') == SortByName(b) + "-" + SortOrderName(o);
    SortByName(b) + "-" + SortOrderName(o)
  }

  /** The change handler's `value.split('-')` destructured into the first
      two parts; `None` when there are fewer than two or either part is not
      a recognised name. */
  function DecodeSortOption(value: string): (r: Option<(SortBy, SortOrder)>)
    ensures forall b, o :: r == Some((b, o)) <==>
      |Split(value, '-')| >= 2 && Split(value, '-')[0] == SortByName(b) && Split(value, '-')[1] == SortOrderName(o)
  {
    var parts := Split(value, '-');
    if |parts| < 2 then None
    else
      match (ParseSortBy(parts[0]), ParseSortOrder(parts[1]))
      case (Some(b), Some(o)) => Some((b, o))
      case _ => None
  }

  /** Decoding the select's value gives back the sort it was built from. */
  lemma DecodeEncode(b: SortBy, o: SortOrder)
    ensures DecodeSortOption(EncodeSortOption(b, o)) == Some((b, o))
  {
  }

  /** A value that splits into exactly two parts and decodes to a sort is
      that sort's encoding, and only encodings are such values. */
  lemma EncodeDecode(value: string, b: SortBy, o: SortOrder)
    ensures value == EncodeSortOption(b, o)
        <==> DecodeSortOption(value) == Some((b, o)) && |Split(value, '-')| == 2
  {
    var parts := Split(value, '-');
    if DecodeSortOption(value) == Some((b, o)) && |parts| == 2 {
      assert ParseSortBy(parts[0]) == Some(b);
      assert ParseSortOrder(parts[1]) == Some(o);
      JoinSplit(value, '-');
      assert Join(parts, '-') == parts[0] + "-" + parts[1];
    }
  }

  /** The six option values of the sort select, in the order shown. */
  const SortOptionValues: seq<string> :=
    ["name-asc", "name-desc", "price-asc", "price-desc", "created-desc", "created-asc"]

  /** The `i`-th option's value is the encoding of the sort it stands for. */
  lemma OptionIsEncoding(i: int)
    requires 0 <= i < |SortOptionValues|
    ensures SortOptionValues[i] == EncodeSortOption(OptionSort(i).0, OptionSort(i).1)
  {
    if i == 0 {
      assert SortOptionValues[0] == "name" + "-" + "asc";
    } else if i == 1 {
      assert SortOptionValues[1] == "name" + "-" + "desc";
    } else if i == 2 {
      assert SortOptionValues[2] == "price" + "-" + "asc";
    } else if i == 3 {
      assert SortOptionValues[3] == "price" + "-" + "desc";
    } else if i == 4 {
      assert SortOptionValues[4] == "created" + "-" + "desc";
    } else {
      assert SortOptionValues[5] == "created" + "-" + "asc";
    }
  }

  /** The options are six distinct values, each decoding to the sort whose
      encoding it is, and every sort's encoding is one of them, so the
      select always shows the current sort. */
  lemma SortOptionsCoverEverySort()
    ensures forall i :: 0 <= i < |SortOptionValues| ==>
      DecodeSortOption(SortOptionValues[i]) == Some(OptionSort(i))
    ensures forall i, j :: 0 <= i < j < |SortOptionValues| ==> SortOptionValues[i] != SortOptionValues[j]
    ensures forall b, o :: EncodeSortOption(b, o) in SortOptionValues
  {
    forall i | 0 <= i < |SortOptionValues|
      ensures DecodeSortOption(SortOptionValues[i]) == Some(OptionSort(i))
    {
      OptionDecodes(i);
    }
    forall i, j | 0 <= i < j < |SortOptionValues|
      ensures SortOptionValues[i] != SortOptionValues[j]
    {
      OptionDecodes(i);
      OptionDecodes(j);
      OptionSortsDistinct(i, j);
    }
    forall b, o ensures EncodeSortOption(b, o) in SortOptionValues {
      OptionIsEncoding(OptionIndex(b, o));
    }
  }

  /** The `i`-th option decodes to the sort it stands for. */
  lemma OptionDecodes(i: int)
    requires 0 <= i < |SortOptionValues|
    ensures DecodeSortOption(SortOptionValues[i]) == Some(OptionSort(i))
  {
    OptionIsEncoding(i);
    DecodeEncode(OptionSort(i).0, OptionSort(i).1);
  }

  /** Different options stand for different sorts. */
  lemma OptionSortsDistinct(i: int, j: int)
    requires 0 <= i < j < 6
    ensures OptionSort(i) != OptionSort(j)
  {
  }

  /** The sort the `i`-th option stands for. */
  function OptionSort(i: int): (SortBy, SortOrder)
    requires 0 <= i < 6
  {
    if i == 0 then (ByName, Asc)
    else if i == 1 then (ByName, Desc)
    else if i == 2 then (ByPrice, Asc)
    else if i == 3 then (ByPrice, Desc)
    else if i == 4 then (ByCreated, Desc)
    else (ByCreated, Asc)
  }

  /** The position of a sort's option in the select. */
  function OptionIndex(b: SortBy, o: SortOrder): (i: int)
    ensures 0 <= i < 6 && OptionSort(i) == (b, o)
  {
    match (b, o)
    case (ByName, Asc) => 0
    case (ByName, Desc) => 1
    case (ByPrice, Asc) => 2
    case (ByPrice, Desc) => 3
    case (ByCreated, Desc) => 4
    case (ByCreated, Asc) => 5
  }

  /** The sort change handler: decode the chosen value and dispatch
      `setSorting` with it. */
  function HandleSortChange(s: ProductsState, value: string): (r: ProductsState)
    requires s.itemsPerPage > 0
    requires DecodeSortOption(value).Some?
    ensures r == s.(sortBy := r.sortBy, sortOrder := r.sortOrder, products := r.products)
    ensures r.products == View(r).items
    ensures DecodeSortOption(value) == Some((r.sortBy, r.sortOrder))
    ensures Consistent(s) ==> Consistent(r)
    ensures |Split(value, '-')| == 2 ==> EncodeSortOption(r.sortBy, r.sortOrder) == value
  {
    var (b, o) := DecodeSortOption(value).value;
    EncodeDecode(value, b, o);
    SetSorting(s, b, o)
  }

  /** Choosing any option and reading the select back shows that option. */
  lemma SelectShowsChosenOption(s: ProductsState, i: int)
    requires s.itemsPerPage > 0
    requires 0 <= i < |SortOptionValues|
    ensures DecodeSortOption(SortOptionValues[i]).Some?
    ensures EncodeSortOption(HandleSortChange(s, SortOptionValues[i]).sortBy,
                             HandleSortChange(s, SortOptionValues[i]).sortOrder) == SortOptionValues[i]
  {
    OptionIsEncoding(i);
    DecodeEncode(OptionSort(i).0, OptionSort(i).1);
  }

  /** The "Active" badge: a search text, a category, or either price bound
      is set. Empty strings are falsy, so they do not count. */
  predicate HasActiveFilters(s: ProductsState) {
    s.searchQuery != "" || s.selectedCategory != "" || s.minPrice.Some? || s.maxPrice.Some?
  }

  /** The badge shows exactly when clearing the filters would change one of
      the four filter inputs. */
  lemma ActiveIffClearingChangesFilters(s: ProductsState)
    requires s.itemsPerPage > 0
    ensures HasActiveFilters(s) <==>
      (s.searchQuery, s.selectedCategory, s.minPrice, s.maxPrice)
        != (ClearFilters(s).searchQuery, ClearFilters(s).selectedCategory,
            ClearFilters(s).minPrice, ClearFilters(s).maxPrice)
  {
  }

  /** After "Clear all filters" the badge is gone. */
  lemma ClearedHasNoActiveFilters(s: ProductsState)
    requires s.itemsPerPage > 0
    ensures !HasActiveFilters(ClearFilters(s))
  {
  }

  /** Without active filters the listing is the whole collection, sorted. */
  lemma InactiveListsEverything(s: ProductsState)
    requires !HasActiveFilters(s)
    ensures Listing(s) == SortProducts(s.allProducts, s.sortBy, s.sortOrder)
  {
    FilterWithoutCriteria(s.allProducts);
  }

  /** Without active filters, on the first page of a consistent state,
      clearing the filters changes nothing. */
  lemma ClearingInactiveFiltersOnFirstPage(s: ProductsState)
    requires Consistent(s)
    requires !HasActiveFilters(s) && s.currentPage == 1
    ensures ClearFilters(s) == s
  {
    InactiveListsEverything(s);
  }
}
