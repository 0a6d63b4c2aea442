/** `filterProducts`: text search, category match and price bounds, applied
    together as one order-preserving filter. */
module ProductFilter {
  import opened Optional
  import opened Seqs
  import opened Text
  import opened Catalog

  /** The query is empty, or occurs case-insensitively in the name or the description. */
  predicate MatchesSearch(p: Product, query: string) {
    query == ""
    || Includes(Lower(p.name), Lower(query))
    || Includes(Lower(p.description), Lower(query))
  }

  /** No category is selected, or the product has a category equal to it up to case.
      A product without a category never matches a selected category. */
  predicate MatchesCategory(p: Product, category: string) {
    category == ""
    || (p.category.Some? && Lower(p.category.value) == Lower(category))
  }

  /** Inclusive lower bound; an absent bound admits every price. */
  predicate MatchesMinPrice(p: Product, minPrice: Option<real>) {
    minPrice.None? || p.price >= minPrice.value
  }

  /** Inclusive upper bound; an absent bound admits every price. */
  predicate MatchesMaxPrice(p: Product, maxPrice: Option<real>) {
    maxPrice.None? || p.price <= maxPrice.value
  }

  /** All four tests pass. A selected category rules out an uncategorised
      product, an inverted price range rules out every product, and with no
      criteria at all every product passes. */
  predicate Matches(p: Product, query: string, category: string, minPrice: Option<real>, maxPrice: Option<real>)
    ensures Matches(p, query, category, minPrice, maxPrice) && category != "" ==> HasCategory(p.category)
    ensures minPrice.Some? && maxPrice.Some? && maxPrice.value < minPrice.value ==> !Matches(p, query, category, minPrice, maxPrice)
    ensures query == "" && category == "" && minPrice.None? && maxPrice.None? ==> Matches(p, query, category, minPrice, maxPrice)
  {
    && MatchesSearch(p, query)
    && MatchesCategory(p, category)
    && MatchesMinPrice(p, minPrice)
    && MatchesMaxPrice(p, maxPrice)
  }

  function Criteria(query: string, category: string, minPrice: Option<real>, maxPrice: Option<real>): Product -> bool {
    p => Matches(p, query, category, minPrice, maxPrice)
  }

  /** The products passing all four tests, as an order-preserving subsequence
      that keeps every passing product as often as it occurs. */
  function FilterProducts(ps: seq<Product>, query: string, category: string,
                          minPrice: Option<real>, maxPrice: Option<real>): (r: seq<Product>)
    ensures IsSubsequence(r, ps)
    ensures forall x :: multiset(r)[x] == (if Matches(x, query, category, minPrice, maxPrice) then multiset(ps)[x] else 0)
    ensures forall x :: x in r ==>
      && (query == "" || Includes(Lower(x.name), Lower(query)) || Includes(Lower(x.description), Lower(query)))
      && (category == "" || (x.category.Some? && Lower(x.category.value) == Lower(category)))
      && (minPrice.None? || x.price >= minPrice.value)
      && (maxPrice.None? || x.price <= maxPrice.value)
  {
    FilterIsExactSubsequence(ps, Criteria(query, category, minPrice, maxPrice));
    FilterMembers(ps, Criteria(query, category, minPrice, maxPrice));
    Filter(ps, Criteria(query, category, minPrice, maxPrice))
  }

  /** A product in the input is kept exactly when it passes all four tests. */
  lemma FilterKeepsExactlyMatches(ps: seq<Product>, query: string, category: string,
                                  minPrice: Option<real>, maxPrice: Option<real>, p: Product)
    requires p in ps
    ensures p in FilterProducts(ps, query, category, minPrice, maxPrice) <==> Matches(p, query, category, minPrice, maxPrice)
  {
    var r := FilterProducts(ps, query, category, minPrice, maxPrice);
    assert multiset(ps)[p] > 0;
    assert p in r <==> multiset(r)[p] > 0;
  }

  /** With an empty query, no category and no price bounds, nothing is dropped. */
  lemma FilterWithoutCriteria(ps: seq<Product>)
    ensures FilterProducts(ps, "", "", None, None) == ps
  {
    FilterKeepsAll(ps, Criteria("", "", None, None));
  }

  /** Under a selected category, products without a category, or with an
      empty one, are dropped. */
  lemma UncategorisedDropped(ps: seq<Product>, query: string, category: string,
                             minPrice: Option<real>, maxPrice: Option<real>, p: Product)
    requires category != "" && !HasCategory(p.category)
    ensures p !in FilterProducts(ps, query, category, minPrice, maxPrice)
  {
  }

  /** The combined filter equals the four single-criterion filters applied one
      after the other (search, then category, then minimum, then maximum). */
  lemma FilterComposition(ps: seq<Product>, query: string, category: string,
                          minPrice: Option<real>, maxPrice: Option<real>)
    ensures FilterProducts(ps, query, category, minPrice, maxPrice)
      == FilterProducts(
           FilterProducts(
             FilterProducts(
               FilterProducts(ps, query, "", None, None),
               "", category, None, None),
             "", "", minPrice, None),
           "", "", None, maxPrice)
  {
    var search := Criteria(query, "", None, None);
    var cat := Criteria("", category, None, None);
    var low := Criteria("", "", minPrice, None);
    var high := Criteria("", "", None, maxPrice);
    var searchCat := Criteria(query, category, None, None);
    var searchCatLow := Criteria(query, category, minPrice, None);
    var all := Criteria(query, category, minPrice, maxPrice);
    FilterFilter(ps, search, cat, searchCat);
    FilterFilter(ps, searchCat, low, searchCatLow);
    FilterFilter(ps, searchCatLow, high, all);
  }

  /** Two filter passes may be applied in either order. */
  lemma FiltersCommute(ps: seq<Product>,
                       query: string, category: string, minPrice: Option<real>, maxPrice: Option<real>,
                       query': string, category': string, minPrice': Option<real>, maxPrice': Option<real>)
    ensures FilterProducts(FilterProducts(ps, query, category, minPrice, maxPrice), query', category', minPrice', maxPrice')
         == FilterProducts(FilterProducts(ps, query', category', minPrice', maxPrice'), query, category, minPrice, maxPrice)
  {
    var first := Criteria(query, category, minPrice, maxPrice);
    var second := Criteria(query', category', minPrice', maxPrice');
    var both := (p: Product) => first(p) && second(p);
    FilterFilter(ps, first, second, both);
    FilterFilter(ps, second, first, both);
  }
}
