/** Worked examples of the catalog pipeline on small product lists. */
module Scenarios {
  import opened Optional
  import opened Seqs
  import opened Text
  import opened Catalog
  import opened ProductFilter
  import opened ProductSort
  import opened Paging

  const RedShirt := Product(1, "Red Shirt", 10.0, "", None, None, None)
  const BlueHat := Product(2, "Blue Hat", 20.0, "", None, None, None)
  const RedHat := Product(3, "Red Hat", 15.0, "", None, None, None)
  const Hats := [RedShirt, BlueHat, RedHat]

  /** Searching "Red" keeps the two red products in their input order. */
  lemma SearchRed()
    ensures FilterProducts(Hats, "Red", "", None, None) == [RedShirt, RedHat]
  {
    RedCriteria();
    KeepsFirstAndLast(Criteria("Red", "", None, None));
  }

  /** The search decides each of the three products. */
  lemma RedCriteria()
    ensures Criteria("Red", "", None, None)(RedShirt)
    ensures !Criteria("Red", "", None, None)(BlueHat)
    ensures Criteria("Red", "", None, None)(RedHat)
  {
    RedMatches();
    BlueHatMisses();
    SearchOnly(RedShirt, "Red");
    SearchOnly(BlueHat, "Red");
    SearchOnly(RedHat, "Red");
  }

  /** With no category and no price bounds, only the search decides. */
  lemma SearchOnly(p: Product, query: string)
    ensures Criteria(query, "", None, None)(p) == MatchesSearch(p, query)
  {
  }

  lemma KeepsFirstAndLast(keep: Product -> bool)
    requires keep(RedShirt) && !keep(BlueHat) && keep(RedHat)
    ensures Filter(Hats, keep) == [RedShirt, RedHat]
  {
    FilterHats(keep);
  }

  /** Both red products contain "red" in their lower-cased names. */
  lemma RedMatches()
    ensures MatchesSearch(RedShirt, "Red") && MatchesSearch(RedHat, "Red")
  {
    RedShirtMatches();
    RedHatMatches();
  }

  lemma RedShirtMatches()
    ensures MatchesSearch(RedShirt, "Red")
  {
    LowerRed();
    LowerRedShirt();
    assert IsPrefixOf("red", "red shirt");
    NameStartsWithQuery(RedShirt, "Red", "red", "red shirt");
  }

  lemma RedHatMatches()
    ensures MatchesSearch(RedHat, "Red")
  {
    LowerRed();
    LowerRedHat();
    assert IsPrefixOf("red", "red hat");
    NameStartsWithQuery(RedHat, "Red", "red", "red hat");
  }

  /** A product whose lower-cased name starts with the lower-cased query matches it. */
  lemma NameStartsWithQuery(p: Product, query: string, lowQuery: string, lowName: string)
    requires Lower(query) == lowQuery && Lower(p.name) == lowName
    requires IsPrefixOf(lowQuery, lowName)
    ensures MatchesSearch(p, query)
  {
  }

  /** Neither the name nor the empty description of the blue hat contains "red". */
  lemma BlueHatMisses()
    ensures !MatchesSearch(BlueHat, "Red")
  {
    LowerNames();
    NoRedInBlueHat();
    Misses(BlueHat, "Red", "red", "blue hat", "");
  }

  lemma NoRedInBlueHat()
    ensures !Includes("blue hat", "red") && !Includes("", "red")
  {
    assert 'r' !in "blue hat";
    if Includes("blue hat", "red") {
      IncludedCharsOccur("blue hat", "red", 0);
    }
  }

  /** A non-empty query found in neither lower-cased text does not match. */
  lemma Misses(p: Product, query: string, lowQuery: string, lowName: string, lowDescription: string)
    requires query != ""
    requires Lower(query) == lowQuery && Lower(p.name) == lowName && Lower(p.description) == lowDescription
    requires !Includes(lowName, lowQuery) && !Includes(lowDescription, lowQuery)
    ensures !MatchesSearch(p, query)
  {
  }

  /** The lower-cased query, names and description. */
  lemma LowerNames()
    ensures Lower("Red") == "red" && Lower("") == ""
    ensures Lower("Red Shirt") == "red shirt"
    ensures Lower("Blue Hat") == "blue hat"
    ensures Lower("Red Hat") == "red hat"
  {
    LowerRedShirt();
    LowerBlueHat();
    LowerRedHat();
  }

  lemma LowerRed()
    ensures Lower("Red") == "red" && Lower("") == ""
  {
  }

  lemma LowerRedShirt()
    ensures Lower("Red Shirt") == "red shirt"
  {
  }

  lemma LowerBlueHat()
    ensures Lower("Blue Hat") == "blue hat"
  {
  }

  lemma LowerRedHat()
    ensures Lower("Red Hat") == "red hat"
  {
  }

  /** The filter of the three products, one decision per product. */
  lemma FilterHats(keep: Product -> bool)
    ensures Filter(Hats, keep) ==
      (if keep(RedShirt) then [RedShirt] else []) + (if keep(BlueHat) then [BlueHat] else [])
      + (if keep(RedHat) then [RedHat] else [])
  {
    assert Hats[1..] == [BlueHat, RedHat];
    assert [BlueHat, RedHat][1..] == [RedHat];
    assert Filter([RedHat], keep) == (if keep(RedHat) then [RedHat] else []) + Filter([], keep);
    assert Filter([BlueHat, RedHat], keep)
      == (if keep(BlueHat) then [BlueHat] else []) + Filter([RedHat], keep);
    assert Filter(Hats, keep) == (if keep(RedShirt) then [RedShirt] else []) + Filter(Hats[1..], keep);
  }

  /** The price range 12 to 20 keeps the two hats. */
  lemma PriceRange()
    ensures FilterProducts(Hats, "", "", Some(12.0), Some(20.0)) == [BlueHat, RedHat]
  {
    var keep := Criteria("", "", Some(12.0), Some(20.0));
    PriceOnly(RedShirt, 12.0, 20.0);
    PriceOnly(BlueHat, 12.0, 20.0);
    PriceOnly(RedHat, 12.0, 20.0);
    KeepsLastTwo(keep);
  }

  /** With no search and no category, only the two bounds decide. */
  lemma PriceOnly(p: Product, minPrice: real, maxPrice: real)
    ensures Criteria("", "", Some(minPrice), Some(maxPrice))(p) == (minPrice <= p.price <= maxPrice)
  {
  }

  lemma KeepsLastTwo(keep: Product -> bool)
    requires !keep(RedShirt) && keep(BlueHat) && keep(RedHat)
    ensures Filter(Hats, keep) == [BlueHat, RedHat]
  {
    FilterHats(keep);
  }

  /** Oldest first keeps the search result as it is; the default name
      order puts "Red Hat" ahead of "Red Shirt". */
  lemma SearchRedSorted()
    ensures SortProducts([RedShirt, RedHat], ByCreated, Asc) == [RedShirt, RedHat]
    ensures SortProducts([RedShirt, RedHat], ByName, Asc) == [RedHat, RedShirt]
  {
    RedHatBeforeRedShirt();
    OlderFirst(RedShirt, RedHat);
    NamesSwap(RedShirt, RedHat);
  }

  /** A pair with the smaller id first stays as it is, oldest first. */
  lemma OlderFirst(a: Product, b: Product)
    requires a.id < b.id
    ensures SortProducts([a, b], ByCreated, Asc) == [a, b]
  {
    SortPair(a, b, ByCreated, Asc);
  }

  /** A pair whose first name sorts after the second is swapped by name. */
  lemma NamesSwap(a: Product, b: Product)
    requires LexCompare(a.name, b.name) == 1
    ensures SortProducts([a, b], ByName, Asc) == [b, a]
  {
    SortPair(a, b, ByName, Asc);
  }

  /** "Red Hat" sorts before "Red Shirt": they first differ at 'H' < 'S'. */
  lemma RedHatBeforeRedShirt()
    ensures LexCompare("Red Shirt", "Red Hat") == 1
  {
    assert LexCompare("Red Hat", "Red Shirt") == -1 by {
      assert LexCompare("Hat", "Shirt") == -1;
      assert LexCompare(" Hat", " Shirt") == -1;
      assert LexCompare("d Hat", "d Shirt") == -1;
      assert LexCompare("ed Hat", "ed Shirt") == -1;
    }
    LexCompareAntisymmetric("Red Shirt", "Red Hat");
  }

  /** Seven items, three per page: three pages, the last holding one item. */
  lemma SevenItemsThreePerPage(s: seq<int>)
    requires |s| == 7
    ensures Paginate(s, 1, 3).totalPages == 3
    ensures |Paginate(s, 1, 3).items| == 3 && !Paginate(s, 1, 3).hasPrevPage
    ensures Paginate(s, 3, 3).items == [s[6]] && !Paginate(s, 3, 3).hasNextPage
  {
  }
}
