/** How the two sort directions relate. Descending negates the comparator,
    and the sort is stable, so descending order is the reverse of ascending
    order only when no two different products share a sort key. */
module SortDirection {
  import opened Seqs
  import opened Catalog
  import opened ProductSort

  /** No two different products of `ps` compare equal on the key. */
  predicate DistinctKeys(sortBy: SortBy, ps: seq<Product>) {
    forall x, y :: x in ps && y in ps && KeyCompare(sortBy, x, y) == 0.0 ==> x == y
  }

  /** With distinct keys, sorting descending gives the ascending result
      back to front. */
  lemma DescendingReversesAscending(ps: seq<Product>, sortBy: SortBy)
    requires DistinctKeys(sortBy, ps)
    ensures SortProducts(ps, sortBy, Desc) == Reverse(SortProducts(ps, sortBy, Asc))
  {
    var asc := SortProducts(ps, sortBy, Asc);
    ReverseSorted(sortBy, asc);
    forall p
      ensures Ties(sortBy, Desc, Reverse(asc), p) == Ties(sortBy, Desc, ps, p)
    {
      ReverseTies(ps, sortBy, asc, p);
    }
    StableSortIsUnique(ps, sortBy, Desc, Reverse(asc));
  }

  /** An ascending sequence read back to front is descending. */
  lemma ReverseSorted(sortBy: SortBy, asc: seq<Product>)
    requires Sorted(sortBy, Asc, asc)
    ensures Sorted(sortBy, Desc, Reverse(asc))
  {
    var rev := Reverse(asc);
    forall i, j | 0 <= i < j < |rev|
      ensures Compare(sortBy, Desc, rev[i], rev[j]) <= 0.0
    {
      assert Compare(sortBy, Asc, asc[|asc| - 1 - j], asc[|asc| - 1 - i]) <= 0.0;
      CompareAntisymmetric(sortBy, Asc, rev[i], rev[j]);
    }
  }

  /** With distinct keys, reversing the ascending result keeps every tie
      subsequence, each being copies of one product. */
  lemma ReverseTies(ps: seq<Product>, sortBy: SortBy, asc: seq<Product>, p: Product)
    requires DistinctKeys(sortBy, ps)
    requires Ties(sortBy, Asc, asc, p) == Ties(sortBy, Asc, ps, p)
    ensures Ties(sortBy, Desc, Reverse(asc), p) == Ties(sortBy, Desc, ps, p)
  {
    BothDirectionsTie(sortBy, p);
    FilterReverse(asc, TiedWith(sortBy, Desc, p));
    FilterSameKeep(asc, TiedWith(sortBy, Desc, p), TiedWith(sortBy, Asc, p));
    FilterSameKeep(ps, TiedWith(sortBy, Desc, p), TiedWith(sortBy, Asc, p));
    TiesAreCopies(ps, sortBy, p);
    ReverseConstant(Ties(sortBy, Desc, ps, p));
  }

  /** Ties are the same in both directions. */
  lemma BothDirectionsTie(sortBy: SortBy, p: Product)
    ensures forall x :: TiedWith(sortBy, Desc, p)(x) == TiedWith(sortBy, Asc, p)(x)
  {
  }

  /** With distinct keys, the products tied with `p` are all one product. */
  lemma TiesAreCopies(ps: seq<Product>, sortBy: SortBy, p: Product)
    requires DistinctKeys(sortBy, ps)
    ensures forall i, j :: 0 <= i < |Ties(sortBy, Desc, ps, p)| && 0 <= j < |Ties(sortBy, Desc, ps, p)| ==>
      Ties(sortBy, Desc, ps, p)[i] == Ties(sortBy, Desc, ps, p)[j]
  {
    var t := Ties(sortBy, Desc, ps, p);
    FilterMembers(ps, TiedWith(sortBy, Desc, p));
    forall i, j | 0 <= i < |t| && 0 <= j < |t|
      ensures t[i] == t[j]
    {
      assert t[i] in t && t[j] in t;
      TieTransitive(sortBy, Desc, t[i], p, t[j]);
    }
  }

  /** Two different products with equal keys keep their input order in both
      directions, so descending is then not the reverse of ascending. */
  lemma TiesBreakReversal(a: Product, b: Product, sortBy: SortBy)
    requires a != b && KeyCompare(sortBy, a, b) == 0.0
    ensures SortProducts([a, b], sortBy, Asc) == [a, b]
    ensures SortProducts([a, b], sortBy, Desc) == [a, b]
    ensures SortProducts([a, b], sortBy, Desc) != Reverse(SortProducts([a, b], sortBy, Asc))
  {
    SortPair(a, b, sortBy, Asc);
    SortPair(a, b, sortBy, Desc);
    assert Reverse([a, b])[0] == b;
  }
}
