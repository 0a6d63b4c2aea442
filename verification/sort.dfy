/** `sortProducts`: a stable sort by name, price or id, ascending or
    descending, where descending negates the comparison. */
module ProductSort {
  import opened Seqs
  import opened Text
  import opened Catalog

  datatype SortBy = ByName | ByPrice | ByCreated
  datatype SortOrder = Asc | Desc

  /** The comparator's `switch`: negative when `a` goes first. */
  function KeyCompare(sortBy: SortBy, a: Product, b: Product): real {
    match sortBy
    case ByName => LexCompare(a.name, b.name) as real
    case ByPrice => a.price - b.price
    case ByCreated => (a.id - b.id) as real
  }

  /** The comparator handed to `sort`, negated for descending order. */
  function Compare(sortBy: SortBy, order: SortOrder, a: Product, b: Product): real {
    if order == Desc then -KeyCompare(sortBy, a, b) else KeyCompare(sortBy, a, b)
  }

  /** By name the comparison is -1, 0 or 1 and 0 only for equal names; by
      price or by id it is negative exactly when `a`'s key is smaller and 0
      exactly when the keys are equal. */
  lemma KeyCompareMeaning(sortBy: SortBy, a: Product, b: Product)
    ensures var r := KeyCompare(sortBy, a, b);
      && (sortBy == ByName ==> -1.0 <= r <= 1.0 && (r == 0.0 <==> a.name == b.name))
      && (sortBy == ByPrice ==> (r < 0.0 <==> a.price < b.price) && (r == 0.0 <==> a.price == b.price))
      && (sortBy == ByCreated ==> (r < 0.0 <==> a.id < b.id) && (r == 0.0 <==> a.id == b.id))
  {
  }

  /** The comparator ties exactly the products whose keys tie; ascending puts
      `a` first when its key comes first, descending when `b`'s key does. */
  lemma CompareOrdersByKey(sortBy: SortBy, order: SortOrder, a: Product, b: Product)
    ensures Compare(sortBy, order, a, b) == 0.0 <==> KeyCompare(sortBy, a, b) == 0.0
    ensures Compare(sortBy, order, a, b) < 0.0
      <==> (if order == Asc then KeyCompare(sortBy, a, b) else KeyCompare(sortBy, b, a)) < 0.0
  {
    if sortBy == ByName {
      LexCompareAntisymmetric(a.name, b.name);
    }
  }

  /** Swapping the arguments negates the comparison. */
  lemma CompareAntisymmetric(sortBy: SortBy, order: SortOrder, a: Product, b: Product)
    ensures Compare(sortBy, order, a, b) == -Compare(sortBy, order, b, a)
  {
    if sortBy == ByName {
      LexCompareAntisymmetric(a.name, b.name);
    }
  }

  /** "Goes no later than" is transitive. */
  lemma CompareTransitive(sortBy: SortBy, order: SortOrder, a: Product, b: Product, c: Product)
    requires Compare(sortBy, order, a, b) <= 0.0 && Compare(sortBy, order, b, c) <= 0.0
    ensures Compare(sortBy, order, a, c) <= 0.0
  {
    if sortBy == ByName {
      if order == Asc {
        LexCompareTransitive(a.name, b.name, c.name);
      } else {
        LexCompareAntisymmetric(a.name, b.name);
        LexCompareAntisymmetric(b.name, c.name);
        LexCompareAntisymmetric(a.name, c.name);
        LexCompareTransitive(c.name, b.name, a.name);
      }
    }
  }

  /** Being tied (comparison 0) is an equivalence: here, its transitivity. */
  lemma TieTransitive(sortBy: SortBy, order: SortOrder, a: Product, b: Product, c: Product)
    requires Compare(sortBy, order, a, b) == 0.0 && Compare(sortBy, order, c, b) == 0.0
    ensures Compare(sortBy, order, a, c) == 0.0
  {
    CompareAntisymmetric(sortBy, order, c, b);
    CompareAntisymmetric(sortBy, order, a, c);
    CompareAntisymmetric(sortBy, order, a, b);
    CompareTransitive(sortBy, order, a, b, c);
    CompareTransitive(sortBy, order, c, b, a);
  }

  /** No pair is out of order. */
  predicate Sorted(sortBy: SortBy, order: SortOrder, s: seq<Product>) {
    forall i, j :: 0 <= i < j < |s| ==> Compare(sortBy, order, s[i], s[j]) <= 0.0
  }

  function TiedWith(sortBy: SortBy, order: SortOrder, p: Product): Product -> bool {
    x => Compare(sortBy, order, x, p) == 0.0
  }

  /** The elements of `s` that compare equal to `p`, in their order in `s`. */
  function Ties(sortBy: SortBy, order: SortOrder, s: seq<Product>, p: Product): seq<Product> {
    Filter(s, TiedWith(sortBy, order, p))
  }

  /** Inserts `x` before the first element it does not follow, so `x` goes
      ahead of the elements it ties with. */
  function Insert(sortBy: SortBy, order: SortOrder, x: Product, t: seq<Product>): seq<Product>
    decreases |t|
  {
    if |t| == 0 then [x]
    else if Compare(sortBy, order, x, t[0]) <= 0.0 then [x] + t
    else [t[0]] + Insert(sortBy, order, x, t[1..])
  }

  lemma {:induction false} InsertPermutes(sortBy: SortBy, order: SortOrder, x: Product, t: seq<Product>)
    ensures multiset(Insert(sortBy, order, x, t)) == multiset(t) + multiset{x}
    decreases |t|
  {
    if |t| > 0 && Compare(sortBy, order, x, t[0]) > 0.0 {
      InsertPermutes(sortBy, order, x, t[1..]);
      assert t == [t[0]] + t[1..];
    }
  }

  lemma {:induction false} InsertSorted(sortBy: SortBy, order: SortOrder, x: Product, t: seq<Product>)
    requires Sorted(sortBy, order, t)
    ensures Sorted(sortBy, order, Insert(sortBy, order, x, t))
    decreases |t|
  {
    if |t| > 0 {
      if Compare(sortBy, order, x, t[0]) <= 0.0 {
        PrecedesSorted(sortBy, order, x, t);
        SortedCons(sortBy, order, x, t);
      } else {
        var rest := Insert(sortBy, order, x, t[1..]);
        assert Sorted(sortBy, order, t[1..]);
        InsertSorted(sortBy, order, x, t[1..]);
        HeadPrecedesInsert(sortBy, order, x, t);
        SortedCons(sortBy, order, t[0], rest);
        assert Insert(sortBy, order, x, t) == [t[0]] + rest;
      }
    }
  }

  /** A sorted list stays sorted behind a head that goes no later than any of it. */
  lemma SortedCons(sortBy: SortBy, order: SortOrder, h: Product, t: seq<Product>)
    requires Sorted(sortBy, order, t)
    requires forall j :: 0 <= j < |t| ==> Compare(sortBy, order, h, t[j]) <= 0.0
    ensures Sorted(sortBy, order, [h] + t)
  {
    var r := [h] + t;
    forall i, j | 0 <= i < j < |r|
      ensures Compare(sortBy, order, r[i], r[j]) <= 0.0
    {
      assert r[j] == t[j - 1];
      if i > 0 {
        assert r[i] == t[i - 1];
      }
    }
  }

  /** What goes no later than the head of a sorted list goes no later than all of it. */
  lemma PrecedesSorted(sortBy: SortBy, order: SortOrder, x: Product, t: seq<Product>)
    requires Sorted(sortBy, order, t) && |t| > 0
    requires Compare(sortBy, order, x, t[0]) <= 0.0
    ensures forall j :: 0 <= j < |t| ==> Compare(sortBy, order, x, t[j]) <= 0.0
  {
    forall j | 0 < j < |t|
      ensures Compare(sortBy, order, x, t[j]) <= 0.0
    {
      CompareTransitive(sortBy, order, x, t[0], t[j]);
    }
  }

  /** When `x` goes later than the head, the head goes no later than anything
      in the insertion of `x` into the tail. */
  lemma HeadPrecedesInsert(sortBy: SortBy, order: SortOrder, x: Product, t: seq<Product>)
    requires Sorted(sortBy, order, t) && |t| > 0
    requires Compare(sortBy, order, x, t[0]) > 0.0
    ensures forall j :: 0 <= j < |Insert(sortBy, order, x, t[1..])| ==>
      Compare(sortBy, order, t[0], Insert(sortBy, order, x, t[1..])[j]) <= 0.0
  {
    var rest := Insert(sortBy, order, x, t[1..]);
    InsertPermutes(sortBy, order, x, t[1..]);
    CompareAntisymmetric(sortBy, order, x, t[0]);
    forall j | 0 <= j < |rest|
      ensures Compare(sortBy, order, t[0], rest[j]) <= 0.0
    {
      assert rest[j] in multiset(rest);
      if rest[j] != x {
        assert rest[j] in multiset(t[1..]);
        var k :| 0 <= k < |t[1..]| && t[1..][k] == rest[j];
        assert t[k + 1] == rest[j];
      }
    }
  }

  /** `x` goes ahead of everything it ties with, so the tie subsequences are
      those of `t` with `x` prepended to its own class. */
  lemma {:induction false} InsertTies(sortBy: SortBy, order: SortOrder, x: Product, t: seq<Product>, p: Product)
    ensures Ties(sortBy, order, Insert(sortBy, order, x, t), p)
      == (if Compare(sortBy, order, x, p) == 0.0 then [x] else []) + Ties(sortBy, order, t, p)
    decreases |t|
  {
    var tied := TiedWith(sortBy, order, p);
    if |t| == 0 {
    } else if Compare(sortBy, order, x, t[0]) <= 0.0 {
      FilterConcat([x], t, tied);
    } else {
      InsertTies(sortBy, order, x, t[1..], p);
      if Compare(sortBy, order, x, p) == 0.0 && Compare(sortBy, order, t[0], p) == 0.0 {
        TieTransitive(sortBy, order, x, p, t[0]);
        assert false;
      }
      assert t == [t[0]] + t[1..];
    }
  }

  /** JavaScript's `[...products].sort(comparator)`, which is stable; modelled
      as insertion sort (any stable sort gives the same result, see
      `SortedStableUnique`). The input sequence is a value and is not changed. */
  function SortProducts(ps: seq<Product>, sortBy: SortBy, order: SortOrder): (r: seq<Product>)
    ensures multiset(r) == multiset(ps)
    ensures Sorted(sortBy, order, r)
    ensures forall p :: Ties(sortBy, order, r, p) == Ties(sortBy, order, ps, p)
    decreases |ps|
  {
    if |ps| == 0 then []
    else
      var rest := SortProducts(ps[1..], sortBy, order);
      InsertStep(sortBy, order, ps[0], ps[1..], rest);
      assert ps == [ps[0]] + ps[1..];
      Insert(sortBy, order, ps[0], rest)
  }

  /** Sorting two products keeps them in order unless the first compares
      after the second. */
  lemma SortPair(a: Product, b: Product, sortBy: SortBy, order: SortOrder)
    ensures SortProducts([a, b], sortBy, order)
      == if Compare(sortBy, order, a, b) > 0.0 then [b, a] else [a, b]
  {
    SortUnfolds([a, b], sortBy, order);
    SortUnfolds([b], sortBy, order);
    assert [a, b][1..] == [b];
    assert [b][1..] == [];
    InsertIntoOne(sortBy, order, a, b);
  }

  /** `SortProducts` inserts the head into the sorted tail. */
  lemma SortUnfolds(ps: seq<Product>, sortBy: SortBy, order: SortOrder)
    requires |ps| > 0
    ensures SortProducts(ps, sortBy, order) == Insert(sortBy, order, ps[0], SortProducts(ps[1..], sortBy, order))
  {
  }

  /** Inserting into a one-element sequence. */
  lemma InsertIntoOne(sortBy: SortBy, order: SortOrder, x: Product, y: Product)
    ensures Insert(sortBy, order, x, [y]) == if Compare(sortBy, order, x, y) > 0.0 then [y, x] else [x, y]
  {
    assert [y][1..] == [];
  }

  /** One insertion step keeps the three properties of `SortProducts`. */
  lemma InsertStep(sortBy: SortBy, order: SortOrder, x: Product, tail: seq<Product>, rest: seq<Product>)
    requires multiset(rest) == multiset(tail)
    requires Sorted(sortBy, order, rest)
    requires forall p :: Ties(sortBy, order, rest, p) == Ties(sortBy, order, tail, p)
    ensures multiset(Insert(sortBy, order, x, rest)) == multiset([x] + tail)
    ensures Sorted(sortBy, order, Insert(sortBy, order, x, rest))
    ensures forall p :: Ties(sortBy, order, Insert(sortBy, order, x, rest), p) == Ties(sortBy, order, [x] + tail, p)
  {
    InsertPermutes(sortBy, order, x, rest);
    InsertSorted(sortBy, order, x, rest);
    forall p
      ensures Ties(sortBy, order, Insert(sortBy, order, x, rest), p) == Ties(sortBy, order, [x] + tail, p)
    {
      InsertTies(sortBy, order, x, rest, p);
      FilterConcat([x], tail, TiedWith(sortBy, order, p));
    }
  }

  /** Two sorted sequences with the same tie subsequences are equal: the
      result of a stable sort is determined by its input. */
  lemma {:induction false} SortedStableUnique(sortBy: SortBy, order: SortOrder, a: seq<Product>, b: seq<Product>)
    requires Sorted(sortBy, order, a) && Sorted(sortBy, order, b)
    requires forall p :: Ties(sortBy, order, a, p) == Ties(sortBy, order, b, p)
    ensures a == b
    decreases |a|
  {
    if |a| == 0 || |b| == 0 {
      if |a| > 0 {
        TiedWithSelf(sortBy, order, a, 0);
      } else if |b| > 0 {
        TiedWithSelf(sortBy, order, b, 0);
      }
    } else {
      var x, y := a[0], b[0];
      // y occurs in a, so x goes no later than y; symmetrically y goes no later than x.
      TiedWithSelf(sortBy, order, b, 0);
      TiedWithSelf(sortBy, order, a, 0);
      assert y in Ties(sortBy, order, a, y);
      FilterMembers(a, TiedWith(sortBy, order, y));
      assert x in Ties(sortBy, order, b, x);
      FilterMembers(b, TiedWith(sortBy, order, x));
      FirstGoesFirst(sortBy, order, a, y);
      FirstGoesFirst(sortBy, order, b, x);
      CompareAntisymmetric(sortBy, order, x, y);
      // Now x and y tie, so they head the same tie subsequence.
      assert Ties(sortBy, order, a, x)[0] == x;
      assert Ties(sortBy, order, b, x)[0] == y;
      assert x == y;
      forall p
        ensures Ties(sortBy, order, a[1..], p) == Ties(sortBy, order, b[1..], p)
      {
        var tp := TiedWith(sortBy, order, p);
        var head := if tp(x) then [x] else [];
        assert Ties(sortBy, order, a, p) == head + Ties(sortBy, order, a[1..], p);
        assert Ties(sortBy, order, b, p) == head + Ties(sortBy, order, b[1..], p);
        assert Ties(sortBy, order, a[1..], p) == (head + Ties(sortBy, order, a[1..], p))[|head|..];
        assert Ties(sortBy, order, b[1..], p) == (head + Ties(sortBy, order, b[1..], p))[|head|..];
      }
      SortedStableUnique(sortBy, order, a[1..], b[1..]);
      assert a == [x] + a[1..] && b == [y] + b[1..];
    }
  }

  lemma TiedWithSelf(sortBy: SortBy, order: SortOrder, s: seq<Product>, i: int)
    requires 0 <= i < |s|
    ensures Compare(sortBy, order, s[i], s[i]) == 0.0
    ensures Ties(sortBy, order, s, s[i]) != []
  {
    CompareAntisymmetric(sortBy, order, s[i], s[i]);
    var tied := TiedWith(sortBy, order, s[i]);
    FilterIsExactSubsequence(s, tied);
    assert multiset(s)[s[i]] > 0;
  }

  /** The head of a sorted sequence goes no later than any of its elements. */
  lemma FirstGoesFirst(sortBy: SortBy, order: SortOrder, s: seq<Product>, y: Product)
    requires Sorted(sortBy, order, s) && y in s
    ensures Compare(sortBy, order, s[0], y) <= 0.0
  {
    var k :| 0 <= k < |s| && s[k] == y;
    if k == 0 {
      CompareAntisymmetric(sortBy, order, y, y);
    }
  }

  /** Sorting by any stable sort gives `SortProducts`'s result. */
  lemma StableSortIsUnique(ps: seq<Product>, sortBy: SortBy, order: SortOrder, r: seq<Product>)
    requires Sorted(sortBy, order, r)
    requires forall p :: Ties(sortBy, order, r, p) == Ties(sortBy, order, ps, p)
    ensures r == SortProducts(ps, sortBy, order)
  {
    SortedStableUnique(sortBy, order, r, SortProducts(ps, sortBy, order));
  }
}
