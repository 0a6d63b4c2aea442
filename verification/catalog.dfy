/** The product record and the collection updates the slice applies when a
    fetch, create, update or delete request succeeds. */
module Catalog {
  import opened Optional
  import opened Seqs

  /** A catalog product. `price` is a JavaScript number; only comparisons and
      the sign of differences matter, so it is a real here. */
  datatype Product = Product(
    id: int,
    name: string,
    price: real,
    description: string,
    image: Option<string>,
    category: Option<string>,
    stock: Option<int>)

  /** `category` is set and non-empty, i.e. truthy in JavaScript. */
  predicate HasCategory(category: Option<string>) {
    category.Some? && category.value != ""
  }

  predicate NoDuplicates<T(==)>(s: seq<T>) {
    forall i, j :: 0 <= i < j < |s| ==> s[i] != s[j]
  }

  /** Some product of `ps` carries category `x`. */
  predicate Mentions(ps: seq<Product>, x: string) {
    exists i :: 0 <= i < |ps| && ps[i].category == Some(x)
  }

  /** The position of the first product carrying category `x`, or `|ps|`. */
  function FirstMention(ps: seq<Product>, x: string): (r: nat)
    ensures r <= |ps|
    ensures r < |ps| ==> ps[r].category == Some(x)
    ensures forall i :: 0 <= i < r ==> ps[i].category != Some(x)
    decreases |ps|
  {
    if |ps| == 0 then 0
    else if ps[0].category == Some(x) then 0
    else 1 + FirstMention(ps[1..], x)
  }

  /** The category-list update of the create and update cases: a truthy
      category that is not listed yet goes at the end. */
  function AddCategory(categories: seq<string>, category: Option<string>): (r: seq<string>)
    ensures |categories| <= |r| <= |categories| + 1 && r[..|categories|] == categories
    ensures forall x :: x in r <==> x in categories || (HasCategory(category) && category.value == x)
    ensures NoDuplicates(categories) ==> NoDuplicates(r)
  {
    if HasCategory(category) && category.value !in categories then categories + [category.value]
    else categories
  }

  /** The category list built by the fetch case: the distinct truthy
      categories of `ps` in order of first appearance. */
  function Categories(ps: seq<Product>): (r: seq<string>)
    ensures NoDuplicates(r)
    ensures forall x :: x in r <==> x != "" && Mentions(ps, x)
    ensures forall i, j :: 0 <= i < j < |r| ==> FirstMention(ps, r[i]) < FirstMention(ps, r[j])
    decreases |ps|
  {
    if |ps| == 0 then []
    else
      var init := ps[..|ps| - 1];
      var last := ps[|ps| - 1];
      assert ps == init + [last];
      CategoriesStep(init, last, Categories(init));
      AddCategory(Categories(init), last.category)
  }

  /** One step of the fetch case's fold keeps the three properties of `Categories`. */
  lemma CategoriesStep(init: seq<Product>, last: Product, prev: seq<string>)
    requires NoDuplicates(prev)
    requires forall x :: x in prev <==> x != "" && Mentions(init, x)
    requires forall i, j :: 0 <= i < j < |prev| ==> FirstMention(init, prev[i]) < FirstMention(init, prev[j])
    ensures var r := AddCategory(prev, last.category);
      && NoDuplicates(r)
      && (forall x :: x in r <==> x != "" && Mentions(init + [last], x))
      && (forall i, j :: 0 <= i < j < |r| ==> FirstMention(init + [last], r[i]) < FirstMention(init + [last], r[j]))
  {
    var ps := init + [last];
    var r := AddCategory(prev, last.category);
    MentionsSnoc(init, last);
    FirstMentionSnoc(init, last, prev);
    forall i, j | 0 <= i < j < |r|
      ensures FirstMention(ps, r[i]) < FirstMention(ps, r[j])
    {
      assert r[i] == prev[i];
      assert prev[i] in prev;
      if j < |prev| {
        assert r[j] == prev[j];
        assert prev[j] in prev;
      } else {
        assert r[j] == last.category.value;
      }
    }
  }

  /** Mentions in a sequence extended by one product. */
  lemma MentionsSnoc(init: seq<Product>, last: Product)
    ensures forall x :: Mentions(init + [last], x) <==> Mentions(init, x) || last.category == Some(x)
  {
    var ps := init + [last];
    forall x | Mentions(init, x)
      ensures Mentions(ps, x)
    {
      var i :| 0 <= i < |init| && init[i].category == Some(x);
      assert ps[i] == init[i];
    }
    forall x | last.category == Some(x)
      ensures Mentions(ps, x)
    {
      assert ps[|init|] == last;
    }
    forall x | Mentions(ps, x)
      ensures Mentions(init, x) || last.category == Some(x)
    {
      var i :| 0 <= i < |ps| && ps[i].category == Some(x);
      if i < |init| {
        assert init[i] == ps[i];
      }
    }
  }

  /** Appending a product does not move existing first mentions, and a newly
      listed category is first mentioned by that product. */
  lemma FirstMentionSnoc(init: seq<Product>, last: Product, prev: seq<string>)
    requires forall x :: x in prev <==> x != "" && Mentions(init, x)
    ensures forall x :: x in prev ==> FirstMention(init + [last], x) == FirstMention(init, x) < |init|
    ensures forall x :: x !in prev && HasCategory(last.category) && last.category.value == x ==>
      FirstMention(init + [last], x) == |init|
  {
    var ps := init + [last];
    forall x | x in prev
      ensures FirstMention(ps, x) == FirstMention(init, x) < |init|
    {
      var i :| 0 <= i < |init| && init[i].category == Some(x);
      assert FirstMention(init, x) <= i;
      var f := FirstMention(ps, x);
      assert ps[i] == init[i];
      assert f <= i;
      var g := FirstMention(init, x);
      assert ps[g] == init[g];
    }
    forall x | x !in prev && HasCategory(last.category) && last.category.value == x
      ensures FirstMention(ps, x) == |init|
    {
      assert ps[|init|] == last;
    }
  }

  /** `findIndex(p => p.id === id)`: the first position holding `id`, or -1. */
  function FindIndexById(ps: seq<Product>, id: int): (r: int)
    ensures -1 <= r < |ps|
    ensures r >= 0 ==> ps[r].id == id && forall k :: 0 <= k < r ==> ps[k].id != id
    ensures r == -1 <==> forall k :: 0 <= k < |ps| ==> ps[k].id != id
    decreases |ps|
  {
    if |ps| == 0 then -1
    else if ps[0].id == id then 0
    else
      var j := FindIndexById(ps[1..], id);
      if j == -1 then -1 else j + 1
  }

  /** Position `k` holds the first product with id `id`. */
  predicate IsFirstWithId(ps: seq<Product>, k: int, id: int)
    requires 0 <= k < |ps|
  {
    ps[k].id == id && forall m :: 0 <= m < k ==> ps[m].id != id
  }

  /** The update case: the first product with the same id is replaced; every
      other position, including later duplicates of the id, is untouched, and
      nothing changes when no product has the id. */
  function ReplaceById(ps: seq<Product>, p: Product): (r: seq<Product>)
    ensures |r| == |ps|
    ensures forall k :: 0 <= k < |ps| ==> r[k] == if IsFirstWithId(ps, k, p.id) then p else ps[k]
    ensures (forall k :: 0 <= k < |ps| ==> ps[k].id != p.id) ==> r == ps
  {
    var index := FindIndexById(ps, p.id);
    if index != -1 then ps[index := p] else ps
  }

  function WithoutId(id: int): Product -> bool {
    (p: Product) => p.id != id
  }

  /** The delete case: `filter(p => p.id !== id)`. */
  function RemoveById(ps: seq<Product>, id: int): (r: seq<Product>)
    ensures IsSubsequence(r, ps)
    ensures forall x :: multiset(r)[x] == if x.id != id then multiset(ps)[x] else 0
    ensures forall x :: x in r ==> x.id != id
  {
    FilterIsExactSubsequence(ps, WithoutId(id));
    Filter(ps, WithoutId(id))
  }

  /** Deleting an id held by exactly one product removes exactly that product. */
  lemma RemoveUniqueId(ps: seq<Product>, i: int)
    requires 0 <= i < |ps|
    requires forall k :: 0 <= k < |ps| && k != i ==> ps[k].id != ps[i].id
    ensures RemoveById(ps, ps[i].id) == ps[..i] + ps[i + 1..]
    ensures |RemoveById(ps, ps[i].id)| == |ps| - 1
  {
    FilterDropsOne(ps, i, WithoutId(ps[i].id));
  }
}
