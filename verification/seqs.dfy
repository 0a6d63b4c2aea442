/** Generic facts about sequences used by the catalog pipeline: order-preserving
    filtering (JavaScript's `Array.prototype.filter`) and subsequences. */
module Seqs {

  /** `a` can be obtained from `b` by deleting elements, keeping the order of the rest. */
  predicate IsSubsequence<T(==)>(a: seq<T>, b: seq<T>)
    decreases |b|
  {
    if |a| == 0 then true
    else if |b| == 0 then false
    else (a[0] == b[0] && IsSubsequence(a[1..], b[1..])) || IsSubsequence(a, b[1..])
  }

  /** The elements of `s` for which `keep` holds, in their original order. */
  function Filter<T>(s: seq<T>, keep: T -> bool): (r: seq<T>)
    ensures |r| <= |s|
    decreases |s|
  {
    if |s| == 0 then []
    else (if keep(s[0]) then [s[0]] else []) + Filter(s[1..], keep)
  }

  /** Filtering keeps an order-preserving subsequence, and keeps every
      satisfying element exactly as often as it occurs in the input. */
  lemma {:induction false} FilterIsExactSubsequence<T>(s: seq<T>, keep: T -> bool)
    ensures IsSubsequence(Filter(s, keep), s)
    ensures forall x :: multiset(Filter(s, keep))[x] == if keep(x) then multiset(s)[x] else 0
    decreases |s|
  {
    if |s| > 0 {
      var rest := Filter(s[1..], keep);
      FilterIsExactSubsequence(s[1..], keep);
      assert s == [s[0]] + s[1..];
      if keep(s[0]) {
        assert Filter(s, keep) == [s[0]] + rest;
        assert (Filter(s, keep))[1..] == rest;
      } else {
        assert Filter(s, keep) == rest;
      }
    }
  }

  /** Every element a filter keeps comes from the input and passes the test. */
  lemma FilterMembers<T>(s: seq<T>, keep: T -> bool)
    ensures forall x :: x in Filter(s, keep) ==> x in s && keep(x)
  {
    FilterIsExactSubsequence(s, keep);
    forall x | x in Filter(s, keep)
      ensures x in s && keep(x)
    {
      assert multiset(Filter(s, keep))[x] > 0;
    }
  }

  /** A filter every element passes is the identity. */
  lemma {:induction false} FilterKeepsAll<T>(s: seq<T>, keep: T -> bool)
    requires forall x :: x in s ==> keep(x)
    ensures Filter(s, keep) == s
    decreases |s|
  {
    if |s| > 0 {
      assert s[0] in s;
      FilterKeepsAll(s[1..], keep);
      assert s == [s[0]] + s[1..];
    }
  }

  /** A filter no element passes yields the empty sequence. */
  lemma {:induction false} FilterKeepsNone<T>(s: seq<T>, keep: T -> bool)
    requires forall x :: x in s ==> !keep(x)
    ensures Filter(s, keep) == []
    decreases |s|
  {
    if |s| > 0 {
      assert s[0] in s;
      FilterKeepsNone(s[1..], keep);
    }
  }

  /** Filtering distributes over concatenation. */
  lemma {:induction false} FilterConcat<T>(a: seq<T>, b: seq<T>, keep: T -> bool)
    ensures Filter(a + b, keep) == Filter(a, keep) + Filter(b, keep)
    decreases |a|
  {
    if |a| > 0 {
      assert (a + b)[0] == a[0];
      assert (a + b)[1..] == a[1..] + b;
      FilterConcat(a[1..], b, keep);
    } else {
      assert a + b == b;
    }
  }

  /** Two filters applied one after the other are one filter by the conjunction. */
  lemma {:induction false} FilterFilter<T>(s: seq<T>, first: T -> bool, second: T -> bool, both: T -> bool)
    requires forall x :: both(x) == (first(x) && second(x))
    ensures Filter(Filter(s, first), second) == Filter(s, both)
    decreases |s|
  {
    if |s| > 0 {
      FilterFilter(s[1..], first, second, both);
      var tail := Filter(s[1..], first);
      if first(s[0]) {
        assert Filter(s, first) == [s[0]] + tail;
        FilterConcat([s[0]], tail, second);
        assert Filter([s[0]], second) == (if second(s[0]) then [s[0]] else []) + Filter([], second);
      } else {
        assert Filter(s, first) == tail;
      }
    }
  }

  /** A filter that rejects exactly one position removes exactly that element. */
  lemma {:induction false} FilterDropsOne<T>(s: seq<T>, i: int, keep: T -> bool)
    requires 0 <= i < |s|
    requires !keep(s[i])
    requires forall k :: 0 <= k < |s| && k != i ==> keep(s[k])
    ensures Filter(s, keep) == s[..i] + s[i + 1..]
    decreases i
  {
    var tail := s[1..];
    if i == 0 {
      forall x | x in tail
        ensures keep(x)
      {
        var k :| 0 <= k < |tail| && tail[k] == x;
        assert s[k + 1] == x;
      }
      FilterKeepsAll(tail, keep);
    } else {
      assert forall k :: 0 <= k < |tail| ==> tail[k] == s[k + 1];
      FilterDropsOne(tail, i - 1, keep);
      assert s[..i] == [s[0]] + tail[..i - 1];
    }
  }

  /** Removing one element that a filter keeps shortens the filter's output by one. */
  lemma FilterWithoutKeptElement<T>(s: seq<T>, i: int, keep: T -> bool)
    requires 0 <= i < |s| && keep(s[i])
    ensures |Filter(s[..i] + s[i + 1..], keep)| == |Filter(s, keep)| - 1
  {
    var before, after := s[..i], s[i + 1..];
    assert s == before + [s[i]] + after;
    FilterConcat(before + [s[i]], after, keep);
    FilterConcat(before, [s[i]], keep);
    FilterConcat(before, after, keep);
    assert Filter([s[i]], keep) == [s[i]] + Filter([], keep);
  }

  /** Two filters that keep the same elements give the same result. */
  lemma {:induction false} FilterSameKeep<T>(s: seq<T>, keep: T -> bool, keep': T -> bool)
    requires forall x :: keep(x) == keep'(x)
    ensures Filter(s, keep) == Filter(s, keep')
    decreases |s|
  {
    if |s| > 0 {
      FilterSameKeep(s[1..], keep, keep');
    }
  }

  /** `s` back to front. */
  function Reverse<T>(s: seq<T>): (r: seq<T>)
    ensures |r| == |s|
    ensures forall i :: 0 <= i < |s| ==> r[i] == s[|s| - 1 - i]
    decreases |s|
  {
    if |s| == 0 then [] else Reverse(s[1..]) + [s[0]]
  }

  /** Filtering commutes with reversal. */
  lemma {:induction false} FilterReverse<T>(s: seq<T>, keep: T -> bool)
    ensures Filter(Reverse(s), keep) == Reverse(Filter(s, keep))
    decreases |s|
  {
    if |s| > 0 {
      FilterReverse(s[1..], keep);
      FilterConcat(Reverse(s[1..]), [s[0]], keep);
      var head := if keep(s[0]) then [s[0]] else [];
      assert Filter([s[0]], keep) == head + Filter([], keep);
      ReverseConcat(head, Filter(s[1..], keep));
    }
  }

  /** Reversing a concatenation reverses and swaps the parts. */
  lemma ReverseConcat<T>(a: seq<T>, b: seq<T>)
    ensures Reverse(a + b) == Reverse(b) + Reverse(a)
  {
    var l, r := Reverse(a + b), Reverse(b) + Reverse(a);
    forall i | 0 <= i < |l|
      ensures l[i] == r[i]
    {
      if i < |b| {
        assert l[i] == (a + b)[|a| + |b| - 1 - i] == b[|b| - 1 - i];
      } else {
        assert l[i] == (a + b)[|a| + |b| - 1 - i] == a[|a| + |b| - 1 - i];
      }
    }
  }

  /** A sequence of copies of one value is its own reverse. */
  lemma ReverseConstant<T>(s: seq<T>)
    requires forall i, j :: 0 <= i < |s| && 0 <= j < |s| ==> s[i] == s[j]
    ensures Reverse(s) == s
  {
  }
}
