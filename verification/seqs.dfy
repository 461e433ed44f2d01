/**
 * Sequence helpers for the row tables: the WHERE clause (order-preserving
 * filter) and ORDER BY on an integer key (a stable insertion sort).
 */
module Seqs {

  /** The elements of `xs` that satisfy `keep`, in their original order. */
  function Filter<T>(xs: seq<T>, keep: T -> bool): (r: seq<T>)
    ensures |r| <= |xs|
    ensures forall i :: 0 <= i < |r| ==> r[i] in xs && keep(r[i])
    ensures forall i :: 0 <= i < |xs| && keep(xs[i]) ==> xs[i] in r
  {
    if |xs| == 0 then [] else (if keep(xs[0]) then [xs[0]] else []) + Filter(xs[1..], keep)
  }

  /** Membership in a filter: exactly the kept elements of the input. */
  lemma FilterMembers<T>(xs: seq<T>, keep: T -> bool)
    ensures forall x :: x in Filter(xs, keep) <==> x in xs && keep(x)
  {
    var r := Filter(xs, keep);
    forall x | x in r
      ensures x in xs && keep(x)
    {
      var i :| 0 <= i < |r| && r[i] == x;
    }
    forall x | x in xs && keep(x)
      ensures x in r
    {
      var i :| 0 <= i < |xs| && xs[i] == x;
    }
  }

  lemma {:induction false} FilterConcat<T>(a: seq<T>, b: seq<T>, keep: T -> bool)
    ensures Filter(a + b, keep) == Filter(a, keep) + Filter(b, keep)
  {
    if |a| > 0 {
      assert (a + b)[1..] == a[1..] + b;
      FilterConcat(a[1..], b, keep);
    } else {
      assert a + b == b;
    }
  }

  /** Filtering by a weaker predicate first changes nothing. */
  lemma {:induction false} FilterOfFilter<T>(xs: seq<T>, p: T -> bool, q: T -> bool)
    requires forall x :: q(x) ==> p(x)
    ensures Filter(Filter(xs, p), q) == Filter(xs, q)
  {
    if |xs| > 0 {
      FilterOfFilter(xs[1..], p, q);
      if p(xs[0]) {
        var f := Filter(xs, p);
        assert f == [xs[0]] + Filter(xs[1..], p);
        assert f[0] == xs[0] && f[1..] == Filter(xs[1..], p);
        assert Filter(f, q) == (if q(xs[0]) then [xs[0]] else []) + Filter(f[1..], q);
      } else {
        assert !q(xs[0]);
        assert Filter(xs, p) == Filter(xs[1..], p);
      }
    }
  }

  /** A filter keeps every copy of a kept element and no copy of another. */
  lemma {:induction false} FilterMultiset<T>(xs: seq<T>, keep: T -> bool, x: T)
    ensures multiset(Filter(xs, keep))[x] == if keep(x) then multiset(xs)[x] else 0
  {
    if |xs| > 0 {
      FilterMultiset(xs[1..], keep, x);
      assert xs == [xs[0]] + xs[1..];
    }
  }

  /** Rearranging the input rearranges the filter's output and keeps its length. */
  lemma FilterPermutation<T>(a: seq<T>, b: seq<T>, keep: T -> bool)
    requires multiset(a) == multiset(b)
    ensures multiset(Filter(a, keep)) == multiset(Filter(b, keep))
    ensures |Filter(a, keep)| == |Filter(b, keep)|
  {
    forall x
      ensures multiset(Filter(a, keep))[x] == multiset(Filter(b, keep))[x]
    {
      FilterMultiset(a, keep, x);
      FilterMultiset(b, keep, x);
    }
    assert multiset(Filter(a, keep)) == multiset(Filter(b, keep));
    assert |multiset(Filter(a, keep))| == |Filter(a, keep)|;
    assert |multiset(Filter(b, keep))| == |Filter(b, keep)|;
  }

  /** `[g(x) for x in xs]`. */
  function Map<T, U>(xs: seq<T>, g: T --> U): (r: seq<U>)
    requires forall i :: 0 <= i < |xs| ==> g.requires(xs[i])
    ensures |r| == |xs|
    ensures forall i :: 0 <= i < |xs| ==> r[i] == g(xs[i])
  {
    seq(|xs|, i requires 0 <= i < |xs| => g(xs[i]))
  }

  lemma MapConcat<T, U>(a: seq<T>, b: seq<T>, g: T --> U)
    requires forall i :: 0 <= i < |a| ==> g.requires(a[i])
    requires forall i :: 0 <= i < |b| ==> g.requires(b[i])
    ensures Map(a + b, g) == Map(a, g) + Map(b, g)
  {
  }

  /** Mapping two rearrangements of the same elements gives rearrangements of the same results. */
  lemma {:induction false} MapPermutation<T, U>(a: seq<T>, b: seq<T>, g: T --> U)
    requires forall i :: 0 <= i < |a| ==> g.requires(a[i])
    requires forall i :: 0 <= i < |b| ==> g.requires(b[i])
    requires multiset(a) == multiset(b)
    ensures multiset(Map(a, g)) == multiset(Map(b, g))
    decreases |a|
  {
    if |a| == 0 {
      assert |multiset(b)| == 0;
    } else {
      assert a[0] in multiset(b);
      var k :| 0 <= k < |b| && b[k] == a[0];
      RemoveOne(a, b, k);
      assert a[..0] + a[1..] == a[1..];
      MapSplitAt(a, 0, a[1..], g);
      MapSplitAt(b, k, b[..k] + b[k + 1..], g);
      MapPermutation(a[1..], b[..k] + b[k + 1..], g);
    }
  }

  /** Removing one occurrence of the same value from two permutations leaves permutations. */
  lemma RemoveOne<T>(a: seq<T>, b: seq<T>, k: int)
    requires |a| > 0 && 0 <= k < |b| && b[k] == a[0]
    requires multiset(a) == multiset(b)
    ensures multiset(a[1..]) == multiset(b[..k] + b[k + 1..])
  {
    assert a == [a[0]] + a[1..];
    assert b == b[..k] + [b[k]] + b[k + 1..];
    var rest := b[..k] + b[k + 1..];
    forall y
      ensures multiset(rest)[y] == multiset(a[1..])[y]
    {
      assert multiset(b)[y] == multiset(b[..k])[y] + multiset{b[k]}[y] + multiset(b[k + 1..])[y];
      assert multiset(a)[y] == multiset{a[0]}[y] + multiset(a[1..])[y];
    }
  }

  /** Mapping a sequence with one element taken out maps the other elements. */
  lemma MapSplitAt<T, U>(b: seq<T>, k: int, rest: seq<T>, g: T --> U)
    requires forall i :: 0 <= i < |b| ==> g.requires(b[i])
    requires 0 <= k < |b| && rest == b[..k] + b[k + 1..]
    ensures forall i :: 0 <= i < |rest| ==> g.requires(rest[i])
    ensures multiset(Map(b, g)) == multiset(Map(rest, g)) + multiset{g(b[k])}
  {
    var front, back := b[..k], b[k + 1..];
    forall i | 0 <= i < |rest|
      ensures g.requires(rest[i])
    {
      if i < k {
        assert rest[i] == b[i];
      } else {
        assert rest[i] == b[i + 1];
      }
    }
    var mid := front + [b[k]];
    assert b == mid + back;
    MapConcat(mid, back, g);
    MapConcat(front, [b[k]], g);
    MapConcat(front, back, g);
  }

  /** Mapping after filtering is filtering after mapping, when the tests agree through the map. */
  lemma {:induction false} MapFilter<T, U>(xs: seq<T>, h: T -> U, keep: T -> bool, keepImage: U -> bool)
    requires forall i :: 0 <= i < |xs| ==> keep(xs[i]) == keepImage(h(xs[i]))
    ensures Map(Filter(xs, keep), h) == Filter(Map(xs, h), keepImage)
  {
    if |xs| > 0 {
      MapFilter(xs[1..], h, keep, keepImage);
      var m := Map(xs, h);
      assert m[1..] == Map(xs[1..], h);
      var head := if keep(xs[0]) then [xs[0]] else [];
      assert Filter(xs, keep) == head + Filter(xs[1..], keep);
      MapConcat(head, Filter(xs[1..], keep), h);
      assert Filter(m, keepImage) == (if keepImage(m[0]) then [m[0]] else []) + Filter(m[1..], keepImage);
    }
  }

  /** Filtering depends only on which elements the predicate keeps. */
  lemma {:induction false} FilterSameKeep<T>(xs: seq<T>, p: T -> bool, q: T -> bool)
    requires forall i :: 0 <= i < |xs| ==> p(xs[i]) == q(xs[i])
    ensures Filter(xs, p) == Filter(xs, q)
  {
    if |xs| > 0 {
      FilterSameKeep(xs[1..], p, q);
    }
  }

  lemma {:induction false} FilterNone<T>(xs: seq<T>, keep: T -> bool)
    requires forall x :: x in xs ==> !keep(x)
    ensures Filter(xs, keep) == []
  {
    if |xs| > 0 {
      FilterNone(xs[1..], keep);
    }
  }

  lemma {:induction false} FilterAll<T>(xs: seq<T>, keep: T -> bool)
    requires forall x :: x in xs ==> keep(x)
    ensures Filter(xs, keep) == xs
  {
    if |xs| > 0 {
      FilterAll(xs[1..], keep);
    }
  }

  ghost predicate StrictlyAscending<T>(xs: seq<T>, key: T -> int) {
    forall i, j :: 0 <= i < j < |xs| ==> key(xs[i]) < key(xs[j])
  }

  /** A lower bound on every key survives filtering. */
  lemma {:induction false} FilterKeepsBound<T>(xs: seq<T>, keep: T -> bool, key: T -> int, b: int)
    requires forall i :: 0 <= i < |xs| ==> b < key(xs[i])
    ensures forall i :: 0 <= i < |Filter(xs, keep)| ==> b < key(Filter(xs, keep)[i])
  {
    forall i | 0 <= i < |Filter(xs, keep)|
      ensures b < key(Filter(xs, keep)[i])
    {
      var x := Filter(xs, keep)[i];
      assert x in xs;
      var j :| 0 <= j < |xs| && xs[j] == x;
    }
  }

  /** The order-preserving filter keeps a strictly ascending key strictly ascending. */
  lemma {:induction false} FilterKeepsAscending<T>(xs: seq<T>, keep: T -> bool, key: T -> int)
    requires StrictlyAscending(xs, key)
    ensures StrictlyAscending(Filter(xs, keep), key)
  {
    if |xs| > 0 {
      var tail := xs[1..];
      assert StrictlyAscending(tail, key);
      FilterKeepsAscending(tail, keep, key);
      var rest := Filter(tail, keep);
      assert forall i :: 0 <= i < |tail| ==> key(xs[0]) < key(tail[i]) by {
        forall i | 0 <= i < |tail|
          ensures key(xs[0]) < key(tail[i])
        {
          assert tail[i] == xs[i + 1];
        }
      }
      FilterKeepsBound(tail, keep, key, key(xs[0]));
      if keep(xs[0]) {
        AscendingCons(xs[0], rest, key);
        assert Filter(xs, keep) == [xs[0]] + rest;
      } else {
        assert Filter(xs, keep) == rest;
      }
    }
  }

  /** Putting a smaller key in front of a strictly ascending sequence keeps it strictly ascending. */
  lemma AscendingCons<T>(x: T, rest: seq<T>, key: T -> int)
    requires StrictlyAscending(rest, key)
    requires forall i :: 0 <= i < |rest| ==> key(x) < key(rest[i])
    ensures StrictlyAscending([x] + rest, key)
  {
    var r := [x] + rest;
    forall i, j | 0 <= i < j < |r|
      ensures key(r[i]) < key(r[j])
    {
      assert r[j] == rest[j - 1];
      if i > 0 {
        assert r[i] == rest[i - 1];
      }
    }
  }

  ghost predicate DistinctBy<T, K>(xs: seq<T>, key: T -> K) {
    forall i, j :: 0 <= i < j < |xs| ==> key(xs[i]) != key(xs[j])
  }

  /** The filter keeps a key that is distinct across the sequence distinct. */
  lemma {:induction false} FilterKeepsDistinct<T, K>(xs: seq<T>, keep: T -> bool, key: T -> K)
    requires DistinctBy(xs, key)
    ensures DistinctBy(Filter(xs, keep), key)
  {
    if |xs| > 0 {
      assert DistinctBy(xs[1..], key);
      FilterKeepsDistinct(xs[1..], keep, key);
      var rest := Filter(xs[1..], keep);
      forall k | 0 <= k < |rest|
        ensures key(xs[0]) != key(rest[k])
      {
        var j :| 0 <= j < |xs[1..]| && xs[1..][j] == rest[k];
        assert xs[j + 1] == rest[k];
      }
      if keep(xs[0]) {
        var r := Filter(xs, keep);
        assert r == [xs[0]] + rest;
        forall i, j | 0 <= i < j < |r|
          ensures key(r[i]) != key(r[j])
        {
          if i > 0 {
            assert r[i] == rest[i - 1] && r[j] == rest[j - 1];
          } else {
            assert r[i] == xs[0] && r[j] == rest[j - 1];
          }
        }
      }
    }
  }

  /** When exactly one element passes, the filter is that element alone. */
  lemma {:induction false} FilterSingle<T>(xs: seq<T>, keep: T -> bool, i: int)
    requires 0 <= i < |xs| && keep(xs[i])
    requires forall j :: 0 <= j < |xs| && j != i ==> !keep(xs[j])
    ensures Filter(xs, keep) == [xs[i]]
  {
    if i == 0 {
      FilterNone(xs[1..], keep);
    } else {
      FilterSingle(xs[1..], keep, i - 1);
    }
  }

  /** Number of elements satisfying `p`: `SELECT COUNT(*) ... WHERE p`. */
  function Count<T>(xs: seq<T>, p: T -> bool): nat {
    |Filter(xs, p)|
  }

  ghost predicate SortedBy<T>(xs: seq<T>, key: T -> int) {
    forall i, j :: 0 <= i < j < |xs| ==> key(xs[i]) <= key(xs[j])
  }

  lemma AscendingIsSorted<T>(xs: seq<T>, key: T -> int)
    requires StrictlyAscending(xs, key)
    ensures SortedBy(xs, key)
  {
  }

  /** Inserts `x` before the first element whose key is not smaller. */
  function Insert<T>(x: T, xs: seq<T>, key: T -> int): (r: seq<T>)
    ensures |r| == |xs| + 1
    ensures multiset(r) == multiset(xs) + multiset{x}
  {
    if |xs| == 0 || key(x) <= key(xs[0]) then [x] + xs
    else
      assert xs == [xs[0]] + xs[1..];
      [xs[0]] + Insert(x, xs[1..], key)
  }

  /** Every element of an insertion is the inserted one or came from the sequence. */
  lemma {:induction false} InsertMembers<T>(x: T, xs: seq<T>, key: T -> int)
    ensures forall k :: 0 <= k < |Insert(x, xs, key)| ==> Insert(x, xs, key)[k] == x || Insert(x, xs, key)[k] in xs
  {
    var r := Insert(x, xs, key);
    if |xs| > 0 && key(x) > key(xs[0]) {
      var tail := xs[1..];
      InsertMembers(x, tail, key);
      var rest := Insert(x, tail, key);
      assert r == [xs[0]] + rest;
      forall k | 0 <= k < |r|
        ensures r[k] == x || r[k] in xs
      {
        if k > 0 {
          assert r[k] == rest[k - 1];
          if rest[k - 1] != x {
            var i :| 0 <= i < |tail| && tail[i] == rest[k - 1];
            assert xs[i + 1] == r[k];
          }
        }
      }
    } else {
      assert r == [x] + xs;
      forall k | 0 <= k < |r|
        ensures r[k] == x || r[k] in xs
      {
        if k > 0 {
          assert r[k] == xs[k - 1];
        }
      }
    }
  }

  /** Inserting into a key-sorted sequence keeps it key-sorted. */
  lemma {:induction false} InsertSorted<T>(x: T, xs: seq<T>, key: T -> int)
    requires SortedBy(xs, key)
    ensures SortedBy(Insert(x, xs, key), key)
  {
    if |xs| > 0 && key(x) > key(xs[0]) {
      var tail := xs[1..];
      assert SortedBy(tail, key);
      InsertSorted(x, tail, key);
      InsertMembers(x, tail, key);
      var rest := Insert(x, tail, key);
      forall k | 0 <= k < |rest|
        ensures key(xs[0]) <= key(rest[k])
      {
        if rest[k] != x {
          var i :| 0 <= i < |tail| && tail[i] == rest[k];
          assert xs[i + 1] == rest[k];
        }
      }
      SortedCons(xs[0], rest, key);
      assert Insert(x, xs, key) == [xs[0]] + rest;
    } else {
      SortedCons(x, xs, key);
      assert Insert(x, xs, key) == [x] + xs;
    }
  }

  /** A key no larger than every key of a sorted sequence can go in front. */
  lemma SortedCons<T>(x: T, xs: seq<T>, key: T -> int)
    requires SortedBy(xs, key)
    requires forall k :: 0 <= k < |xs| ==> key(x) <= key(xs[k])
    ensures SortedBy([x] + xs, key)
  {
    var r := [x] + xs;
    forall i, j | 0 <= i < j < |r|
      ensures key(r[i]) <= key(r[j])
    {
      assert r[j] == xs[j - 1];
      if i > 0 {
        assert r[i] == xs[i - 1];
      }
    }
  }

  /** `ORDER BY key`: a stable sort, ties keep their scan order. */
  function SortBy<T>(xs: seq<T>, key: T -> int): (r: seq<T>)
    ensures |r| == |xs|
    ensures SortedBy(r, key)
    ensures multiset(r) == multiset(xs)
  {
    if |xs| == 0 then []
    else
      var rest := SortBy(xs[1..], key);
      InsertSorted(xs[0], rest, key);
      assert xs == [xs[0]] + xs[1..];
      Insert(xs[0], rest, key)
  }

  /** Sorting neither invents nor loses elements: each sorted element comes from the input. */
  lemma SortMembers<T>(xs: seq<T>, key: T -> int)
    ensures forall i :: 0 <= i < |SortBy(xs, key)| ==> SortBy(xs, key)[i] in xs
  {
    var r := SortBy(xs, key);
    forall i | 0 <= i < |r|
      ensures r[i] in xs
    {
      assert r[i] in multiset(r);
    }
  }

  /** Two elements out of key order are swapped. */
  lemma SortSwapsPair<T>(a: T, b: T, key: T -> int)
    requires key(b) < key(a)
    ensures SortBy([a, b], key) == [b, a]
  {
    assert [a, b][1..] == [b];
    assert SortBy([b], key) == [b] by {
      assert [b][1..] == [];
    }
    assert Insert(a, [b], key) == [b] + Insert(a, [], key);
  }

  /** Sorting a sequence already in key order leaves it as it is. */
  lemma {:induction false} SortSorted<T>(xs: seq<T>, key: T -> int)
    requires SortedBy(xs, key)
    ensures SortBy(xs, key) == xs
  {
    if |xs| > 0 {
      assert SortedBy(xs[1..], key);
      SortSorted(xs[1..], key);
    }
  }
}
