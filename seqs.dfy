/**
 * The array pipelines the catalog is built from: `filter`, `find`, `findIndex`,
 * `slice(0, n)` and the stable `Array.prototype.sort` with a numeric comparator.
 */
module Seqs {
  import opened Wrappers

  /** `r` is `s` with some elements dropped and the rest kept in order. */
  predicate IsSubsequence<T(==)>(r: seq<T>, s: seq<T>)
    decreases |s|
  {
    r == [] || (s != [] && ((r[0] == s[0] && IsSubsequence(r[1..], s[1..])) || IsSubsequence(r, s[1..])))
  }

  /** `s.filter(p)`: exactly the elements satisfying `p`, in their original order. */
  function Filter<T(==)>(s: seq<T>, p: T -> bool): (r: seq<T>)
    ensures |r| <= |s|
    ensures forall i :: 0 <= i < |r| ==> r[i] in s && p(r[i])
    ensures forall i :: 0 <= i < |s| && p(s[i]) ==> s[i] in r
    ensures IsSubsequence(r, s)
    decreases |s|
  {
    if s == [] then []
    else if p(s[0]) then [s[0]] + Filter(s[1..], p)
    else Filter(s[1..], p)
  }

  /** `s.findIndex(p)`: the first index whose element satisfies `p`, or -1. */
  function FindIndex<T>(s: seq<T>, p: T -> bool): (i: int)
    ensures -1 <= i < |s|
    ensures 0 <= i ==> p(s[i]) && forall j :: 0 <= j < i ==> !p(s[j])
    ensures i == -1 ==> forall j :: 0 <= j < |s| ==> !p(s[j])
    decreases |s|
  {
    if s == [] then -1
    else if p(s[0]) then 0
    else
      var k := FindIndex(s[1..], p);
      if k == -1 then -1 else k + 1
  }

  /** `s.find(p)`: the first element satisfying `p`, or `undefined`. */
  function Find<T>(s: seq<T>, p: T -> bool): (r: Option<T>)
    ensures r.None? <==> forall j :: 0 <= j < |s| ==> !p(s[j])
    ensures r.Some? ==> exists i :: 0 <= i < |s| && s[i] == r.value && p(s[i]) && forall j :: 0 <= j < i ==> !p(s[j])
  {
    var i := FindIndex(s, p);
    if i == -1 then None else Some(s[i])
  }

  /** The end index `slice(0, n)` uses: a negative `n` counts back from the end. */
  function SliceEnd(len: nat, n: int): (e: nat)
    ensures e <= len
    ensures 0 <= n ==> e == if n < len then n else len
    ensures n < 0 ==> e == if len + n < 0 then 0 else len + n
  {
    if n < 0 then (if len + n < 0 then 0 else len + n)
    else if n < len then n
    else len
  }

  /** `s.slice(0, n)`. */
  function Take<T>(s: seq<T>, n: int): (r: seq<T>)
    ensures r <= s
    ensures |r| == SliceEnd(|s|, n)
  {
    s[..SliceEnd(|s|, n)]
  }

  /** The order a numeric comparator `(a, b) => key(a) - key(b)` sorts into. */
  predicate SortedBy<T>(s: seq<T>, key: T -> int) {
    forall i, j :: 0 <= i < j < |s| ==> key(s[i]) <= key(s[j])
  }

  /** Inserts `x` before the first element whose key is not smaller than its own. */
  function Insert<T>(x: T, s: seq<T>, key: T -> int): (r: seq<T>)
    ensures |r| == |s| + 1
    decreases |s|
  {
    if s == [] then [x]
    else if key(x) <= key(s[0]) then [x] + s
    else [s[0]] + Insert(x, s[1..], key)
  }

  /** Insertion adds exactly one occurrence of `x`. */
  lemma {:induction false} InsertPermutes<T>(x: T, s: seq<T>, key: T -> int)
    ensures multiset(Insert(x, s, key)) == multiset(s) + multiset{x}
    decreases |s|
  {
    if s != [] && key(s[0]) < key(x) {
      InsertPermutes(x, s[1..], key);
      assert Insert(x, s, key) == [s[0]] + Insert(x, s[1..], key);
      assert s == [s[0]] + s[1..];
    }
  }

  /** A property every element of `s` and `x` has, every element of the insertion has. */
  lemma {:induction false} InsertKeepsAll<T>(x: T, s: seq<T>, key: T -> int, p: T -> bool)
    requires p(x)
    requires forall i :: 0 <= i < |s| ==> p(s[i])
    ensures forall i :: 0 <= i < |Insert(x, s, key)| ==> p(Insert(x, s, key)[i])
    decreases |s|
  {
    if s != [] && key(s[0]) < key(x) {
      InsertKeepsAll(x, s[1..], key, p);
      var rest := Insert(x, s[1..], key);
      assert Insert(x, s, key) == [s[0]] + rest;
      forall i | 0 <= i < |[s[0]] + rest| ensures p(([s[0]] + rest)[i]) {
        if i > 0 {
          assert ([s[0]] + rest)[i] == rest[i - 1];
        }
      }
    } else if s != [] {
      forall i | 0 <= i < |[x] + s| ensures p(([x] + s)[i]) {
        if i > 0 {
          assert ([x] + s)[i] == s[i - 1];
        }
      }
    }
  }

  lemma {:induction false} InsertSorted<T>(x: T, s: seq<T>, key: T -> int)
    requires SortedBy(s, key)
    ensures SortedBy(Insert(x, s, key), key)
    decreases |s|
  {
    if s != [] && key(s[0]) < key(x) {
      InsertSorted(x, s[1..], key);
      var rest := Insert(x, s[1..], key);
      InsertKeepsAll(x, s[1..], key, y => key(s[0]) <= key(y));
      assert forall i :: 0 <= i < |rest| ==> key(s[0]) <= key(rest[i]);
      assert Insert(x, s, key) == [s[0]] + rest;
    }
  }

  /** A stable sort by `key`, ascending: the model of `Array.prototype.sort`. */
  function SortBy<T(==)>(s: seq<T>, key: T -> int): (r: seq<T>)
    ensures |r| == |s|
    ensures multiset(r) == multiset(s)
    ensures SortedBy(r, key)
    decreases |s|
  {
    if s == [] then []
    else
      assert s == [s[0]] + s[1..];
      InsertSorted(s[0], SortBy(s[1..], key), key);
      InsertPermutes(s[0], SortBy(s[1..], key), key);
      Insert(s[0], SortBy(s[1..], key), key)
  }

  /** A property every element of `s` has, every element of its sorted form has. */
  lemma {:induction false} SortByKeepsAll<T>(s: seq<T>, key: T -> int, p: T -> bool)
    requires forall i :: 0 <= i < |s| ==> p(s[i])
    ensures forall i :: 0 <= i < |SortBy(s, key)| ==> p(SortBy(s, key)[i])
    decreases |s|
  {
    if s != [] {
      var tail := s[1..];
      assert forall i :: 0 <= i < |tail| ==> p(tail[i]) by {
        forall i | 0 <= i < |tail| ensures p(tail[i]) {
          assert tail[i] == s[i + 1];
        }
      }
      SortByKeepsAll(tail, key, p);
      InsertKeepsAll(s[0], SortBy(tail, key), key, p);
    }
  }

  /** The elements of `s` whose key is `k`, in their order in `s`. */
  function KeyRun<T>(s: seq<T>, key: T -> int, k: int): seq<T>
    decreases |s|
  {
    if s == [] then []
    else (if key(s[0]) == k then [s[0]] else []) + KeyRun(s[1..], key, k)
  }

  /** The elements of the key run contributed by a single element. */
  function RunOf<T>(y: T, key: T -> int, k: int): seq<T> {
    if key(y) == k then [y] else []
  }

  lemma KeyRunCons<T>(y: T, t: seq<T>, key: T -> int, k: int)
    ensures KeyRun([y] + t, key, k) == RunOf(y, key, k) + KeyRun(t, key, k)
  {
    assert ([y] + t)[0] == y;
    assert ([y] + t)[1..] == t;
  }

  lemma {:induction false} InsertKeyRun<T>(x: T, s: seq<T>, key: T -> int, k: int)
    ensures KeyRun(Insert(x, s, key), key, k) == RunOf(x, key, k) + KeyRun(s, key, k)
    decreases |s|
  {
    if s == [] {
      assert Insert(x, s, key) == [x] + s;
      KeyRunCons(x, s, key, k);
    } else if key(x) <= key(s[0]) {
      assert Insert(x, s, key) == [x] + s;
      KeyRunCons(x, s, key, k);
    } else {
      var rest := Insert(x, s[1..], key);
      InsertKeyRun(x, s[1..], key, k);
      assert Insert(x, s, key) == [s[0]] + rest;
      assert s == [s[0]] + s[1..];
      KeyRunCons(s[0], rest, key, k);
      KeyRunCons(s[0], s[1..], key, k);
      RunsCommute(x, s[0], key, k, KeyRun([s[0]] + rest, key, k), KeyRun(rest, key, k), KeyRun(s, key, k), KeyRun(s[1..], key, k));
    }
  }

  /**
   * Passing over a smaller-keyed element `y` does not change where `x` lands
   * in its run: `y` and `x` cannot both belong to the run of key `k`.
   */
  lemma RunsCommute<T>(x: T, y: T, key: T -> int, k: int, withRest: seq<T>, rest: seq<T>, withTail: seq<T>, tail: seq<T>)
    requires key(y) < key(x)
    requires withRest == RunOf(y, key, k) + rest
    requires withTail == RunOf(y, key, k) + tail
    requires rest == RunOf(x, key, k) + tail
    ensures withRest == RunOf(x, key, k) + withTail
  {
    if key(x) == k {
      assert RunOf(y, key, k) == [];
      assert withRest == rest;
      assert withTail == tail;
    } else {
      assert RunOf(x, key, k) == [];
      assert rest == tail;
    }
  }

  /** Stability: elements with equal keys keep their relative order. */
  lemma {:induction false} SortByIsStable<T>(s: seq<T>, key: T -> int, k: int)
    ensures KeyRun(SortBy(s, key), key, k) == KeyRun(s, key, k)
    decreases |s|
  {
    if s != [] {
      SortByIsStable(s[1..], key, k);
      InsertKeyRun(s[0], SortBy(s[1..], key), key, k);
    }
  }

  /** Ids strictly increase along `s` (the insertion order of the store's tables). */
  predicate IdsIncreasing<T>(s: seq<T>, id: T -> int) {
    forall i, j :: 0 <= i < j < |s| ==> id(s[i]) < id(s[j])
  }

  /** Sorted by `key`, and by `id` among equal keys. */
  predicate SortedByThenId<T>(s: seq<T>, key: T -> int, id: T -> int) {
    forall i, j :: 0 <= i < j < |s| ==> key(s[i]) < key(s[j]) || (key(s[i]) == key(s[j]) && id(s[i]) < id(s[j]))
  }

  lemma {:induction false} InsertThenId<T>(x: T, s: seq<T>, key: T -> int, id: T -> int)
    requires SortedByThenId(s, key, id)
    requires forall i :: 0 <= i < |s| ==> id(x) < id(s[i])
    ensures SortedByThenId(Insert(x, s, key), key, id)
    decreases |s|
  {
    if s != [] && key(s[0]) < key(x) {
      InsertThenId(x, s[1..], key, id);
      var rest := Insert(x, s[1..], key);
      InsertKeepsAll(x, s[1..], key, y => key(s[0]) < key(y) || (key(s[0]) == key(y) && id(s[0]) < id(y)));
      assert forall i :: 0 <= i < |rest| ==> key(s[0]) < key(rest[i]) || (key(s[0]) == key(rest[i]) && id(s[0]) < id(rest[i]));
      assert Insert(x, s, key) == [s[0]] + rest;
    }
  }

  /**
   * Sorting a sequence given in increasing id order by `key` leaves equal keys
   * in increasing id order: the sort is stable with respect to insertion order.
   */
  lemma {:induction false} SortByThenId<T>(s: seq<T>, key: T -> int, id: T -> int)
    requires IdsIncreasing(s, id)
    ensures SortedByThenId(SortBy(s, key), key, id)
    decreases |s|
  {
    if s != [] {
      SortByThenId(s[1..], key, id);
      var sorted := SortBy(s[1..], key);
      forall i | 0 <= i < |sorted| ensures id(s[0]) < id(sorted[i]) {
        assert sorted[i] in multiset(sorted);
        assert sorted[i] in s[1..];
      }
      InsertThenId(s[0], sorted, key, id);
    }
  }

  /** The elements of a sequence of keys, as a set. */
  ghost function SetOf(s: seq<int>): (r: set<int>)
    ensures forall y :: y in r ==> y in s
    decreases |s|
  {
    if s == [] then {} else {s[0]} + SetOf(s[1..])
  }

  lemma {:induction false} SetOfSnoc(s: seq<int>, x: int)
    ensures SetOf(s + [x]) == SetOf(s) + {x}
    decreases |s|
  {
    if s != [] {
      assert (s + [x])[1..] == s[1..] + [x];
      SetOfSnoc(s[1..], x);
    }
  }

  /** The elements of a subsequence are elements of the whole sequence. */
  lemma {:induction false} SubsequenceMembers<T>(r: seq<T>, s: seq<T>)
    requires IsSubsequence(r, s)
    ensures forall i :: 0 <= i < |r| ==> r[i] in s
    decreases |s|
  {
    if r != [] {
      if r[0] == s[0] && IsSubsequence(r[1..], s[1..]) {
        SubsequenceMembers(r[1..], s[1..]);
        assert forall i :: 1 <= i < |r| ==> r[i] == r[1..][i - 1];
      } else {
        SubsequenceMembers(r, s[1..]);
      }
    }
  }

  /** Keeping some elements of a sequence in order keeps its ids increasing. */
  lemma {:induction false} SubsequenceKeepsIdsIncreasing<T>(r: seq<T>, s: seq<T>, id: T -> int)
    requires IsSubsequence(r, s)
    requires IdsIncreasing(s, id)
    ensures IdsIncreasing(r, id)
    decreases |s|
  {
    if r != [] {
      if r[0] == s[0] && IsSubsequence(r[1..], s[1..]) {
        SubsequenceKeepsIdsIncreasing(r[1..], s[1..], id);
        SubsequenceMembers(r[1..], s[1..]);
        forall j | 1 <= j < |r| ensures id(r[0]) < id(r[j]) {
          assert r[j] == r[1..][j - 1];
        }
      } else {
        SubsequenceKeepsIdsIncreasing(r, s[1..], id);
      }
    }
  }

  /** No two elements of `s` agree on `f`. */
  predicate DistinctBy<T>(s: seq<T>, f: T -> int) {
    forall i, j :: 0 <= i < j < |s| ==> f(s[i]) != f(s[j])
  }

  lemma {:induction false} DistinctByCount<T>(s: seq<T>, f: T -> int, x: T)
    requires DistinctBy(s, f)
    ensures multiset(s)[x] <= 1
    decreases |s|
  {
    if s != [] {
      assert s == [s[0]] + s[1..];
      DistinctByCount(s[1..], f, x);
      if s[0] == x {
        assert x !in s[1..];
      }
    }
  }

  /** A rearrangement of a sequence whose elements differ under `f` still has that property. */
  lemma PermutationKeepsDistinctBy<T>(s: seq<T>, r: seq<T>, f: T -> int)
    requires multiset(s) == multiset(r)
    requires DistinctBy(s, f)
    ensures DistinctBy(r, f)
  {
    forall i, j | 0 <= i < j < |r| ensures f(r[i]) != f(r[j]) {
      if f(r[i]) == f(r[j]) {
        assert r[i] in multiset(s) && r[j] in multiset(s);
        var p :| 0 <= p < |s| && s[p] == r[i];
        var q :| 0 <= q < |s| && s[q] == r[j];
        assert p == q;
        assert r == r[..j] + r[j..];
        assert r[i] in r[..j];
        assert r[j] in r[j..];
        assert multiset(r)[r[i]] == multiset(r[..j])[r[i]] + multiset(r[j..])[r[i]];
        DistinctByCount(s, f, r[i]);
      }
    }
  }

  /**
   * The first `n` elements after sorting by `key` are the least: every element
   * left out has a key no smaller than any element kept.
   */
  lemma TakeSortedIsLeast<T>(s: seq<T>, key: T -> int, n: int)
    ensures forall k, i :: 0 <= k < |s| && 0 <= i < |Take(SortBy(s, key), n)| ==>
      s[k] in Take(SortBy(s, key), n) || key(Take(SortBy(s, key), n)[i]) <= key(s[k])
  {
    var sorted := SortBy(s, key);
    var r := Take(sorted, n);
    forall k, i | 0 <= k < |s| && 0 <= i < |r| ensures s[k] in r || key(r[i]) <= key(s[k]) {
      assert s[k] in multiset(sorted);
      var p :| 0 <= p < |sorted| && sorted[p] == s[k];
      if p < |r| {
        assert r[p] == sorted[p];
      } else {
        assert r[i] == sorted[i];
      }
    }
  }

  /** Filtering by two tests that agree on every element gives the same result. */
  lemma {:induction false} FilterCongruent<T>(s: seq<T>, p: T -> bool, q: T -> bool)
    requires forall i :: 0 <= i < |s| ==> p(s[i]) == q(s[i])
    ensures Filter(s, p) == Filter(s, q)
    decreases |s|
  {
    if s != [] {
      FilterCongruent(s[1..], p, q);
    }
  }

  /** A test every element passes keeps the whole sequence. */
  lemma {:induction false} FilterAll<T>(s: seq<T>, p: T -> bool)
    requires forall i :: 0 <= i < |s| ==> p(s[i])
    ensures Filter(s, p) == s
    decreases |s|
  {
    if s != [] {
      FilterAll(s[1..], p);
    }
  }

  /** `filter` keeps every copy of a passing element and none of a failing one. */
  lemma {:induction false} FilterCounts<T>(s: seq<T>, p: T -> bool)
    ensures forall x :: multiset(Filter(s, p))[x] == if p(x) then multiset(s)[x] else 0
    decreases |s|
  {
    if s != [] {
      FilterCounts(s[1..], p);
      assert s == [s[0]] + s[1..];
    }
  }

  /** Sorting the elements that pass a test keeps exactly those elements. */
  lemma SortedFilterMembers<T>(s: seq<T>, p: T -> bool, key: T -> int)
    ensures forall i :: 0 <= i < |SortBy(Filter(s, p), key)| ==>
      SortBy(Filter(s, p), key)[i] in s && p(SortBy(Filter(s, p), key)[i])
    ensures forall i :: 0 <= i < |s| && p(s[i]) ==> s[i] in SortBy(Filter(s, p), key)
  {
    var f := Filter(s, p);
    var r := SortBy(f, key);
    forall i | 0 <= i < |r| ensures r[i] in s && p(r[i]) {
      assert r[i] in multiset(f);
    }
    forall i | 0 <= i < |s| && p(s[i]) ensures s[i] in r {
      assert s[i] in multiset(f);
    }
  }
}
