/**
 * A JavaScript `Map<number, T>` as the sequence of its entries in insertion
 * order. `set` on a present key replaces the value in place and keeps the
 * entry's position; `set` on a new key appends; `delete` removes the entry.
 */
module Tables {
  import opened Wrappers
  import opened Seqs

  type Table<T> = seq<(int, T)>

  /** `Array.from(map.keys())`. */
  function Keys<T>(t: Table<T>): (ks: seq<int>)
    ensures |ks| == |t|
    ensures forall i :: 0 <= i < |t| ==> ks[i] == t[i].0
    decreases |t|
  {
    if t == [] then [] else [t[0].0] + Keys(t[1..])
  }

  /** `Array.from(map.values())`. */
  function Values<T>(t: Table<T>): (vs: seq<T>)
    ensures |vs| == |t|
    ensures forall i :: 0 <= i < |t| ==> vs[i] == t[i].1
    decreases |t|
  {
    if t == [] then [] else [t[0].1] + Values(t[1..])
  }

  /** Keys strictly increase in insertion order; in particular no key occurs twice. */
  predicate Ascending<T>(t: Table<T>) {
    forall i, j :: 0 <= i < j < |t| ==> t[i].0 < t[j].0
  }

  /** `map.get(k)`. */
  function Get<T>(t: Table<T>, k: int): (r: Option<T>)
    ensures r.None? <==> k !in Keys(t)
    ensures r.Some? ==> (k, r.value) in t
    decreases |t|
  {
    if t == [] then None
    else if t[0].0 == k then Some(t[0].1)
    else Get(t[1..], k)
  }

  /** `ids.map(k => map.get(k))`: one lookup per key, absent keys giving `None`. */
  function GetAll<T>(t: Table<T>, ids: seq<int>): (r: seq<Option<T>>)
    ensures |r| == |ids|
    ensures forall i :: 0 <= i < |ids| ==> r[i] == Get(t, ids[i])
  {
    seq(|ids|, i requires 0 <= i < |ids| => Get(t, ids[i]))
  }

  /** No key occurs twice. */
  predicate DistinctKeys<T>(t: Table<T>) {
    forall i, j :: 0 <= i < j < |t| ==> t[i].0 != t[j].0
  }

  /** In a table without repeated keys an entry is what `get` returns for its key. */
  lemma {:induction false} GetEntry<T>(t: Table<T>, i: int)
    requires DistinctKeys(t)
    requires 0 <= i < |t|
    ensures Get(t, t[i].0) == Some(t[i].1)
    decreases |t|
  {
    if i > 0 {
      GetEntry(t[1..], i - 1);
    }
  }

  /** The table with the value of every entry keyed `k` replaced by `v`. */
  function Replace<T>(t: Table<T>, k: int, v: T): (r: Table<T>)
    ensures |r| == |t|
    ensures forall i :: 0 <= i < |t| ==> r[i] == if t[i].0 == k then (k, v) else t[i]
    ensures forall i :: 0 <= i < |t| ==> r[i].0 == t[i].0
    ensures Keys(r) == Keys(t)
    decreases |t|
  {
    if t == [] then []
    else
      var r := [if t[0].0 == k then (k, v) else t[0]] + Replace(t[1..], k, v);
      assert Keys(r) == [r[0].0] + Keys(r[1..]);
      assert r[1..] == Replace(t[1..], k, v);
      r
  }

  /** `map.set(k, v)`: replaces in place when `k` is present, appends otherwise. */
  function Set<T>(t: Table<T>, k: int, v: T): (r: Table<T>)
    ensures k in Keys(t) ==> r == Replace(t, k, v)
    ensures k !in Keys(t) ==> r == t + [(k, v)]
    ensures Keys(r) == if k in Keys(t) then Keys(t) else Keys(t) + [k]
  {
    if k in Keys(t) then Replace(t, k, v)
    else
      assert Keys(t + [(k, v)]) == Keys(t) + [k];
      t + [(k, v)]
  }

  /** After `set(k, v)`, `get(k)` is `v` and every other key reads as before. */
  lemma GetAfterSet<T>(t: Table<T>, k: int, v: T, k': int)
    ensures Get(Set(t, k, v), k') == if k' == k then Some(v) else Get(t, k')
  {
    if k in Keys(t) {
      GetAfterReplace(t, k, v, k');
    } else {
      GetAfterAppend(t, k, v, k');
    }
  }

  /** Replacing every entry under `k` makes `k` read `v` and leaves the other keys alone. */
  lemma {:induction false} GetAfterReplace<T>(t: Table<T>, k: int, v: T, k': int)
    requires k in Keys(t)
    ensures Get(Replace(t, k, v), k') == if k' == k then Some(v) else Get(t, k')
    decreases |t|
  {
    var r := Replace(t, k, v);
    assert r[1..] == Replace(t[1..], k, v);
    if t[0].0 != k {
      assert Keys(t) == [t[0].0] + Keys(t[1..]);
      GetAfterReplace(t[1..], k, v, k');
    } else if k' != k && k in Keys(t[1..]) {
      GetAfterReplace(t[1..], k, v, k');
    } else if k' != k {
      assert Replace(t[1..], k, v) == t[1..];
    }
  }

  /** Appending an absent key makes it read `v` and leaves the other keys alone. */
  lemma {:induction false} GetAfterAppend<T>(t: Table<T>, k: int, v: T, k': int)
    requires k !in Keys(t)
    ensures Get(t + [(k, v)], k') == if k' == k then Some(v) else Get(t, k')
    decreases |t|
  {
    if t != [] {
      assert (t + [(k, v)])[1..] == t[1..] + [(k, v)];
      assert Keys(t) == [t[0].0] + Keys(t[1..]);
      GetAfterAppend(t[1..], k, v, k');
    }
  }

  /** A key larger than every present key keeps the table ascending when appended. */
  lemma SetKeepsAscending<T>(t: Table<T>, k: int, v: T)
    requires Ascending(t)
    requires k in Keys(t) || forall i :: 0 <= i < |t| ==> t[i].0 < k
    ensures Ascending(Set(t, k, v))
  {
    if k in Keys(t) {
      ReplaceKeepsAscending(t, k, v);
    } else {
      AppendKeepsAscending(t, k, v);
    }
  }

  lemma ReplaceKeepsAscending<T>(t: Table<T>, k: int, v: T)
    requires Ascending(t)
    ensures Ascending(Replace(t, k, v))
  {
    var r := Replace(t, k, v);
    forall i, j | 0 <= i < j < |r| ensures r[i].0 < r[j].0 {
      assert r[i].0 == t[i].0 && r[j].0 == t[j].0;
    }
  }

  lemma AppendKeepsAscending<T>(t: Table<T>, k: int, v: T)
    requires Ascending(t)
    requires forall i :: 0 <= i < |t| ==> t[i].0 < k
    ensures Ascending(t + [(k, v)])
  {
    var r := t + [(k, v)];
    forall i, j | 0 <= i < j < |r| ensures r[i].0 < r[j].0 {
      assert r[i] == t[i];
      if j < |t| {
        assert r[j] == t[j];
      }
    }
  }

  /** Appending an absent key keeps the keys distinct. */
  lemma AppendKeepsDistinct<T>(t: Table<T>, k: int, v: T)
    requires DistinctKeys(t)
    requires k !in Keys(t)
    ensures DistinctKeys(t + [(k, v)])
  {
    var r := t + [(k, v)];
    forall i, j | 0 <= i < j < |r| ensures r[i].0 != r[j].0 {
      assert r[i] == t[i];
      if j < |t| {
        assert r[j] == t[j];
      } else {
        assert Keys(t)[i] == t[i].0;
      }
    }
  }

  /** The table without the entries whose key is in `ks`. */
  function RemoveKeys<T>(t: Table<T>, ks: set<int>): Table<T>
    decreases |t|
  {
    if t == [] then []
    else if t[0].0 in ks then RemoveKeys(t[1..], ks)
    else [t[0]] + RemoveKeys(t[1..], ks)
  }

  /** Every remaining entry was in the table and has a key outside `ks`. */
  lemma {:induction false} RemoveKeysSubset<T>(t: Table<T>, ks: set<int>)
    ensures forall i :: 0 <= i < |RemoveKeys(t, ks)| ==> RemoveKeys(t, ks)[i] in t && RemoveKeys(t, ks)[i].0 !in ks
    decreases |t|
  {
    if t != [] {
      RemoveKeysSubset(t[1..], ks);
      var rest := RemoveKeys(t[1..], ks);
      assert forall i :: 0 <= i < |rest| ==> rest[i] in t && rest[i].0 !in ks by {
        forall i | 0 <= i < |rest| ensures rest[i] in t {
          var j :| 0 <= j < |t[1..]| && t[1..][j] == rest[i];
          assert t[j + 1] == rest[i];
        }
      }
      if t[0].0 !in ks {
        var r := [t[0]] + rest;
        forall i | 0 <= i < |r| ensures r[i] in t && r[i].0 !in ks {
          if i > 0 {
            assert r[i] == rest[i - 1];
          }
        }
      }
    }
  }

  /** Every entry with a key outside `ks` remains. */
  lemma {:induction false} RemoveKeysKeeps<T>(t: Table<T>, ks: set<int>)
    ensures forall i :: 0 <= i < |t| && t[i].0 !in ks ==> t[i] in RemoveKeys(t, ks)
    decreases |t|
  {
    if t != [] {
      RemoveKeysKeeps(t[1..], ks);
      var rest := RemoveKeys(t[1..], ks);
      forall i | 0 <= i < |t| && t[i].0 !in ks ensures t[i] in RemoveKeys(t, ks) {
        if i > 0 {
          assert t[1..][i - 1] == t[i];
          assert t[i] in rest;
        }
      }
    }
  }

  /** Removal keeps an ascending table ascending. */
  lemma {:induction false} RemoveKeysAscending<T>(t: Table<T>, ks: set<int>)
    requires Ascending(t)
    ensures Ascending(RemoveKeys(t, ks))
    decreases |t|
  {
    if t != [] {
      var tail := t[1..];
      assert Ascending(tail) by {
        forall i, j | 0 <= i < j < |tail| ensures tail[i].0 < tail[j].0 {
          assert tail[i] == t[i + 1] && tail[j] == t[j + 1];
        }
      }
      RemoveKeysAscending(tail, ks);
      RemoveKeysSubset(tail, ks);
      var rest := RemoveKeys(tail, ks);
      if t[0].0 !in ks {
        forall i | 0 <= i < |rest| ensures t[0].0 < rest[i].0 {
          var j :| 0 <= j < |tail| && tail[j] == rest[i];
          assert tail[j] == t[j + 1];
        }
        var r := [t[0]] + rest;
        forall i, j | 0 <= i < j < |r| ensures r[i].0 < r[j].0 {
          assert r[j] == rest[j - 1];
          if i > 0 {
            assert r[i] == rest[i - 1];
          }
        }
      }
    }
  }

  /** `map.delete(k)`. */
  function Delete<T>(t: Table<T>, k: int): Table<T> {
    RemoveKeys(t, {k})
  }

  /** After `map.delete(k)` the key `k` is gone and every other lookup is as before. */
  lemma GetAfterDelete<T>(t: Table<T>, k: int)
    ensures forall k' :: Get(Delete(t, k), k') == if k' == k then None else Get(t, k')
  {
    forall k' ensures Get(Delete(t, k), k') == if k' == k then None else Get(t, k') {
      GetAfterRemove(t, {k}, k');
    }
  }

  lemma {:induction false} GetAfterRemove<T>(t: Table<T>, ks: set<int>, k': int)
    ensures Get(RemoveKeys(t, ks), k') == if k' in ks then None else Get(t, k')
    decreases |t|
  {
    if t != [] {
      GetAfterRemove(t[1..], ks, k');
    }
  }

  /** Removing `a` and then `b` removes `a + b`. */
  lemma {:induction false} RemoveKeysTwice<T>(t: Table<T>, a: set<int>, b: set<int>)
    ensures RemoveKeys(RemoveKeys(t, a), b) == RemoveKeys(t, a + b)
    decreases |t|
  {
    if t != [] {
      RemoveKeysTwice(t[1..], a, b);
      var rest := RemoveKeys(t[1..], a);
      if t[0].0 !in a {
        assert ([t[0]] + rest)[1..] == rest;
      }
    }
  }

  /** Keys absent from the table make no difference to a removal. */
  lemma {:induction false} RemoveAbsentKeys<T>(t: Table<T>, a: set<int>, b: set<int>)
    requires forall i :: 0 <= i < |t| ==> t[i].0 !in b
    ensures RemoveKeys(t, a + b) == RemoveKeys(t, a)
    decreases |t|
  {
    if t != [] {
      RemoveAbsentKeys(t[1..], a, b);
    }
  }

  /** Removing no key leaves the table as it is. */
  lemma {:induction false} RemoveNoKeys<T>(t: Table<T>)
    ensures RemoveKeys(t, {}) == t
    decreases |t|
  {
    if t != [] {
      RemoveNoKeys(t[1..]);
    }
  }

  /** Deleting a key the map does not hold changes nothing. */
  lemma DeleteAbsent<T>(t: Table<T>, k: int)
    requires k !in Keys(t)
    ensures Delete(t, k) == t
  {
    RemoveAbsentKeys(t, {}, {k});
    assert {} + {k} == {k};
    RemoveNoKeys(t);
  }
}
