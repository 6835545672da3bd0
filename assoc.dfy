/**
 * Association lists: a map kept as a sequence of (key, value) entries.
 * An ordered map (Rust's `BTreeMap`, the lock-free `SkipMap`) is an association
 * list whose keys are strictly ascending under a strict total order `less`;
 * Put, Remove and the filters below are the map operations the tracker uses.
 */
module Assoc {
  import opened Wrappers

  /** The value stored for `k`: the first entry with that key. */
  function Get<K(==), V>(s: seq<(K, V)>, k: K): Option<V>
  {
    if |s| == 0 then None
    else if s[0].0 == k then Some(s[0].1)
    else Get(s[1..], k)
  }

  predicate HasKey<K(==), V>(s: seq<(K, V)>, k: K)
  {
    Get(s, k).Some?
  }

  function Keys<K, V>(s: seq<(K, V)>): (r: seq<K>)
    ensures |r| == |s| && forall i :: 0 <= i < |s| ==> r[i] == s[i].0
  {
    if |s| == 0 then [] else [s[0].0] + Keys(s[1..])
  }

  /** The values in entry order (`BTreeMap::values`). */
  function Values<K, V>(s: seq<(K, V)>): (r: seq<V>)
    ensures |r| == |s| && forall i :: 0 <= i < |s| ==> r[i] == s[i].1
  {
    if |s| == 0 then [] else [s[0].1] + Values(s[1..])
  }

  ghost predicate UniqueKeys<K, V>(s: seq<(K, V)>)
  {
    forall i, j :: 0 <= i < j < |s| ==> s[i].0 != s[j].0
  }

  ghost predicate Ascending<K, V>(s: seq<(K, V)>, less: (K, K) -> bool)
  {
    forall i, j :: 0 <= i < j < |s| ==> less(s[i].0, s[j].0)
  }

  ghost predicate StrictTotalOrder<K(!new)>(less: (K, K) -> bool)
  {
    && (forall a :: !less(a, a))
    && (forall a, b, c :: less(a, b) && less(b, c) ==> less(a, c))
    && (forall a, b :: a != b ==> less(a, b) || less(b, a))
  }

  lemma AscendingUnique<K(!new), V>(s: seq<(K, V)>, less: (K, K) -> bool)
    requires StrictTotalOrder(less) && Ascending(s, less)
    ensures UniqueKeys(s)
  {
  }

  lemma {:induction false} GetIndex<K, V>(s: seq<(K, V)>, k: K)
    ensures Get(s, k).Some? <==> exists i :: 0 <= i < |s| && s[i].0 == k
    ensures Get(s, k).Some? ==> Get(s, k).value in Values(s)
  {
    if |s| > 0 {
      GetIndex(s[1..], k);
      if s[0].0 != k && Get(s, k).Some? {
        var i :| 0 <= i < |s| - 1 && s[1..][i].0 == k;
        assert s[i + 1].0 == k;
      }
      if s[0].0 != k && exists i :: 0 <= i < |s| && s[i].0 == k {
        var i :| 0 <= i < |s| && s[i].0 == k;
        assert s[1..][i - 1].0 == k;
      }
    }
  }

  /** With unique keys the value found is the one at the key's only index. */
  lemma {:induction false} GetAt<K, V>(s: seq<(K, V)>, i: nat)
    requires UniqueKeys(s) && i < |s|
    ensures Get(s, s[i].0) == Some(s[i].1)
  {
    if i > 0 {
      GetAt(s[1..], i - 1);
    }
  }

  /** Replaces the value of every entry with key `k`. */
  function Replace<K(==), V>(s: seq<(K, V)>, k: K, v: V): (r: seq<(K, V)>)
    ensures |r| == |s|
    ensures forall i :: 0 <= i < |s| ==> r[i] == if s[i].0 == k then (k, v) else s[i]
  {
    if |s| == 0 then []
    else [if s[0].0 == k then (k, v) else s[0]] + Replace(s[1..], k, v)
  }

  /** Inserts a new entry in front of the first larger key. */
  function Insert<K, V>(s: seq<(K, V)>, k: K, v: V, less: (K, K) -> bool): (r: seq<(K, V)>)
    ensures |r| == |s| + 1
  {
    if |s| == 0 || less(k, s[0].0) then [(k, v)] + s
    else [s[0]] + Insert(s[1..], k, v, less)
  }

  /** `BTreeMap::insert`: overwrite the value of a present key, or insert a new entry in order. */
  function Put<K(==), V>(s: seq<(K, V)>, k: K, v: V, less: (K, K) -> bool): seq<(K, V)>
  {
    if HasKey(s, k) then Replace(s, k, v) else Insert(s, k, v, less)
  }

  /** `BTreeMap::remove`: drops the entries with key `k`. */
  function Remove<K(==), V>(s: seq<(K, V)>, k: K): (r: seq<(K, V)>)
    ensures |r| <= |s|
  {
    if |s| == 0 then []
    else if s[0].0 == k then Remove(s[1..], k)
    else [s[0]] + Remove(s[1..], k)
  }

  /** Drops the entries whose key is in `ks`. */
  function RemoveAll<K(==), V>(s: seq<(K, V)>, ks: set<K>): (r: seq<(K, V)>)
    ensures |r| <= |s|
  {
    if |s| == 0 then []
    else if s[0].0 in ks then RemoveAll(s[1..], ks)
    else [s[0]] + RemoveAll(s[1..], ks)
  }

  /** Keeps the entries whose value satisfies `keep`. */
  function FilterValues<K, V>(s: seq<(K, V)>, keep: V -> bool): (r: seq<(K, V)>)
    ensures |r| <= |s|
  {
    if |s| == 0 then []
    else if keep(s[0].1) then [s[0]] + FilterValues(s[1..], keep)
    else FilterValues(s[1..], keep)
  }

  /** The number of entries whose value satisfies `p`. */
  function Count<K, V>(s: seq<(K, V)>, p: V -> bool): (n: nat)
    ensures n <= |s|
  {
    if |s| == 0 then 0 else (if p(s[0].1) then 1 else 0) + Count(s[1..], p)
  }

  // ---------------------------------------------------------------------------
  // Lookups after an update
  // ---------------------------------------------------------------------------

  lemma {:induction false} GetReplace<K, V>(s: seq<(K, V)>, k: K, v: V, x: K)
    ensures Get(Replace(s, k, v), x) == if x == k && HasKey(s, k) then Some(v) else Get(s, x)
  {
    if |s| > 0 {
      GetReplace(s[1..], k, v, x);
      assert Replace(s, k, v)[1..] == Replace(s[1..], k, v);
    }
  }

  lemma {:induction false} GetInsert<K, V>(s: seq<(K, V)>, k: K, v: V, less: (K, K) -> bool, x: K)
    requires !HasKey(s, k)
    ensures Get(Insert(s, k, v, less), x) == if x == k then Some(v) else Get(s, x)
  {
    if |s| > 0 && !less(k, s[0].0) {
      GetInsert(s[1..], k, v, less, x);
    }
  }

  /** `get` after `insert` sees the new value for `k` and the old one elsewhere. */
  lemma {:induction false} GetPut<K, V>(s: seq<(K, V)>, k: K, v: V, less: (K, K) -> bool, x: K)
    ensures Get(Put(s, k, v, less), x) == if x == k then Some(v) else Get(s, x)
    ensures |Put(s, k, v, less)| == if HasKey(s, k) then |s| else |s| + 1
  {
    if HasKey(s, k) {
      GetReplace(s, k, v, x);
    } else {
      GetInsert(s, k, v, less, x);
    }
  }

  /** `get` after `remove` finds nothing for `k` and the old value elsewhere. */
  lemma {:induction false} GetRemove<K, V>(s: seq<(K, V)>, k: K, x: K)
    ensures Get(Remove(s, k), x) == if x == k then None else Get(s, x)
  {
    if |s| > 0 {
      GetRemove(s[1..], k, x);
    }
  }

  lemma {:induction false} GetRemoveAll<K, V>(s: seq<(K, V)>, ks: set<K>, x: K)
    ensures Get(RemoveAll(s, ks), x) == if x in ks then None else Get(s, x)
  {
    if |s| > 0 {
      GetRemoveAll(s[1..], ks, x);
    }
  }

  lemma {:induction false} RemoveIsRemoveAll<K, V>(s: seq<(K, V)>, ks: set<K>, k: K)
    ensures Remove(RemoveAll(s, ks), k) == RemoveAll(s, ks + {k})
  {
    if |s| > 0 {
      RemoveIsRemoveAll(s[1..], ks, k);
    }
  }

  lemma {:induction false} RemoveAllNone<K, V>(s: seq<(K, V)>)
    ensures RemoveAll(s, {}) == s
  {
    if |s| > 0 {
      RemoveAllNone(s[1..]);
    }
  }

  /** With unique keys, the value found for a key of a filtered list is the old one. */
  lemma {:induction false} GetFilterValues<K, V>(s: seq<(K, V)>, keep: V -> bool, x: K)
    requires UniqueKeys(s)
    ensures Get(FilterValues(s, keep), x) ==
            if Get(s, x).Some? && keep(Get(s, x).value) then Get(s, x) else None
  {
    if |s| > 0 {
      GetFilterValues(s[1..], keep, x);
      if s[0].0 == x {
        NotHasKeyTail(s);
        var f := FilterValues(s[1..], keep);
        FilterValuesKeys(s[1..], keep);
        GetIndex(f, x);
        assert forall i :: 0 <= i < |f| ==> f[i] in s[1..];
      }
    }
  }

  lemma NotHasKeyTail<K, V>(s: seq<(K, V)>)
    requires UniqueKeys(s) && |s| > 0
    ensures forall e :: e in s[1..] ==> e.0 != s[0].0
  {
    forall e | e in s[1..] ensures e.0 != s[0].0 {
      var j :| 0 <= j < |s[1..]| && s[1..][j] == e;
      assert s[j + 1] == e;
    }
  }

  // ---------------------------------------------------------------------------
  // Members of the results
  // ---------------------------------------------------------------------------

  lemma {:induction false} InsertMembers<K, V>(s: seq<(K, V)>, k: K, v: V, less: (K, K) -> bool)
    ensures forall e :: e in Insert(s, k, v, less) ==> e == (k, v) || e in s
    ensures (k, v) in Insert(s, k, v, less) && forall e :: e in s ==> e in Insert(s, k, v, less)
  {
    if |s| > 0 && !less(k, s[0].0) {
      InsertMembers(s[1..], k, v, less);
      assert s == [s[0]] + s[1..];
    }
  }

  lemma {:induction false} RemoveMembers<K, V>(s: seq<(K, V)>, k: K)
    ensures forall e :: e in Remove(s, k) ==> e in s && e.0 != k
    ensures forall e :: e in s && e.0 != k ==> e in Remove(s, k)
  {
    if |s| > 0 {
      RemoveMembers(s[1..], k);
      assert s == [s[0]] + s[1..];
    }
  }

  lemma {:induction false} RemoveAllMembers<K, V>(s: seq<(K, V)>, ks: set<K>)
    ensures forall e :: e in RemoveAll(s, ks) ==> e in s && e.0 !in ks
    ensures forall e :: e in s && e.0 !in ks ==> e in RemoveAll(s, ks)
  {
    if |s| > 0 {
      RemoveAllMembers(s[1..], ks);
      assert s == [s[0]] + s[1..];
    }
  }

  lemma {:induction false} FilterValuesMembers<K, V>(s: seq<(K, V)>, keep: V -> bool)
    ensures forall e :: e in FilterValues(s, keep) ==> e in s && keep(e.1)
    ensures forall e :: e in s && keep(e.1) ==> e in FilterValues(s, keep)
  {
    if |s| > 0 {
      FilterValuesMembers(s[1..], keep);
      assert s == [s[0]] + s[1..];
    }
  }

  lemma FilterValuesKeys<K, V>(s: seq<(K, V)>, keep: V -> bool)
    ensures forall e :: e in FilterValues(s, keep) ==> e in s
  {
    FilterValuesMembers(s, keep);
  }

  // ---------------------------------------------------------------------------
  // Order and uniqueness are preserved
  // ---------------------------------------------------------------------------

  /** A list whose head is below every key of an ascending tail is ascending. */
  lemma AscendingCons<K, V>(e: (K, V), t: seq<(K, V)>, less: (K, K) -> bool)
    requires Ascending(t, less) && forall x :: x in t ==> less(e.0, x.0)
    ensures Ascending([e] + t, less)
  {
    var s := [e] + t;
    forall i, j | 0 <= i < j < |s| ensures less(s[i].0, s[j].0) {
      if i == 0 {
        assert s[j] == t[j - 1];
        assert s[j] in t;
      } else {
        assert s[i] == t[i - 1] && s[j] == t[j - 1];
      }
    }
  }

  lemma AscendingTail<K, V>(s: seq<(K, V)>, less: (K, K) -> bool)
    requires Ascending(s, less) && |s| > 0
    ensures Ascending(s[1..], less)
    ensures forall x :: x in s[1..] ==> less(s[0].0, x.0)
  {
    forall x | x in s[1..] ensures less(s[0].0, x.0) {
      var j :| 0 <= j < |s[1..]| && s[1..][j] == x;
      assert s[j + 1] == x;
    }
  }

  lemma {:induction false} PutAscending<K(!new), V>(s: seq<(K, V)>, k: K, v: V, less: (K, K) -> bool)
    requires StrictTotalOrder(less) && Ascending(s, less)
    ensures Ascending(Put(s, k, v, less), less)
  {
    if !HasKey(s, k) {
      InsertAscending(s, k, v, less);
    }
  }

  lemma {:induction false} InsertAscending<K(!new), V>(s: seq<(K, V)>, k: K, v: V, less: (K, K) -> bool)
    requires StrictTotalOrder(less) && Ascending(s, less) && !HasKey(s, k)
    ensures Ascending(Insert(s, k, v, less), less)
  {
    if |s| == 0 {
    } else if less(k, s[0].0) {
      AscendingTail(s, less);
      AscendingCons((k, v), s, less);
    } else {
      AscendingTail(s, less);
      InsertAscending(s[1..], k, v, less);
      InsertMembers(s[1..], k, v, less);
      assert s[0].0 != k;
      forall x | x in Insert(s[1..], k, v, less) ensures less(s[0].0, x.0) {
        assert x == (k, v) || x in s[1..];
      }
      AscendingCons(s[0], Insert(s[1..], k, v, less), less);
    }
  }

  lemma {:induction false} RemoveAscending<K, V>(s: seq<(K, V)>, k: K, less: (K, K) -> bool)
    requires Ascending(s, less)
    ensures Ascending(Remove(s, k), less)
  {
    if |s| > 0 {
      AscendingTail(s, less);
      RemoveAscending(s[1..], k, less);
      if s[0].0 != k {
        RemoveMembers(s[1..], k);
        forall x | x in Remove(s[1..], k) ensures less(s[0].0, x.0) {
          assert x in s[1..];
        }
        AscendingCons(s[0], Remove(s[1..], k), less);
      }
    }
  }

  lemma {:induction false} RemoveAllAscending<K, V>(s: seq<(K, V)>, ks: set<K>, less: (K, K) -> bool)
    requires Ascending(s, less)
    ensures Ascending(RemoveAll(s, ks), less)
  {
    if |s| > 0 {
      AscendingTail(s, less);
      RemoveAllAscending(s[1..], ks, less);
      if s[0].0 !in ks {
        RemoveAllMembers(s[1..], ks);
        forall x | x in RemoveAll(s[1..], ks) ensures less(s[0].0, x.0) {
          assert x in s[1..];
        }
        AscendingCons(s[0], RemoveAll(s[1..], ks), less);
      }
    }
  }

  lemma {:induction false} FilterValuesAscending<K, V>(s: seq<(K, V)>, keep: V -> bool, less: (K, K) -> bool)
    requires Ascending(s, less)
    ensures Ascending(FilterValues(s, keep), less)
  {
    if |s| > 0 {
      AscendingTail(s, less);
      FilterValuesAscending(s[1..], keep, less);
      if keep(s[0].1) {
        FilterValuesMembers(s[1..], keep);
        forall x | x in FilterValues(s[1..], keep) ensures less(s[0].0, x.0) {
          assert x in s[1..];
        }
        AscendingCons(s[0], FilterValues(s[1..], keep), less);
      }
    }
  }

  // ---------------------------------------------------------------------------
  // Counting
  // ---------------------------------------------------------------------------

  lemma {:induction false} CountInsert<K, V>(s: seq<(K, V)>, k: K, v: V, less: (K, K) -> bool, p: V -> bool)
    ensures Count(Insert(s, k, v, less), p) == Count(s, p) + (if p(v) then 1 else 0)
  {
    if |s| > 0 && !less(k, s[0].0) {
      CountInsert(s[1..], k, v, less, p);
      assert Insert(s, k, v, less)[1..] == Insert(s[1..], k, v, less);
    } else {
      assert Insert(s, k, v, less)[1..] == s;
    }
  }

  lemma {:induction false} CountReplace<K, V>(s: seq<(K, V)>, k: K, v: V, p: V -> bool)
    requires UniqueKeys(s) && HasKey(s, k)
    ensures Count(Replace(s, k, v), p) ==
            Count(s, p) - (if p(Get(s, k).value) then 1 else 0) + (if p(v) then 1 else 0)
  {
    assert Replace(s, k, v)[1..] == Replace(s[1..], k, v);
    if s[0].0 == k {
      NotHasKeyTail(s);
      ReplaceAbsent(s[1..], k, v);
    } else {
      CountReplace(s[1..], k, v, p);
    }
  }

  lemma ReplaceAbsent<K, V>(s: seq<(K, V)>, k: K, v: V)
    requires forall e :: e in s ==> e.0 != k
    ensures Replace(s, k, v) == s
  {
    assert forall i :: 0 <= i < |s| ==> s[i] in s;
  }

  /** The census of the values after `insert`: the old value of `k`, if any, is counted out and `v` counted in. */
  lemma CountPut<K, V>(s: seq<(K, V)>, k: K, v: V, less: (K, K) -> bool, p: V -> bool)
    requires UniqueKeys(s)
    ensures Count(Put(s, k, v, less), p) ==
            Count(s, p) - (if HasKey(s, k) && p(Get(s, k).value) then 1 else 0) + (if p(v) then 1 else 0)
  {
    if HasKey(s, k) {
      CountReplace(s, k, v, p);
    } else {
      CountInsert(s, k, v, less, p);
    }
  }

  /** The census after `remove`: the removed value, if any, is counted out. */
  lemma {:induction false} CountRemove<K, V>(s: seq<(K, V)>, k: K, p: V -> bool)
    requires UniqueKeys(s)
    ensures Count(Remove(s, k), p) == Count(s, p) - (if HasKey(s, k) && p(Get(s, k).value) then 1 else 0)
    ensures |Remove(s, k)| == |s| - (if HasKey(s, k) then 1 else 0)
  {
    if |s| > 0 {
      if s[0].0 == k {
        NotHasKeyTail(s);
        RemoveAbsent(s[1..], k);
      } else {
        CountRemove(s[1..], k, p);
      }
    }
  }

  lemma {:induction false} RemoveAbsent<K, V>(s: seq<(K, V)>, k: K)
    requires forall e :: e in s ==> e.0 != k
    ensures Remove(s, k) == s
  {
    if |s| > 0 {
      assert s[0] in s;
      assert forall e :: e in s[1..] ==> e in s;
      RemoveAbsent(s[1..], k);
    }
  }

  /** The census of a list extended at the end. */
  lemma {:induction false} CountSnoc<K, V>(s: seq<(K, V)>, e: (K, V), p: V -> bool)
    ensures Count(s + [e], p) == Count(s, p) + (if p(e.1) then 1 else 0)
  {
    if |s| > 0 {
      assert (s + [e])[1..] == s[1..] + [e];
      CountSnoc(s[1..], e, p);
    }
  }

  /** The filter keeps as many entries as the census of its predicate counts. */
  lemma {:induction false} FilterValuesCount<K, V>(s: seq<(K, V)>, keep: V -> bool)
    ensures |FilterValues(s, keep)| == Count(s, keep)
  {
    if |s| > 0 {
      FilterValuesCount(s[1..], keep);
    }
  }

  /** The censuses of a predicate and of its negation add up to the length. */
  lemma {:induction false} CountComplement<K, V>(s: seq<(K, V)>, p: V -> bool, q: V -> bool)
    requires forall v :: q(v) <==> !p(v)
    ensures Count(s, p) + Count(s, q) == |s|
  {
    if |s| > 0 {
      CountComplement(s[1..], p, q);
    }
  }

  /** The census is below the length exactly when some entry fails the predicate. */
  lemma {:induction false} CountBelowLength<K, V>(s: seq<(K, V)>, p: V -> bool)
    ensures Count(s, p) < |s| ==> exists e :: e in s && !p(e.1)
    ensures (exists e :: e in s && !p(e.1)) ==> Count(s, p) < |s|
  {
    if |s| > 0 {
      CountBelowLength(s[1..], p);
      if Count(s[1..], p) < |s| - 1 {
        var e :| e in s[1..] && !p(e.1);
        assert e in s;
      }
      if exists e :: e in s && !p(e.1) {
        var e :| e in s && !p(e.1);
        if e != s[0] {
          assert e in s[1..];
        }
      }
    }
  }

  /** Removing a set of keys is filtering, when the set holds exactly the keys of the unwanted entries. */
  lemma {:induction false} RemoveAllIsFilterValues<K, V>(s: seq<(K, V)>, ks: set<K>, keep: V -> bool)
    requires forall e :: e in s ==> (e.0 in ks <==> !keep(e.1))
    ensures RemoveAll(s, ks) == FilterValues(s, keep)
  {
    if |s| > 0 {
      assert s[0] in s;
      assert forall e :: e in s[1..] ==> e in s;
      RemoveAllIsFilterValues(s[1..], ks, keep);
    }
  }

  /** With unique keys, an entry is determined by its key. */
  lemma SameKeySameEntry<K, V>(s: seq<(K, V)>, e1: (K, V), e2: (K, V))
    requires UniqueKeys(s) && e1 in s && e2 in s && e1.0 == e2.0
    ensures e1 == e2
  {
    var i :| 0 <= i < |s| && s[i] == e1;
    var j :| 0 <= j < |s| && s[j] == e2;
    assert i == j;
  }

  /** A value found is stored as an entry, and, with unique keys, every entry is found. */
  lemma {:induction false} GetMember<K, V>(s: seq<(K, V)>, k: K)
    ensures Get(s, k).Some? ==> (k, Get(s, k).value) in s
    ensures UniqueKeys(s) ==> forall v :: (k, v) in s ==> Get(s, k) == Some(v)
  {
    if |s| > 0 {
      GetMember(s[1..], k);
      if UniqueKeys(s) {
        forall v | (k, v) in s ensures Get(s, k) == Some(v) {
          var i :| 0 <= i < |s| && s[i] == (k, v);
          GetAt(s, i);
        }
      }
    }
  }

  lemma {:induction false} UniqueKeysSub<K, V>(s: seq<(K, V)>, t: seq<(K, V)>)
    requires UniqueKeys(s)
    requires forall e :: e in t ==> e in s
    requires forall i, j :: 0 <= i < j < |t| ==> t[i] != t[j]
    ensures UniqueKeys(t)
  {
    forall i, j | 0 <= i < j < |t| ensures t[i].0 != t[j].0 {
      assert t[i] in s && t[j] in s;
      var a :| 0 <= a < |s| && s[a] == t[i];
      var b :| 0 <= b < |s| && s[b] == t[j];
      assert a != b;
    }
  }

  // ---------------------------------------------------------------------------
  // Index views of the updates on an ordered list
  // ---------------------------------------------------------------------------

  /** On an ascending list, inserting an absent key is splicing it in at its place. */
  lemma {:induction false} InsertAt<K, V>(s: seq<(K, V)>, k: K, v: V, less: (K, K) -> bool, p: nat)
    requires p <= |s|
    requires forall i :: 0 <= i < p ==> !less(k, s[i].0)
    requires p < |s| ==> less(k, s[p].0)
    ensures Insert(s, k, v, less) == s[..p] + [(k, v)] + s[p..]
  {
    if p > 0 {
      InsertAt(s[1..], k, v, less, p - 1);
      assert s[1..][..p - 1] == s[1..p];
      assert s[1..][p - 1..] == s[p..];
    }
  }

  /** With unique keys, overwriting the key at index `i` is an update at `i`. */
  lemma ReplaceAt<K, V>(s: seq<(K, V)>, k: K, v: V, i: nat)
    requires UniqueKeys(s) && i < |s| && s[i].0 == k
    ensures Replace(s, k, v) == s[i := (k, v)]
  {
  }

  /** With unique keys, removing the key at index `i` drops that index. */
  lemma {:induction false} RemoveAt<K, V>(s: seq<(K, V)>, k: K, i: nat)
    requires UniqueKeys(s) && i < |s| && s[i].0 == k
    ensures Remove(s, k) == s[..i] + s[i + 1..]
  {
    if i == 0 {
      NotHasKeyTail(s);
      RemoveAbsent(s[1..], k);
    } else {
      RemoveAt(s[1..], k, i - 1);
      assert s[1..][..i - 1] == s[1..i];
      assert s[1..][i..] == s[i + 1..];
    }
  }

  // ---------------------------------------------------------------------------
  // Lists without an order (a `HashMap` with unique keys)
  // ---------------------------------------------------------------------------

  /** Looking up in a list extended at the end. */
  lemma {:induction false} GetSnoc<K, V>(s: seq<(K, V)>, e: (K, V), x: K)
    ensures Get(s + [e], x) == if HasKey(s, x) then Get(s, x) else if e.0 == x then Some(e.1) else None
  {
    if |s| > 0 {
      assert (s + [e])[1..] == s[1..] + [e];
      GetSnoc(s[1..], e, x);
    }
  }

  /** Appending an absent key keeps the keys unique. */
  lemma SnocUnique<K, V>(s: seq<(K, V)>, e: (K, V))
    ensures UniqueKeys(s) && !HasKey(s, e.0) ==> UniqueKeys(s + [e])
  {
    GetIndex(s, e.0);
  }

  /** Overwriting a value keeps the keys, hence their uniqueness. */
  lemma ReplaceUnique<K, V>(s: seq<(K, V)>, k: K, v: V)
    ensures UniqueKeys(s) ==> UniqueKeys(Replace(s, k, v))
    ensures Keys(Replace(s, k, v)) == Keys(s)
  {
  }

  /** With unique keys, the number of distinct keys is the length. */
  lemma {:induction false} UniqueKeysCardinality<K, V>(s: seq<(K, V)>)
    ensures UniqueKeys(s) ==> |set e | e in s :: e.0| == |s|
  {
    if UniqueKeys(s) && |s| > 0 {
      UniqueKeysCardinality(s[1..]);
      NotHasKeyTail(s);
      var tail := set e | e in s[1..] :: e.0;
      assert s[0].0 !in tail;
      assert (set e | e in s :: e.0) == {s[0].0} + tail by {
        assert forall e :: e in s <==> e == s[0] || e in s[1..];
      }
    }
  }
}
