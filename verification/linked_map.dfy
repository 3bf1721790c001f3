/**
 * An insertion-ordered map in the style of the `linked_hash_map` crate: a
 * sequence of key/value entries with distinct keys. Inserting an existing key
 * replaces its value and moves the entry to the back, as the crate's
 * `insert` does; removing a missing key changes nothing.
 */
module LinkedMap {
  import opened Wrappers

  datatype Entry<K, V> = Entry(key: K, val: V)

  type LMap<K, V> = seq<Entry<K, V>>

  predicate ValidMap<K(==,!new), V(!new)>(m: LMap<K, V>) {
    forall a, b :: 0 <= a < b < |m| ==> m[a].key != m[b].key
  }

  predicate HasKey<K(==,!new), V(!new)>(m: LMap<K, V>, k: K) {
    exists a :: 0 <= a < |m| && m[a].key == k
  }

  function Keys<K, V>(m: LMap<K, V>): (ks: seq<K>)
    ensures |ks| == |m| && forall a :: 0 <= a < |m| ==> ks[a] == m[a].key
  {
    seq(|m|, a requires 0 <= a < |m| => m[a].key)
  }

  /** The value stored under `k`, if any (the last entry wins, and there is only one). */
  function Get<K(==,!new), V(!new)>(m: LMap<K, V>, k: K): (r: Option<V>)
    ensures r.None? <==> !HasKey(m, k)
    ensures r.Some? ==> exists a :: 0 <= a < |m| && m[a] == Entry(k, r.value)
  {
    if |m| == 0 then None
    else if m[|m| - 1].key == k then Some(m[|m| - 1].val)
    else
      var r := Get(m[..|m| - 1], k);
      assert forall a :: 0 <= a < |m| - 1 ==> m[..|m| - 1][a] == m[a];
      r
  }

  function Remove<K(==,!new), V(!new)>(m: LMap<K, V>, k: K): (r: LMap<K, V>)
    ensures |r| <= |m|
  {
    if |m| == 0 then []
    else
      var rest := Remove(m[..|m| - 1], k);
      if m[|m| - 1].key == k then rest else rest + [m[|m| - 1]]
  }

  function Insert<K(==,!new), V(!new)>(m: LMap<K, V>, k: K, v: V): (r: LMap<K, V>)
    ensures |r| > 0 && r[|r| - 1] == Entry(k, v)
  {
    Remove(m, k) + [Entry(k, v)]
  }

  /** The entries left by a removal: all those with another key. */
  lemma {:induction false} RemoveMembers<K(!new), V(!new)>(m: LMap<K, V>, k: K, e: Entry<K, V>)
    ensures e in Remove(m, k) <==> e in m && e.key != k
    decreases |m|
  {
    if |m| > 0 {
      RemoveMembers(m[..|m| - 1], k, e);
      assert m == m[..|m| - 1] + [m[|m| - 1]];
    }
  }

  /** `extend`: the entries of `n` inserted one by one, in order. */
  function Extend<K(==,!new), V(!new)>(m: LMap<K, V>, n: LMap<K, V>): (r: LMap<K, V>)
    decreases |n|
  {
    if |n| == 0 then m else Insert(Extend(m, n[..|n| - 1]), n[|n| - 1].key, n[|n| - 1].val)
  }

  lemma RemoveValid<K(!new), V(!new)>(m: LMap<K, V>, k: K)
    requires ValidMap(m)
    ensures ValidMap(Remove(m, k))
  {
    if |m| > 0 {
      var front := m[..|m| - 1];
      RemoveValid(front, k);
      forall a | 0 <= a < |Remove(front, k)|
        ensures Remove(front, k)[a].key != m[|m| - 1].key
      {
        RemoveMembers(front, k, Remove(front, k)[a]);
      }
    }
  }

  /** Removing a key that is not there changes nothing. */
  lemma RemoveAbsent<K(!new), V(!new)>(m: LMap<K, V>, k: K)
    requires !HasKey(m, k)
    ensures Remove(m, k) == m
  {
    if |m| > 0 {
      RemoveAbsent(m[..|m| - 1], k);
      assert m == m[..|m| - 1] + [m[|m| - 1]];
    }
  }

  /** Removing the key of the back entry of a map drops that entry. */
  lemma RemoveBack<K(!new), V(!new)>(m: LMap<K, V>)
    requires ValidMap(m) && |m| > 0
    ensures Remove(m, m[|m| - 1].key) == m[..|m| - 1]
  {
    RemoveAbsent(m[..|m| - 1], m[|m| - 1].key);
  }

  /** Inserting a new key appends an entry. */
  lemma InsertAbsent<K(!new), V(!new)>(m: LMap<K, V>, k: K, v: V)
    requires !HasKey(m, k)
    ensures Insert(m, k, v) == m + [Entry(k, v)]
    ensures ValidMap(m) ==> ValidMap(m + [Entry(k, v)])
  {
    RemoveAbsent(m, k);
  }

  /** Looking up in a map with one more entry at the back. */
  lemma GetAppend<K(!new), V(!new)>(m: LMap<K, V>, k: K, v: V, k': K)
    ensures Get(m + [Entry(k, v)], k') == if k' == k then Some(v) else Get(m, k')
  {
    assert (m + [Entry(k, v)])[..|m|] == m;
  }

  /** In a map with distinct keys, the entry of a key is the one `Get` finds. */
  lemma GetEntry<K(!new), V(!new)>(m: LMap<K, V>, a: int)
    requires ValidMap(m) && 0 <= a < |m|
    ensures Get(m, m[a].key) == Some(m[a].val)
  {
    if a < |m| - 1 {
      GetEntry(m[..|m| - 1], a);
    }
  }

  /** Looking up after a removal: the removed key is gone, every other key is untouched. */
  lemma {:induction false} GetRemove<K(!new), V(!new)>(m: LMap<K, V>, k: K, k': K)
    ensures Get(Remove(m, k), k') == if k' == k then None else Get(m, k')
  {
    if |m| > 0 {
      var front := m[..|m| - 1];
      GetRemove(front, k, k');
      if m[|m| - 1].key != k {
        GetAppend(Remove(front, k), m[|m| - 1].key, m[|m| - 1].val, k');
      }
    }
  }

  /** Looking up after an insertion. */
  lemma GetInsert<K(!new), V(!new)>(m: LMap<K, V>, k: K, v: V, k': K)
    ensures Get(Insert(m, k, v), k') == if k' == k then Some(v) else Get(m, k')
  {
    GetAppend(Remove(m, k), k, v, k');
    GetRemove(m, k, k');
  }

  lemma InsertValid<K(!new), V(!new)>(m: LMap<K, V>, k: K, v: V)
    requires ValidMap(m)
    ensures ValidMap(Insert(m, k, v))
  {
    RemoveValid(m, k);
    forall a | 0 <= a < |Remove(m, k)|
      ensures Remove(m, k)[a].key != k
    {
      RemoveMembers(m, k, Remove(m, k)[a]);
    }
  }

  /** Looking up after `extend`: the extension's entry wins where it has one. */
  lemma {:induction false} GetExtend<K(!new), V(!new)>(m: LMap<K, V>, n: LMap<K, V>, k: K)
    ensures Get(Extend(m, n), k) == if Get(n, k).Some? then Get(n, k) else Get(m, k)
    decreases |n|
  {
    if |n| > 0 {
      GetExtend(m, n[..|n| - 1], k);
      GetInsert(Extend(m, n[..|n| - 1]), n[|n| - 1].key, n[|n| - 1].val, k);
    }
  }

  lemma {:induction false} ExtendValid<K(!new), V(!new)>(m: LMap<K, V>, n: LMap<K, V>)
    requires ValidMap(m)
    ensures ValidMap(Extend(m, n))
    decreases |n|
  {
    if |n| > 0 {
      ExtendValid(m, n[..|n| - 1]);
      InsertValid(Extend(m, n[..|n| - 1]), n[|n| - 1].key, n[|n| - 1].val);
    }
  }

  lemma AppendLast<T>(m: seq<T>, n: seq<T>)
    requires |n| > 0
    ensures m + n == m + n[..|n| - 1] + [n[|n| - 1]]
  {
    assert n == n[..|n| - 1] + [n[|n| - 1]];
  }

  lemma AbsentConcat<K(!new), V(!new)>(m: LMap<K, V>, n: LMap<K, V>, k: K)
    requires !HasKey(m, k)
    requires forall t :: 0 <= t < |n| ==> n[t].key != k
    ensures !HasKey(m + n, k)
  {
  }

  /** Extending by entries whose keys are all new appends them. */
  lemma {:induction false} ExtendAbsent<K(!new), V(!new)>(m: LMap<K, V>, n: LMap<K, V>)
    requires ValidMap(n)
    requires forall t :: 0 <= t < |n| ==> !HasKey(m, n[t].key)
    ensures Extend(m, n) == m + n
    decreases |n|
  {
    if |n| > 0 {
      var front := n[..|n| - 1];
      var last := n[|n| - 1];
      assert Extend(m, n) == Insert(Extend(m, front), last.key, last.val);
      assert ValidMap(front);
      assert forall t :: 0 <= t < |front| ==> !HasKey(m, front[t].key);
      ExtendAbsent(m, front);
      assert !HasKey(m, last.key);
      assert forall t :: 0 <= t < |front| ==> front[t].key != last.key;
      AbsentConcat(m, front, last.key);
      InsertAbsent(m + front, last.key, last.val);
      AppendLast(m, n);
    }
  }

  lemma InsertMembers<K(!new), V(!new)>(m: LMap<K, V>, k: K, v: V, e: Entry<K, V>)
    ensures e in Insert(m, k, v) <==> e == Entry(k, v) || (e in m && e.key != k)
  {
    RemoveMembers(m, k, e);
  }

  /** The keys and entries of a map with one more entry at the back. */
  lemma SnocFacts<K(!new), V(!new)>(n: LMap<K, V>, e: Entry<K, V>)
    requires ValidMap(n) && |n| > 0
    ensures e in n <==> e in n[..|n| - 1] || e == n[|n| - 1]
    ensures e in n[..|n| - 1] ==> e.key != n[|n| - 1].key
    ensures HasKey(n, e.key) <==> HasKey(n[..|n| - 1], e.key) || e.key == n[|n| - 1].key
  {
    var front := n[..|n| - 1];
    assert n == front + [n[|n| - 1]];
    if HasKey(n, e.key) && e.key != n[|n| - 1].key {
      var a :| 0 <= a < |n| && n[a].key == e.key;
      assert front[a].key == e.key;
    }
  }

  /** The entries after `extend`: those of the extension, and the old ones whose key it does not hold. */
  lemma {:induction false} ExtendMembers<K(!new), V(!new)>(m: LMap<K, V>, n: LMap<K, V>, e: Entry<K, V>)
    requires ValidMap(n)
    ensures e in Extend(m, n) <==> e in n || (e in m && !HasKey(n, e.key))
    decreases |n|
  {
    if |n| > 0 {
      var front := n[..|n| - 1];
      var last := n[|n| - 1];
      ExtendMembers(m, front, e);
      InsertMembers(Extend(m, front), last.key, last.val, e);
      SnocFacts(n, e);
    }
  }

  /** Looking up in a concatenation: the later part wins. */
  lemma {:induction false} GetConcat<K(!new), V(!new)>(m: LMap<K, V>, n: LMap<K, V>, k: K)
    ensures Get(m + n, k) == if Get(n, k).Some? then Get(n, k) else Get(m, k)
    decreases |n|
  {
    if |n| == 0 {
      assert m + n == m;
    } else {
      assert (m + n)[..|m + n| - 1] == m + n[..|n| - 1];
      GetConcat(m, n[..|n| - 1], k);
    }
  }
}
