/** The recency-ordered list both caches keep (Go's container/list holding
    *entry values) as a sequence whose head is the most recently used entry,
    the index map derived from it, and every change the caches make to it,
    written as functions. The classes in ShardStore and NaiveLru are proved
    against these functions; the lemmas below say what the functions mean. */
module Recency {

  /** One key/value pair held by the list (Go's `entry`). */
  datatype Entry<K, V> = Entry(key: K, val: V)

  datatype Option<T> = None | Some(value: T)

  /** The keys held by the list. */
  ghost function KeySet<K, V>(s: seq<Entry<K, V>>): set<K> {
    if s == [] then {} else {s[0].key} + KeySet(s[1..])
  }

  /** No key occurs twice in the list. */
  ghost predicate Distinct<K, V>(s: seq<Entry<K, V>>) {
    s == [] || (s[0].key !in KeySet(s[1..]) && Distinct(s[1..]))
  }

  /** The position of the first entry with key `k`: the list element the
      index points at for `k`. */
  function Find<K(==), V>(s: seq<Entry<K, V>>, k: K): (r: Option<nat>)
    ensures r.Some? ==> r.value < |s| && s[r.value].key == k
    ensures r.Some? ==> forall j :: 0 <= j < r.value ==> s[j].key != k
    ensures r.None? <==> k !in KeySet(s)
    ensures r.None? ==> forall j :: 0 <= j < |s| ==> s[j].key != k
  {
    if s == [] then None
    else if s[0].key == k then Some(0)
    else
      match Find(s[1..], k)
      case Some(i) => Some(i + 1)
      case None => None
  }

  /** The index map of a list: each key to the value of its (first) entry. */
  function Index<K(==), V>(s: seq<Entry<K, V>>): (m: map<K, V>)
    ensures m.Keys == KeySet(s)
  {
    if s == [] then map[] else Index(s[1..])[s[0].key := s[0].val]
  }

  /** The value stored under `k`, read through the list. */
  function Lookup<K(==), V>(s: seq<Entry<K, V>>, k: K): Option<V> {
    match Find(s, k)
    case Some(i) => Some(s[i].val)
    case None => None
  }

  /** The list without the entry at position `i` (container/list Remove). */
  function RemoveAt<T>(s: seq<T>, i: nat): seq<T>
    requires i < |s|
  {
    s[..i] + s[i + 1..]
  }

  /** The list with the entry at position `i` moved to the front
      (container/list MoveToFront). */
  function MoveToFront<T>(s: seq<T>, i: nat): seq<T>
    requires i < |s|
  {
    [s[i]] + RemoveAt(s, i)
  }

  /** The list without its back (least recently used) entry; unchanged when
      empty (removeOldest). */
  function DropBack<T>(s: seq<T>): seq<T> {
    if s == [] then s else s[..|s| - 1]
  }

  /** Reference definition for "the other entries keep their order": the
      list filtered to the entries whose key is not `k`. */
  function Without<K(==), V>(s: seq<Entry<K, V>>, k: K): seq<Entry<K, V>> {
    if s == [] then []
    else if s[0].key == k then Without(s[1..], k)
    else [s[0]] + Without(s[1..], k)
  }

  /** Effect of a lookup hit on the list: the entry for `k` is promoted. */
  function Touch<K(==), V>(s: seq<Entry<K, V>>, k: K): seq<Entry<K, V>> {
    match Find(s, k)
    case Some(i) => MoveToFront(s, i)
    case None => s
  }

  /** Effect of `add(k, v)` with capacity `cap`: an existing entry gets the
      new value and is moved to the front; otherwise a new entry is pushed
      to the front and, when `cap > 0` and the list has outgrown `cap`, the
      back entry is dropped once. */
  function Put<K(==), V>(s: seq<Entry<K, V>>, k: K, v: V, cap: int): seq<Entry<K, V>> {
    match Find(s, k)
    case Some(i) => MoveToFront(s[i := Entry(k, v)], i)
    case None =>
      var t := [Entry(k, v)] + s;
      if cap > 0 && |t| > cap then DropBack(t) else t
  }

  /** True when `Put(s, k, v, cap)` evicts the back entry of `s`. */
  ghost predicate Evicts<K, V>(s: seq<Entry<K, V>>, k: K, cap: int) {
    k !in KeySet(s) && cap > 0 && |s| + 1 > cap
  }

  /** Effect of removing key `k`: its entry leaves the list if present. */
  function Delete<K(==), V>(s: seq<Entry<K, V>>, k: K): seq<Entry<K, V>> {
    match Find(s, k)
    case Some(i) => RemoveAt(s, i)
    case None => s
  }

  /** The entries a traversal hands to `fn`, in order: every entry up to and
      including the first one for which `fn` answers false. */
  function Visit<K, V>(s: seq<Entry<K, V>>, fn: (K, V) -> bool): seq<Entry<K, V>> {
    if s == [] then []
    else if fn(s[0].key, s[0].val) then [s[0]] + Visit(s[1..], fn)
    else [s[0]]
  }

  /** The list read back to front. */
  function Reversed<T>(s: seq<T>): (r: seq<T>)
    ensures |r| == |s|
    ensures forall i :: 0 <= i < |s| ==> r[i] == s[|s| - 1 - i]
  {
    if s == [] then [] else Reversed(s[1..]) + [s[0]]
  }

  // ---------------------------------------------------------------------
  // Lemmas about the list and its index

  /** Every entry's key is among the list's keys. */
  lemma {:induction false} KeyAt<K, V>(s: seq<Entry<K, V>>, i: nat)
    requires i < |s|
    ensures s[i].key in KeySet(s)
  {
    if i > 0 {
      KeyAt(s[1..], i - 1);
    }
  }

  /** The head's key occurs nowhere else in a duplicate-free list. */
  lemma HeadKeyUnique<K, V>(s: seq<Entry<K, V>>, i: nat)
    requires Distinct(s) && 0 < i < |s|
    ensures s[0].key != s[i].key
  {
    KeyAt(s[1..], i - 1);
  }

  /** The index holds, for every entry of a duplicate-free list, that
      entry's value. */
  lemma {:induction false} IndexAt<K, V>(s: seq<Entry<K, V>>, i: nat)
    requires Distinct(s) && i < |s|
    ensures s[i].key in Index(s) && Index(s)[s[i].key] == s[i].val
  {
    if i > 0 {
      IndexAt(s[1..], i - 1);
      HeadKeyUnique(s, i);
    }
  }

  /** A lookup through the list agrees with a lookup in the index. */
  lemma {:induction false} LookupIsIndex<K, V>(s: seq<Entry<K, V>>, k: K)
    ensures Lookup(s, k) == if k in Index(s) then Some(Index(s)[k]) else None
  {
    if s != [] && s[0].key != k {
      LookupIsIndex(s[1..], k);
    }
  }

  /** The index has exactly one entry per list element. */
  lemma {:induction false} IndexSize<K, V>(s: seq<Entry<K, V>>)
    requires Distinct(s)
    ensures |Index(s)| == |s|
  {
    if s != [] {
      IndexSize(s[1..]);
    }
  }

  /** Adding a key the map does not hold and removing it again is a no-op. */
  lemma MapUpdateFresh<K, V>(m: map<K, V>, k: K, v: V)
    requires k !in m
    ensures m[k := v] - {k} == m
  {
  }

  /** Updating one key and removing another commute. */
  lemma MapUpdateRemove<K, V>(m: map<K, V>, k: K, v: V, d: K)
    requires k != d
    ensures (m - {d})[k := v] == m[k := v] - {d}
  {
  }

  /** Removing a key and storing it again is storing it. */
  lemma MapRemoveUpdate<K, V>(m: map<K, V>, k: K, v: V)
    ensures (m - {k})[k := v] == m[k := v]
  {
  }

  /** Pushing an entry with a new key to the front keeps the list
      duplicate-free and stores its key in the index. */
  lemma PushFrontIndex<K, V>(e: Entry<K, V>, s: seq<Entry<K, V>>)
    requires Distinct(s) && e.key !in KeySet(s)
    ensures Distinct([e] + s)
    ensures Index([e] + s) == Index(s)[e.key := e.val]
  {
    assert ([e] + s)[1..] == s;
  }

  /** Removing the entry at `i` keeps the list duplicate-free and removes
      exactly its key from the index. */
  lemma {:induction false} RemoveAtIndex<K, V>(s: seq<Entry<K, V>>, i: nat)
    requires Distinct(s) && i < |s|
    ensures Distinct(RemoveAt(s, i))
    ensures Index(RemoveAt(s, i)) == Index(s) - {s[i].key}
  {
    var r := RemoveAt(s, i);
    if i == 0 {
      assert r == s[1..];
      MapUpdateFresh(Index(s[1..]), s[0].key, s[0].val);
    } else {
      var t := s[1..];
      var rt := RemoveAt(t, i - 1);
      RemoveAtIndex(t, i - 1);
      assert r == [s[0]] + rt;
      assert r[1..] == rt;
      assert t[i - 1] == s[i];
      HeadKeyUnique(s, i);
      MapUpdateRemove(Index(t), s[0].key, s[0].val, s[i].key);
    }
  }

  /** Filtering out a key the list does not hold changes nothing. */
  lemma {:induction false} WithoutAbsent<K, V>(s: seq<Entry<K, V>>, k: K)
    requires k !in KeySet(s)
    ensures Without(s, k) == s
  {
    if s != [] {
      WithoutAbsent(s[1..], k);
    }
  }

  /** Removing the entry at `i` is filtering out its key: the other entries
      keep their relative order. */
  lemma {:induction false} RemoveAtIsWithout<K, V>(s: seq<Entry<K, V>>, i: nat)
    requires Distinct(s) && i < |s|
    ensures RemoveAt(s, i) == Without(s, s[i].key)
  {
    if i == 0 {
      assert RemoveAt(s, 0) == s[1..];
      WithoutAbsent(s[1..], s[0].key);
    } else {
      RemoveAtIsWithout(s[1..], i - 1);
      assert s[1..][i - 1] == s[i];
      HeadKeyUnique(s, i);
      assert RemoveAt(s, i) == [s[0]] + RemoveAt(s[1..], i - 1);
    }
  }

  /** Moving the entry at `i` to the front keeps the same entries (a
      permutation) and the same index, and the others keep their order. */
  lemma MoveToFrontSpec<K, V>(s: seq<Entry<K, V>>, i: nat)
    requires Distinct(s) && i < |s|
    ensures Distinct(MoveToFront(s, i)) && Index(MoveToFront(s, i)) == Index(s)
    ensures multiset(MoveToFront(s, i)) == multiset(s)
    ensures MoveToFront(s, i) == [s[i]] + Without(s, s[i].key)
  {
    var r := RemoveAt(s, i);
    RemoveAtIndex(s, i);
    RemoveAtIsWithout(s, i);
    PushFrontIndex(s[i], r);
    IndexAt(s, i);
    MapRemoveUpdate(Index(s), s[i].key, s[i].val);
    MoveToFrontPermutes(s, i);
  }

  /** Moving an element to the front permutes the sequence. */
  lemma MoveToFrontPermutes<T>(s: seq<T>, i: nat)
    requires i < |s|
    ensures multiset(MoveToFront(s, i)) == multiset(s)
  {
    assert s == s[..i] + [s[i]] + s[i + 1..];
  }

  // ---------------------------------------------------------------------
  // What each operation does to the list and its index

  /** A hit promotes the entry for `k` to the front, leaves the other
      entries in their order, and changes neither the index nor the set of
      entries; a miss changes nothing. */
  lemma TouchSpec<K, V>(s: seq<Entry<K, V>>, k: K)
    requires Distinct(s)
    ensures Distinct(Touch(s, k)) && Index(Touch(s, k)) == Index(s)
    ensures multiset(Touch(s, k)) == multiset(s)
    ensures k in KeySet(s) ==>
      Touch(s, k) == [Entry(k, Index(s)[k])] + Without(s, k)
    ensures k !in KeySet(s) ==> Touch(s, k) == s
  {
    match Find(s, k)
    case None =>
    case Some(i) =>
      MoveToFrontSpec(s, i);
      IndexAt(s, i);
  }

  /** `add` of a key already present: the new value is stored, the entry is
      at the front, the other entries keep their order and the length is
      unchanged. */
  lemma PutExisting<K, V>(s: seq<Entry<K, V>>, k: K, v: V, cap: int)
    requires Distinct(s) && k in KeySet(s)
    ensures Put(s, k, v, cap) == [Entry(k, v)] + Without(s, k)
    ensures |Put(s, k, v, cap)| == |s|
    ensures Distinct(Put(s, k, v, cap))
    ensures Index(Put(s, k, v, cap)) == Index(s)[k := v]
  {
    var i := Find(s, k).value;
    var r := RemoveAt(s, i);
    assert RemoveAt(s[i := Entry(k, v)], i) == r;
    RemoveAtIndex(s, i);
    RemoveAtIsWithout(s, i);
    PushFrontIndex(Entry(k, v), r);
    MapRemoveUpdate(Index(s), k, v);
  }

  /** `add` of a new key: the entry is at the front, the old entries follow
      in their order, and only when the capacity is exceeded the back entry
      of the old list is dropped (from the list and from the index). */
  lemma PutNew<K, V>(s: seq<Entry<K, V>>, k: K, v: V, cap: int)
    requires Distinct(s) && k !in KeySet(s)
    ensures Distinct(Put(s, k, v, cap))
    ensures !Evicts(s, k, cap) ==>
      && Put(s, k, v, cap) == [Entry(k, v)] + s
      && Index(Put(s, k, v, cap)) == Index(s)[k := v]
    ensures Evicts(s, k, cap) ==>
      && s != []
      && Put(s, k, v, cap) == [Entry(k, v)] + DropBack(s)
      && Index(Put(s, k, v, cap)) == (Index(s) - {s[|s| - 1].key})[k := v]
  {
    var e := Entry(k, v);
    assert Find(s, k).None?;
    if Evicts(s, k, cap) {
      var d := DropBack(s);
      DropBackSpec(s);
      DropBackAfterPush(e, s);
      assert k !in KeySet(d) by {
        assert Index(d).Keys == KeySet(d) && Index(s).Keys == KeySet(s);
      }
      PushFrontIndex(e, d);
    } else {
      PushFrontIndex(e, s);
    }
  }

  /** Dropping the back of a pushed-onto list drops the back of the old
      list. */
  lemma DropBackAfterPush<T>(e: T, s: seq<T>)
    requires s != []
    ensures DropBack([e] + s) == [e] + DropBack(s)
  {
  }

  /** The list never outgrows a positive capacity: `add` on a list within
      the capacity leaves one within it. */
  lemma PutWithinCapacity<K, V>(s: seq<Entry<K, V>>, k: K, v: V, cap: int)
    requires Distinct(s) && cap > 0 && |s| <= cap
    ensures |Put(s, k, v, cap)| <= cap
  {
    if k in KeySet(s) {
      PutExisting(s, k, v, cap);
    }
  }

  /** After `add(k, v)` a lookup of `k` finds `v` (for a new key with a
      positive capacity the pushed entry is never the one evicted). */
  lemma PutThenLookup<K, V>(s: seq<Entry<K, V>>, k: K, v: V, cap: int)
    requires Distinct(s)
    ensures Lookup(Put(s, k, v, cap), k) == Some(v)
  {
    LookupIsIndex(Put(s, k, v, cap), k);
    if k in KeySet(s) {
      PutExisting(s, k, v, cap);
    } else {
      PutNew(s, k, v, cap);
    }
  }

  /** `add(k, v)` stores `v` under `k` and touches no other key's value:
      another key either keeps its value or (when it was the evicted back
      entry) is gone. */
  lemma PutIndexKeys<K, V>(s: seq<Entry<K, V>>, k: K, v: V, cap: int)
    requires Distinct(s)
    ensures Distinct(Put(s, k, v, cap))
    ensures k in Index(Put(s, k, v, cap)) && Index(Put(s, k, v, cap))[k] == v
    ensures forall k' :: k' in Index(Put(s, k, v, cap)) && k' != k ==>
      k' in Index(s) && Index(Put(s, k, v, cap))[k'] == Index(s)[k']
  {
    if k in KeySet(s) {
      PutExisting(s, k, v, cap);
    } else {
      PutNew(s, k, v, cap);
    }
  }

  /** Removing a key takes its entry out of the list and the index, leaves
      the other entries in their order, and shortens the list by one; an
      absent key changes nothing. */
  lemma DeleteSpec<K, V>(s: seq<Entry<K, V>>, k: K)
    requires Distinct(s)
    ensures Distinct(Delete(s, k))
    ensures Index(Delete(s, k)) == Index(s) - {k}
    ensures Delete(s, k) == Without(s, k)
    ensures |Delete(s, k)| == if k in KeySet(s) then |s| - 1 else |s|
  {
    match Find(s, k)
    case None =>
      WithoutAbsent(s, k);
    case Some(i) =>
      RemoveAtIndex(s, i);
      RemoveAtIsWithout(s, i);
  }

  /** Dropping the back entry removes exactly that entry: from the list,
      from the index, and one from the length. */
  lemma DropBackSpec<K, V>(s: seq<Entry<K, V>>)
    requires Distinct(s) && s != []
    ensures Distinct(DropBack(s))
    ensures DropBack(s) + [s[|s| - 1]] == s
    ensures Index(DropBack(s)) == Index(s) - {s[|s| - 1].key}
  {
    var n := |s| - 1;
    assert DropBack(s) == RemoveAt(s, n) by {
      assert s[n + 1..] == [];
    }
    RemoveAtIndex(s, n);
  }

  // ---------------------------------------------------------------------
  // Traversal

  /** When `fn` accepts every entry, the traversal visits the whole list. */
  lemma {:induction false} VisitAll<K, V>(s: seq<Entry<K, V>>, fn: (K, V) -> bool)
    requires forall j :: 0 <= j < |s| ==> fn(s[j].key, s[j].val)
    ensures Visit(s, fn) == s
  {
    if s != [] {
      VisitAll(s[1..], fn);
    }
  }

  /** When `fn` first refuses the entry at `i`, the traversal visits exactly
      the entries up to and including `i`. */
  lemma {:induction false} VisitStops<K, V>(s: seq<Entry<K, V>>, fn: (K, V) -> bool, i: nat)
    requires i < |s| && !fn(s[i].key, s[i].val)
    requires forall j :: 0 <= j < i ==> fn(s[j].key, s[j].val)
    ensures Visit(s, fn) == s[..i + 1]
  {
    if i > 0 {
      VisitStops(s[1..], fn, i - 1);
      assert s[..i + 1] == [s[0]] + s[1..][..i];
    }
  }
}
