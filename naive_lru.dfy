/** The single-lock cache (naive-mutex/lru/lru.go): one recency list and one
    index behind one mutex, usable from its zero value. The mutex becomes
    sequential execution; `hasList` says whether the list exists yet (Go's
    `l.l != nil`). */
module NaiveLru {
  import opened Recency

  class LRU<K(==), V> {
    /** Maximum number of entries; `cap <= 0` means unbounded. */
    var cap: int
    /** False only in the zero value, before lazyInit allocates the list. */
    var hasList: bool
    /** The recency list, most recently used first. */
    var order: seq<Entry<K, V>>
    /** The index; each key maps to the value its list entry holds. */
    var idx: map<K, V>

    /** List and index agree; without a list there are no entries. */
    ghost predicate Consistent()
      reads this
    {
      && Distinct(order)
      && idx == Index(order)
      && (!hasList ==> order == [])
    }

    /** The cache invariant: consistent and within a positive capacity. */
    ghost predicate Valid()
      reads this
    {
      Consistent() && (cap > 0 ==> |order| <= cap)
    }

    /** New(cap): an empty list and index with the given capacity. */
    constructor (cap: int)
      ensures Valid()
      ensures this.cap == cap && hasList && order == [] && idx == map[]
    {
      this.cap := cap;
      hasList := true;
      order := [];
      idx := map[];
    }

    /** The zero value `LRU{}`: no list yet, capacity 0 (unbounded). */
    constructor Zero()
      ensures Valid()
      ensures cap == 0 && !hasList && order == [] && idx == map[]
    {
      cap := 0;
      hasList := false;
      order := [];
      idx := map[];
    }

    /** lazyInit: allocates an empty list and index only when there is no
        list yet, so it never discards entries and a second call does
        nothing. */
    method LazyInit()
      requires Valid()
      modifies this
      ensures Valid() && hasList
      ensures cap == old(cap) && order == old(order) && idx == old(idx)
    {
      if !hasList {
        hasList := true;
        order := [];
        idx := map[];
      }
    }

    /** Len: the list length after lazyInit, which is also the index size. */
    method Len() returns (n: int)
      requires Valid()
      modifies this
      ensures Valid() && hasList
      ensures cap == old(cap) && order == old(order) && idx == old(idx)
      ensures n == |order| && n == |idx|
    {
      LazyInit();
      IndexSize(order);
      n := |order|;
    }

    /** Add: stores `v` under `k` as the most recently used entry, removing
        the oldest entry when a new key overflows a positive capacity. */
    method Add(k: K, v: V)
      requires Valid()
      modifies this
      ensures Valid() && hasList && cap == old(cap)
      ensures order == Put(old(order), k, v, cap)
    {
      LazyInit();
      if k in idx {
        var i := Find(order, k).value;
        PutExisting(order, k, v, cap);
        order := MoveToFront(order[i := Entry(k, v)], i);
        idx := idx[k := v];
        return;
      }
      ghost var before := order;
      PutNew(before, k, v, cap);
      PushFrontIndex(Entry(k, v), order);
      order := [Entry(k, v)] + order;
      idx := idx[k := v];
      if cap > 0 && |order| > cap {
        var _ := RemoveOldest();
        assert order == DropBack([Entry(k, v)] + before);
      }
    }

    /** PeekFront: the most recently used entry, or nothing when the cache is
        empty; the entries are not changed. */
    method PeekFront() returns (r: Option<Entry<K, V>>)
      requires Valid()
      modifies this
      ensures Valid() && hasList
      ensures cap == old(cap) && order == old(order) && idx == old(idx)
      ensures r == if order == [] then None else Some(order[0])
    {
      LazyInit();
      if |order| == 0 {
        return None;
      }
      r := Some(order[0]);
    }

    /** Get: on a hit, promotes the entry and returns its value; on a miss
        returns nothing and changes no entry. */
    method Get(k: K) returns (r: Option<V>)
      requires Valid()
      modifies this
      ensures Valid() && hasList && cap == old(cap)
      ensures r == Lookup(old(order), k)
      ensures order == Touch(old(order), k)
      ensures idx == old(idx)
    {
      LazyInit();
      LookupIsIndex(order, k);
      TouchSpec(order, k);
      if k in idx {
        var i := Find(order, k).value;
        order := MoveToFront(order, i);
        return Some(order[0].val);
      }
      return None;
    }

    /** removeOldest: removes and returns the least recently used entry; a
        no-op on an empty list. */
    method RemoveOldest() returns (removed: Option<Entry<K, V>>)
      requires Consistent() && hasList
      modifies this
      ensures Consistent() && hasList && cap == old(cap)
      ensures order == DropBack(old(order))
      ensures old(order) == [] ==> removed.None? && idx == old(idx)
      ensures old(order) != [] ==>
        && removed == Some(old(order)[|old(order)| - 1])
        && idx == old(idx) - {removed.value.key}
    {
      if order == [] {
        return None;
      }
      assert RemoveAt(order, |order| - 1) == DropBack(order);
      var e := RemoveElement(|order| - 1);
      return Some(e);
    }

    /** remove: unlinks the entry at position `i` and deletes its key from
        the index. */
    method RemoveElement(i: nat) returns (e: Entry<K, V>)
      requires Consistent() && hasList && i < |order|
      modifies this
      ensures Consistent() && hasList && cap == old(cap)
      ensures e == old(order)[i]
      ensures order == RemoveAt(old(order), i)
      ensures idx == old(idx) - {e.key}
    {
      e := order[i];
      RemoveAtIndex(order, i);
      order := RemoveAt(order, i);
      idx := idx - {e.key};
    }

    /** Remove: removes the entry for `key` if there is one. */
    method Remove(key: K)
      requires Valid()
      modifies this
      ensures Valid() && hasList && cap == old(cap)
      ensures order == Delete(old(order), key)
      ensures idx == old(idx) - {key}
    {
      LazyInit();
      DeleteSpec(order, key);
      if key !in idx {
        return;
      }
      var i := Find(order, key).value;
      var _ := RemoveElement(i);
    }

    /** Traverse: hands the entries to `fn` from most to least recently
        used, stopping right after the first one `fn` refuses; returns the
        entries handed over, in order. */
    method Traverse(fn: (K, V) -> bool) returns (visited: seq<Entry<K, V>>)
      requires hasList
      ensures visited == Visit(order, fn)
    {
      visited := [];
      var i := 0;  // the position of `le`; `i == |order|` stands for nil
      while true
        invariant 0 <= i <= |order|
        invariant visited == order[..i]
        invariant forall j :: 0 <= j < i ==> fn(order[j].key, order[j].val)
        decreases |order| - i
      {
        if i == |order| {
          assert order[..i] == order;
          VisitAll(order, fn);
          break;
        }
        var e := order[i];
        visited := visited + [e];
        if !fn(e.key, e.val) {
          VisitStops(order, fn, i);
          break;
        }
        i := i + 1;
      }
    }

    /** TraverseReverse: as Traverse, from least to most recently used. */
    method TraverseReverse(fn: (K, V) -> bool) returns (visited: seq<Entry<K, V>>)
      requires hasList
      ensures visited == Visit(Reversed(order), fn)
    {
      ghost var rev := Reversed(order);
      visited := [];
      var i := |order|;  // `le` is order[i - 1]; `i == 0` stands for nil
      while true
        invariant 0 <= i <= |order|
        invariant visited == rev[..|order| - i]
        invariant forall j :: 0 <= j < |order| - i ==> fn(rev[j].key, rev[j].val)
        decreases i
      {
        if i == 0 {
          assert rev[..|order|] == rev;
          VisitAll(rev, fn);
          break;
        }
        var e := order[i - 1];
        assert e == rev[|order| - i];
        visited := visited + [e];
        if !fn(e.key, e.val) {
          VisitStops(rev, fn, |order| - i);
          break;
        }
        i := i - 1;
      }
    }
  }
}
