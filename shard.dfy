/** One shard of the sharded cache (sharded/lru/shard.go): a recency list,
    an index from key to list entry, a capacity and an entry counter. The
    shard lock and the atomic counter become plain sequential state. */
module ShardStore {
  import opened Recency

  class Shard<K(==), V> {
    /** Maximum number of entries; `cap <= 0` means unbounded. */
    var cap: int
    /** Entry counter (an atomic int32 in Go, read without the lock). */
    var len: int
    /** The recency list, most recently used first. */
    var order: seq<Entry<K, V>>
    /** The index; each key maps to the value its list entry holds. */
    var idx: map<K, V>

    /** List and index agree and the counter is the list length. This holds
        between any two steps of an operation. */
    ghost predicate Consistent()
      reads this
    {
      && Distinct(order)
      && idx == Index(order)
      && len == |order|
    }

    /** The shard invariant: consistent and within a positive capacity. This
        holds between operations. */
    ghost predicate Valid()
      reads this
    {
      Consistent() && (cap > 0 ==> len <= cap)
    }

    /** newShard: an empty list, an empty index, a zero count. */
    constructor (cap: int)
      ensures Valid()
      ensures this.cap == cap && order == [] && idx == map[] && len == 0
    {
      this.cap := cap;
      len := 0;
      order := [];
      idx := map[];
    }

    /** Len: the counter, which is both the list length and the index size. */
    function Len(): (n: int)
      reads this
      requires Consistent()
      ensures n == |order| && n == |idx|
    {
      IndexSize(order);
      len
    }

    /** add: stores `v` under `k` as the most recently used entry, evicting
        the least recently used one when a new key overflows the capacity. */
    method Add(k: K, v: V)
      requires Valid()
      modifies this
      ensures Valid() && cap == old(cap)
      ensures order == Put(old(order), k, v, cap)
      ensures k in idx && idx[k] == v
      ensures forall key :: key in idx && key != k ==> key in old(idx) && idx[key] == old(idx)[key]
    {
      if k in idx {
        var i := Find(order, k).value;
        PutExisting(order, k, v, cap);
        order := MoveToFront(order[i := Entry(k, v)], i);
        idx := idx[k := v];
        return;
      }
      ghost var before := order;
      PutNew(before, k, v, cap);
      PushFrontIndex(Entry(k, v), order);
      order := [Entry(k, v)] + order;
      idx := idx[k := v];
      len := len + 1;
      if cap > 0 && Len() > cap {
        var _ := RemoveOldest();
        assert order == DropBack([Entry(k, v)] + before);
      }
    }

    /** front: the most recently used entry, or nothing when the shard is
        empty; the shard is not changed. */
    method Front() returns (r: Option<Entry<K, V>>)
      requires Valid()
      ensures r.None? <==> Len() == 0
      ensures r.Some? ==> r.value == order[0]
      ensures r.Some? ==> r.value.key in idx && idx[r.value.key] == r.value.val
    {
      if Len() == 0 {
        return None;
      }
      IndexAt(order, 0);
      r := Some(order[0]);
    }

    /** get: on a hit, promotes the entry and returns its value; on a miss
        returns nothing and leaves the shard as it was. */
    method Get(k: K) returns (r: Option<V>)
      requires Valid()
      modifies this
      ensures Valid() && cap == old(cap)
      ensures r == Lookup(old(order), k)
      ensures order == Touch(old(order), k)
      ensures idx == old(idx) && len == old(len)
    {
      LookupIsIndex(order, k);
      TouchSpec(order, k);
      if k in idx {
        var i := Find(order, k).value;
        order := MoveToFront(order, i);
        return Some(order[0].val);
      }
      return None;
    }

    /** removeOldest: removes and returns the least recently used entry; a
        no-op on an empty shard. */
    method RemoveOldest() returns (removed: Option<Entry<K, V>>)
      requires Consistent()
      modifies this
      ensures Consistent() && cap == old(cap)
      ensures order == DropBack(old(order))
      ensures old(order) == [] ==> removed.None? && len == old(len) && idx == old(idx)
      ensures old(order) != [] ==>
        && removed == Some(old(order)[|old(order)| - 1])
        && len == old(len) - 1
        && idx == old(idx) - {removed.value.key}
    {
      if order == [] {
        return None;
      }
      assert RemoveAt(order, |order| - 1) == DropBack(order);
      var e := RemoveElement(|order| - 1);
      return Some(e);
    }

    /** removeElement: unlinks the entry at position `i`, deletes its key
        from the index and decrements the counter. */
    method RemoveElement(i: nat) returns (e: Entry<K, V>)
      requires Consistent() && i < |order|
      modifies this
      ensures Consistent() && cap == old(cap)
      ensures e == old(order)[i]
      ensures order == RemoveAt(old(order), i)
      ensures idx == old(idx) - {e.key} && len == old(len) - 1
    {
      e := order[i];
      RemoveAtIndex(order, i);
      order := RemoveAt(order, i);
      idx := idx - {e.key};
      len := len - 1;
    }

    /** removeKey: removes the entry for `key` if there is one. */
    method RemoveKey(key: K)
      requires Valid()
      modifies this
      ensures Valid() && cap == old(cap)
      ensures order == Delete(old(order), key)
      ensures idx == old(idx) - {key}
      ensures len == if key in old(idx) then old(len) - 1 else old(len)
    {
      DeleteSpec(order, key);
      if key !in idx {
        return;
      }
      var i := Find(order, key).value;
      var _ := RemoveElement(i);
    }
  }
}
