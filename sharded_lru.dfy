/** The sharded cache (sharded/lru/lru.go and sharded/lru/options.go): the
    keys are spread over `nshards` independent shards by hashing, the
    capacity is divided evenly between them, and the cache is configured by
    a list of options applied in order. */
module ShardedLru {
  import opened Recency
  import opened Router
  import opened ShardStore

  // ---------------------------------------------------------------------
  // Go's integer division

  function Abs(x: int): nat {
    if x < 0 then -x else x
  }

  /** Go's `a / b` on ints: the quotient truncated toward zero (Dafny's `/`
      is Euclidean and differs for a negative dividend). */
  function GoDiv(a: int, b: int): int
    requires b != 0
  {
    var q := Abs(a) / Abs(b);
    if (a < 0) == (b < 0) then q else -q
  }

  /** For a positive divisor the truncated quotient leaves a remainder
      smaller than the divisor and of the dividend's sign. */
  lemma GoDivSpec(a: int, b: int)
    requires b > 0
    ensures a >= 0 ==> 0 <= b * GoDiv(a, b) <= a < b * GoDiv(a, b) + b
    ensures a < 0 ==> b * GoDiv(a, b) - b < a <= b * GoDiv(a, b) <= 0
  {
    var q := Abs(a) / b;
    assert Abs(a) == b * q + Abs(a) % b;
    if a < 0 {
      assert GoDiv(a, b) == -q;
      assert b * GoDiv(a, b) == -(b * q);
    }
  }

  /** The per-shard capacity `cap / nshards`: with at least one entry per
      shard the shards together hold at most `cap` entries; a positive `cap`
      below `nshards` (or a non-positive one) leaves every shard
      unbounded. */
  lemma ShardCapacity(cap: int, nshards: int)
    requires nshards >= 1
    ensures cap >= nshards ==> 1 <= GoDiv(cap, nshards) && nshards * GoDiv(cap, nshards) <= cap
    ensures cap < nshards ==> GoDiv(cap, nshards) <= 0
  {
    GoDivSpec(cap, nshards);
    MulNonPositive(nshards, GoDiv(cap, nshards));
  }

  lemma MulNonPositive(b: int, q: int)
    requires b > 0
    ensures q <= 0 ==> b * q <= 0
  {
  }

  // ---------------------------------------------------------------------
  // Options

  /** The settings the options write. */
  datatype Config = Config(cap: int, nshards: int)

  /** withCapacity and withShards, as the one field each of them sets. */
  datatype Setting = WithCapacity(c: int) | WithShards(n: int) {
    /** The settings after this option has been applied: each option
        writes its own field and leaves the other one as it was. */
    function Set(conf: Config): (r: Config)
      ensures r.cap == if this.WithCapacity? then c else conf.cap
      ensures r.nshards == if this.WithShards? then n else conf.nshards
    {
      match this
      case WithCapacity(c) => conf.(cap := c)
      case WithShards(n) => conf.(nshards := n)
    }

    /** apply: sets the option's one field of `l`. */
    method Apply<V>(l: LRU<V>)
      modifies l
      ensures Config(l.cap, l.nshards) == Set(Config(old(l.cap), old(l.nshards)))
      ensures l.shards == old(l.shards)
    {
      match this
      case WithCapacity(c) => l.cap := c;
      case WithShards(n) => l.nshards := n;
    }
  }

  /** The settings after applying `opts` in order, starting from `conf`. */
  function Configure(conf: Config, opts: seq<Setting>): Config
    decreases |opts|
  {
    if opts == [] then conf else Configure(opts[0].Set(conf), opts[1..])
  }

  /** The capacity the last withCapacity among `opts` sets, or `init`. */
  function LastCapacity(init: int, opts: seq<Setting>): int
    decreases |opts|
  {
    if opts == [] then init
    else if opts[|opts| - 1].WithCapacity? then opts[|opts| - 1].c
    else LastCapacity(init, opts[..|opts| - 1])
  }

  /** The shard count the last withShards among `opts` sets, or `init`. */
  function LastShards(init: int, opts: seq<Setting>): int
    decreases |opts|
  {
    if opts == [] then init
    else if opts[|opts| - 1].WithShards? then opts[|opts| - 1].n
    else LastShards(init, opts[..|opts| - 1])
  }

  /** Applying one more option after `opts` is setting it last. */
  lemma {:induction false} ConfigureSnoc(conf: Config, opts: seq<Setting>, o: Setting)
    ensures Configure(conf, opts + [o]) == o.Set(Configure(conf, opts))
    decreases |opts|
  {
    if opts == [] {
      assert opts + [o] == [o];
    } else {
      assert (opts + [o])[0] == opts[0] && (opts + [o])[1..] == opts[1..] + [o];
      ConfigureSnoc(opts[0].Set(conf), opts[1..], o);
    }
  }

  /** The last option of each kind wins; options of the other kind do not
      interfere. */
  lemma {:induction false} LastSettingWins(conf: Config, opts: seq<Setting>)
    ensures Configure(conf, opts) == Config(LastCapacity(conf.cap, opts), LastShards(conf.nshards, opts))
    decreases |opts|
  {
    if opts != [] {
      var init := opts[..|opts| - 1];
      LastSettingWins(conf, init);
      assert init + [opts[|opts| - 1]] == opts;
      ConfigureSnoc(conf, init, opts[|opts| - 1]);
    }
  }

  // ---------------------------------------------------------------------
  // The cache

  /** The number of entries in `ss`, shard by shard. */
  ghost function TotalLen<V>(ss: seq<Shard<Key, V>>): int
    reads ss
  {
    if ss == [] then 0 else TotalLen(ss[..|ss| - 1]) + |ss[|ss| - 1].order|
  }

  /** Shards of at most `c` entries each hold at most `|ss| * c` together. */
  lemma {:induction false} TotalLenBound<V>(ss: seq<Shard<Key, V>>, c: int)
    requires forall j :: 0 <= j < |ss| ==> |ss[j].order| <= c
    ensures TotalLen(ss) <= |ss| * c
  {
    if ss != [] {
      TotalLenBound(ss[..|ss| - 1], c);
    }
  }

  /** Shard `s` at position `j` of `n` is valid, has capacity `c`, and
      holds only keys that the hash routes to position `j`. */
  ghost predicate ShardHolds<V>(s: Shard<Key, V>, j: nat, c: int, n: int)
    reads s
    requires n >= 1
  {
    && s.Valid()
    && s.cap == c
    && RoutesTo(s.idx, j, n)
  }

  /** Every key of `m` routes to shard position `j` of `n`. */
  ghost predicate RoutesTo<V>(m: map<Key, V>, j: nat, n: int)
    requires n >= 1
  {
    forall key :: key in m ==> ShardIndex(key, n) == j
  }

  /** A shard that only gains the key `k`, which routes to it, still holds
      only keys that route to it. */
  lemma RoutesToAfterAdd<V>(m: map<Key, V>, m': map<Key, V>, k: Key, j: nat, n: int)
    requires n >= 1 && RoutesTo(m, j, n) && ShardIndex(k, n) == j
    requires forall key :: key in m' && key != k ==> key in m
    ensures RoutesTo(m', j, n)
  {
  }

  /** The value held for `key` by a cache whose shards have the indexes
      `ms`: what the index of the shard `key` routes to holds. */
  function Held<V>(ms: seq<map<Key, V>>, key: Key): Option<V>
    requires ms != []
  {
    var m := ms[ShardIndex(key, |ms|)];
    if key in m then Some(m[key]) else None
  }

  /** Deleting `key` from the index of the shard it routes to: nothing is
      held for `key` any more, and every other key keeps its value, whether
      it lives in the same shard or another one. */
  lemma HeldAfterRemove<V>(ms: seq<map<Key, V>>, key: Key, other: Key)
    requires ms != []
    ensures var i := ShardIndex(key, |ms|);
      Held(ms[i := ms[i] - {key}], other) == if other == key then None else Held(ms, other)
  {
  }

  class LRU<V> {
    /** Maximum number of entries; `cap < 1` means unbounded. */
    var cap: int
    /** Number of shards; 0 only in the zero value. */
    var nshards: int
    /** The shards; empty only in the zero value, before lazyInit. */
    var shards: seq<Shard<Key, V>>

    /** Once allocated there are `nshards` distinct shards, each valid,
        each with capacity `cap / nshards`, and each holding only keys that
        the hash routes to it. */
    ghost predicate Valid()
      reads this, shards
    {
      shards != [] ==>
        && nshards == |shards|
        && (forall j, k :: 0 <= j < k < |shards| ==> shards[j] != shards[k])
        && (forall j :: 0 <= j < |shards| ==> ShardHolds(shards[j], j, GoDiv(cap, nshards), nshards))
    }

    /** The value the cache holds for `key`: what the index of the shard
        that `key` routes to holds. */
    ghost function Value(key: Key): Option<V>
      reads this, shards
      requires Valid() && shards != []
    {
      Held(Indexes(), key)
    }

    /** The shards' indexes, in shard order. */
    ghost function Indexes(): (ms: seq<map<Key, V>>)
      reads this, shards
      ensures |ms| == |shards|
      ensures forall j :: 0 <= j < |shards| ==> ms[j] == shards[j].idx
    {
      seq(|shards|, j requires 0 <= j < |shards| reads this, shards => shards[j].idx)
    }

    /** A key found in any shard is the value the cache holds for it: the
        routing sends every lookup to the one shard that can hold the key. */
    lemma RoutedLookup(key: Key, j: nat)
      requires Valid() && j < |shards| && key in shards[j].idx
      ensures Value(key) == Some(shards[j].idx[key])
    {
    }

    /** The zero value `LRU{}`: no shards yet. */
    constructor Zero()
      ensures Valid() && cap == 0 && nshards == 0 && shards == []
    {
      cap := 0;
      nshards := 0;
      shards := [];
    }

    /** New(opts...): applies the options in order, raises a shard count
        below 1 to 1, and creates that many empty shards of capacity
        `cap / nshards` each. */
    constructor (opts: seq<Setting>)
      ensures Valid()
      ensures var conf := Configure(Config(0, 0), opts);
        && cap == conf.cap
        && nshards == (if conf.nshards < 1 then 1 else conf.nshards)
      ensures |shards| == nshards
      ensures forall j :: 0 <= j < |shards| ==> fresh(shards[j]) && shards[j].order == []
    {
      cap := 0;
      nshards := 0;
      shards := [];
      new;
      for j := 0 to |opts|
        invariant Config(cap, nshards) == Configure(Config(0, 0), opts[..j])
        invariant shards == []
      {
        opts[j].Apply(this);
        ConfigureSnoc(Config(0, 0), opts[..j], opts[j]);
        assert opts[..j + 1] == opts[..j] + [opts[j]];
      }
      assert opts[..|opts|] == opts;
      if nshards < 1 {
        nshards := 1;
      }
      ghost var conf := Config(cap, nshards);
      var c := GoDiv(cap, nshards);
      for j := 0 to nshards
        invariant Config(cap, nshards) == conf
        invariant |shards| == j
        invariant forall i :: 0 <= i < j ==> fresh(shards[i])
        invariant forall i, k :: 0 <= i < k < j ==> shards[i] != shards[k]
        invariant forall i :: 0 <= i < j ==>
          shards[i].Valid() && shards[i].cap == c && shards[i].order == []
      {
        var s := new Shard(c);
        shards := shards + [s];
      }
    }

    /** lazyInit: the zero value gets one shard holding the whole capacity;
        an allocated cache is left as it is. */
    method LazyInit()
      requires Valid()
      modifies this
      ensures Valid() && shards != [] && cap == old(cap)
      ensures old(shards) != [] ==> nshards == old(nshards) && shards == old(shards)
      ensures old(shards) == [] ==>
        && nshards == 1 && |shards| == 1 && fresh(shards[0])
        && shards[0].order == [] && shards[0].cap == cap
    {
      if shards == [] {
        nshards := 1;
        var s := new Shard(cap);
        shards := [s];
      }
    }

    /** Len: the sum of the shards' entry counts. */
    method Len() returns (n: int)
      requires Valid()
      modifies this
      ensures Valid() && shards != [] && cap == old(cap)
      ensures old(shards) != [] ==> nshards == old(nshards) && shards == old(shards)
      ensures old(shards) == [] ==> nshards == 1 && |shards| == 1 && shards[0].order == []
      ensures n == TotalLen(shards)
    {
      LazyInit();
      n := SumShardLens();
    }

    /** The loop of Len: adds up the shards' counters. */
    method SumShardLens() returns (n: int)
      requires Valid() && shards != []
      ensures n == TotalLen(shards)
    {
      n := 0;
      for i := 0 to nshards
        invariant n == TotalLen(shards[..i])
      {
        assert shards[..i + 1][..i] == shards[..i];
        n := n + shards[i].Len();
      }
      assert shards[..nshards] == shards;
    }

    /** With at least one entry's room per shard, the cache as a whole
        never holds more than `cap` entries. */
    lemma WithinCapacity()
      requires Valid() && shards != [] && cap >= nshards
      ensures TotalLen(shards) <= cap
    {
      ShardCapacity(cap, nshards);
      TotalLenBound(shards, GoDiv(cap, nshards));
    }

    /** Add: stores `v` under `k` in the shard `k` routes to; the other
        shards are not changed. */
    method Add(k: Key, v: V)
      requires Valid() && !k.Bytes?
      modifies this, shards
      ensures Valid() && shards != [] && cap == old(cap)
      ensures old(shards) != [] ==> nshards == old(nshards) && shards == old(shards)
      ensures old(shards) == [] ==> nshards == 1 && |shards| == 1 && fresh(shards[0])
      ensures var i := ShardIndex(k, nshards);
        shards[i].order ==
          Put(if old(shards) == [] then [] else old(shards[i].order), k, v, GoDiv(cap, nshards))
      ensures old(shards) != [] ==> forall j :: 0 <= j < |shards| && j != ShardIndex(k, nshards) ==>
        shards[j].order == old(shards[j].order)
      ensures Value(k) == Some(v)
    {
      LazyInit();
      AddToShard(k, v);
    }

    /** `l.shard(k).add(k, v)` on an allocated cache: only the shard `k`
        routes to changes. */
    method AddToShard(k: Key, v: V)
      requires Valid() && shards != [] && !k.Bytes?
      modifies shards[ShardIndex(k, nshards)]
      ensures Valid()
      ensures var s := shards[ShardIndex(k, nshards)];
        s.order == Put(old(s.order), k, v, GoDiv(cap, nshards))
      ensures Value(k) == Some(v)
    {
      var i := ShardIndex(k, nshards);
      var s := shards[i];
      s.Add(k, v);
      RoutesToAfterAdd(old(s.idx), s.idx, k, i, nshards);
    }

    /** PeekFront: the front entry of the shard the int key 1 routes to, or
        nothing when that shard is empty; no entry is changed. */
    method PeekFront() returns (r: Option<Entry<Key, V>>)
      requires Valid()
      modifies this
      ensures Valid() && shards != [] && cap == old(cap)
      ensures old(shards) != [] ==> nshards == old(nshards) && shards == old(shards)
      ensures old(shards) == [] ==> nshards == 1 && |shards| == 1 && shards[0].order == []
      ensures var s := shards[ShardIndex(Int(1), nshards)];
        r == if s.order == [] then None else Some(s.order[0])
    {
      LazyInit();
      r := shards[ShardIndex(Int(1), nshards)].Front();
    }

    /** Get: looks `key` up in the shard it routes to, promoting it there on
        a hit; no shard's index changes, so neither does the value the cache
        holds for any key. */
    method Get(key: Key) returns (r: Option<V>)
      requires Valid() && shards != [] && !key.Bytes?
      modifies shards[ShardIndex(key, nshards)]
      ensures Valid()
      ensures var s := shards[ShardIndex(key, nshards)];
        && r == Lookup(old(s.order), key)
        && s.order == Touch(old(s.order), key)
      ensures r == Value(key)
      ensures Indexes() == old(Indexes())
    {
      var s := shards[ShardIndex(key, nshards)];
      r := s.Get(key);
      LookupIsIndex(old(s.order), key);
    }

    /** Remove: removes `key` from the index and the list of the shard it
        routes to and changes no other shard (`HeldAfterRemove` says what
        this means for every key). */
    method Remove(key: Key)
      requires Valid() && shards != [] && !key.Bytes?
      modifies shards[ShardIndex(key, nshards)]
      ensures Valid()
      ensures var s := shards[ShardIndex(key, nshards)];
        s.order == Delete(old(s.order), key)
      ensures var i := ShardIndex(key, nshards);
        Indexes() == old(Indexes())[i := old(Indexes())[i] - {key}]
      ensures Value(key) == None
    {
      shards[ShardIndex(key, nshards)].RemoveKey(key);
    }

    /** Traverse: as written, the labelled `break L` ends the whole
        traversal when the first shard's list is exhausted, so only the
        first shard's entries are handed to `fn`, from most to least
        recently used, up to and including the first one `fn` refuses. */
    method Traverse(fn: (Key, V) -> bool) returns (visited: seq<Entry<Key, V>>)
      ensures visited == if shards == [] then [] else Visit(shards[0].order, fn)
    {
      visited := [];
      label L:
      for si := 0 to |shards|
        invariant si == 0 && visited == []
      {
        var order := shards[si].order;
        var i := 0;  // the position of `le`; `i == |order|` stands for nil
        while true
          invariant 0 <= i <= |order|
          invariant visited == order[..i]
          invariant forall j :: 0 <= j < i ==> fn(order[j].key, order[j].val)
          decreases |order| - i
        {
          if i == |order| {
            assert order[..i] == order;
            VisitAll(order, fn);
            break L;
          }
          var e := order[i];
          visited := visited + [e];
          if !fn(e.key, e.val) {
            VisitStops(order, fn, i);
            break L;
          }
          i := i + 1;
        }
      }
    }

    /** TraverseReverse: as Traverse, over the first shard's entries from
        least to most recently used. */
    method TraverseReverse(fn: (Key, V) -> bool) returns (visited: seq<Entry<Key, V>>)
      ensures visited == if shards == [] then [] else Visit(Reversed(shards[0].order), fn)
    {
      visited := [];
      label L:
      for si := 0 to |shards|
        invariant si == 0 && visited == []
      {
        var order := shards[si].order;
        ghost var rev := Reversed(order);
        var i := |order|;  // `le` is order[i - 1]; `i == 0` stands for nil
        while true
          invariant 0 <= i <= |order|
          invariant visited == rev[..|order| - i]
          invariant forall j :: 0 <= j < |order| - i ==> fn(rev[j].key, rev[j].val)
          decreases i
        {
          if i == 0 {
            assert rev[..|order|] == rev;
            VisitAll(rev, fn);
            break L;
          }
          var e := order[i - 1];
          assert e == rev[|order| - i];
          visited := visited + [e];
          if !fn(e.key, e.val) {
            VisitStops(rev, fn, |order| - i);
            break L;
          }
          i := i - 1;
        }
      }
    }

    /** The traversal gap: even with a callback that accepts everything,
        `Traverse` hands `fn` exactly the entries of `shards[0]`, and so no
        entry held by a later shard. */
    lemma TraverseMissesLaterShards(fn: (Key, V) -> bool, j: nat, e: Entry<Key, V>)
      requires Valid() && 0 < j < |shards|
      requires forall k, v :: fn(k, v)
      requires e in shards[j].order
      ensures Visit(shards[0].order, fn) == shards[0].order
      ensures e !in Visit(shards[0].order, fn)
    {
      var first := shards[0].order;
      VisitAll(first, fn);
      var p :| 0 <= p < |shards[j].order| && shards[j].order[p] == e;
      KeyAt(shards[j].order, p);
      assert ShardHolds(shards[j], j, GoDiv(cap, nshards), nshards);
      assert ShardHolds(shards[0], 0, GoDiv(cap, nshards), nshards);
      assert e.key !in KeySet(first);
      forall i | 0 <= i < |first|
        ensures first[i] != e
      {
        KeyAt(first, i);
      }
    }
  }
}
