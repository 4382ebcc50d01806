/** The two-level store object: buckets of two caches each, routed by the masked hash of the key. */
module Lru2Store {
  import opened Types
  import opened RecencyList
  import opened SlotCache
  import opened TwoLevel
  import opened Sweep
  import opened Routing
  import opened StoreRuns
  import opened Levels

  /** The number of live copies, a key that is live in both levels counting twice. */
  ghost function Copies(s: seq<Bucket>): nat {
    if s == [] then 0
    else Copies(s[..|s| - 1]) + |LiveNodes(s[|s| - 1].l1)| + |LiveNodes(s[|s| - 1].l2)|
  }

  /** The keys live in a level of some bucket: level one if `first`, otherwise level two. */
  ghost function LevelKeys(s: seq<Bucket>, first: bool): set<Key> {
    if s == [] then {}
    else
      var b := s[|s| - 1];
      LevelKeys(s[..|s| - 1], first) + Names(LiveNodes(if first then b.l1 else b.l2))
  }

  lemma {:induction false} NamesCount(ns: seq<Node>)
    requires Distinct(ns)
    ensures |Names(ns)| == |ns|
  {
    if ns != [] {
      var i, n := ns[..|ns| - 1], ns[|ns| - 1];
      NamesCount(i);
      assert ns == i + [n];
      assert Names(ns) == Names(i) + {n.key};
      assert n.key !in Names(i);
    }
  }

  /** The first `n` buckets of a sound store. */
  ghost predicate SoundPrefix(s: seq<Bucket>, all: seq<Bucket>) {
    Sound(all) && |s| <= |all| && s == all[..|s|]
  }

  lemma {:induction false} InLevelKeys(s: seq<Bucket>, all: seq<Bucket>, first: bool, k: Key)
    requires SoundPrefix(s, all)
    ensures k in LevelKeys(s, first) <==>
            Route(k, |all| - 1) < |s| && Lookup(if first then Home(all, k).l1 else Home(all, k).l2, k).Some?
  {
    hide Lookup, Names;
    if s != [] {
      var n := |s| - 1;
      assert s[..n] == all[..n];
      InLevelKeys(s[..n], all, first, k);
      NamesOfLive(s[n].l1, k);
      NamesOfLive(s[n].l2, k);
      LiveRoutes(all, n, k);
    }
  }

  lemma LiveRoutes(all: seq<Bucket>, n: nat, k: Key)
    requires Sound(all) && n < |all|
    ensures WellFormed(all[n])
    ensures Lookup(all[n].l1, k).Some? || Lookup(all[n].l2, k).Some? ==> Route(k, |all| - 1) == n
  {
    hide Lookup;
    assert LiveIn(all[n], k) ==> Route(k, |all| - 1) == n;
  }

  lemma {:induction false} CopiesCounted(s: seq<Bucket>, all: seq<Bucket>)
    requires SoundPrefix(s, all)
    ensures Copies(s) == |LevelKeys(s, true)| + |LevelKeys(s, false)|
  {
    if s != [] {
      var n := |s| - 1;
      assert s[..n] == all[..n];
      CopiesCounted(s[..n], all);
      LevelCounted(s, all, true);
      LevelCounted(s, all, false);
    }
  }

  lemma LevelCounted(s: seq<Bucket>, all: seq<Bucket>, first: bool)
    requires SoundPrefix(s, all) && s != []
    ensures var b := s[|s| - 1];
            |LevelKeys(s, first)| ==
            |LevelKeys(s[..|s| - 1], first)| + |LiveNodes(if first then b.l1 else b.l2)|
  {
    hide Lookup;
    var n := |s| - 1;
    var l := if first then s[n].l1 else s[n].l2;
    var a, b := LevelKeys(s[..n], first), Names(LiveNodes(l));
    assert s[..n] == all[..n] && s[n] == all[n];
    LiveRoutes(all, n, EMPTY);
    LiveNodesDistinct(l);
    NamesCount(LiveNodes(l));
    forall k | k in a ensures k !in b {
      InLevelKeys(s[..n], all, first, k);
      LiveRoutes(all, n, k);
      NamesOfLive(l, k);
    }
    assert a !! b;
  }

  /**
  What Len counts: the keys with a live entry in level one and those with one in level two, so a key
  that has both counts twice.
  */
  lemma LenCountsKeysPerLevel(s: seq<Bucket>, k: Key)
    requires Sound(s)
    ensures Copies(s) == |LevelKeys(s, true)| + |LevelKeys(s, false)|
    ensures k in LevelKeys(s, true) <==> Lookup(Home(s, k).l1, k).Some?
    ensures k in LevelKeys(s, false) <==> Lookup(Home(s, k).l2, k).Some?
  {
    hide Lookup, LevelKeys, Copies;
    assert s == s[..|s|];
    CopiesCounted(s, s);
    InLevelKeys(s, s, true, k);
    InLevelKeys(s, s, false, k);
  }

  lemma NoneSwept(now: int)
    ensures StoreSweep([], now) == Outcome([], [])
  {
  }

  lemma SweptOneMore(s: seq<Bucket>, i: nat, now: int)
    requires i < |s|
    ensures var o := StoreSweep(s[..i], now);
            var c := SweepBucket(s[i], now);
            StoreSweep(s[..i + 1], now) == Outcome(o.store + [c.after], o.reports + c.reports)
  {
    assert s[..i + 1][..i] == s[..i];
  }

  function Names(ns: seq<Node>): set<Key> {
    set n | n in ns :: n.key
  }

  lemma NamesOfLive(s: seq<Node>, k: Key)
    requires Distinct(s)
    ensures k in Names(LiveNodes(s)) <==> Lookup(s, k).Some?
  {
    hide Lookup, Distinct;
    if k in Names(LiveNodes(s)) {
      var n :| n in LiveNodes(s) && n.key == k;
      LiveNodesMembers(s, n);
      LookupMembers(s, k, EntryOf(n));
    }
    if Lookup(s, k).Some? {
      LookupMembers(s, k, Lookup(s, k).value);
      assert Node(k, Lookup(s, k).value.val, Lookup(s, k).value.expireAt, false).key in Names(LiveNodes(s));
    }
  }

  /** The keys live in one of the first `n` buckets. */
  ghost predicate LiveAmong(s: seq<Bucket>, n: nat, k: Key)
    requires n <= |s|
  {
    exists i :: 0 <= i < n && LiveIn(s[i], k)
  }

  lemma NoneLive(s: seq<Bucket>)
    ensures forall k :: !LiveAmong(s, 0, k)
  {
  }

  lemma LiveAmongNext(s: seq<Bucket>, n: nat, k: Key)
    requires n < |s| && WellFormed(s[n])
    ensures LiveAmong(s, n + 1, k) <==>
            LiveAmong(s, n, k) || k in Names(LiveNodes(s[n].l1)) || k in Names(LiveNodes(s[n].l2))
  {
    hide Lookup, Names;
    NamesOfLive(s[n].l1, k);
    NamesOfLive(s[n].l2, k);
  }

  lemma LiveAmongAll(s: seq<Bucket>, k: Key)
    requires Sound(s)
    ensures LiveAmong(s, |s|, k) <==> Live(s, k)
  {
    hide LiveIn;
  }

  /** No two caches share memory. */
  ghost predicate AllApart(f: seq<Cache>, g: seq<Cache>) {
    && (forall i, j :: 0 <= i < |f| && 0 <= j < |g| ==> Apart(f[i], g[j]))
    && (forall i, j :: 0 <= i < j < |f| ==> Apart(f[i], f[j]))
    && (forall i, j :: 0 <= i < j < |g| ==> Apart(g[i], g[j]))
  }

  ghost predicate Owns(objects: set<object>, c: Cache) {
    c in objects && c.dlnk in objects && c.m in objects
  }

  ghost predicate IsNew(c: Cache, cap: uint16)
    reads c, c.dlnk, c.m
  {
    c.Valid() && c.capacity == cap && c.Contents() == []
  }

  lemma ApartAdded(f: seq<Cache>, g: seq<Cache>, objects: set<object>, c: Cache, d: Cache)
    requires AllApart(f, g) && |f| == |g| && Apart(c, d)
    requires forall i :: 0 <= i < |f| ==> Owns(objects, f[i]) && Owns(objects, g[i])
    requires c !in objects && c.dlnk !in objects && c.m !in objects
    requires d !in objects && d.dlnk !in objects && d.m !in objects
    ensures AllApart(f + [c], g + [d])
  {
  }

  lemma OwnsAdded(f: seq<Cache>, g: seq<Cache>, objects: set<object>, c: Cache, d: Cache)
    requires |f| == |g| && forall i :: 0 <= i < |f| ==> Owns(objects, f[i]) && Owns(objects, g[i])
    ensures var more := objects + {c, c.dlnk, c.m, d, d.dlnk, d.m};
            forall i :: 0 <= i <= |f| ==> Owns(more, (f + [c])[i]) && Owns(more, (g + [d])[i])
  {
  }

  lemma NewBucket(c: Cache, d: Cache, cap1: uint16, cap2: uint16)
    requires IsNew(c, cap1) && IsNew(d, cap2) && Apart(c, d)
    ensures Ready(c, d) && BucketOf(c, d) == Bucket(cap1, cap2, [], [])
  {
    hide Cache.Valid, Cache.Contents;
  }

  method NewPair(cap1: uint16, cap2: uint16) returns (c: Cache, d: Cache)
    requires 1 <= cap1 < 65535 && 1 <= cap2 < 65535
    ensures IsNew(c, cap1) && IsNew(d, cap2) && Apart(c, d)
    ensures fresh({c, c.dlnk, c.m, d, d.dlnk, d.m})
  {
    hide Cache.Valid, Cache.Contents;
    c := new Cache(cap1);
    d := new Cache(cap2);
  }

  method MakeCaches(n: nat, cap1: uint16, cap2: uint16)
    returns (f: seq<Cache>, g: seq<Cache>, ghost objects: set<object>)
    requires 1 <= cap1 < 65535 && 1 <= cap2 < 65535
    ensures |f| == |g| == n && AllApart(f, g) && fresh(objects)
    ensures forall i :: 0 <= i < n ==> Owns(objects, f[i]) && Owns(objects, g[i])
    ensures forall i :: 0 <= i < n ==> IsNew(f[i], cap1) && IsNew(g[i], cap2)
  {
    hide IsNew, Apart, Owns;
    f, g, objects := [], [], {};
    for i := 0 to n
      invariant |f| == |g| == i && AllApart(f, g) && fresh(objects)
      invariant forall j :: 0 <= j < i ==> Owns(objects, f[j]) && Owns(objects, g[j])
      invariant forall j :: 0 <= j < i ==> IsNew(f[j], cap1) && IsNew(g[j], cap2)
    {
      hide AllApart;
      var c, d := NewPair(cap1, cap2);
      ApartAdded(f, g, objects, c, d);
      OwnsAdded(f, g, objects, c, d);
      f, g := f + [c], g + [d];
      objects := objects + {c, c.dlnk, c.m, d, d.dlnk, d.m};
    }
  }

  lemma DeletedOneMore(s: seq<Bucket>, ks: seq<Key>, k: Key)
    requires s != [] && NoDuplicates(ks) && k !in ks
    ensures NoDuplicates(ks + [k])
    ensures var o := DeleteKeys(s, ks);
            var d := StoreDelete(o.store, k);
            DeleteKeys(s, ks + [k]) == Outcome(d.store, o.reports + d.reports)
  {
    hide StoreDelete;
    assert (ks + [k])[..|ks|] == ks;
  }

  lemma NoneDeleted(s: seq<Bucket>)
    requires s != []
    ensures DeleteKeys(s, []) == Outcome(s, []) && NoDuplicates<Key>([])
  {
  }

  /** Zero buckets means sixteen. */
  function BucketMask(bucketCount: bv16): nat {
    MaskOfNextPowOf2(if bucketCount == 0 then 16 else bucketCount) as int
  }

  lemma DefaultMask()
    ensures BucketMask(0) == 15
  {
  }

  class Store {
    const mask: nat
    const first: seq<Cache>
    const second: seq<Cache>
    /** The calls made to the eviction callback so far. */
    var reports: seq<Item>

    ghost const repr: set<object>
    ghost var buckets: seq<Bucket>

    ghost predicate Mirrors(i: nat, b: Bucket)
      requires i < |first| && i < |second|
      reads first[i], first[i].dlnk, first[i].m, second[i], second[i].dlnk, second[i].m
    {
      Ready(first[i], second[i]) && BucketOf(first[i], second[i]) == b
    }

    /** The caches hold what `buckets` says. */
    ghost predicate Consistent()
      reads this, repr
    {
      && this !in repr
      && |first| == |second| == mask + 1
      && AllApart(first, second)
      && |buckets| == mask + 1
      && (forall i :: 0 <= i <= mask ==> Owns(repr, first[i]) && Owns(repr, second[i]))
      && (forall i :: 0 <= i <= mask ==> Mirrors(i, buckets[i]))
    }

    ghost predicate Valid()
      reads this, repr
    {
      Consistent() && Sound(buckets)
    }

    /**
    Zero options take their defaults. More than 32768 buckets would make mask+1 wrap to no bucket at
    all, and a capacity of 65535 would leave a cache without its sentinel.
    */
    constructor (bucketCount: bv16, capPerBucket: uint16, level2Cap: uint16)
      requires bucketCount <= 0x8000 && capPerBucket < 65535 && level2Cap < 65535
      ensures Valid() && fresh(repr) && reports == []
      ensures mask == BucketMask(bucketCount) && (bucketCount == 0 ==> mask == 15)
      ensures buckets == Fresh(mask + 1, if capPerBucket == 0 then 1024 else capPerBucket,
                               if level2Cap == 0 then 1024 else level2Cap)
    {
      hide BucketMask;
      var cap1: uint16 := if capPerBucket == 0 then 1024 else capPerBucket;
      var cap2: uint16 := if level2Cap == 0 then 1024 else level2Cap;
      var top := BucketMask(bucketCount);
      DefaultMask();
      var f, g;
      ghost var objects;
      f, g, objects := MakeCaches(top + 1, cap1, cap2);
      mask, first, second, reports := top, f, g, [];
      repr := objects;
      buckets := Fresh(top + 1, cap1, cap2);
      new;
      hide Sound, Ready, BucketOf, IsNew;
      forall i | 0 <= i <= mask ensures Mirrors(i, buckets[i]) {
        NewBucket(first[i], second[i], cap1, cap2);
      }
    }

    method Locate(key: Key) returns (i: nat)
      ensures i == Route(key, mask)
    {
      var h := HashBKDR(key);
      i := And(h, mask);
    }

    method SetWithExpiration(key: Key, val: Value, expiration: int, now: int)
      requires Valid()
      modifies this, repr
      ensures Valid()
      ensures var o := StoreSet(old(buckets), key, val, ExpireAt(expiration, now));
              buckets == o.store && reports == old(reports) + o.reports
    {
      hide Ready, BucketOf, Sound, Set;
      var expireAt := ExpireAt(expiration, now);
      var i := Locate(key);
      assert Mirrors(i, buckets[i]);
      ghost var o := StoreSet(buckets, key, val, expireAt);
      var more := SetLevels(first[i], second[i], key, val, expireAt);
      buckets := o.store;
      reports := reports + more;
      SetSound(old(buckets), key, val, expireAt);
    }

    method Get(key: Key, now: int, now2: int) returns (result: Lookup2)
      requires Valid()
      modifies this, repr
      ensures Valid()
      ensures var o := StoreGet(old(buckets), key, now, now2);
              buckets == o.store && reports == old(reports) + o.reports
      ensures result == TwoLevel.Get(Home(old(buckets), key), key, now, now2).result
    {
      hide Ready, BucketOf, Sound, TwoLevel.Get;
      var i := Locate(key);
      assert Mirrors(i, buckets[i]);
      ghost var o := StoreGet(buckets, key, now, now2);
      var more;
      result, more := GetLevels(first[i], second[i], key, now, now2);
      buckets := o.store;
      reports := reports + more;
      GetSound(old(buckets), key, now, now2);
    }

    method Delete(key: Key) returns (deleted: bool)
      requires Valid()
      modifies this, repr
      ensures Valid()
      ensures var o := StoreDelete(old(buckets), key);
              buckets == o.store && reports == old(reports) + o.reports
      ensures deleted <==> StoreView(old(buckets), key).Some?
    {
      hide Ready, BucketOf, Sound, TwoLevel.Delete, View;
      var i := Locate(key);
      assert Mirrors(i, buckets[i]);
      ghost var o := StoreDelete(buckets, key);
      var more;
      deleted, more := DeleteLevels(first[i], second[i], key);
      buckets := o.store;
      reports := reports + more;
      DeleteSound(old(buckets), key);
    }

    method SweepAt(i: nat, now: int)
      requires Consistent() && i <= mask
      modifies this, repr
      ensures Consistent()
      ensures var c := SweepBucket(old(buckets)[i], now);
              buckets == old(buckets)[i := c.after] && reports == old(reports) + c.reports
    {
      hide Ready, BucketOf, SweepBucket;
      assert Mirrors(i, buckets[i]);
      ghost var c := SweepBucket(buckets[i], now);
      var more := SweepLevels(first[i], second[i], now);
      buckets := buckets[i := c.after];
      reports := reports + more;
    }

    /** One tick of the cleanup loop. */
    method CleanupPass(now: int)
      requires Valid()
      modifies this, repr
      ensures Valid()
      ensures var o := StoreSweep(old(buckets), now);
              buckets == o.store && reports == old(reports) + o.reports
    {
      hide Mirrors, AllApart, Owns, Sound, SweepBucket, StoreSweep;
      ghost var s := buckets;
      NoneSwept(now);
      assert s[..0] == [];
      for i := 0 to mask + 1
        invariant Consistent()
        invariant |StoreSweep(s[..i], now).store| == i
        invariant buckets == StoreSweep(s[..i], now).store + s[i..]
        invariant reports == old(reports) + StoreSweep(s[..i], now).reports
      {
        SweptOneMore(s, i, now);
        SweepAt(i, now);
      }
      assert s[..mask + 1] == s && s[mask + 1..] == [];
      assert buckets == StoreSweep(s, now).store;
      SweepSound(s, now);
    }

    method Len() returns (n: nat)
      requires Valid()
      ensures n == Copies(buckets)
    {
      hide Sound, Cache.Valid, Cache.Contents, LiveNodes;
      n := 0;
      for i := 0 to mask + 1
        invariant n == Copies(buckets[..i])
      {
        assert Mirrors(i, buckets[i]);
        assert buckets[..i + 1][..i] == buckets[..i];
        var live1 := first[i].Walk();
        var live2 := second[i].Walk();
        n := n + |live1| + |live2|;
      }
      assert buckets[..mask + 1] == buckets;
    }

    lemma HasBuckets()
      requires Valid()
      ensures buckets != []
    {
    }

    method CollectLiveKeys() returns (keys: set<Key>)
      requires Valid()
      ensures forall k :: k in keys <==> Live(buckets, k)
    {
      hide Cache.Valid, Cache.Contents, LiveNodes, Names, Live, LiveAmong, LiveIn, WellFormed;
      keys := {};
      NoneLive(buckets);
      for i := 0 to mask + 1
        invariant forall k :: k in keys <==> LiveAmong(buckets, i, k)
      {
        assert Mirrors(i, buckets[i]);
        var live1 := first[i].Walk();
        var live2 := second[i].Walk();
        forall k ensures k in keys + Names(live1) + Names(live2) <==> LiveAmong(buckets, i + 1, k) {
          LiveAmongNext(buckets, i, k);
        }
        keys := keys + Names(live1) + Names(live2);
      }
      forall k ensures LiveAmong(buckets, mask + 1, k) <==> Live(buckets, k) {
        LiveAmongAll(buckets, k);
      }
    }

    /** The iteration order over the collected key set is the map's own; `order` records it. */
    method Clear() returns (ghost order: seq<Key>)
      requires Valid()
      modifies this, repr
      ensures Valid()
      ensures ListsLiveKeys(order, old(buckets))
      ensures var o := DeleteKeys(old(buckets), order);
              buckets == o.store && reports == old(reports) + o.reports
    {
      hide Valid, StoreDelete, DeleteKeys, Live, NoDuplicates;
      HasBuckets();
      var keys := CollectLiveKeys();
      order := [];
      NoneDeleted(buckets);
      ghost var s, all := buckets, keys;
      while keys != {}
        invariant Valid()
        invariant NoDuplicates(order)
        invariant forall k :: k in all <==> k in keys || k in order
        invariant forall k :: k in keys ==> k !in order
        invariant buckets == DeleteKeys(s, order).store
        invariant reports == old(reports) + DeleteKeys(s, order).reports
        decreases keys
      {
        var k :| k in keys;
        HasBuckets();
        var deleted := Delete(k);
        DeletedOneMore(s, order, k);
        order := order + [k];
        keys := keys - {k};
      }
    }
  }
}
