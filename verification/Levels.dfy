/** The operations of the two-level store on the two caches of one bucket. */
module Levels {
  import opened Types
  import opened RecencyList
  import opened SlotCache
  import opened TwoLevel
  import opened Sweep

  ghost predicate Apart(c: Cache, d: Cache) {
    c != d && c.dlnk != d.dlnk && c.m != d.m
  }

  ghost predicate Ready(c1: Cache, c2: Cache)
    reads c1, c1.dlnk, c1.m, c2, c2.dlnk, c2.m
  {
    c1.Valid() && c2.Valid() && Apart(c1, c2)
  }

  ghost function BucketOf(c1: Cache, c2: Cache): (b: Bucket)
    requires Ready(c1, c2)
    reads c1, c1.dlnk, c1.m, c2, c2.dlnk, c2.m
    ensures WellFormed(b)
  {
    c1.ContentsFit();
    c2.ContentsFit();
    Bucket(c1.capacity, c2.capacity, c1.Contents(), c2.Contents())
  }

  method PutIntoL2(c1: Cache, c2: Cache, key: Key, val: Value, expireAt: int) returns (reports: seq<Item>)
    requires Ready(c1, c2)
    modifies c2, c2.dlnk, c2.m
    ensures Ready(c1, c2)
    ensures Change(BucketOf(c1, c2), reports) == PutL2(old(BucketOf(c1, c2)), Node(key, val, expireAt, false))
  {
    var ev := c2.Put(key, val, expireAt);
    reports := Report(ev);
  }

  method SetLevels(c1: Cache, c2: Cache, key: Key, val: Value, expireAt: int) returns (reports: seq<Item>)
    requires Ready(c1, c2)
    modifies c1, c1.dlnk, c1.m, c2, c2.dlnk, c2.m
    ensures Ready(c1, c2)
    ensures Change(BucketOf(c1, c2), reports) == Set(old(BucketOf(c1, c2)), key, val, expireAt)
  {
    hide Cache.Valid, Cache.Contents, RecencyList.Put;
    ghost var b := BucketOf(c1, c2);
    var ev := c1.Put(key, val, expireAt);
    reports := [];
    if ev.Some? && Storable(ev.value.key, EntryOf(ev.value)) {
      EvictedNodeIsLive(b.l1, b.cap1, Node(key, val, expireAt, false));
      reports := PutIntoL2(c1, c2, ev.value.key, ev.value.val, ev.value.expireAt);
    }
  }

  lemma EvictedNodeIsLive(s: seq<Node>, cap: nat, n: Node)
    requires cap > 0
    ensures RecencyList.Put(s, cap, n).evicted.Some? ==> !RecencyList.Put(s, cap, n).evicted.value.deleted
  {
  }

  method DeleteLevels(c1: Cache, c2: Cache, key: Key) returns (deleted: bool, reports: seq<Item>)
    requires Ready(c1, c2)
    modifies c1, c1.dlnk, c1.m, c2, c2.dlnk, c2.m
    ensures Ready(c1, c2)
    ensures Change(BucketOf(c1, c2), reports) == Delete(old(BucketOf(c1, c2)), key)
    ensures deleted <==> View(old(BucketOf(c1, c2)), key).Some?
  {
    hide Cache.Valid, Cache.Contents, RecencyList.Del;
    var n1 := c1.Del(key);
    var n2 := c2.Del(key);
    deleted := n1.Some? || n2.Some?;
    reports := [];
    if deleted {
      if n1.Some? && n1.value.val != Nil {
        reports := [Item(key, n1.value.val)];
      } else if n2.Some? && n2.value.val != Nil {
        reports := [Item(key, n2.value.val)];
      }
    }
  }

  /** A level-two node that is neither deleted nor out of date; the lookup refreshes it in any case. */
  method LookupL2(c1: Cache, c2: Cache, key: Key, now2: int) returns (r: Option<Node>)
    requires Ready(c1, c2)
    modifies c2`order, c2.dlnk
    ensures Ready(c1, c2)
    ensures var b := old(BucketOf(c1, c2));
            && BucketOf(c1, c2) == b.(l2 := Touch(b.l2, key))
            && (r.Some? <==> Lookup(b.l2, key).Some? && Readable(Lookup(b.l2, key).value, now2))
            && (r.Some? ==> Lookup(b.l2, key) == Some(EntryOf(r.value)))
  {
    hide Cache.Valid, Cache.Contents, Touch;
    r := c2.Get(key);
    if r.Some? {
      var n := r.value;
      if n.deleted {
        return None;
      }
      if n.expireAt == NO_EXPIRATION {
        return r;
      }
      if n.expireAt <= 0 || now2 >= n.expireAt {
        return None;
      }
    }
  }

  lemma DelMiss(s: seq<Node>, k: Key)
    ensures Lookup(s, k).None? ==> RecencyList.Del(s, k) == s
  {
  }

  method GetLevels(c1: Cache, c2: Cache, key: Key, now: int, now2: int)
    returns (result: Lookup2, reports: seq<Item>)
    requires Ready(c1, c2)
    modifies c1, c1.dlnk, c1.m, c2, c2.dlnk, c2.m
    ensures Ready(c1, c2)
    ensures Got(Change(BucketOf(c1, c2), reports), result) == TwoLevel.Get(old(BucketOf(c1, c2)), key, now, now2)
  {
    hide Cache.Valid, Cache.Contents, RecencyList.Del, RecencyList.Put, Touch, TwoLevel.Delete;
    ghost var b := BucketOf(c1, c2);
    var n1 := c1.Del(key);
    if n1.Some? {
      if n1.value.expireAt > 0 && n1.value.expireAt != NO_EXPIRATION && now >= n1.value.expireAt {
        return Miss, [];
      }
      reports := PutIntoL2(c1, c2, key, n1.value.val, n1.value.expireAt);
      return Hit(n1.value.val), reports;
    }
    DelMiss(b.l1, key);
    var n2 := LookupL2(c1, c2, key, now2);
    if n2.Some? {
      if n2.value.expireAt > 0 && n2.value.expireAt != NO_EXPIRATION && now >= n2.value.expireAt {
        var deleted;
        deleted, reports := DeleteLevels(c1, c2, key);
        return Miss, reports;
      }
      return Hit(n2.value.val), [];
    }
    return Miss, [];
  }

  method SweepLevels(c1: Cache, c2: Cache, now: int) returns (reports: seq<Item>)
    requires Ready(c1, c2)
    modifies c1, c1.dlnk, c1.m, c2, c2.dlnk, c2.m
    ensures Ready(c1, c2)
    ensures Change(BucketOf(c1, c2), reports) == SweepBucket(old(BucketOf(c1, c2)), now)
  {
    hide Cache.Valid, Cache.Contents, TwoLevel.Delete, LiveNodes, WellFormed;
    var live1 := c1.Walk();
    var live2 := c2.Walk();
    var expired := Collect(live1, live2, now);
    ghost var b := BucketOf(c1, c2);
    reports := [];
    for i := 0 to |expired|
      invariant Ready(c1, c2)
      invariant Change(BucketOf(c1, c2), reports) == DeleteAll(b, expired[..i])
    {
      assert expired[..i + 1][..i] == expired[..i];
      var deleted, more := DeleteLevels(c1, c2, expired[i]);
      reports := reports + more;
    }
    assert expired[..|expired|] == expired;
  }

  method Collect(live1: seq<Node>, live2: seq<Node>, now: int) returns (expired: seq<Key>)
    ensures expired == CollectL2(live2, now, CollectL1(live1, now))
    ensures forall k :: k in expired <==> exists n :: (n in live1 || n in live2) && n.key == k && 0 < n.expireAt <= now
  {
    expired := [];
    for i := 0 to |live1|
      invariant expired == CollectL1(live1[..i], now)
    {
      assert live1[..i + 1][..i] == live1[..i];
      if live1[i].expireAt > 0 && now >= live1[i].expireAt {
        expired := expired + [live1[i].key];
      }
    }
    assert live1[..|live1|] == live1;
    for i := 0 to |live2|
      invariant expired == CollectL2(live2[..i], now, CollectL1(live1, now))
    {
      assert live2[..i + 1][..i] == live2[..i];
      if live2[i].expireAt > 0 && now >= live2[i].expireAt {
        var known := false;
        for j := 0 to |expired|
          invariant known <==> live2[i].key in expired[..j]
        {
          if expired[j] == live2[i].key { known := true; }
        }
        if !known {
          expired := expired + [live2[i].key];
        }
      }
    }
    assert live2[..|live2|] == live2;
    hide CollectL1, CollectL2;
    forall k ensures k in expired <==> exists n :: (n in live1 || n in live2) && n.key == k && 0 < n.expireAt <= now {
      CollectedAreOver(live1, live2, now, k);
    }
  }
}
