/**
The whole two-level store and its runs: any sequence of writes, reads, deletions, clears and cleanup
passes, with the clock readings and the iteration order of Clear left open.
*/
module StoreRuns {
  import opened Types
  import opened RecencyList
  import opened TwoLevel
  import opened Sweep
  import opened Routing

  datatype Op =
    | SetOp(key: Key, val: Value, expireAt: int)
    | GetOp(key: Key, now: int, now2: int)
    | DeleteOp(key: Key)
    | ClearOp(order: seq<Key>)
    | SweepOp(now: int)

  datatype Outcome = Outcome(store: seq<Bucket>, reports: seq<Item>)

  // ----- The store -----

  ghost function Home(s: seq<Bucket>, k: Key): (b: Bucket)
    requires s != []
  {
    s[Route(k, |s| - 1)]
  }

  ghost predicate LiveIn(b: Bucket, k: Key) {
    Lookup(b.l1, k).Some? || Lookup(b.l2, k).Some?
  }

  /** Every live entry sits in the bucket its key hashes to. */
  ghost predicate Sound(s: seq<Bucket>) {
    && s != []
    && (forall i :: 0 <= i < |s| ==> WellFormed(s[i]))
    && (forall i, k :: 0 <= i < |s| && LiveIn(s[i], k) ==> i == Route(k, |s| - 1))
  }

  ghost predicate Live(s: seq<Bucket>, k: Key)
    requires s != []
  {
    LiveIn(Home(s, k), k)
  }

  ghost function SetHome(s: seq<Bucket>, k: Key, b: Bucket): seq<Bucket>
    requires s != []
  {
    s[Route(k, |s| - 1) := b]
  }

  ghost function StoreSet(s: seq<Bucket>, key: Key, val: Value, expireAt: int): Outcome
    requires Sound(s)
  {
    var c := Set(Home(s, key), key, val, expireAt);
    Outcome(SetHome(s, key, c.after), c.reports)
  }

  ghost function StoreGet(s: seq<Bucket>, key: Key, now: int, now2: int): Outcome
    requires Sound(s)
  {
    var c := Get(Home(s, key), key, now, now2).change;
    Outcome(SetHome(s, key, c.after), c.reports)
  }

  ghost function StoreDelete(s: seq<Bucket>, key: Key): Outcome
    requires s != []
  {
    var c := Delete(Home(s, key), key);
    Outcome(SetHome(s, key, c.after), c.reports)
  }

  ghost function DeleteKeys(s: seq<Bucket>, ks: seq<Key>): (o: Outcome)
    requires s != []
    ensures |o.store| == |s|
  {
    if ks == [] then Outcome(s, [])
    else
      var o := DeleteKeys(s, ks[..|ks| - 1]);
      var d := StoreDelete(o.store, ks[|ks| - 1]);
      Outcome(d.store, o.reports + d.reports)
  }

  ghost function StoreSweep(s: seq<Bucket>, now: int): Outcome {
    if s == [] then Outcome([], [])
    else
      var o := StoreSweep(s[..|s| - 1], now);
      var c := SweepBucket(s[|s| - 1], now);
      Outcome(o.store + [c.after], o.reports + c.reports)
  }

  ghost function Apply(s: seq<Bucket>, op: Op): Outcome
    requires Sound(s)
  {
    match op
    case SetOp(k, v, e) => StoreSet(s, k, v, e)
    case GetOp(k, now, now2) => StoreGet(s, k, now, now2)
    case DeleteOp(k) => StoreDelete(s, k)
    case ClearOp(order) => DeleteKeys(s, order)
    case SweepOp(now) => StoreSweep(s, now)
  }

  // ----- Soundness -----

  ghost function Fresh(buckets: nat, cap1: nat, cap2: nat): (s: seq<Bucket>)
    requires buckets > 0 && cap1 > 0 && cap2 > 0
    ensures Sound(s)
  {
    seq(buckets, i => Bucket(cap1, cap2, [], []))
  }

  lemma SoundHome(s: seq<Bucket>, k: Key)
    requires Sound(s)
    ensures s != [] && WellFormed(Home(s, k))
  {
  }

  lemma SoundRoutes(s: seq<Bucket>, key: Key, k: Key)
    requires Sound(s) && LiveIn(Home(s, key), k)
    ensures Home(s, k) == Home(s, key) && Route(k, |s| - 1) == Route(key, |s| - 1)
  {
  }

  /** Replacing a bucket by one whose live keys all route there. */
  lemma SoundUpdate(s: seq<Bucket>, key: Key, b: Bucket)
    requires Sound(s) && WellFormed(b)
    requires forall k :: LiveIn(b, k) ==> LiveIn(Home(s, key), k) || k == key
    ensures Sound(SetHome(s, key, b))
  {
    hide LiveIn, WellFormed;
  }

  lemma SetSound(s: seq<Bucket>, key: Key, val: Value, expireAt: int)
    requires Sound(s)
    ensures Sound(StoreSet(s, key, val, expireAt).store)
  {
    hide Lookup, Set, Evicted;
    var b := Home(s, key);
    SetLookups(b, key, val, expireAt, key);
    forall k ensures LiveIn(Set(b, key, val, expireAt).after, k) ==> LiveIn(b, k) || k == key {
      SetLookups(b, key, val, expireAt, k);
      if Victim1(b, key).Some? { EvictedIsLive(b.l1, b.cap1, key); }
    }
    SoundUpdate(s, key, Set(b, key, val, expireAt).after);
  }

  lemma GetSound(s: seq<Bucket>, key: Key, now: int, now2: int)
    requires Sound(s)
    ensures Sound(StoreGet(s, key, now, now2).store)
  {
    hide Lookup, Get, Evicted;
    var b := Home(s, key);
    GetLookups(b, key, now, now2, key);
    forall k ensures LiveIn(Get(b, key, now, now2).change.after, k) ==> LiveIn(b, k) || k == key {
      GetLookups(b, key, now, now2, k);
    }
    SoundUpdate(s, key, Get(b, key, now, now2).change.after);
  }

  lemma DeleteSound(s: seq<Bucket>, key: Key)
    requires Sound(s)
    ensures Sound(StoreDelete(s, key).store)
  {
    hide Lookup, Delete;
    var b := Home(s, key);
    DeleteLookups(b, key, key);
    forall k ensures LiveIn(Delete(b, key).after, k) ==> LiveIn(b, k) {
      DeleteLookups(b, key, k);
    }
    SoundUpdate(s, key, Delete(b, key).after);
  }

  // ----- Clear -----

  lemma {:induction false} DeleteKeysLookups(s: seq<Bucket>, ks: seq<Key>, k: Key)
    requires Sound(s)
    ensures var t := DeleteKeys(s, ks).store;
            && Sound(t)
            && Lookup(Home(t, k).l1, k) == (if k in ks then None else Lookup(Home(s, k).l1, k))
            && Lookup(Home(t, k).l2, k) == (if k in ks then None else Lookup(Home(s, k).l2, k))
  {
    hide Lookup, Sound, Delete;
    if ks != [] {
      var i, last := ks[..|ks| - 1], ks[|ks| - 1];
      assert ks == i + [last];
      DeleteKeysLookups(s, i, k);
      DeleteKeyLookups(DeleteKeys(s, i).store, last, k);
    }
  }

  lemma DeleteKeyLookups(s: seq<Bucket>, key: Key, k: Key)
    requires Sound(s)
    ensures var t := StoreDelete(s, key).store;
            && Sound(t)
            && Lookup(Home(t, k).l1, k) == (if k == key then None else Lookup(Home(s, k).l1, k))
            && Lookup(Home(t, k).l2, k) == (if k == key then None else Lookup(Home(s, k).l2, k))
  {
    hide Lookup, Delete;
    DeleteSound(s, key);
    DeleteLookups(Home(s, key), key, k);
  }

  ghost predicate StoreNoNil(s: seq<Bucket>) {
    forall i :: 0 <= i < |s| ==> NoNil(s[i])
  }

  ghost function StoreView(s: seq<Bucket>, k: Key): Option<Entry>
    requires s != []
  {
    View(Home(s, k), k)
  }

  ghost function StoreItems(s: seq<Bucket>, ks: seq<Key>): (r: seq<Item>)
    requires s != [] && forall k :: k in ks ==> StoreView(s, k).Some?
    ensures |r| == |ks|
  {
    seq(|ks|, i requires 0 <= i < |ks| => Item(ks[i], StoreView(s, ks[i]).value.val))
  }

  /** `order` is a possible iteration of the key set that Clear collects. */
  ghost predicate ListsLiveKeys(order: seq<Key>, s: seq<Bucket>)
    requires s != []
  {
    NoDuplicates(order) && forall k :: k in order <==> Live(s, k)
  }

  /**
  Clear hashes each collected key again to find its bucket. Because every entry is in the bucket its
  key hashes to, no live entry is left in any bucket, whatever the iteration order.
  */
  lemma ClearRemovesEverything(s: seq<Bucket>, order: seq<Key>, i: nat, k: Key)
    requires Sound(s) && ListsLiveKeys(order, s) && i < |s|
    ensures !LiveIn(DeleteKeys(s, order).store[i], k)
  {
    hide Lookup, DeleteKeys;
    DeleteKeysLookups(s, order, k);
  }

  /** What deleting each of the keys on its own would report, one after the other. */
  ghost function StoreReports(s: seq<Bucket>, ks: seq<Key>): seq<Item>
    requires s != []
  {
    if ks == [] then []
    else StoreReports(s, ks[..|ks| - 1]) + Delete(Home(s, ks[|ks| - 1]), ks[|ks| - 1]).reports
  }

  lemma {:induction false} DeleteKeysReports(s: seq<Bucket>, ks: seq<Key>)
    requires Sound(s) && NoDuplicates(ks)
    ensures DeleteKeys(s, ks).reports == StoreReports(s, ks)
  {
    hide Lookup, Sound;
    if ks != [] {
      var i, last := ks[..|ks| - 1], ks[|ks| - 1];
      assert ks == i + [last];
      DeleteKeysReports(s, i);
      DeleteKeysLookups(s, i, last);
    }
  }

  lemma {:induction false} StoreReportsAreItems(s: seq<Bucket>, ks: seq<Key>)
    requires s != [] && StoreNoNil(s) && forall k :: k in ks ==> StoreView(s, k).Some?
    ensures StoreReports(s, ks) == StoreItems(s, ks)
  {
    hide Lookup, StoreNoNil;
    if ks != [] {
      var i, last := ks[..|ks| - 1], ks[|ks| - 1];
      assert ks == i + [last];
      StoreReportsAreItems(s, i);
      HomeNoNil(s, last);
      assert StoreItems(s, ks) == StoreItems(s, i) + [Item(last, StoreView(s, last).value.val)];
    }
  }

  /**
  Clear tells the callback of each distinct live key what deleting it alone would tell; if no value is
  nil, that is each key once, with the value a client would have read.
  */
  lemma ClearReports(s: seq<Bucket>, order: seq<Key>)
    requires Sound(s) && ListsLiveKeys(order, s)
    ensures forall k :: k in order ==> StoreView(s, k).Some?
    ensures DeleteKeys(s, order).reports == StoreReports(s, order)
    ensures StoreNoNil(s) ==> StoreReports(s, order) == StoreItems(s, order)
  {
    hide Lookup, StoreNoNil, DeleteKeys;
    forall k | k in order ensures StoreView(s, k).Some? {
      assert Live(s, k);
    }
    DeleteKeysReports(s, order);
    if StoreNoNil(s) { StoreReportsAreItems(s, order); }
  }

  lemma HomeNoNil(s: seq<Bucket>, k: Key)
    requires s != [] && StoreNoNil(s) && StoreView(s, k).Some?
    ensures StoreView(s, k).value.val != Nil
  {
    hide Lookup;
  }

  // ----- Cleanup -----

  lemma {:induction false} SweepBuckets(s: seq<Bucket>, now: int)
    ensures var o := StoreSweep(s, now);
            && |o.store| == |s|
            && (forall i :: 0 <= i < |s| ==> o.store[i] == SweepBucket(s[i], now).after)
            && (forall x :: x in o.reports <==> exists i :: 0 <= i < |s| && x in SweepBucket(s[i], now).reports)
  {
    hide SweepBucket;
    if s != [] {
      var i, b := s[..|s| - 1], s[|s| - 1];
      SweepBuckets(i, now);
      var o := StoreSweep(s, now);
      forall x | x in o.reports ensures exists j :: 0 <= j < |s| && x in SweepBucket(s[j], now).reports {
        if x in StoreSweep(i, now).reports {
          var j :| 0 <= j < |i| && x in SweepBucket(i[j], now).reports;
          assert x in SweepBucket(s[j], now).reports;
        } else {
          assert x in SweepBucket(s[|s| - 1], now).reports;
        }
      }
      forall x, j | 0 <= j < |s| && x in SweepBucket(s[j], now).reports ensures x in o.reports {
        if j < |i| { assert x in SweepBucket(i[j], now).reports; }
      }
    }
  }

  lemma SweepSound(s: seq<Bucket>, now: int)
    requires Sound(s)
    ensures Sound(StoreSweep(s, now).store) && |StoreSweep(s, now).store| == |s|
  {
    hide Lookup, StoreSweep, SweepBucket, HasDueCopy, WellFormed;
    SweepBuckets(s, now);
    var t := StoreSweep(s, now).store;
    forall i | 0 <= i < |s| ensures WellFormed(t[i]) {
      SweepExact(s[i], now, EMPTY);
    }
    forall i, q | 0 <= i < |t| && LiveIn(t[i], q) ensures i == Route(q, |t| - 1) {
      SweepExact(s[i], now, q);
      assert LiveIn(s[i], q);
    }
  }

  lemma SweptKeyReported(s: seq<Bucket>, now: int, k: Key)
    requires Sound(s) && StoreNoNil(s) && HasDueCopy(Home(s, k), k, now)
    ensures exists v :: Item(k, v) in StoreSweep(s, now).reports
  {
    hide Lookup, StoreSweep, SweepBucket, HasDueCopy, ExpiredKeys;
    SweepBuckets(s, now);
    var b := Home(s, k);
    var ks := ExpiredKeys(b, now);
    SweepExact(b, now, k);
    ExpiredKeysExact(b, now, k);
    var j :| 0 <= j < |ks| && ks[j] == k;
    assert ItemsOf(b, ks)[j] == Item(k, View(b, k).value.val);
    assert Item(k, View(b, k).value.val) in SweepBucket(b, now).reports;
  }

  /** A pass over all buckets removes both copies of every key that has an expired one, and no more. */
  lemma SweepLookups(s: seq<Bucket>, now: int, k: Key)
    requires Sound(s)
    ensures var o := StoreSweep(s, now);
            var due := HasDueCopy(Home(s, k), k, now);
            && Sound(o.store) && |o.store| == |s|
            && Lookup(Home(o.store, k).l1, k) == (if due then None else Lookup(Home(s, k).l1, k))
            && Lookup(Home(o.store, k).l2, k) == (if due then None else Lookup(Home(s, k).l2, k))
  {
    hide Lookup, StoreSweep, SweepBucket, HasDueCopy;
    SweepBuckets(s, now);
    SweepSound(s, now);
    SweepExact(Home(s, k), now, k);
  }

  // ----- Runs -----

  /** Whatever the operation, every live entry stays in the bucket its key hashes to. */
  lemma StepSound(s: seq<Bucket>, op: Op)
    requires Sound(s)
    ensures Sound(Apply(s, op).store)
  {
    hide Lookup, Sound, StoreSet, StoreGet, StoreDelete, DeleteKeys, StoreSweep;
    match op
    case SetOp(key, v, e) => SetSound(s, key, v, e);
    case GetOp(key, now, now2) => GetSound(s, key, now, now2);
    case DeleteOp(key) => DeleteSound(s, key);
    case ClearOp(order) => DeleteKeysLookups(s, order, EMPTY);
    case SweepOp(now) => SweepSound(s, now);
  }

  /** The store after any sequence of operations at all. */
  ghost function Run(s: seq<Bucket>, ops: seq<Op>): (t: seq<Bucket>)
    requires Sound(s)
    ensures Sound(t)
    decreases |ops|
  {
    if ops == [] then s
    else
      StepSound(s, ops[0]);
      Run(Apply(s, ops[0]).store, ops[1..])
  }
}
