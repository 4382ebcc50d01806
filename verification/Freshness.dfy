/**
What clients of the two-level store can rely on over whole runs. A miss is always accounted for. A
hit is always the last value written for its key and not out of date, provided that successive writes
of a key do not shorten its expiry; without that proviso a stale value can reappear.
*/
module Freshness {
  import opened Types
  import opened RecencyList
  import opened TwoLevel
  import opened Sweep
  import opened StoreRuns

  /**
  What an observer outside the store remembers: the last write of each key since its last deletion,
  the keys reported to the eviction callback since their last write, and the latest clock reading.
  */
  datatype History = History(writes: map<Key, Entry>, reported: set<Key>, clock: int)

  function Named(reports: seq<Item>): set<Key> {
    set i | 0 <= i < |reports| :: reports[i].key
  }

  function Remember(h: History, op: Op, reports: seq<Item>): History {
    var named := h.reported + Named(reports);
    match op
    case SetOp(k, v, e) => History(h.writes[k := Entry(v, e)], named - {k}, h.clock)
    case GetOp(_, _, now2) => History(h.writes, named, now2)
    case DeleteOp(k) => History(h.writes - {k}, named, h.clock)
    case ClearOp(_) => History(map[], named, h.clock)
    case SweepOp(now) => History(h.writes, named, now)
  }

  /** The clock does not run backwards; what is written may be demoted; if `growing`, expiries do not shrink. */
  ghost predicate Allowed(s: seq<Bucket>, h: History, op: Op, growing: bool)
    requires s != []
  {
    match op
    case SetOp(k, v, e) =>
      && Storable(k, Entry(v, e))
      && (growing ==> e <= NO_EXPIRATION && (k in h.writes ==> h.writes[k].expireAt <= e))
    case GetOp(_, now, now2) => h.clock <= now <= now2
    case DeleteOp(_) => true
    case ClearOp(order) => ListsLiveKeys(order, s)
    case SweepOp(now) => h.clock <= now
  }

  /** How the two copies of a key relate to its last write. */
  ghost predicate Consistent(e1: Option<Entry>, e2: Option<Entry>, h: History, k: Key, growing: bool) {
    && (k in h.writes ==>
          && Storable(k, h.writes[k]) && (growing ==> h.writes[k].expireAt <= NO_EXPIRATION)
          && (e1.Some? || e2 == Some(h.writes[k]) || k in h.reported || Expired(h.writes[k].expireAt, h.clock)))
    && (e1.Some? ==> k in h.writes && e1 == Some(h.writes[k]))
    && (e2.Some? ==>
          && k in h.writes && Storable(k, e2.value)
          && (growing ==>
                && e2.value.expireAt <= h.writes[k].expireAt
                && (e1.Some? || e2 == Some(h.writes[k]) || Expired(e2.value.expireAt, h.clock))))
  }

  ghost predicate ConsistentAt(s: seq<Bucket>, h: History, k: Key, growing: bool)
    requires s != []
  {
    Consistent(Lookup(Home(s, k).l1, k), Lookup(Home(s, k).l2, k), h, k, growing)
  }

  ghost predicate Inv(s: seq<Bucket>, h: History, growing: bool) {
    Sound(s) && forall k :: ConsistentAt(s, h, k, growing)
  }

  // ----- Each step keeps the invariant, key by key -----

  lemma SetKeeps(s: seq<Bucket>, h: History, key: Key, val: Value, expireAt: int, k: Key, growing: bool)
    requires Inv(s, h, growing) && Allowed(s, h, SetOp(key, val, expireAt), growing)
    ensures var o := StoreSet(s, key, val, expireAt);
            o.store != [] && ConsistentAt(o.store, Remember(h, SetOp(key, val, expireAt), o.reports), k, growing)
  {
    hide Lookup, Set, Evicted, Sound, Named;
    var b := Home(s, key);
    SoundHome(s, key);
    assert ConsistentAt(s, h, k, growing);
    SetLookups(b, key, val, expireAt, k);
    if Victim1(b, key).Some? {
      var v := Victim1(b, key).value;
      EvictedIsLive(b.l1, b.cap1, key);
      SoundRoutes(s, key, v.key);
      assert ConsistentAt(s, h, v.key, growing);
      if Demoted(b, key) && Victim2(b, v.key).Some? {
        EvictedIsLive(b.l2, b.cap2, v.key);
        SoundRoutes(s, key, Victim2(b, v.key).value.key);
        assert ConsistentAt(s, h, Victim2(b, v.key).value.key, growing);
        NamedReport(Victim2(b, v.key));
      }
    }
  }

  lemma NamedReport(v: Option<Node>)
    requires v.Some? && v.value.key != EMPTY
    ensures v.value.key in Named(Report(v))
  {
    assert Report(v)[0].key in Named(Report(v));
  }

  lemma GetKeeps(s: seq<Bucket>, h: History, key: Key, now: int, now2: int, k: Key, growing: bool)
    requires Inv(s, h, growing) && Allowed(s, h, GetOp(key, now, now2), growing)
    ensures var o := StoreGet(s, key, now, now2);
            o.store != [] && ConsistentAt(o.store, Remember(h, GetOp(key, now, now2), o.reports), k, growing)
  {
    hide Lookup, Get, Evicted, Sound, Named;
    var b := Home(s, key);
    SoundHome(s, key);
    assert ConsistentAt(s, h, k, growing);
    assert ConsistentAt(s, h, key, growing);
    GetLookups(b, key, now, now2, k);
    if Victim2(b, key).Some? {
      EvictedIsLive(b.l2, b.cap2, key);
      SoundRoutes(s, key, Victim2(b, key).value.key);
      assert ConsistentAt(s, h, Victim2(b, key).value.key, growing);
      NamedReport(Victim2(b, key));
    }
  }

  lemma DeleteKeeps(s: seq<Bucket>, h: History, key: Key, k: Key, growing: bool)
    requires Inv(s, h, growing)
    ensures var o := StoreDelete(s, key);
            o.store != [] && ConsistentAt(o.store, Remember(h, DeleteOp(key), o.reports), k, growing)
  {
    hide Lookup, Delete, Sound;
    SoundHome(s, key);
    DeleteKeyLookups(s, key, k);
    assert ConsistentAt(s, h, k, growing);
  }

  lemma ClearKeeps(s: seq<Bucket>, h: History, order: seq<Key>, k: Key, growing: bool)
    requires Inv(s, h, growing) && ListsLiveKeys(order, s)
    ensures var o := DeleteKeys(s, order);
            ConsistentAt(o.store, Remember(h, ClearOp(order), o.reports), k, growing)
  {
    hide Lookup, DeleteKeys, Sound;
    SoundHome(s, k);
    DeleteKeysLookups(s, order, k);
  }

  lemma InvNoNil(s: seq<Bucket>, h: History, growing: bool)
    requires Inv(s, h, growing)
    ensures StoreNoNil(s)
  {
    hide Lookup;
    forall i, k | 0 <= i < |s| && LiveIn(s[i], k)
      ensures Lookup(s[i].l1, k).Some? ==> Lookup(s[i].l1, k).value.val != Nil
      ensures Lookup(s[i].l2, k).Some? ==> Lookup(s[i].l2, k).value.val != Nil
    {
      assert ConsistentAt(s, h, k, growing);
    }
    forall i | 0 <= i < |s| ensures NoNil(s[i]) {
      forall k
        ensures Lookup(s[i].l1, k).Some? ==> Lookup(s[i].l1, k).value.val != Nil
        ensures Lookup(s[i].l2, k).Some? ==> Lookup(s[i].l2, k).value.val != Nil
      {
        assert LiveIn(s[i], k) <==> Lookup(s[i].l1, k).Some? || Lookup(s[i].l2, k).Some?;
      }
    }
  }

  lemma SweepKeeps(s: seq<Bucket>, h: History, now: int, k: Key, growing: bool)
    requires Inv(s, h, growing) && Allowed(s, h, SweepOp(now), growing)
    ensures var o := StoreSweep(s, now);
            o.store != [] && ConsistentAt(o.store, Remember(h, SweepOp(now), o.reports), k, growing)
  {
    hide Lookup, StoreSweep, Sound, HasDueCopy, StoreNoNil;
    SoundHome(s, k);
    InvNoNil(s, h, growing);
    SweepLookups(s, now, k);
    assert ConsistentAt(s, h, k, growing);
    var o := StoreSweep(s, now);
    if HasDueCopy(Home(s, k), k, now) {
      SweptKeyReported(s, now, k);
      var v :| Item(k, v) in o.reports;
      var j :| 0 <= j < |o.reports| && o.reports[j] == Item(k, v);
      assert o.reports[j].key in Named(o.reports);
    }
  }

  lemma StepKeepsInv(s: seq<Bucket>, h: History, op: Op, growing: bool)
    requires Inv(s, h, growing) && Allowed(s, h, op, growing)
    ensures var o := Apply(s, op); Inv(o.store, Remember(h, op, o.reports), growing)
  {
    hide Lookup, Sound, ConsistentAt, Remember, StoreSet, StoreGet, StoreDelete, DeleteKeys, StoreSweep, Allowed;
    SoundHome(s, EMPTY);
    var o := Apply(s, op);
    assert Sound(o.store) by { StepSound(s, op); }
    SoundHome(o.store, EMPTY);
    forall k ensures ConsistentAt(o.store, Remember(h, op, o.reports), k, growing) {
      match op
      case SetOp(key, v, e) => SetKeeps(s, h, key, v, e, k, growing);
      case GetOp(key, now, now2) => GetKeeps(s, h, key, now, now2, k, growing);
      case DeleteOp(key) => DeleteKeeps(s, h, key, k, growing);
      case ClearOp(order) => AllowedClear(s, h, order, growing); ClearKeeps(s, h, order, k, growing);
      case SweepOp(now) => SweepKeeps(s, h, now, k, growing);
    }
  }

  lemma AllowedClear(s: seq<Bucket>, h: History, order: seq<Key>, growing: bool)
    requires s != [] && Allowed(s, h, ClearOp(order), growing)
    ensures ListsLiveKeys(order, s)
  {
  }

  // ----- Whole runs -----

  /** A run in which every step is allowed when it is taken. */
  ghost predicate ValidRun(s: seq<Bucket>, h: History, ops: seq<Op>, growing: bool)
    requires Sound(s)
    decreases |ops|
  {
    ops == [] ||
    (Allowed(s, h, ops[0], growing) &&
     (StepSound(s, ops[0]);
      var o := Apply(s, ops[0]);
      ValidRun(o.store, Remember(h, ops[0], o.reports), ops[1..], growing)))
  }

  /** What the observer remembers after a run, whether its steps were allowed or not. */
  ghost function Recall(s: seq<Bucket>, h: History, ops: seq<Op>): History
    requires Sound(s)
    decreases |ops|
  {
    if ops == [] then h
    else
      StepSound(s, ops[0]);
      var o := Apply(s, ops[0]);
      Recall(o.store, Remember(h, ops[0], o.reports), ops[1..])
  }

  lemma {:induction false} RunKeepsInv(s: seq<Bucket>, h: History, ops: seq<Op>, growing: bool)
    requires Inv(s, h, growing) && ValidRun(s, h, ops, growing)
    ensures Inv(Run(s, ops), Recall(s, h, ops), growing)
    decreases |ops|
  {
    hide Apply, Allowed, Remember, Sound, ConsistentAt;
    if ops != [] {
      StepSound(s, ops[0]);
      StepKeepsInv(s, h, ops[0], growing);
      var o := Apply(s, ops[0]);
      RunKeepsInv(o.store, Remember(h, ops[0], o.reports), ops[1..], growing);
    }
  }

  lemma FreshInv(buckets: nat, cap1: nat, cap2: nat, clock: int, growing: bool)
    requires buckets > 0 && cap1 > 0 && cap2 > 0
    ensures Inv(Fresh(buckets, cap1, cap2), History(map[], {}, clock), growing)
  {
  }

  /**
  No miss without a reason. In every run from an empty store, whatever the interleaving of writes,
  reads, deletions, clears and cleanup passes and whatever the expiries: a miss means that the key has
  not been written since its last deletion, or that its last write has expired, or that the callback
  has named the key since.
  */
  lemma EveryMissIsAccountedFor(buckets: nat, cap1: nat, cap2: nat, clock: int, ops: seq<Op>,
                                key: Key, now: int, now2: int)
    requires buckets > 0 && cap1 > 0 && cap2 > 0
    requires ValidRun(Fresh(buckets, cap1, cap2), History(map[], {}, clock), ops, false)
    requires Recall(Fresh(buckets, cap1, cap2), History(map[], {}, clock), ops).clock <= now <= now2
    ensures var s := Run(Fresh(buckets, cap1, cap2), ops);
            var h := Recall(Fresh(buckets, cap1, cap2), History(map[], {}, clock), ops);
            Get(Home(s, key), key, now, now2).result == Miss ==>
              key !in h.writes || key in h.reported || Expired(h.writes[key].expireAt, now2)
  {
    hide Lookup, Sound, ValidRun, Run, Recall, Get;
    var s0, h0 := Fresh(buckets, cap1, cap2), History(map[], {}, clock);
    FreshInv(buckets, cap1, cap2, clock, false);
    RunKeepsInv(s0, h0, ops, false);
    var s, h := Run(s0, ops), Recall(s0, h0, ops);
    SoundHome(s, key);
    assert ConsistentAt(s, h, key, false);
    GetResult(Home(s, key), key, now, now2);
  }

  /**
  Freshness over whole runs. If writes do not shorten the expiry of their key, also every hit is the
  value of the last write of that key since its last deletion, and that write has not expired.
  */
  lemma EveryAnswerIsAccountedFor(buckets: nat, cap1: nat, cap2: nat, clock: int, ops: seq<Op>,
                                  key: Key, now: int, now2: int)
    requires buckets > 0 && cap1 > 0 && cap2 > 0
    requires ValidRun(Fresh(buckets, cap1, cap2), History(map[], {}, clock), ops, true)
    requires Recall(Fresh(buckets, cap1, cap2), History(map[], {}, clock), ops).clock <= now <= now2
    ensures var s := Run(Fresh(buckets, cap1, cap2), ops);
            var h := Recall(Fresh(buckets, cap1, cap2), History(map[], {}, clock), ops);
            match Get(Home(s, key), key, now, now2).result
            case Hit(v) =>
              key in h.writes && v == h.writes[key].val && !Expired(h.writes[key].expireAt, now)
            case Miss =>
              key !in h.writes || key in h.reported || Expired(h.writes[key].expireAt, now2)
  {
    hide Lookup, Sound, ValidRun, Run, Recall, Get;
    var s0, h0 := Fresh(buckets, cap1, cap2), History(map[], {}, clock);
    FreshInv(buckets, cap1, cap2, clock, true);
    RunKeepsInv(s0, h0, ops, true);
    var s, h := Run(s0, ops), Recall(s0, h0, ops);
    SoundHome(s, key);
    assert ConsistentAt(s, h, key, true);
    GetResult(Home(s, key), key, now, now2);
  }

  // ----- The proviso is needed -----

  /** What a bucket holds under `k` after a write of `k`, a read that moves it down, and a second write. */
  lemma WriteReadWrite(b: Bucket, k: Key, v1: Value, e1: int, t: int, v2: Value, e2: int)
    requires WellFormed(b) && !Expired(e1, t)
    ensures var b1 := Set(b, k, v1, e1).after;
            WellFormed(b1) &&
            var b2 := Get(b1, k, t, t).change.after;
            WellFormed(b2) &&
            var b3 := Set(b2, k, v2, e2).after;
            WellFormed(b3) && Lookup(b3.l1, k) == Some(Entry(v2, e2)) && Lookup(b3.l2, k) == Some(Entry(v1, e1))
  {
    hide Lookup, Set, Put, PutL2, Touch, Delete;
    SetLookups(b, k, v1, e1, k);
    var b1 := Set(b, k, v1, e1).after;
    GetLookups(b1, k, t, t, k);
    var b2 := Get(b1, k, t, t).change.after;
    SetLookups(b2, k, v2, e2, k);
    assert b2.l1 == Del(b1.l1, k) by { ReadDeletes(b1, k, t); }
    StillHeld(b1.l1, k);
  }

  lemma ReadDeletes(b: Bucket, k: Key, t: int)
    requires WellFormed(b) && Lookup(b.l1, k).Some?
    ensures Get(b, k, t, t).change.after.l1 == Del(b.l1, k)
  {
    hide Lookup, Put, Touch, Delete, Del;
  }

  lemma StillHeld(s: seq<Node>, k: Key)
    requires Distinct(s) && Lookup(s, k).Some?
    ensures Holds(Del(s, k), k)
  {
    hide Distinct, Del;
    DelFind(s, k, k);
  }

  /**
  A write that shortens the expiry of its key lets the previous value come back: from any state of a
  bucket, writing (v1, e1), reading it, and writing (v2, e2) with e2 < e1 makes the first read at time
  e2 a miss and the next one a hit on the overwritten v1.
  */
  lemma ShorterExpiryUncoversStaleValue(b: Bucket, k: Key, v1: Value, e1: int, t: int, v2: Value, e2: int)
    requires WellFormed(b) && !Expired(e1, t) && 0 < e2 < e1 <= NO_EXPIRATION
    ensures WellFormed(Set(b, k, v1, e1).after)
    ensures WellFormed(Get(Set(b, k, v1, e1).after, k, t, t).change.after)
    ensures var b3 := Set(Get(Set(b, k, v1, e1).after, k, t, t).change.after, k, v2, e2).after;
            WellFormed(b3) &&
            var g4 := Get(b3, k, e2, e2);
            WellFormed(g4.change.after) && g4.result == Miss &&
            Get(g4.change.after, k, e2, e2).result == Hit(v1)
  {
    hide Lookup, Set, Get;
    WriteReadWrite(b, k, v1, e1, t, v2, e2);
    var b3 := Set(Get(Set(b, k, v1, e1).after, k, t, t).change.after, k, v2, e2).after;
    GetResult(b3, k, e2, e2);
    GetLookups(b3, k, e2, e2, k);
    GetResult(Get(b3, k, e2, e2).change.after, k, e2, e2);
  }

  /** Cleanup follows expired copies, not expired views: an old copy below takes an unexpired value with it. */
  lemma SweepCanRemoveUnexpiredValue(b: Bucket, k: Key, v1: Value, e1: int, t: int, v2: Value, e2: int)
    requires WellFormed(b) && t < e1 < e2 && 0 < e1
    ensures WellFormed(Set(b, k, v1, e1).after)
    ensures WellFormed(Get(Set(b, k, v1, e1).after, k, t, t).change.after)
    ensures var b3 := Set(Get(Set(b, k, v1, e1).after, k, t, t).change.after, k, v2, e2).after;
            && View(b3, k) == Some(Entry(v2, e2))
            && View(SweepBucket(b3, e1).after, k) == None
  {
    hide Lookup, Set, Get, SweepBucket;
    WriteReadWrite(b, k, v1, e1, t, v2, e2);
    var b3 := Set(Get(Set(b, k, v1, e1).after, k, t, t).change.after, k, v2, e2).after;
    SweepExact(b3, e1, k);
  }

  // ----- A silent loss -----

  /** A duration that carries the clock past the 64-bit range yields a negative expiry. */
  lemma OverflowingDuration(duration: int, now: int)
    requires 0 <= now < 0x8000_0000_0000_0000 && 0 < duration < 0x8000_0000_0000_0000
    requires now + duration >= 0x8000_0000_0000_0000
    ensures ExpireAt(duration, now) == now + duration - 0x1_0000_0000_0000_0000 < 0
  {
  }

  lemma EvictedFromOne(n: Node, k: Key)
    requires k != n.key
    ensures Evicted([n], 1, k) == if n.deleted then None else Some(n)
  {
    FindNone([n], k);
  }

  lemma OneBucket(s: seq<Bucket>, k: Key)
    requires |s| == 1
    ensures Home(s, k) == s[0]
  {
  }

  lemma SetIntoEmptyLevel(b: Bucket, k: Key, v: Value, e: int)
    requires WellFormed(b) && b.l1 == []
    ensures Set(b, k, v, e) == Change(b.(l1 := [Node(k, v, e, false)]), [])
  {
    FindNone([], k);
    assert [Node(k, v, e, false)] + [] == [Node(k, v, e, false)];
  }

  lemma FirstWrite(cap2: nat, k1: Key, v1: Value, e1: int, k: Key)
    requires cap2 > 0
    ensures Home(Run(Fresh(1, 1, cap2), [SetOp(k1, v1, e1)]), k) == Bucket(1, cap2, [Node(k1, v1, e1, false)], [])
  {
    var s0, op := Fresh(1, 1, cap2), SetOp(k1, v1, e1);
    OneBucket(s0, k1);
    SetIntoEmptyLevel(s0[0], k1, v1, e1);
    hide Set, Sound, Home;
    StepSound(s0, op);
    var s1 := Apply(s0, op).store;
    assert [op][1..] == [];
    assert Run(s0, [op]) == Run(s1, []) == s1;
    OneBucket(s1, k);
  }

  /** A level-one entry that may not be demoted and is nowhere else is dropped by the write that needs its slot. */
  lemma OnlyEntryDropped(b: Bucket, k1: Key, v1: Value, e1: int, k2: Key, v2: Value, e2: int)
    requires b.cap1 == 1 && b.cap2 > 0 && b.l1 == [Node(k1, v1, e1, false)] && b.l2 == []
    requires k1 != k2 && !Storable(k1, Entry(v1, e1))
    ensures WellFormed(b) && View(b, k1) == Some(Entry(v1, e1))
    ensures SilentlyChanged(b, Set(b, k2, v2, e2), k2, k1) && View(Set(b, k2, v2, e2).after, k1) == None
  {
    hide Set, Evicted;
    FindOnly(b.l1, 0, k1);
    FindNone(b.l2, k1);
    EvictedFromOne(b.l1[0], k2);
    SetView(b, k2, v2, e2, k1);
    SetLookups(b, k2, v2, e2, k1);
  }

  /**
  A write may lose another entry without a word: in a new store with one slot in level one, a value
  written with an overflowing duration is visible until the next write of any other key, which drops
  it, tells the callback nothing and puts it nowhere else.
  */
  lemma OverflowingDurationIsDroppedSilently(cap2: nat, k1: Key, v1: Value, duration: int, now: int,
                                             k2: Key, v2: Value, e2: int)
    requires cap2 > 0 && k1 != k2
    requires 0 <= now < 0x8000_0000_0000_0000 && 0 < duration < 0x8000_0000_0000_0000
    requires now + duration >= 0x8000_0000_0000_0000
    ensures var s1 := Run(Fresh(1, 1, cap2), [SetOp(k1, v1, ExpireAt(duration, now))]);
            var b := Home(s1, k2);
            && WellFormed(b) && View(b, k1) == Some(Entry(v1, ExpireAt(duration, now)))
            && SilentlyChanged(b, Set(b, k2, v2, e2), k2, k1)
            && View(Set(b, k2, v2, e2).after, k1) == None
  {
    hide Set, Run, Apply, Lookup, Fresh, Home;
    var e1 := ExpireAt(duration, now);
    OverflowingDuration(duration, now);
    FirstWrite(cap2, k1, v1, e1, k2);
    OnlyEntryDropped(Bucket(1, cap2, [Node(k1, v1, e1, false)], []), k1, v1, e1, k2, v2, e2);
  }
}
