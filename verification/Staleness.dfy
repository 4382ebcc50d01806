/**
Exactly when the two-level store serves a value that is not the last one written. Runs are arbitrary
but for a clock that does not run backwards: writes may shorten an expiry, store nil, use the empty key
or an expiry that is not positive.
*/
module Staleness {
  import opened Types
  import opened RecencyList
  import opened TwoLevel
  import opened Sweep
  import opened StoreRuns
  import opened Freshness

  ghost predicate Steady(s: seq<Bucket>, h: History, op: Op)
    requires s != []
  {
    match op
    case SetOp(_, _, _) => true
    case GetOp(_, now, now2) => h.clock <= now <= now2
    case DeleteOp(_) => true
    case ClearOp(order) => ListsLiveKeys(order, s)
    case SweepOp(now) => h.clock <= now
  }

  /** Every read that could follow answers with the last write of its key, and not after its expiry. */
  ghost predicate FreshNow(s: seq<Bucket>, h: History)
    requires Sound(s)
  {
    forall key, now, now2 :: h.clock <= now <= now2 ==> FreshAnswer(s, h, key, now, now2)
  }

  ghost predicate FreshAnswer(s: seq<Bucket>, h: History, key: Key, now: int, now2: int)
    requires Sound(s)
  {
    SoundHome(s, key);
    match Get(Home(s, key), key, now, now2).result
    case Miss => true
    case Hit(v) => key in h.writes && v == h.writes[key].val && !Expired(h.writes[key].expireAt, now)
  }

  // ----- Old copies -----

  predicate Finite(expireAt: int) {
    expireAt > 0 && expireAt != NO_EXPIRATION
  }

  function Max(a: int, b: int): int {
    if a < b then b else a
  }

  /** From `clock` on, level two could serve `e` although `w` was written last: another value, or after w's expiry. */
  predicate Stale(e: Entry, w: Entry, clock: int) {
    && Readable(e, clock)
    && (e.val != w.val || (Finite(w.expireAt) && Readable(e, Max(clock, w.expireAt))))
  }

  /** The moment at which a read would show it. */
  function ShownAt(e: Entry, w: Entry, clock: int): int {
    if e.val != w.val then clock else Max(clock, w.expireAt)
  }

  /** Level one has the last write; an old copy in level two lies beneath it or is harmless. */
  ghost predicate Covered(e1: Option<Entry>, e2: Option<Entry>, h: History, k: Key) {
    && (e1.Some? ==> k in h.writes && e1 == Some(h.writes[k]))
    && (e2.Some? ==> k in h.writes && (e1.Some? || !Stale(e2.value, h.writes[k], h.clock)))
  }

  ghost predicate CoveredAt(s: seq<Bucket>, h: History, k: Key)
    requires s != []
  {
    Covered(Lookup(Home(s, k).l1, k), Lookup(Home(s, k).l2, k), h, k)
  }

  ghost predicate Inv(s: seq<Bucket>, h: History) {
    Sound(s) && forall k :: CoveredAt(s, h, k)
  }

  /**
  The step takes the last write of a key out of level one and leaves an old copy below that can be
  served: a read that finds the level-one entry expired, or a write whose victim may not be demoted.
  */
  ghost predicate Uncovers(s: seq<Bucket>, h: History, op: Op)
    requires Sound(s)
  {
    match op
    case GetOp(key, now, now2) =>
      SoundHome(s, key);
      var e1, e2 := Lookup(Home(s, key).l1, key), Lookup(Home(s, key).l2, key);
      e1.Some? && Expired(e1.value.expireAt, now) && e2.Some? && Readable(e2.value, now2)
    case SetOp(key, _, _) =>
      SoundHome(s, key);
      var b := Home(s, key);
      var v := Victim1(b, key);
      && v.Some? && !Demoted(b, key) && Lookup(b.l2, v.value.key).Some?
      && Stale(Lookup(b.l2, v.value.key).value, EntryOf(v.value), h.clock)
    case DeleteOp(_) => false
    case ClearOp(_) => false
    case SweepOp(_) => false
  }

  // ----- A covered state is fresh, an uncovered copy shows -----

  lemma CoveredIsFresh(s: seq<Bucket>, h: History, key: Key, now: int, now2: int)
    requires Inv(s, h) && h.clock <= now <= now2
    ensures FreshAnswer(s, h, key, now, now2)
  {
    hide Lookup, Sound, Get;
    SoundHome(s, key);
    assert CoveredAt(s, h, key);
    GetResult(Home(s, key), key, now, now2);
  }

  lemma UncoveredShows(s: seq<Bucket>, h: History, key: Key, w: Entry)
    requires Sound(s) && Lookup(Home(s, key).l1, key).None? && Lookup(Home(s, key).l2, key).Some?
    requires key in h.writes && h.writes[key] == w && Stale(Lookup(Home(s, key).l2, key).value, w, h.clock)
    ensures !FreshNow(s, h)
  {
    hide Lookup, Sound, Get;
    SoundHome(s, key);
    var t := ShownAt(Lookup(Home(s, key).l2, key).value, w, h.clock);
    GetResult(Home(s, key), key, t, t);
    assert !FreshAnswer(s, h, key, t, t);
  }

  // ----- One step, key by key -----

  lemma SetCovers(s: seq<Bucket>, h: History, key: Key, val: Value, expireAt: int, k: Key)
    requires Inv(s, h) && !Uncovers(s, h, SetOp(key, val, expireAt))
    ensures var o := StoreSet(s, key, val, expireAt);
            o.store != [] && CoveredAt(o.store, Remember(h, SetOp(key, val, expireAt), o.reports), k)
  {
    hide Lookup, Set, Evicted, Sound;
    var b := Home(s, key);
    SoundHome(s, key);
    assert CoveredAt(s, h, k);
    SetLookups(b, key, val, expireAt, k);
    if Victim1(b, key).Some? {
      var v := Victim1(b, key).value;
      EvictedIsLive(b.l1, b.cap1, key);
      SoundRoutes(s, key, v.key);
      assert CoveredAt(s, h, v.key);
    }
  }

  lemma GetCovers(s: seq<Bucket>, h: History, key: Key, now: int, now2: int, k: Key)
    requires Inv(s, h) && Steady(s, h, GetOp(key, now, now2)) && !Uncovers(s, h, GetOp(key, now, now2))
    ensures var o := StoreGet(s, key, now, now2);
            o.store != [] && CoveredAt(o.store, Remember(h, GetOp(key, now, now2), o.reports), k)
  {
    hide Lookup, Get, Evicted, Sound;
    var b := Home(s, key);
    SoundHome(s, key);
    assert CoveredAt(s, h, k);
    assert CoveredAt(s, h, key);
    GetLookups(b, key, now, now2, k);
  }

  lemma DeleteCovers(s: seq<Bucket>, h: History, key: Key, k: Key)
    requires Inv(s, h)
    ensures var o := StoreDelete(s, key);
            o.store != [] && CoveredAt(o.store, Remember(h, DeleteOp(key), o.reports), k)
  {
    hide Lookup, Delete, Sound;
    SoundHome(s, key);
    DeleteKeyLookups(s, key, k);
    assert CoveredAt(s, h, k);
  }

  lemma ClearCovers(s: seq<Bucket>, h: History, order: seq<Key>, k: Key)
    requires Inv(s, h) && ListsLiveKeys(order, s)
    ensures var o := DeleteKeys(s, order);
            CoveredAt(o.store, Remember(h, ClearOp(order), o.reports), k)
  {
    hide Lookup, DeleteKeys, Sound;
    SoundHome(s, k);
    DeleteKeysLookups(s, order, k);
  }

  lemma SweepCovers(s: seq<Bucket>, h: History, now: int, k: Key)
    requires Inv(s, h) && Steady(s, h, SweepOp(now))
    ensures var o := StoreSweep(s, now);
            o.store != [] && CoveredAt(o.store, Remember(h, SweepOp(now), o.reports), k)
  {
    hide Lookup, StoreSweep, Sound, HasDueCopy;
    SoundHome(s, k);
    SweepLookups(s, now, k);
    assert CoveredAt(s, h, k);
  }

  lemma SteadyClear(s: seq<Bucket>, h: History, order: seq<Key>)
    requires s != [] && Steady(s, h, ClearOp(order))
    ensures ListsLiveKeys(order, s)
  {
  }

  lemma StepCovers(s: seq<Bucket>, h: History, op: Op)
    requires Inv(s, h) && Steady(s, h, op) && !Uncovers(s, h, op)
    ensures var o := Apply(s, op); Inv(o.store, Remember(h, op, o.reports))
  {
    hide Lookup, Sound, CoveredAt, Remember, StoreSet, StoreGet, StoreDelete, DeleteKeys, StoreSweep, Steady, Uncovers;
    SoundHome(s, EMPTY);
    var o := Apply(s, op);
    assert Sound(o.store) by { StepSound(s, op); }
    SoundHome(o.store, EMPTY);
    forall k ensures CoveredAt(o.store, Remember(h, op, o.reports), k) {
      match op
      case SetOp(key, v, e) => SetCovers(s, h, key, v, e, k);
      case GetOp(key, now, now2) => GetCovers(s, h, key, now, now2, k);
      case DeleteOp(key) => DeleteCovers(s, h, key, k);
      case ClearOp(order) => SteadyClear(s, h, order); ClearCovers(s, h, order, k);
      case SweepOp(now) => SweepCovers(s, h, now, k);
    }
  }

  lemma GetUncovers(s: seq<Bucket>, h: History, key: Key, now: int, now2: int)
    requires Inv(s, h) && Steady(s, h, GetOp(key, now, now2)) && Uncovers(s, h, GetOp(key, now, now2))
    ensures var o := StoreGet(s, key, now, now2);
            Sound(o.store) && !FreshNow(o.store, Remember(h, GetOp(key, now, now2), o.reports))
  {
    hide Lookup, Get, Evicted, Sound, FreshNow;
    var b := Home(s, key);
    SoundHome(s, key);
    assert CoveredAt(s, h, key);
    GetLookups(b, key, now, now2, key);
    GetSound(s, key, now, now2);
    var o := StoreGet(s, key, now, now2);
    UncoveredShows(o.store, Remember(h, GetOp(key, now, now2), o.reports), key, h.writes[key]);
  }

  lemma SetUncovers(s: seq<Bucket>, h: History, key: Key, val: Value, expireAt: int)
    requires Inv(s, h) && Uncovers(s, h, SetOp(key, val, expireAt))
    ensures var o := StoreSet(s, key, val, expireAt);
            Sound(o.store) && !FreshNow(o.store, Remember(h, SetOp(key, val, expireAt), o.reports))
  {
    hide Lookup, Set, Evicted, Sound, FreshNow;
    var b := Home(s, key);
    SoundHome(s, key);
    EvictedIsLive(b.l1, b.cap1, key);
    var v := Victim1(b, key).value;
    SoundRoutes(s, key, v.key);
    assert CoveredAt(s, h, v.key);
    SetLookups(b, key, val, expireAt, v.key);
    SetSound(s, key, val, expireAt);
    var o := StoreSet(s, key, val, expireAt);
    UncoveredShows(o.store, Remember(h, SetOp(key, val, expireAt), o.reports), v.key, EntryOf(v));
  }

  // ----- Runs -----

  ghost predicate SteadyRun(s: seq<Bucket>, h: History, ops: seq<Op>)
    requires Sound(s)
    decreases |ops|
  {
    ops == [] ||
    (Steady(s, h, ops[0]) &&
     (StepSound(s, ops[0]);
      var o := Apply(s, ops[0]);
      SteadyRun(o.store, Remember(h, ops[0], o.reports), ops[1..])))
  }

  /** In every state of the run every read would be fresh. */
  ghost predicate AlwaysFresh(s: seq<Bucket>, h: History, ops: seq<Op>)
    requires Sound(s)
    decreases |ops|
  {
    FreshNow(s, h) &&
    (ops == [] ||
     (StepSound(s, ops[0]);
      var o := Apply(s, ops[0]);
      AlwaysFresh(o.store, Remember(h, ops[0], o.reports), ops[1..])))
  }

  ghost predicate NeverUncovers(s: seq<Bucket>, h: History, ops: seq<Op>)
    requires Sound(s)
    decreases |ops|
  {
    ops == [] ||
    (!Uncovers(s, h, ops[0]) &&
     (StepSound(s, ops[0]);
      var o := Apply(s, ops[0]);
      NeverUncovers(o.store, Remember(h, ops[0], o.reports), ops[1..])))
  }

  lemma {:induction false} FreshIffCovered(s: seq<Bucket>, h: History, ops: seq<Op>)
    requires Inv(s, h) && SteadyRun(s, h, ops)
    ensures AlwaysFresh(s, h, ops) <==> NeverUncovers(s, h, ops)
    decreases |ops|
  {
    hide Apply, Steady, Uncovers, Remember, Sound, CoveredAt, FreshAnswer;
    assert FreshNow(s, h) by {
      forall key, now, now2 | h.clock <= now <= now2 ensures FreshAnswer(s, h, key, now, now2) {
        CoveredIsFresh(s, h, key, now, now2);
      }
    }
    hide FreshNow;
    if ops != [] {
      var op := ops[0];
      StepSound(s, op);
      var o := Apply(s, op);
      if Uncovers(s, h, op) {
        UncoveredAfter(s, h, op);
      } else {
        StepCovers(s, h, op);
        FreshIffCovered(o.store, Remember(h, op, o.reports), ops[1..]);
      }
    }
  }

  lemma UncoveredAfter(s: seq<Bucket>, h: History, op: Op)
    requires Inv(s, h) && Steady(s, h, op) && Uncovers(s, h, op)
    ensures var o := Apply(s, op); Sound(o.store) && !FreshNow(o.store, Remember(h, op, o.reports))
  {
    hide FreshNow, Remember, StoreGet, StoreSet, CoveredAt, Sound;
    match op
    case GetOp(key, now, now2) => GetUncovers(s, h, key, now, now2);
    case SetOp(key, v, e) => SetUncovers(s, h, key, v, e);
  }

  lemma EmptyCovered(buckets: nat, cap1: nat, cap2: nat, clock: int)
    requires buckets > 0 && cap1 > 0 && cap2 > 0
    ensures Inv(Fresh(buckets, cap1, cap2), History(map[], {}, clock))
  {
  }

  /**
  Exact freshness. In a run from an empty store, with any writes at all, every read in every state
  answers with the last write of its key before its expiry, if and only if no step takes the last
  write out of level one while an older copy below could still be served.
  */
  lemma AlwaysFreshIff(buckets: nat, cap1: nat, cap2: nat, clock: int, ops: seq<Op>)
    requires buckets > 0 && cap1 > 0 && cap2 > 0
    requires SteadyRun(Fresh(buckets, cap1, cap2), History(map[], {}, clock), ops)
    ensures var s, h := Fresh(buckets, cap1, cap2), History(map[], {}, clock);
            AlwaysFresh(s, h, ops) <==> NeverUncovers(s, h, ops)
  {
    EmptyCovered(buckets, cap1, cap2, clock);
    FreshIffCovered(Fresh(buckets, cap1, cap2), History(map[], {}, clock), ops);
  }

  /** Storable writes whose expiries do not shrink never get there. */
  lemma AllowedNeverUncovers(s: seq<Bucket>, h: History, op: Op)
    requires Freshness.Inv(s, h, true) && Allowed(s, h, op, true)
    ensures !Uncovers(s, h, op)
  {
    hide Lookup, Evicted;
    SoundHome(s, EMPTY);
    match op
    case GetOp(key, now, now2) => assert ConsistentAt(s, h, key, true);
    case SetOp(key, _, _) =>
      var b := Home(s, key);
      if Victim1(b, key).Some? {
        EvictedIsLive(b.l1, b.cap1, key);
        SoundRoutes(s, key, Victim1(b, key).value.key);
        assert ConsistentAt(s, h, Victim1(b, key).value.key, true);
      }
    case DeleteOp(_) =>
    case ClearOp(_) =>
    case SweepOp(_) =>
  }
}
