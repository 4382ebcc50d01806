/**
How long what is written to the two-level store can be read, and what the cleanup pass takes away, said
in terms of clock readings and durations alone.
*/
module Lifetimes {
  import opened Types
  import opened RecencyList
  import opened TwoLevel
  import opened StoreRuns

  const MAX: int := 0x7fff_ffff_ffff_ffff

  type int64 = x: int | -0x8000_0000_0000_0000 <= x <= 0x7fff_ffff_ffff_ffff

  /** What a read with both clock readings at `t` answers. */
  ghost function ReadAt(s: seq<Bucket>, k: Key, t: int): Lookup2
    requires Sound(s)
  {
    SoundHome(s, k);
    Get(Home(s, k), k, t, t).result
  }

  lemma WriteThenLookup(s: seq<Bucket>, k: Key, v: Value, e: int)
    requires Sound(s)
    ensures var o := StoreSet(s, k, v, e).store;
            Sound(o) && Lookup(Home(o, k).l1, k) == Some(Entry(v, e))
  {
    hide Lookup, Set, Sound;
    SetSound(s, k, v, e);
    SoundHome(s, k);
    SetLookups(Home(s, k), k, v, e, k);
  }

  /**
  The first read after a write. With a duration that keeps the clock within its range, it hits before
  the duration is over and misses from then on. Without a duration, or if the sum is not a proper time
  any more, it hits whenever it comes.
  */
  lemma FirstRead(s: seq<Bucket>, k: Key, v: Value, duration: int64, now: int64, t: int)
    requires Sound(s)
    ensures var o := StoreSet(s, k, v, ExpireAt(duration, now)).store;
            && Sound(o)
            && ReadAt(o, k, t) ==
               if duration > 0 && 0 < now + duration < MAX && t >= now + duration then Miss else Hit(v)
  {
    hide Lookup, Sound, StoreSet, Get;
    var o := StoreSet(s, k, v, ExpireAt(duration, now)).store;
    WriteThenLookup(s, k, v, ExpireAt(duration, now));
    SoundHome(o, k);
    GetResult(Home(o, k), k, t, t);
  }

  lemma ReadThenLookup(s: seq<Bucket>, k: Key, t: int)
    requires Sound(s) && Lookup(Home(s, k).l1, k).Some? && ReadAt(s, k, t).Hit?
    ensures var o := StoreGet(s, k, t, t).store;
            && Sound(o) && Lookup(Home(o, k).l1, k).None? && Lookup(Home(o, k).l2, k) == Lookup(Home(s, k).l1, k)
  {
    hide Lookup, Get, Sound;
    GetSound(s, k, t, t);
    SoundHome(s, k);
    GetResult(Home(s, k), k, t, t);
    GetLookups(Home(s, k), k, t, t, k);
  }

  /**
  The next read, from level two. It goes by the same duration, but a value whose time is not a proper
  one is not found there: it can be read only once.
  */
  lemma SecondRead(s: seq<Bucket>, k: Key, v: Value, duration: int64, now: int64, t: int, t': int)
    requires Sound(s)
    requires Sound(StoreSet(s, k, v, ExpireAt(duration, now)).store)
    requires ReadAt(StoreSet(s, k, v, ExpireAt(duration, now)).store, k, t) == Hit(v)
    ensures var o := StoreGet(StoreSet(s, k, v, ExpireAt(duration, now)).store, k, t, t).store;
            && Sound(o)
            && ReadAt(o, k, t') ==
               if duration <= 0 || now + duration == MAX || (0 < now + duration < MAX && t' < now + duration)
               then Hit(v) else Miss
  {
    hide Lookup, Sound, StoreSet, StoreGet, Get;
    var o := StoreSet(s, k, v, ExpireAt(duration, now)).store;
    WriteThenLookup(s, k, v, ExpireAt(duration, now));
    ReadThenLookup(o, k, t);
    var o' := StoreGet(o, k, t, t).store;
    SoundHome(o', k);
    GetResult(Home(o', k), k, t', t');
  }

  // ----- Cleanup -----

  /** A live copy whose time has come: positive, and not after the clock. */
  ghost predicate CopyIsOver(s: seq<Bucket>, k: Key, now: int)
    requires s != []
  {
    var e1, e2 := Lookup(Home(s, k).l1, k), Lookup(Home(s, k).l2, k);
    (e1.Some? && 0 < e1.value.expireAt <= now) || (e2.Some? && 0 < e2.value.expireAt <= now)
  }

  /** A pass at `now` removes both copies of a key if one of them is over by then, and touches neither otherwise. */
  lemma CleanupExact(s: seq<Bucket>, now: int, k: Key)
    requires Sound(s)
    ensures var o := StoreSweep(s, now).store;
            && Sound(o) && |o| == |s|
            && (CopyIsOver(s, k, now) ==> Lookup(Home(o, k).l1, k) == Lookup(Home(o, k).l2, k) == None)
            && (!CopyIsOver(s, k, now) ==>
                  && Lookup(Home(o, k).l1, k) == Lookup(Home(s, k).l1, k)
                  && Lookup(Home(o, k).l2, k) == Lookup(Home(s, k).l2, k))
  {
    hide Lookup, StoreSweep, Sound;
    SweepLookups(s, now, k);
  }

  /** It changes no answer, at any time, about a key whose live copies all last beyond it. */
  lemma CleanupKeepsAnswers(s: seq<Bucket>, now: int, k: Key, t: int, t': int)
    requires Sound(s)
    requires Lookup(Home(s, k).l1, k).Some? ==> Lookup(Home(s, k).l1, k).value.expireAt > now
    requires Lookup(Home(s, k).l2, k).Some? ==> Lookup(Home(s, k).l2, k).value.expireAt > now
    ensures var o := StoreSweep(s, now).store;
            && Sound(o)
            && Get(Home(o, k), k, t, t').result == Get(Home(s, k), k, t, t').result
  {
    hide Lookup, StoreSweep, Sound, Get;
    CleanupExact(s, now, k);
    var o := StoreSweep(s, now).store;
    SoundHome(s, k);
    SoundHome(o, k);
    GetResult(Home(s, k), k, t, t');
    GetResult(Home(o, k), k, t, t');
  }

  // ----- Demotion and callbacks -----

  /**
  Writing a new key into a full level one whose oldest slot is live moves that entry to level two if it
  has a name, a value and a positive time, and otherwise leaves what level two has under its name.
  */
  lemma DemotionExact(b: Bucket, key: Key, val: Value, e: int)
    requires WellFormed(b) && !Holds(b.l1, key) && |b.l1| == b.cap1 && !b.l1[b.cap1 - 1].deleted
    ensures var last := b.l1[b.cap1 - 1];
            Lookup(Set(b, key, val, e).after.l2, last.key) ==
            if last.key != EMPTY && last.val != Nil && last.expireAt > 0 then Some(Entry(last.val, last.expireAt))
            else Lookup(b.l2, last.key)
  {
    hide Lookup, Set;
    SetLookups(b, key, val, e, b.l1[b.cap1 - 1].key);
  }

  /** A deletion reports at most one value, the first one that is not nil, level one before level two. */
  lemma DeletionReports(b: Bucket, k: Key, x: Item)
    ensures var e1, e2 := Lookup(b.l1, k), Lookup(b.l2, k);
            x in Delete(b, k).reports <==>
            && x.key == k && x.val != Nil
            && (e1.Some? && e1.value.val != Nil ==> x.val == e1.value.val)
            && (e1.None? || e1.value.val == Nil ==> e2.Some? && x.val == e2.value.val)
    ensures |Delete(b, k).reports| <= 1
  {
    hide Lookup, Del;
  }
}
