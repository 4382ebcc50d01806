/**
Where the two-level store leaves its deleted slots. In level one they gather at the tail, so a write
demotes a live entry only when every slot is in use; in level two a lookup can bring a deleted slot
back to the head, and a live entry is then evicted although a free slot exists.
*/
module Tombstones {
  import opened Types
  import opened RecencyList
  import opened Retention
  import opened TwoLevel
  import opened Sweep
  import opened StoreRuns

  ghost predicate LiveFirstEverywhere(s: seq<Bucket>) {
    forall i :: 0 <= i < |s| ==> LiveFirst(s[i].l1)
  }

  lemma SetKeepsLiveFirst(b: Bucket, key: Key, val: Value, expireAt: int)
    requires WellFormed(b) && LiveFirst(b.l1)
    ensures LiveFirst(Set(b, key, val, expireAt).after.l1)
  {
    hide LiveFirst, Put, Distinct;
    PutLiveFirst(b.l1, b.cap1, Node(key, val, expireAt, false));
  }

  lemma DeleteKeepsLiveFirst(b: Bucket, key: Key)
    requires LiveFirst(b.l1)
    ensures LiveFirst(Delete(b, key).after.l1)
  {
    hide LiveFirst, Del, Lookup;
    DelLiveFirst(b.l1, key);
  }

  lemma GetKeepsLiveFirst(b: Bucket, key: Key, now: int, now2: int)
    requires WellFormed(b) && LiveFirst(b.l1)
    ensures LiveFirst(Get(b, key, now, now2).change.after.l1)
  {
    hide LiveFirst, Del, Put, Touch, Lookup, Delete;
    DelLiveFirst(b.l1, key);
    DeleteKeepsLiveFirst(b.(l2 := Touch(b.l2, key)), key);
  }

  lemma {:induction false} DeleteAllKeepsLiveFirst(b: Bucket, ks: seq<Key>)
    requires LiveFirst(b.l1)
    ensures LiveFirst(DeleteAll(b, ks).after.l1)
  {
    hide LiveFirst, Delete;
    if ks != [] {
      DeleteAllKeepsLiveFirst(b, ks[..|ks| - 1]);
      DeleteKeepsLiveFirst(DeleteAll(b, ks[..|ks| - 1]).after, ks[|ks| - 1]);
    }
  }

  lemma {:induction false} DeleteKeysKeepsLiveFirst(s: seq<Bucket>, ks: seq<Key>)
    requires s != [] && LiveFirstEverywhere(s)
    ensures LiveFirstEverywhere(DeleteKeys(s, ks).store)
  {
    hide LiveFirst, Delete;
    if ks != [] {
      var t := DeleteKeys(s, ks[..|ks| - 1]).store;
      DeleteKeysKeepsLiveFirst(s, ks[..|ks| - 1]);
      DeleteKeepsLiveFirst(Home(t, ks[|ks| - 1]), ks[|ks| - 1]);
    }
  }

  lemma StepKeepsLiveFirst(s: seq<Bucket>, op: Op)
    requires Sound(s) && LiveFirstEverywhere(s)
    ensures LiveFirstEverywhere(Apply(s, op).store)
  {
    hide LiveFirst, Set, Get, Delete, DeleteKeys, StoreSweep, SweepBucket, Lookup;
    match op
    case SetOp(k, v, e) => SetKeepsLiveFirst(Home(s, k), k, v, e);
    case GetOp(k, now, now2) => GetKeepsLiveFirst(Home(s, k), k, now, now2);
    case DeleteOp(k) => DeleteKeepsLiveFirst(Home(s, k), k);
    case ClearOp(order) => DeleteKeysKeepsLiveFirst(s, order);
    case SweepOp(now) =>
      SweepBuckets(s, now);
      forall i | 0 <= i < |s| ensures LiveFirst(SweepBucket(s[i], now).after.l1) {
        SweepBucketKeepsLiveFirst(s[i], now);
      }
  }

  lemma SweepBucketKeepsLiveFirst(b: Bucket, now: int)
    requires LiveFirst(b.l1)
    ensures LiveFirst(SweepBucket(b, now).after.l1)
  {
    hide LiveFirst, DeleteAll, ExpiredKeys;
    DeleteAllKeepsLiveFirst(b, ExpiredKeys(b, now));
  }

  /** In every state of every run, a write displaces a level-one entry only when all slots there are live. */
  lemma {:induction false} LevelOneDemotesOnlyWhenAllLive(s: seq<Bucket>, ops: seq<Op>, key: Key)
    requires Sound(s) && LiveFirstEverywhere(s)
    ensures var t := StoreRuns.Run(s, ops);
            && LiveFirstEverywhere(t)
            && var b := Home(t, key);
            && WellFormed(b)
            && (Victim1(b, key).Some? ==> |b.l1| == b.cap1 && forall i :: 0 <= i < |b.l1| ==> !b.l1[i].deleted)
    decreases |ops|
  {
    hide Apply;
    if ops == [] {
      SoundHome(s, key);
    } else {
      StepSound(s, ops[0]);
      StepKeepsLiveFirst(s, ops[0]);
      LevelOneDemotesOnlyWhenAllLive(Apply(s, ops[0]).store, ops[1..], key);
    }
  }

  // ----- Level two -----

  ghost predicate AnyLive(s: seq<Node>) {
    exists j :: 0 <= j < |s| && !s[j].deleted
  }

  /** The key has a slot, but a deleted one. */
  ghost predicate Dead(s: seq<Node>, k: Key) {
    Holds(s, k) && Lookup(s, k).None?
  }

  /** A get spoils the order of the slots exactly when it finds a deleted slot while a live one exists. */
  lemma TouchKeepsLiveFirstIff(s: seq<Node>, k: Key)
    requires Distinct(s) && LiveFirst(s)
    ensures LiveFirst(Touch(s, k)) <==> !(Dead(s, k) && AnyLive(s))
  {
    var i, t := Find(s, k), Touch(s, k);
    if i >= 0 {
      assert forall j {:trigger t[j]} :: 0 < j < |t| ==> t[j] == s[if j <= i then j - 1 else j];
      if s[i].deleted && AnyLive(s) {
        var j :| 0 <= j < |s| && !s[j].deleted;
        assert t[0] == s[i] && t[j + 1] == s[j] && !t[j + 1].deleted;
      }
    }
  }

  /** Every state the run passes through has its deleted slots at the tail. */
  ghost predicate AlwaysLiveFirst(s: seq<Node>, cap: nat, ops: seq<CacheOp>)
    requires cap > 0
    decreases |ops|
  {
    LiveFirst(s) && (ops == [] || AlwaysLiveFirst(Retention.Step(s, cap, ops[0]), cap, ops[1..]))
  }

  /** No get of the run finds a deleted slot while a live one exists. */
  ghost predicate NeverRevives(s: seq<Node>, cap: nat, ops: seq<CacheOp>)
    requires cap > 0
    decreases |ops|
  {
    ops == [] ||
    (!(ops[0].GetOp? && Dead(s, ops[0].key) && AnyLive(s)) &&
     NeverRevives(Retention.Step(s, cap, ops[0]), cap, ops[1..]))
  }

  lemma StepKeepsLiveFirstIff(s: seq<Node>, cap: nat, op: CacheOp)
    requires Fits(s, cap) && cap > 0 && LiveFirst(s)
    ensures LiveFirst(Retention.Step(s, cap, op)) <==> !(op.GetOp? && Dead(s, op.key) && AnyLive(s))
  {
    hide Put, Del, Touch, LiveFirst, Dead, AnyLive;
    match op
    case PutOp(k, v, e) => PutLiveFirst(s, cap, Node(k, v, e, false));
    case GetOp(k) => TouchKeepsLiveFirstIff(s, k);
    case DelOp(k) => DelLiveFirst(s, k);
  }

  /** Over runs of puts, gets and dels: deleted slots always stay at the tail if and only if no get revives one. */
  lemma {:induction false} AlwaysLiveFirstIff(s: seq<Node>, cap: nat, ops: seq<CacheOp>)
    requires Fits(s, cap) && cap > 0 && LiveFirst(s)
    ensures AlwaysLiveFirst(s, cap, ops) <==> NeverRevives(s, cap, ops)
    decreases |ops|
  {
    hide Retention.Step, LiveFirst, Dead, AnyLive, Fits;
    if ops != [] {
      StepFits(s, cap, ops[0]);
      StepKeepsLiveFirstIff(s, cap, ops[0]);
      if LiveFirst(Retention.Step(s, cap, ops[0])) {
        AlwaysLiveFirstIff(Retention.Step(s, cap, ops[0]), cap, ops[1..]);
      }
    }
  }

  lemma TouchTail(s: seq<Node>)
    requires Distinct(s) && |s| >= 2
    ensures var t := Touch(s, s[|s| - 1].key);
            |t| == |s| && t[|t| - 1] == s[|s| - 2] && forall k :: Holds(t, k) ==> Holds(s, k)
  {
    FindAt(s, |s| - 1);
    var t := Touch(s, s[|s| - 1].key);
    forall k | Holds(t, k) ensures Holds(s, k) {
      TouchFind(s, s[|s| - 1].key, k);
    }
  }

  /**
  What that costs in level two, for every capacity: with a full level whose tail is deleted and whose
  last slot but one is live, a read that moves `c` down reuses the deleted slot and loses nothing; but
  if the deleted key is looked up first, the same read evicts the live entry.
  */
  lemma LookupOfDeletedKeyCostsALiveEntry(b: Bucket, c: Key, now: int)
    requires WellFormed(b) && |b.l2| == b.cap2 >= 2
    requires var live, dead := b.l2[|b.l2| - 2], b.l2[|b.l2| - 1];
             !live.deleted && live.key != EMPTY && dead.deleted && Lookup(b.l1, dead.key).None?
    requires Promotes(b, c, now) && !Holds(b.l2, c)
    ensures Get(b, c, now, now).change.reports == []
    ensures var live, dead := b.l2[|b.l2| - 2], b.l2[|b.l2| - 1];
            var b' := Get(b, dead.key, now, now).change.after;
            WellFormed(b') && Get(b', c, now, now).change.reports == [Item(live.key, live.val)]
  {
    var dead := b.l2[|b.l2| - 1];
    assert Lookup(b.l2, dead.key).None? by { FindAt(b.l2, |b.l2| - 1); }
    assert c != dead.key;
    hide Lookup, Put, Del, Touch, Delete, Distinct;
    TouchTail(b.l2);
    GetLookups(b, c, now, now, c);
    GetLookups(b, dead.key, now, now, c);
    var b' := Get(b, dead.key, now, now).change.after;
    assert b'.l2 == Touch(b.l2, dead.key);
    GetLookups(b', c, now, now, c);
  }
}
