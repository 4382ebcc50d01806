/**
How long a key stays visible in a bucket of the two-level store: level one passes its oldest entry on
to level two, so the two levels together hold on to a key for as long as the larger of them would.
*/
module BucketRetention {
  import opened Types
  import opened RecencyList
  import opened Retention
  import opened TwoLevel

  datatype Use =
    | Write(key: Key, val: Value, expireAt: int)
    | Read(key: Key, now: int, now2: int)
    | Remove(key: Key)

  ghost function UseBucket(b: Bucket, u: Use): (t: Bucket)
    requires WellFormed(b)
    ensures WellFormed(t) && t.cap1 == b.cap1 && t.cap2 == b.cap2
  {
    match u
    case Write(k, v, e) => SetLookups(b, k, v, e, k); Set(b, k, v, e).after
    case Read(k, now, now2) => GetLookups(b, k, now, now2, k); Get(b, k, now, now2).change.after
    case Remove(k) => DeleteLookups(b, k, k); Delete(b, k).after
  }

  ghost function UseAll(b: Bucket, us: seq<Use>): (t: Bucket)
    requires WellFormed(b)
    ensures WellFormed(t)
    decreases |us|
  {
    if us == [] then b else UseAll(UseBucket(b, us[0]), us[1..])
  }

  function Touches(u: Use): set<Key> {
    if u.Remove? then {} else {u.key}
  }

  /** The keys written or read. */
  function Touched(us: seq<Use>): set<Key> {
    if us == [] then {} else Touches(us[0]) + Touched(us[1..])
  }

  // ----- Where the key is -----

  /** In level one, with only keys of `used` ahead of it. */
  ghost predicate InOne(b: Bucket, k: Key, e: Entry, used: set<Key>) {
    Lookup(b.l1, k) == Some(e) && AheadWithin(b.l1, k, used)
  }

  /** In level two, with only keys of `used` ahead of it there and alive in level one. */
  ghost predicate InTwo(b: Bucket, k: Key, e: Entry, used: set<Key>) {
    && Lookup(b.l1, k).None? && Lookup(b.l2, k) == Some(e) && AheadWithin(b.l2, k, used)
    && forall q :: Lookup(b.l1, q).Some? ==> q in used
  }

  lemma MoreAhead(s: seq<Node>, k: Key, a: set<Key>, b: set<Key>)
    requires AheadWithin(s, k, a) && a <= b
    ensures AheadWithin(s, k, b)
  {
  }

  /** One step of a level on another key: the entry stays, with at most that key ahead, or `cap` keys were used. */
  lemma LevelStep(s: seq<Node>, cap: nat, op: CacheOp, k: Key, e: Entry, used: set<Key>)
    requires Fits(s, cap) && cap > 0 && Lookup(s, k) == Some(e) && AheadWithin(s, k, used) && op.key != k
    ensures var t := Retention.Step(s, cap, op);
            if Holds(t, k) then Lookup(t, k) == Some(e) && AheadWithin(t, k, UsedAfter(used, op, k))
            else op.PutOp? && |UsedAfter(used, op, k)| >= cap
  {
    hide Retention.Step, Distinct;
    assert Holds(s, k);
    AheadStep(s, cap, op, k, used);
    StepLookup(s, cap, op, k);
    StepHolds(s, cap, op, k);
  }

  // ----- Writes -----

  lemma SetLevelOne(b: Bucket, x: Key, v: Value, ex: int)
    requires WellFormed(b)
    ensures Set(b, x, v, ex).after.l1 == Retention.Step(b.l1, b.cap1, PutOp(x, v, ex))
  {
    hide Put;
  }

  lemma SetLevelTwo(b: Bucket, x: Key, v: Value, ex: int)
    requires WellFormed(b)
    ensures var w := Victim1(b, x);
            Set(b, x, v, ex).after.l2 ==
            if Demoted(b, x) then Retention.Step(b.l2, b.cap2, PutOp(w.value.key, w.value.val, w.value.expireAt))
            else b.l2
  {
    PutFind(b.l1, b.cap1, Node(x, v, ex, false), x);
    hide Put;
    if Victim1(b, x).Some? { EvictedIsLive(b.l1, b.cap1, x); }
  }

  lemma WriteInOne(b: Bucket, k: Key, e: Entry, used: set<Key>, x: Key, v: Value, ex: int)
    requires WellFormed(b) && InOne(b, k, e, used) && x != k && Storable(k, e) && k !in used
    ensures var t := Set(b, x, v, ex).after;
            InOne(t, k, e, used + {x}) || (InTwo(t, k, e, used + {x}) && |used + {x}| >= b.cap1)
  {
    hide Set, Lookup, AheadWithin, Retention.Step, Distinct, Evicted;
    var t := Set(b, x, v, ex).after;
    SetLevelOne(b, x, v, ex);
    LevelStep(b.l1, b.cap1, PutOp(x, v, ex), k, e, used);
    if !Holds(t.l1, k) {
      PushedDown(b, k, e, used, x, v, ex);
    }
  }

  /** Level one lets go of `k` only as its oldest entry; level two takes it as its newest. */
  lemma PushedDown(b: Bucket, k: Key, e: Entry, used: set<Key>, x: Key, v: Value, ex: int)
    requires WellFormed(b) && InOne(b, k, e, used) && x != k && Storable(k, e) && k !in used
    requires !Holds(Set(b, x, v, ex).after.l1, k)
    ensures InTwo(Set(b, x, v, ex).after, k, e, used + {x})
  {
    var t := Set(b, x, v, ex).after;
    SetLevelOne(b, x, v, ex);
    assert Holds(b.l1, k);
    StepHolds(b.l1, b.cap1, PutOp(x, v, ex), k);
    hide Set, Distinct, Put;
    var w := Victim1(b, x);
    assert w == Some(Node(k, e.val, e.expireAt, false));
    SetLookups(b, x, v, ex, k);
    SetLevelTwo(b, x, v, ex);
    PutFind(b.l2, b.cap2, Node(k, e.val, e.expireAt, false), k);
    assert Find(t.l2, k) == 0;
    forall q | Lookup(t.l1, q).Some? ensures q in used + {x} {
      SetLookups(b, x, v, ex, q);
      if q != x {
        assert Find(b.l1, q) != Find(b.l1, k);
        assert Before(b.l1, q, k);
      }
    }
  }

  lemma WriteInTwo(b: Bucket, k: Key, e: Entry, used: set<Key>, x: Key, v: Value, ex: int)
    requires WellFormed(b) && InTwo(b, k, e, used) && x != k && k !in used
    ensures var t := Set(b, x, v, ex).after;
            InTwo(t, k, e, used + {x}) || |used + {x}| >= b.cap2
  {
    hide Set, Lookup, AheadWithin, Retention.Step, Distinct, Evicted;
    var t := Set(b, x, v, ex).after;
    SetLookups(b, x, v, ex, k);
    SetLevelTwo(b, x, v, ex);
    var w := Victim1(b, x);
    if w.Some? { EvictedIsLive(b.l1, b.cap1, x); }
    if Demoted(b, x) {
      var op := PutOp(w.value.key, w.value.val, w.value.expireAt);
      assert used + {w.value.key} == used;
      LevelStep(b.l2, b.cap2, op, k, e, used);
      SubsetCount(used, used + {x});
      if Holds(t.l2, k) { MoreAhead(t.l2, k, used, used + {x}); }
    } else {
      MoreAhead(t.l2, k, used, used + {x});
    }
    forall q | Lookup(t.l1, q).Some? ensures q in used + {x} {
      SetLookups(b, x, v, ex, q);
    }
  }

  // ----- Reads and removals -----

  lemma GetLevels(b: Bucket, x: Key, now: int, now2: int)
    requires WellFormed(b)
    ensures var t, e1 := Get(b, x, now, now2).change.after, Lookup(b.l1, x);
            && t.l1 == Del(b.l1, x)
            && t.l2 == (if Promotes(b, x, now)
                        then Put(b.l2, b.cap2, Node(x, e1.value.val, e1.value.expireAt, false)).list
                        else if e1.Some? then b.l2
                        else if Purges(b, x, now, now2) then Del(Touch(b.l2, x), x)
                        else Touch(b.l2, x))
  {
    hide Put, Touch;
  }

  lemma ReadInOne(b: Bucket, k: Key, e: Entry, used: set<Key>, x: Key, now: int, now2: int)
    requires WellFormed(b) && InOne(b, k, e, used) && x != k
    ensures InOne(Get(b, x, now, now2).change.after, k, e, used + {x})
  {
    hide Get, Lookup, AheadWithin, Put, Touch, Del, Distinct;
    GetLevels(b, x, now, now2);
    LevelStep(b.l1, b.cap1, DelOp(x), k, e, used);
    MoreAhead(Del(b.l1, x), k, used, used + {x});
  }

  lemma ReadInTwo(b: Bucket, k: Key, e: Entry, used: set<Key>, x: Key, now: int, now2: int)
    requires WellFormed(b) && InTwo(b, k, e, used) && x != k && k !in used
    ensures InTwo(Get(b, x, now, now2).change.after, k, e, used + {x}) || |used + {x}| >= b.cap2
  {
    hide Get, Lookup, AheadWithin, Put, Touch, Del, Distinct;
    var t := Get(b, x, now, now2).change.after;
    GetLevels(b, x, now, now2);
    GetLookups(b, x, now, now2, k);
    forall q | Lookup(t.l1, q).Some? ensures q in used + {x} {
      GetLookups(b, x, now, now2, q);
    }
    if Promotes(b, x, now) {
      var f := Lookup(b.l1, x).value;
      LevelStep(b.l2, b.cap2, PutOp(x, f.val, f.expireAt), k, e, used);
    } else if Lookup(b.l1, x).Some? {
      MoreAhead(b.l2, k, used, used + {x});
    } else {
      LevelStep(b.l2, b.cap2, GetOp(x), k, e, used);
      TouchFind(b.l2, x, x);
      LevelStep(Touch(b.l2, x), b.cap2, DelOp(x), k, e, used + {x});
    }
  }

  lemma RemoveInOne(b: Bucket, k: Key, e: Entry, used: set<Key>, x: Key)
    requires WellFormed(b) && InOne(b, k, e, used) && x != k
    ensures InOne(Delete(b, x).after, k, e, used)
  {
    hide Lookup, AheadWithin, Del, Distinct;
    LevelStep(b.l1, b.cap1, DelOp(x), k, e, used);
  }

  lemma RemoveInTwo(b: Bucket, k: Key, e: Entry, used: set<Key>, x: Key)
    requires WellFormed(b) && InTwo(b, k, e, used) && x != k
    ensures InTwo(Delete(b, x).after, k, e, used)
  {
    hide Lookup, AheadWithin, Del, Distinct;
    LevelStep(b.l2, b.cap2, DelOp(x), k, e, used);
    DeleteLookups(b, x, k);
    forall q | Lookup(Delete(b, x).after.l1, q).Some? ensures q in used {
      DeleteLookups(b, x, q);
    }
  }

  // ----- Runs -----

  function Larger(a: nat, b: nat): nat {
    if a < b then b else a
  }

  /** The key is in a level where fewer than `n` used keys cannot cost it its place. */
  ghost predicate Safe(b: Bucket, k: Key, e: Entry, used: set<Key>, n: nat) {
    && k !in used && |used| <= n
    && ((InOne(b, k, e, used) && Storable(k, e) && n < Larger(b.cap1, b.cap2)) || (InTwo(b, k, e, used) && n < b.cap2))
  }

  lemma SafeStep(b: Bucket, k: Key, e: Entry, used: set<Key>, u: Use, n: nat)
    requires WellFormed(b) && Safe(b, k, e, used, n) && u.key != k && |used + Touches(u)| <= n
    ensures Safe(UseBucket(b, u), k, e, used + Touches(u), n)
  {
    hide InOne, InTwo, Set, Get, Delete, WellFormed;
    match u
    case Write(x, v, ex) =>
      if InOne(b, k, e, used) && Storable(k, e) { WriteInOne(b, k, e, used, x, v, ex); }
      if InTwo(b, k, e, used) { WriteInTwo(b, k, e, used, x, v, ex); }
    case Read(x, now, now2) =>
      if InOne(b, k, e, used) { ReadInOne(b, k, e, used, x, now, now2); }
      if InTwo(b, k, e, used) { ReadInTwo(b, k, e, used, x, now, now2); }
    case Remove(x) =>
      assert used + {} == used;
      if InOne(b, k, e, used) { RemoveInOne(b, k, e, used, x); }
      if InTwo(b, k, e, used) { RemoveInTwo(b, k, e, used, x); }
  }

  ghost predicate OfOthers(us: seq<Use>, k: Key) {
    forall i :: 0 <= i < |us| ==> us[i].key != k
  }

  lemma {:induction false} SafeRun(b: Bucket, k: Key, e: Entry, used: set<Key>, us: seq<Use>, n: nat)
    requires WellFormed(b) && Safe(b, k, e, used, n) && OfOthers(us, k) && |used + Touched(us)| <= n
    ensures View(UseAll(b, us), k) == Some(e)
    decreases |us|
  {
    hide UseBucket, WellFormed;
    if us != [] {
      var more := used + Touches(us[0]);
      assert more + Touched(us[1..]) == used + Touched(us);
      SubsetCount(more, used + Touched(us));
      hide Safe;
      SafeStep(b, k, e, used, us[0], n);
      SafeRun(UseBucket(b, us[0]), k, e, more, us[1..], n);
    }
  }

  /**
  After a write, a key that may be demoted keeps its value through every run of writes, reads and
  deletions of other keys that writes and reads fewer distinct keys than the larger level has slots.
  */
  lemma KeptInBucket(b: Bucket, k: Key, v: Value, ex: int, us: seq<Use>)
    requires WellFormed(b) && Storable(k, Entry(v, ex)) && OfOthers(us, k)
    requires |Touched(us)| < Larger(b.cap1, b.cap2)
    ensures WellFormed(Set(b, k, v, ex).after)
    ensures View(UseAll(Set(b, k, v, ex).after, us), k) == Some(Entry(v, ex))
  {
    hide Set, Put, Lookup, Distinct;
    var t := Set(b, k, v, ex).after;
    SetLookups(b, k, v, ex, k);
    SetLevelOne(b, k, v, ex);
    PutFind(b.l1, b.cap1, Node(k, v, ex, false), k);
    assert InOne(t, k, Entry(v, ex), {});
    assert {} + Touched(us) == Touched(us);
    SafeRun(t, k, Entry(v, ex), {}, us, |Touched(us)|);
  }

  /** The live keys of a level. */
  ghost function LiveKeys(s: seq<Node>): set<Key> {
    set i | 0 <= i < |s| && !s[i].deleted :: s[i].key
  }

  lemma InLiveKeys(s: seq<Node>, q: Key)
    requires Lookup(s, q).Some?
    ensures q in LiveKeys(s)
  {
  }

  /**
  After a read that moves a key down, it keeps its value as long as those keys, together with the ones
  then alive in level one, which later writes may push down on top of it, are fewer than level two has slots.
  */
  lemma KeptAfterRead(b: Bucket, k: Key, now: int, now2: int, us: seq<Use>)
    requires WellFormed(b) && Promotes(b, k, now) && OfOthers(us, k)
    requires |LiveKeys(b.l1) - {k} + Touched(us)| < b.cap2
    ensures WellFormed(Get(b, k, now, now2).change.after)
    ensures View(UseAll(Get(b, k, now, now2).change.after, us), k) == Lookup(b.l1, k)
  {
    hide Get, Put, Lookup, Distinct, LiveKeys, Del, Touch;
    var t, e, used := Get(b, k, now, now2).change.after, Lookup(b.l1, k).value, LiveKeys(b.l1) - {k};
    GetLookups(b, k, now, now2, k);
    GetLevels(b, k, now, now2);
    PutFind(b.l2, b.cap2, Node(k, e.val, e.expireAt, false), k);
    forall q | Lookup(t.l1, q).Some? ensures q in used {
      GetLookups(b, k, now, now2, q);
      InLiveKeys(b.l1, q);
    }
    assert InTwo(t, k, e, used);
    SubsetCount(used, used + Touched(us));
    SafeRun(t, k, e, used, us, |used + Touched(us)|);
  }
}
