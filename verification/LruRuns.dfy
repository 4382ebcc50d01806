/**
Whole runs of the byte-bounded LRU store, and the promise behind its name: with a positive limit, the
bytes stay within it. Overwriting a value evicts nothing, so the promise can fail; the theorems say
exactly when.
*/
module LruRuns {
  import opened Types
  import opened Lru

  datatype State = State(items: seq<Item>, expires: map<Key, int>, max: int)

  /** `now` is the clock when an expiry is computed or tested, `later` when the eviction looks at it. */
  datatype Op =
    | SetOp(key: Key, val: Value, expiration: int, now: int, later: int)
    | GetOp(key: Key, now: int)
    | DeleteOp(key: Key)
    | ClearOp
    | UpdateExpirationOp(key: Key, expiration: int, now: int)
    | SetMaxBytesOp(limit: int, now: int)
    | TickOp(now: int)                               // one round of the cleanup loop

  /** The value of a key in a list of items. */
  function Find(c: seq<Item>, key: Key): Option<Value> {
    if c == [] then None else if c[0].key == key then Some(c[0].val) else Find(c[1..], key)
  }

  /** The expiry times of the keys that are in the list. */
  function Restricted(expires: map<Key, int>, c: seq<Item>): map<Key, int> {
    map k | k in expires && Find(c, k).Some? :: expires[k]
  }

  function Evict(s: State, now: int): State {
    var c := Evicted(s.items, s.expires, s.max, now);
    State(c, Restricted(s.expires, c), s.max)
  }

  function Drop(s: State, key: Key): State {
    State(Keeping(s.items, {key}), s.expires - {key}, s.max)
  }

  function Apply(s: State, op: Op): State {
    match op
    case SetOp(key, val, expiration, now, later) =>
      if val == Nil then Drop(s, key)
      else
        var ex := Expiring(s.expires, key, expiration, now);
        if Find(s.items, key).Some? then State(Keeping(s.items, {key}) + [Item(key, val)], ex, s.max)
        else Evict(State(s.items + [Item(key, val)], ex, s.max), later)
    case GetOp(key, now) =>
      var found := Find(s.items, key);
      if found.Some? && !Late(s.expires, key, now)
      then s.(items := Keeping(s.items, {key}) + [Item(key, found.value)]) else s
    case DeleteOp(key) => Drop(s, key)
    case ClearOp => State([], map[], s.max)
    case UpdateExpirationOp(key, expiration, now) =>
      if Find(s.items, key).Some? then s.(expires := Expiring(s.expires, key, expiration, now)) else s
    case SetMaxBytesOp(limit, now) =>
      var t := s.(max := limit);
      if limit > 0 then Evict(t, now) else t
    case TickOp(now) => Evict(s, now)
  }

  lemma SetApplied(s: State, key: Key, val: Value, expiration: int, now: int, later: int)
    ensures var t, ex := Apply(s, SetOp(key, val, expiration, now, later)), Expiring(s.expires, key, expiration, now);
            && (val == Nil ==> t == Apply(s, DeleteOp(key)))
            && (val != Nil && Find(s.items, key).Some? ==>
                  t == State(Keeping(s.items, {key}) + [Item(key, val)], ex, s.max))
            && (val != Nil && Find(s.items, key).None? ==>
                  t == Evict(State(s.items + [Item(key, val)], ex, s.max), later))
  {
  }

  lemma GetApplied(s: State, key: Key, now: int)
    ensures var t, found := Apply(s, GetOp(key, now)), Find(s.items, key);
            if found.Some? && !Late(s.expires, key, now)
            then t == State(Keeping(s.items, {key}) + [Item(key, found.value)], s.expires, s.max)
            else t == s
  {
  }

  /** What a read answers. */
  function Answer(s: State, key: Key, now: int): Option<Value> {
    if Late(s.expires, key, now) then None else Find(s.items, key)
  }

  function Run(s: State, ops: seq<Op>): State
    decreases |ops|
  {
    if ops == [] then s else Run(Apply(s, ops[0]), ops[1..])
  }

  predicate WithinLimit(s: State) {
    s.max > 0 ==> Bytes(s.items) <= s.max
  }

  // ----- Looking up items -----

  lemma {:induction false} FindAt(c: seq<Item>, i: nat)
    requires DistinctKeys(c) && i < |c|
    ensures Find(c, c[i].key) == Some(c[i].val)
  {
    if i > 0 { FindAt(c[1..], i - 1); }
  }

  lemma {:induction false} FindNone(c: seq<Item>, key: Key)
    ensures Find(c, key).None? <==> forall i :: 0 <= i < |c| ==> c[i].key != key
  {
    if c != [] {
      FindNone(c[1..], key);
      assert forall i :: 0 < i < |c| ==> c[i] == c[1..][i - 1];
    }
  }

  function Weight(key: Key, found: Option<Value>): nat {
    match found case None => 0 case Some(v) => Size(Item(key, v))
  }

  lemma {:induction false} BytesKeeping(c: seq<Item>, key: Key)
    requires DistinctKeys(c)
    ensures Bytes(Keeping(c, {key})) == Bytes(c) - Weight(key, Find(c, key))
  {
    if c != [] {
      if c[0].key == key {
        KeepingNone(c[1..], {key});
        assert [] + c[1..] == c[1..];
      } else {
        BytesKeeping(c[1..], key);
        BytesCons(c[0], Keeping(c[1..], {key}));
      }
    }
  }

  // ----- Keys stay distinct -----

  lemma {:induction false} KeepingDistinct(c: seq<Item>, gone: set<Key>)
    requires DistinctKeys(c)
    ensures DistinctKeys(Keeping(c, gone))
  {
    if c != [] {
      var rest := Keeping(c[1..], gone);
      KeepingDistinct(c[1..], gone);
      forall j | 0 <= j < |rest| ensures rest[j].key != c[0].key {
        OtherKey(c, gone, j);
      }
    }
  }

  lemma {:induction false} FittingDistinct(c: seq<Item>, max: int)
    requires DistinctKeys(c)
    ensures DistinctKeys(Fitting(c, max))
  {
    if c != [] { FittingDistinct(c[1..], max); }
  }

  lemma MovedDistinct(c: seq<Item>, x: Item)
    requires DistinctKeys(c)
    ensures DistinctKeys(Keeping(c, {x.key}) + [x])
  {
    var rest := Keeping(c, {x.key});
    KeepingDistinct(c, {x.key});
    forall j | 0 <= j < |rest| ensures rest[j].key != x.key {
      KeepingMembers(c, {x.key}, rest[j]);
    }
  }

  lemma EvictDistinct(s: State, now: int)
    requires DistinctKeys(s.items)
    ensures DistinctKeys(Evict(s, now).items)
  {
    hide DistinctKeys, Keeping, Fitting;
    KeepingDistinct(s.items, LateKeys(s.expires, now));
    FittingDistinct(Keeping(s.items, LateKeys(s.expires, now)), s.max);
  }

  lemma SnocDistinct(c: seq<Item>, x: Item)
    requires DistinctKeys(c) && Find(c, x.key).None?
    ensures DistinctKeys(c + [x])
  {
    FindNone(c, x.key);
  }

  lemma ApplyDistinct(s: State, op: Op)
    requires DistinctKeys(s.items)
    ensures DistinctKeys(Apply(s, op).items)
  {
    assert DistinctKeys([]);
    hide DistinctKeys, Keeping, Evict;
    match op
    case SetOp(key, val, expiration, now, later) =>
      KeepingDistinct(s.items, {key});
      MovedDistinct(s.items, Item(key, val));
      if Find(s.items, key).None? {
        SnocDistinct(s.items, Item(key, val));
        EvictDistinct(State(s.items + [Item(key, val)], Expiring(s.expires, key, expiration, now), s.max), later);
      }
    case GetOp(key, now) =>
      if Find(s.items, key).Some? { MovedDistinct(s.items, Item(key, Find(s.items, key).value)); }
    case DeleteOp(key) => KeepingDistinct(s.items, {key});
    case ClearOp =>
    case UpdateExpirationOp(key, expiration, now) =>
    case SetMaxBytesOp(limit, now) => EvictDistinct(s.(max := limit), now);
    case TickOp(now) => EvictDistinct(s, now);
  }

  // ----- One operation -----

  /** Operations after which the limit holds whatever came before: those that evict, a new limit, Clear. */
  predicate Settles(s: State, op: Op) {
    match op
    case SetOp(key, val, _, _, _) => val != Nil && Find(s.items, key).None?
    case GetOp(_, _) => false
    case DeleteOp(_) => false
    case ClearOp => true
    case UpdateExpirationOp(_, _, _) => false
    case SetMaxBytesOp(_, _) => true
    case TickOp(_) => true
  }

  /** The bytes any other operation adds, from the entry it finds before the call. */
  function Growth(s: State, op: Op): int {
    match op
    case SetOp(key, val, _, _, _) =>
      (if val == Nil then 0 else Size(Item(key, val))) - Weight(key, Find(s.items, key))
    case DeleteOp(key) => 0 - Weight(key, Find(s.items, key))
    case _ => 0
  }

  /** A write to a present key whose new length does not fit. */
  predicate Overruns(s: State, op: Op) {
    && op.SetOp? && op.val != Nil && Find(s.items, op.key).Some?
    && 0 < s.max < Bytes(s.items) + Growth(s, op)
  }

  lemma EvictSettles(s: State, now: int)
    ensures WithinLimit(Evict(s, now)) && Evict(s, now).max == s.max
  {
    hide Bytes, Keeping, Fitting, Dropped;
    EvictionIsExact(s.items, s.expires, s.max, now);
  }

  lemma SettlingSettles(s: State, op: Op)
    requires Settles(s, op)
    ensures WithinLimit(Apply(s, op))
  {
    assert Bytes([]) == 0;
    hide Evict, Bytes;
    match op
    case SetOp(key, val, expiration, now, later) =>
      EvictSettles(State(s.items + [Item(key, val)], Expiring(s.expires, key, expiration, now), s.max), later);
    case ClearOp =>
    case SetMaxBytesOp(limit, now) => EvictSettles(s.(max := limit), now);
    case TickOp(now) => EvictSettles(s, now);
  }

  lemma OtherwiseGrows(s: State, op: Op)
    requires DistinctKeys(s.items) && !Settles(s, op)
    ensures Apply(s, op).max == s.max && Bytes(Apply(s, op).items) == Bytes(s.items) + Growth(s, op)
  {
    hide Bytes, Keeping, Size, Evict;
    match op
    case SetOp(key, val, _, _, _) =>
      BytesKeeping(s.items, key);
      BytesSnoc(Keeping(s.items, {key}), Item(key, val));
    case GetOp(key, now) =>
      var found := Find(s.items, key);
      BytesKeeping(s.items, key);
      if found.Some? { BytesSnoc(Keeping(s.items, {key}), Item(key, found.value)); }
    case DeleteOp(key) => BytesKeeping(s.items, key);
    case UpdateExpirationOp(_, _, _) =>
  }

  /** From a state within its limit, one operation leads outside exactly if it is an overrunning write. */
  lemma StepWithinIff(s: State, op: Op)
    requires DistinctKeys(s.items) && WithinLimit(s)
    ensures WithinLimit(Apply(s, op)) <==> !Overruns(s, op)
  {
    hide Apply, Bytes, Find, DistinctKeys;
    if Settles(s, op) {
      SettlingSettles(s, op);
    } else {
      OtherwiseGrows(s, op);
    }
  }

  /** No limit is safe: whatever a cache holds, a large enough overwrite of any of its keys exceeds it. */
  lemma UpdateMayExceedLimit(s: State, key: Key, val: Value, now: int)
    requires DistinctKeys(s.items) && s.max > 0 && Find(s.items, key).Some?
    requires val != Nil && val.len > s.max
    ensures !WithinLimit(Apply(s, SetOp(key, val, 0, now, now)))
  {
    hide Find, Apply, Bytes, Keeping, DistinctKeys;
    OtherwiseGrows(s, SetOp(key, val, 0, now, now));
    BytesKeeping(s.items, key);
  }

  // ----- Runs -----

  /** The state is within its limit now and after every operation of the run. */
  predicate AlwaysWithin(s: State, ops: seq<Op>)
    decreases |ops|
  {
    WithinLimit(s) && (ops == [] || AlwaysWithin(Apply(s, ops[0]), ops[1..]))
  }

  predicate NeverOverruns(s: State, ops: seq<Op>)
    decreases |ops|
  {
    ops == [] || (!Overruns(s, ops[0]) && NeverOverruns(Apply(s, ops[0]), ops[1..]))
  }

  /** The limit holds throughout a run exactly if no write to a present key in it overruns the limit. */
  lemma {:induction false} AlwaysWithinIff(s: State, ops: seq<Op>)
    requires DistinctKeys(s.items) && WithinLimit(s)
    ensures AlwaysWithin(s, ops) <==> NeverOverruns(s, ops)
    decreases |ops|
  {
    hide Apply, DistinctKeys, WithinLimit, Overruns;
    if ops != [] {
      StepWithinIff(s, ops[0]);
      ApplyDistinct(s, ops[0]);
      if WithinLimit(Apply(s, ops[0])) {
        AlwaysWithinIff(Apply(s, ops[0]), ops[1..]);
      } else {
        assert !AlwaysWithin(Apply(s, ops[0]), ops[1..]);
      }
    }
  }

  /** Nothing in the run settles the limit. */
  predicate Unsettled(s: State, ops: seq<Op>)
    decreases |ops|
  {
    ops == [] || (!Settles(s, ops[0]) && Unsettled(Apply(s, ops[0]), ops[1..]))
  }

  function TotalGrowth(s: State, ops: seq<Op>): int
    decreases |ops|
  {
    if ops == [] then 0 else Growth(s, ops[0]) + TotalGrowth(Apply(s, ops[0]), ops[1..])
  }

  lemma {:induction false} UnsettledGrows(s: State, ops: seq<Op>)
    requires DistinctKeys(s.items) && Unsettled(s, ops)
    ensures Run(s, ops).max == s.max
    ensures Bytes(Run(s, ops).items) == Bytes(s.items) + TotalGrowth(s, ops)
    decreases |ops|
  {
    hide Apply, DistinctKeys, Bytes, Settles, Growth;
    if ops != [] {
      OtherwiseGrows(s, ops[0]);
      ApplyDistinct(s, ops[0]);
      UnsettledGrows(Apply(s, ops[0]), ops[1..]);
    }
  }

  /** After `i` operations the run has just settled, or not yet begun, and settles no more. */
  predicate SettledLast(s: State, ops: seq<Op>, i: nat) {
    && i <= |ops| && Unsettled(Run(s, ops[..i]), ops[i..])
    && (i > 0 ==> Settles(Run(s, ops[..i - 1]), ops[i - 1]))
  }

  lemma {:induction false} RunSplit(s: State, ops: seq<Op>, i: nat)
    requires i <= |ops|
    ensures Run(s, ops) == Run(Run(s, ops[..i]), ops[i..])
    decreases |ops|
  {
    hide Apply;
    if i > 0 {
      assert ops[..i][1..] == ops[1..][..i - 1] && ops[1..][i - 1..] == ops[i..];
      RunSplit(Apply(s, ops[0]), ops[1..], i - 1);
    } else {
      assert ops[..0] == [] && ops[0..] == ops;
    }
  }

  lemma {:induction false} RunDistinct(s: State, ops: seq<Op>)
    requires DistinctKeys(s.items)
    ensures DistinctKeys(Run(s, ops).items)
    decreases |ops|
  {
    hide Apply, DistinctKeys;
    if ops != [] {
      ApplyDistinct(s, ops[0]);
      RunDistinct(Apply(s, ops[0]), ops[1..]);
    }
  }

  /**
  Wherever the limit was last settled, the state then was within it, and the run ends above the limit
  exactly if the overwrites since, less what was deleted, have grown the total past it.
  */
  lemma OverLimitIff(s: State, ops: seq<Op>, i: nat)
    requires DistinctKeys(s.items) && WithinLimit(s) && SettledLast(s, ops, i)
    ensures var t := Run(s, ops[..i]);
            && WithinLimit(t)
            && (!WithinLimit(Run(s, ops)) <==> 0 < t.max < Bytes(t.items) + TotalGrowth(t, ops[i..]))
  {
    hide Apply, DistinctKeys, Bytes, Settles, Unsettled;
    var t := Run(s, ops[..i]);
    RunDistinct(s, ops[..i]);
    RunSplit(s, ops, i);
    UnsettledGrows(t, ops[i..]);
    if i > 0 {
      RunSplit(s, ops[..i], i - 1);
      assert ops[..i][..i - 1] == ops[..i - 1] && ops[..i][i - 1..] == [ops[i - 1]];
      LastStep(Run(s, ops[..i - 1]), ops[i - 1]);
      SettlingSettles(Run(s, ops[..i - 1]), ops[i - 1]);
    } else {
      assert ops[..0] == [];
    }
  }

  lemma LastStep(s: State, op: Op)
    ensures Run(s, [op]) == Apply(s, op)
  {
    hide Apply;
    assert [op][1..] == [];
    assert Run(Apply(s, op), []) == Apply(s, op);
  }

  /** Every run has such a point. */
  lemma {:induction false} SettledSomewhere(s: State, ops: seq<Op>) returns (i: nat)
    ensures SettledLast(s, ops, i)
    decreases |ops|
  {
    hide Apply, Settles;
    if Unsettled(s, ops) {
      i := 0;
      assert ops[..0] == [] && ops[0..] == ops;
    } else {
      var j := SettledSomewhere(Apply(s, ops[0]), ops[1..]);
      assert ops[1..][..0] == [] && ops[1..][0..] == ops[1..];
      SettledLater(s, ops, j);
      i := j + 1;
    }
  }

  lemma SettledLater(s: State, ops: seq<Op>, i: nat)
    requires ops != [] && SettledLast(Apply(s, ops[0]), ops[1..], i) && (i > 0 || Settles(s, ops[0]))
    ensures SettledLast(s, ops, i + 1)
  {
    hide Apply, Settles, Unsettled;
    assert ops[..i + 1][1..] == ops[1..][..i] && ops[1..][i..] == ops[i + 1..];
    if i > 0 {
      assert ops[..i][1..] == ops[1..][..i - 1] && ops[1..][i - 1] == ops[i];
    } else {
      assert ops[..0] == [];
    }
  }
}
