/**
What reads of the byte-bounded LRU store answer, said in terms of clock readings, durations and lengths
alone.
*/
module LruAnswers {
  import opened Types
  import opened Lru
  import opened LruRuns

  // ----- Finding items -----

  lemma {:induction false} FindKeeping(c: seq<Item>, gone: set<Key>, k: Key)
    ensures Find(Keeping(c, gone), k) == if k in gone then None else Find(c, k)
  {
    if c != [] {
      FindKeeping(c[1..], gone, k);
      FindCons(c[0], Keeping(c[1..], gone), k);
      assert [] + Keeping(c[1..], gone) == Keeping(c[1..], gone);
    }
  }

  lemma FindCons(x: Item, c: seq<Item>, k: Key)
    ensures Find([x] + c, k) == if x.key == k then Some(x.val) else Find(c, k)
  {
    assert ([x] + c)[1..] == c;
  }

  lemma {:induction false} FindSnoc(c: seq<Item>, x: Item, k: Key)
    ensures Find(c + [x], k) ==
            if Find(c, k).Some? then Find(c, k) else if x.key == k then Some(x.val) else None
  {
    if c == [] {
      assert c + [x] == [x] && [x][1..] == [];
    } else {
      assert (c + [x])[1..] == c[1..] + [x];
      FindSnoc(c[1..], x, k);
    }
  }

  lemma FindMoved(c: seq<Item>, key: Key, v: Value, k: Key)
    ensures Find(Keeping(c, {key}) + [Item(key, v)], k) == if k == key then Some(v) else Find(c, k)
  {
    hide Keeping, Find;
    FindKeeping(c, {key}, k);
    FindSnoc(Keeping(c, {key}), Item(key, v), k);
  }

  // ----- One operation -----

  /** A write to a present key: until its duration is over it is what reads answer; other keys are unaffected. */
  lemma OverwriteThenRead(s: State, key: Key, val: Value, duration: int, now: int, later: int, k: Key, t: int)
    requires Find(s.items, key).Some? && val != Nil
    ensures Answer(Apply(s, SetOp(key, val, duration, now, later)), k, t) ==
            if k != key then Answer(s, k, t)
            else if duration > 0 && t > now + duration then None
            else Some(val)
  {
    hide Keeping, Find, Evict;
    FindMoved(s.items, key, val, k);
  }

  /** A new duration for a present key. */
  lemma UpdateThenRead(s: State, key: Key, duration: int, now: int, k: Key, t: int)
    ensures Answer(Apply(s, UpdateExpirationOp(key, duration, now)), k, t) ==
            if k == key && Find(s.items, key).Some? then
              (if duration > 0 && t > now + duration then None else Find(s.items, key))
            else Answer(s, k, t)
  {
    hide Find, Evict;
  }

  /** Reads change no answers; a deletion, or a write of nil, takes away the answer of its key alone. */
  lemma OtherOpsThenRead(s: State, key: Key, t0: int, k: Key, t: int)
    ensures Answer(Apply(s, GetOp(key, t0)), k, t) == Answer(s, k, t)
    ensures Answer(Apply(s, DeleteOp(key)), k, t) == if k == key then None else Answer(s, k, t)
    ensures Answer(Apply(s, ClearOp), k, t) == None
  {
    hide Keeping, Evict;
    assert Find([], k) == None;
    hide Find;
    if Find(s.items, key).Some? { FindMoved(s.items, key, Find(s.items, key).value, k); }
    FindKeeping(s.items, {key}, k);
  }

  // ----- Eviction -----

  /** Without a limit an eviction at `now` takes exactly the items whose time lies before it. */
  lemma UnlimitedEvictionExact(s: State, now: int, x: Item)
    requires s.max <= 0
    ensures x in Evict(s, now).items <==> x in s.items && (x.key !in s.expires || now <= s.expires[x.key])
  {
    hide Keeping, Fitting, Dropped, Bytes, LateKeys;
    EvictionIsExact(s.items, s.expires, s.max, now);
    var u := Keeping(s.items, LateKeys(s.expires, now));
    assert [] + Evicted(s.items, s.expires, s.max, now) == Evicted(s.items, s.expires, s.max, now);
  }

  lemma {:induction false} LastStaysIff(c: seq<Item>, x: Item, max: int)
    ensures max <= 0 || Size(x) <= max ==> Fitting(c + [x], max) != [] && Last(Fitting(c + [x], max)) == x
    ensures max > 0 && Size(x) > max ==> Fitting(c + [x], max) == []
    decreases |c|
  {
    BytesSnoc(c, x);
    if c == [] {
      assert c + [x] == [x] && [x][1..] == [];
    } else {
      assert (c + [x])[1..] == c[1..] + [x];
      LastStaysIff(c[1..], x, max);
    }
  }

  function Last(c: seq<Item>): Item
    requires c != []
  {
    c[|c| - 1]
  }

  lemma KeepingSnoc(c: seq<Item>, x: Item, gone: set<Key>)
    ensures Keeping(c + [x], gone) == Keeping(c, gone) + if x.key in gone then [] else [x]
    decreases |c|
  {
    if c == [] {
      assert c + [x] == [x] && [x][1..] == [];
    } else {
      assert (c + [x])[1..] == c[1..] + [x];
      KeepingSnoc(c[1..], x, gone);
    }
  }

  /** The newest item survives its own eviction exactly if its time has not passed and it fits on its own. */
  lemma NewestStaysIff(s: State, x: Item, now: int)
    requires DistinctKeys(s.items) && s.items != [] && Last(s.items) == x
    ensures Find(Evict(s, now).items, x.key) ==
            if (x.key in s.expires && now > s.expires[x.key]) || (s.max > 0 && Size(x) > s.max) then None
            else Some(x.val)
  {
    var c, gone := s.items[..|s.items| - 1], LateKeys(s.expires, now);
    assert s.items == c + [x];
    var r := Evict(s, now).items;
    EvictDistinct(s, now);
    KeepingSnoc(c, x, gone);
    hide Keeping, Fitting, Bytes, Find, DistinctKeys;
    if x.key in gone {
      forall i | 0 <= i < |r| ensures r[i].key != x.key {
        LeftOver(s, now, r[i]);
      }
      FindNone(r, x.key);
    } else {
      LastStaysIff(Keeping(c, gone), x, s.max);
      if r == [] {
        FindNone(r, x.key);
      } else {
        FindAt(r, |r| - 1);
      }
    }
  }

  lemma LeftOver(s: State, now: int, x: Item)
    requires x in Evict(s, now).items
    ensures x.key !in LateKeys(s.expires, now)
  {
    hide Keeping, Fitting, Dropped, Bytes;
    EvictionIsExact(s.items, s.expires, s.max, now);
    var u := Keeping(s.items, LateKeys(s.expires, now));
    assert x in u;
    KeepingMembers(s.items, LateKeys(s.expires, now), x);
  }

  /**
  A write of a new key. It can be read exactly if its name and value fit the limit on their own, and
  until its duration is over, also at the moment of the eviction that the write itself sets off.
  */
  lemma InsertThenRead(s: State, key: Key, val: Value, duration: int, now: int, later: int, t: int)
    requires DistinctKeys(s.items) && Find(s.items, key).None? && val != Nil
    ensures Answer(Apply(s, SetOp(key, val, duration, now, later)), key, t) ==
            if (s.max > 0 && |key.bytes| + val.len > s.max)
               || (duration > 0 && (later > now + duration || t > now + duration))
            then None else Some(val)
  {
    var x := Item(key, val);
    var grown := State(s.items + [x], Expiring(s.expires, key, duration, now), s.max);
    SnocDistinct(s.items, x);
    NewestStaysIff(grown, x, later);
    hide Keeping, Fitting, Bytes, DistinctKeys;
  }
}
