/**
One bucket of the two-level store. Writes go to level one, a read moves a level-one entry to level
two, and what level one evicts is demoted to level two, so a key may be live in both levels at once.
`View` is what a client can observe; the theorems say how each operation changes it, which keys it
may lose, and which of those reach the eviction callback.
*/
module TwoLevel {
  import opened Types
  import opened RecencyList

  const NO_EXPIRATION: int := 0x7fff_ffff_ffff_ffff

  function Wrap64(x: int): (r: int)
    ensures -0x8000_0000_0000_0000 <= r < 0x8000_0000_0000_0000
    ensures -0x8000_0000_0000_0000 <= x < 0x8000_0000_0000_0000 ==> r == x
  {
    (x + 0x8000_0000_0000_0000) % 0x1_0000_0000_0000_0000 - 0x8000_0000_0000_0000
  }

  /** The moment a write expires; no positive duration means never. */
  function ExpireAt(expiration: int, now: int): int {
    if expiration > 0 then Wrap64(now + expiration) else NO_EXPIRATION
  }

  datatype Bucket = Bucket(cap1: nat, cap2: nat, l1: seq<Node>, l2: seq<Node>)

  datatype Lookup2 = Hit(val: Value) | Miss

  datatype Change = Change(after: Bucket, reports: seq<Item>)

  datatype Got = Got(change: Change, result: Lookup2)

  ghost predicate WellFormed(b: Bucket) {
    b.cap1 > 0 && b.cap2 > 0 && Fits(b.l1, b.cap1) && Fits(b.l2, b.cap2)
  }

  /** The guard a level-one victim must pass to be demoted. */
  predicate Storable(k: Key, e: Entry) {
    k != EMPTY && e.val != Nil && e.expireAt > 0
  }

  predicate Expired(expireAt: int, now: int) {
    expireAt > 0 && expireAt != NO_EXPIRATION && now >= expireAt
  }

  function Report(ev: Option<Node>): seq<Item> {
    if ev.Some? && ev.value.key != EMPTY then [Item(ev.value.key, ev.value.val)] else []
  }

  /** The entry a client sees under `k`. */
  ghost function View(b: Bucket, k: Key): Option<Entry> {
    if Lookup(b.l1, k).Some? then Lookup(b.l1, k) else Lookup(b.l2, k)
  }

  // ----- The operations -----

  ghost function PutL2(b: Bucket, n: Node): Change
    requires b.cap2 > 0
  {
    var p := Put(b.l2, b.cap2, n);
    Change(b.(l2 := p.list), Report(p.evicted))
  }

  ghost function Set(b: Bucket, key: Key, val: Value, expireAt: int): Change
    requires WellFormed(b)
  {
    var p := Put(b.l1, b.cap1, Node(key, val, expireAt, false));
    var b' := b.(l1 := p.list);
    if p.evicted.Some? && Storable(p.evicted.value.key, EntryOf(p.evicted.value))
    then PutL2(b', p.evicted.value)
    else Change(b', [])
  }

  function EntryOf(n: Node): Entry {
    Entry(n.val, n.expireAt)
  }

  ghost function Delete(b: Bucket, key: Key): Change {
    var e1, e2 := Lookup(b.l1, key), Lookup(b.l2, key);
    Change(b.(l1 := Del(b.l1, key), l2 := Del(b.l2, key)),
           if e1.Some? && e1.value.val != Nil then [Item(key, e1.value.val)]
           else if e2.Some? && e2.value.val != Nil then [Item(key, e2.value.val)]
           else [])
  }

  /** Level two offers an entry to a reader whose own clock reading is `now2`. */
  predicate Readable(e: Entry, now2: int) {
    e.expireAt == NO_EXPIRATION || (e.expireAt > 0 && now2 < e.expireAt)
  }

  /** `now` is the clock read on entry, `now2` the one read while looking at level two. */
  ghost function Get(b: Bucket, key: Key, now: int, now2: int): Got
    requires WellFormed(b)
  {
    var e1, e2 := Lookup(b.l1, key), Lookup(b.l2, key);
    if e1.Some? then
      var b' := b.(l1 := Del(b.l1, key));
      if Expired(e1.value.expireAt, now) then Got(Change(b', []), Miss)
      else Got(PutL2(b', Node(key, e1.value.val, e1.value.expireAt, false)), Hit(e1.value.val))
    else
      var b' := b.(l2 := Touch(b.l2, key));
      if e2.Some? && Readable(e2.value, now2) then
        if Expired(e2.value.expireAt, now) then Got(Delete(b', key), Miss)
        else Got(Change(b', []), Hit(e2.value.val))
      else Got(Change(b', []), Miss)
  }

  // ----- Who is displaced -----

  /** The node level one throws out when `key` is written. */
  ghost function Victim1(b: Bucket, key: Key): Option<Node>
    requires WellFormed(b)
  {
    Evicted(b.l1, b.cap1, key)
  }

  ghost predicate Demoted(b: Bucket, key: Key)
    requires WellFormed(b)
  {
    var v := Victim1(b, key); v.Some? && Storable(v.value.key, EntryOf(v.value))
  }

  /** The node level two throws out when `key` is put there. */
  ghost function Victim2(b: Bucket, key: Key): Option<Node>
    requires WellFormed(b)
  {
    Evicted(b.l2, b.cap2, key)
  }

  ghost predicate Is(v: Option<Node>, k: Key) {
    v.Some? && v.value.key == k
  }

  /** A displaced node was the live entry of its own key, which is not the key put. */
  lemma EvictedIsLive(s: seq<Node>, cap: nat, key: Key)
    requires Fits(s, cap) && cap > 0 && Evicted(s, cap, key).Some?
    ensures var v := Evicted(s, cap, key).value;
            v.key != key && !v.deleted && Lookup(s, v.key) == Some(EntryOf(v))
  {
    FindAt(s, |s| - 1);
  }

  lemma PutLookups(s: seq<Node>, cap: nat, n: Node, k: Key)
    requires Fits(s, cap) && cap > 0 && !n.deleted
    ensures var p := Put(s, cap, n);
            && Fits(p.list, cap) && p.evicted == Evicted(s, cap, n.key)
            && Lookup(p.list, k) ==
               (if k == n.key then Some(EntryOf(n)) else if Is(p.evicted, k) then None else Lookup(s, k))
  {
    hide Put, Lookup, Distinct;
    PutLookup(s, cap, n, k);
    PutFind(s, cap, n, k);
  }

  // ----- Both levels after each operation, key by key -----

  lemma PutL2Lookups(b: Bucket, n: Node, k: Key)
    requires WellFormed(b) && !n.deleted
    ensures var c := PutL2(b, n);
            && WellFormed(c.after) && c.after == b.(l2 := c.after.l2)
            && c.reports == Report(Victim2(b, n.key))
            && Lookup(c.after.l2, k) ==
               (if k == n.key then Some(EntryOf(n)) else if Is(Victim2(b, n.key), k) then None else Lookup(b.l2, k))
  {
    hide Put, Lookup, Distinct, Evicted;
    PutLookups(b.l2, b.cap2, n, k);
  }

  ghost function SetReports(b: Bucket, key: Key): seq<Item>
    requires WellFormed(b)
  {
    if Demoted(b, key) then Report(Victim2(b, Victim1(b, key).value.key)) else []
  }

  lemma SetLookups(b: Bucket, key: Key, val: Value, expireAt: int, k: Key)
    requires WellFormed(b)
    ensures var c := Set(b, key, val, expireAt);
            var v := Victim1(b, key);
            && WellFormed(c.after) && c.after.cap1 == b.cap1 && c.after.cap2 == b.cap2
            && c.reports == SetReports(b, key)
            && Lookup(c.after.l1, k) ==
               (if k == key then Some(Entry(val, expireAt)) else if Is(v, k) then None else Lookup(b.l1, k))
            && Lookup(c.after.l2, k) ==
               (if Demoted(b, key) && Is(v, k) then Some(EntryOf(v.value))
                else if Demoted(b, key) && Is(Victim2(b, v.value.key), k) then None
                else Lookup(b.l2, k))
  {
    hide Put, Lookup, Distinct, Evicted, PutL2;
    var n := Node(key, val, expireAt, false);
    PutLookups(b.l1, b.cap1, n, k);
    var p := Put(b.l1, b.cap1, n);
    if p.evicted.Some? {
      EvictedIsLive(b.l1, b.cap1, key);
      PutL2Lookups(b.(l1 := p.list), p.evicted.value, k);
    }
  }

  lemma DeleteLookups(b: Bucket, key: Key, k: Key)
    requires WellFormed(b)
    ensures var c := Delete(b, key);
            && WellFormed(c.after) && c.after.cap1 == b.cap1 && c.after.cap2 == b.cap2
            && Lookup(c.after.l1, k) == (if k == key then None else Lookup(b.l1, k))
            && Lookup(c.after.l2, k) == (if k == key then None else Lookup(b.l2, k))
  {
    hide Lookup, Distinct, Del;
    DelFind(b.l1, key, k);
    DelFind(b.l2, key, k);
    DelLookup(b.l1, key, k);
    DelLookup(b.l2, key, k);
  }

  /** A level-one hit that has not expired moves to level two. */
  ghost predicate Promotes(b: Bucket, key: Key, now: int) {
    Lookup(b.l1, key).Some? && !Expired(Lookup(b.l1, key).value.expireAt, now)
  }

  /** A level-two hit that the second clock reading offers and the first one calls expired. */
  ghost predicate Purges(b: Bucket, key: Key, now: int, now2: int) {
    && Lookup(b.l1, key).None? && Lookup(b.l2, key).Some?
    && Readable(Lookup(b.l2, key).value, now2) && Expired(Lookup(b.l2, key).value.expireAt, now)
  }

  /** That takes a clock that runs backwards between the two readings. */
  lemma PurgeNeedsClockStep(b: Bucket, key: Key, now: int, now2: int)
    requires Purges(b, key, now, now2)
    ensures now2 < now
  {
  }

  ghost function GetReports(b: Bucket, key: Key, now: int, now2: int): seq<Item>
    requires WellFormed(b)
  {
    if Promotes(b, key, now) then Report(Victim2(b, key))
    else if Purges(b, key, now, now2) && Lookup(b.l2, key).value.val != Nil then
      [Item(key, Lookup(b.l2, key).value.val)]
    else []
  }

  lemma GetLookups(b: Bucket, key: Key, now: int, now2: int, k: Key)
    requires WellFormed(b)
    ensures var c := Get(b, key, now, now2).change;
            && WellFormed(c.after) && c.after.cap1 == b.cap1 && c.after.cap2 == b.cap2
            && c.reports == GetReports(b, key, now, now2)
            && Lookup(c.after.l1, k) == (if k == key then None else Lookup(b.l1, k))
            && Lookup(c.after.l2, k) ==
               (if Purges(b, key, now, now2) && k == key then None
                else if !Promotes(b, key, now) then Lookup(b.l2, k)
                else if k == key then Lookup(b.l1, key)
                else if Is(Victim2(b, key), k) then None
                else Lookup(b.l2, k))
  {
    hide Lookup, Distinct, Del, Touch, PutL2, Evicted;
    DelFind(b.l1, key, k);
    DelLookup(b.l1, key, k);
    TouchFind(b.l2, key, k);
    TouchLookup(b.l2, key, k);
    TouchLookup(b.l2, key, key);
    DeleteLookups(b.(l2 := Touch(b.l2, key)), key, k);
    if Lookup(b.l1, key).Some? {
      var e := Lookup(b.l1, key).value;
      PutL2Lookups(b.(l1 := Del(b.l1, key)), Node(key, e.val, e.expireAt, false), k);
    }
  }

  // ----- What a client sees -----

  /**
  Writing a key, exactly: it is bound to the new entry; the entry level two displaces vanishes unless
  level one also has it; a level-one victim that may not be demoted falls back to its level-two copy;
  every other key keeps its entry.
  */
  lemma SetView(b: Bucket, key: Key, val: Value, expireAt: int, k: Key)
    requires WellFormed(b)
    ensures var v := Victim1(b, key);
            View(Set(b, key, val, expireAt).after, k) ==
            if k == key then Some(Entry(val, expireAt))
            else if Is(v, k) && !Demoted(b, key) then Lookup(b.l2, k)
            else if Demoted(b, key) && Is(Victim2(b, v.value.key), k) && Lookup(b.l1, k).None? then None
            else View(b, k)
  {
    hide Lookup, Distinct, Evicted, Set;
    SetLookups(b, key, val, expireAt, k);
    if Victim1(b, key).Some? {
      EvictedIsLive(b.l1, b.cap1, key);
      if Demoted(b, key) && Victim2(b, Victim1(b, key).value.key).Some? {
        EvictedIsLive(b.l2, b.cap2, Victim1(b, key).value.key);
      }
    }
  }

  /** Some key other than `key` changed between two states without a report of the entry it lost. */
  ghost predicate SilentlyChanged(b: Bucket, c: Change, key: Key, k: Key) {
    && k != key
    && View(b, k) != View(c.after, k)
    && !(View(b, k).Some? && View(c.after, k).None? && Item(k, View(b, k).value.val) in c.reports)
  }

  /** A victim the guards let through: not demotable and not duplicated below, or nameless. */
  ghost predicate DropsSilently(b: Bucket, key: Key)
    requires WellFormed(b)
  {
    var v := Victim1(b, key);
    || (v.Some? && !Demoted(b, key) && Lookup(b.l2, v.value.key) != Some(EntryOf(v.value)))
    || (Demoted(b, key) && Is(Victim2(b, v.value.key), EMPTY) && Lookup(b.l1, EMPTY).None? && key != EMPTY)
  }

  /** A write loses nothing unreported, except in exactly the cases `DropsSilently` names. */
  lemma SetLosesOnlyReported(b: Bucket, key: Key, val: Value, expireAt: int)
    requires WellFormed(b)
    ensures (exists k :: SilentlyChanged(b, Set(b, key, val, expireAt), key, k)) <==> DropsSilently(b, key)
  {
    hide Lookup, Distinct, Evicted, Set;
    var c := Set(b, key, val, expireAt);
    var v := Victim1(b, key);
    SetLookups(b, key, val, expireAt, key);
    if v.Some? {
      EvictedIsLive(b.l1, b.cap1, key);
      SetView(b, key, val, expireAt, v.value.key);
      if Demoted(b, key) && Victim2(b, v.value.key).Some? {
        EvictedIsLive(b.l2, b.cap2, v.value.key);
      }
    }
    SetView(b, key, val, expireAt, EMPTY);
    if DropsSilently(b, key) {
      var k := if Demoted(b, key) then EMPTY else v.value.key;
      assert SilentlyChanged(b, c, key, k);
    }
    forall k | SilentlyChanged(b, c, key, k) ensures DropsSilently(b, key) {
      SetView(b, key, val, expireAt, k);
    }
  }

  /**
  Reading a key, exactly. A level-one hit keeps its entry and displaces at most one other; an expired
  level-one hit uncovers whatever level two still has; a level-two lookup changes nothing, except that
  a clock running backwards between the two readings can make it delete its key.
  */
  lemma GetView(b: Bucket, key: Key, now: int, now2: int, k: Key)
    requires WellFormed(b)
    ensures View(Get(b, key, now, now2).change.after, k) ==
            if Purges(b, key, now, now2) && k == key then None
            else if Lookup(b.l1, key).Some? && Expired(Lookup(b.l1, key).value.expireAt, now) then
              (if k == key then Lookup(b.l2, k) else View(b, k))
            else if Promotes(b, key, now) && Is(Victim2(b, key), k) && Lookup(b.l1, k).None? then None
            else View(b, k)
  {
    hide Lookup, Distinct, Evicted, Get;
    GetLookups(b, key, now, now2, k);
    if Victim2(b, key).Some? {
      EvictedIsLive(b.l2, b.cap2, key);
    }
  }

  /** A read changes no other key unreported, except that it may push a nameless entry out of level two. */
  lemma GetLosesOnlyReported(b: Bucket, key: Key, now: int, now2: int)
    requires WellFormed(b)
    ensures (exists k :: SilentlyChanged(b, Get(b, key, now, now2).change, key, k)) <==>
            Promotes(b, key, now) && Is(Victim2(b, key), EMPTY) && Lookup(b.l1, EMPTY).None?
  {
    hide Lookup, Distinct, Evicted, Get;
    var c := Get(b, key, now, now2).change;
    GetLookups(b, key, now, now2, key);
    if Victim2(b, key).Some? {
      EvictedIsLive(b.l2, b.cap2, key);
    }
    GetView(b, key, now, now2, EMPTY);
    if Promotes(b, key, now) && Is(Victim2(b, key), EMPTY) && Lookup(b.l1, EMPTY).None? {
      assert SilentlyChanged(b, c, key, EMPTY);
    }
    forall k | SilentlyChanged(b, c, key, k)
      ensures Promotes(b, key, now) && Is(Victim2(b, key), EMPTY) && Lookup(b.l1, EMPTY).None?
    {
      GetView(b, key, now, now2, k);
    }
  }

  /** A read answers from the view: it misses exactly when there is no entry or the entry is out of date. */
  lemma GetResult(b: Bucket, key: Key, now: int, now2: int)
    requires WellFormed(b)
    ensures Get(b, key, now, now2).result ==
            match View(b, key)
            case None => Miss
            case Some(e) =>
              if Lookup(b.l1, key).Some? then (if Expired(e.expireAt, now) then Miss else Hit(e.val))
              else if Readable(e, now2) && !Expired(e.expireAt, now) then Hit(e.val)
              else Miss
  {
    hide Lookup, Del, Touch, PutL2, Delete;
  }

  /** Deleting removes exactly that key from both levels. */
  lemma DeleteView(b: Bucket, key: Key, k: Key)
    requires WellFormed(b)
    ensures View(Delete(b, key).after, k) == if k == key then None else View(b, k)
  {
    hide Lookup, Delete;
    DeleteLookups(b, key, k);
  }
}
