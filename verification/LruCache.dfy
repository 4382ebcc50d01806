/** The byte-bounded LRU store object, proved against the list functions of Lru. */
module LruCache {
  import opened Types
  import opened Lru
  import LruRuns

  class Entry {
    const key: Key
    var value: Value

    constructor (key: Key, value: Value)
      ensures this.key == key && this.value == value
    {
      this.key := key;
      this.value := value;
    }
  }

  ghost function ItemsOf(list: seq<Entry>): (c: seq<Item>)
    reads list
    ensures |c| == |list| && forall i :: 0 <= i < |list| ==> c[i] == Item(list[i].key, list[i].value)
  {
    seq(|list|, i requires 0 <= i < |list| reads list => Item(list[i].key, list[i].value))
  }

  /** The list holds one entry per key, the index leads to exactly those entries, and none is nil. */
  ghost predicate Indexed(list: seq<Entry>, items: map<Key, Entry>)
    reads list
  {
    && (forall i, j :: 0 <= i < j < |list| ==> list[i].key != list[j].key)
    && (forall i :: 0 <= i < |list| ==>
          list[i].key in items && items[list[i].key] == list[i] && list[i].value != Nil)
    && (forall k :: k in items ==> items[k] in list && items[k].key == k)
  }

  class Cache {
    var list: seq<Entry>
    var items: map<Key, Entry>
    var expires: map<Key, int>
    var maxBytes: int
    var usedBytes: int
    /** The calls made to the eviction callback so far. */
    var reports: seq<Item>

    ghost function Contents(): seq<Item>
      reads this, list
    {
      ItemsOf(list)
    }

    ghost function Abs(): LruRuns.State
      reads this, list
    {
      LruRuns.State(Contents(), expires, maxBytes)
    }

    ghost predicate Valid()
      reads this, list
    {
      && Indexed(list, items)
      && expires.Keys <= items.Keys
      && usedBytes == Bytes(Contents())
    }

    constructor (maxBytes: int)
      ensures Valid() && Abs() == LruRuns.State([], map[], maxBytes) && reports == []
    {
      list, items, expires := [], map[], map[];
      this.maxBytes, usedBytes, reports := maxBytes, 0, [];
    }

    method RemoveElement(e: Entry) returns (ghost k: nat)
      requires Valid() && e in list
      modifies this`list, this`items, this`expires, this`usedBytes, this`reports
      ensures Valid() && k < |old(list)| && old(list)[k] == e
      ensures usedBytes == old(usedBytes) - |e.key.bytes| - e.value.len
      ensures Contents() == Without(old(Contents()), k)
      ensures items == old(items) - {e.key} && expires == old(expires) - {e.key}
      ensures reports == old(reports) + [Item(e.key, e.value)]
    {
      hide Indexed, Bytes;
      var at :| 0 <= at < |list| && list[at] == e;
      k := at;
      BytesWithout(Contents(), at);
      ItemsWithout(list, at);
      IndexedWithout(list, items, at);
      list := list[..at] + list[at + 1..];
      items := items - {e.key};
      expires := expires - {e.key};
      usedBytes := usedBytes - (|e.key.bytes| + e.value.len);
      reports := reports + [Item(e.key, e.value)];
    }

    method RemoveKey(key: Key) returns (ghost k: nat)
      requires Valid() && key in items
      modifies this`list, this`items, this`expires, this`usedBytes, this`reports
      ensures Valid() && k < |old(Contents())| && old(Contents())[k].key == key
      ensures Contents() == Without(old(Contents()), k)
      ensures items == old(items) - {key} && expires == old(expires) - {key}
      ensures old(Contents())[k] == Item(key, old(items[key].value))
      ensures reports == old(reports) + [old(Contents())[k]]
    {
      assert items[key].key == key && items[key] in list;
      hide Indexed, Bytes;
      k := RemoveElement(items[key]);
    }

    /** Removes what has expired, visiting the expiry map in any order; `order` records the callbacks. */
    method DropLate(now: int) returns (ghost order: seq<Item>)
      requires Valid()
      modifies this`list, this`items, this`expires, this`usedBytes, this`reports
      ensures Valid()
      ensures var late := LateKeys(old(expires), now);
              && Contents() == Keeping(old(Contents()), late)
              && items == old(items) - late && expires == old(expires) - late
      ensures reports == old(reports) + order && NoDuplicates(order)
      ensures forall x :: x in order <==> x in old(Contents()) && Late(old(expires), x.key, now)
    {
      order := [];
      ghost var c, gone := Contents(), {};
      assert expires.Keys <= items.Keys;
      assert DistinctKeys(c) by { ContentsDistinct(list, items); }
      hide Valid, Contents, DistinctKeys, Swept, NoDuplicates, LateKeys;
      var all := expires;
      var todo := all.Keys;
      SweptStart(c, all, now);
      while todo != {}
        invariant Valid() && todo <= items.Keys && todo <= all.Keys
        invariant items == old(items) - gone && expires == all - gone
        invariant Swept(c, all, now, todo, gone, Contents(), order)
        invariant reports == old(reports) + order
        decreases todo
      {
        var key :| key in todo;
        if Late(all, key, now) {
          ghost var kept := Contents();
          ghost var k := RemoveKey(key);
          SweptTake(c, all, now, todo, gone, kept, order, key, k);
          MinusMinus(old(items), gone, key);
          MinusMinus(all, gone, key);
          Appended(old(reports), order, kept[k]);
          order := order + [kept[k]];
          gone := gone + {key};
        } else {
          SweptSkip(c, all, now, todo, gone, Contents(), order, key);
        }
        todo := todo - {key};
      }
      SweptEnd(c, all, now, gone, Contents(), order);
    }

    /** Drops the least recently used entry. */
    method RemoveFront()
      requires Valid() && list != []
      modifies this`list, this`items, this`expires, this`usedBytes, this`reports
      ensures Valid() && Contents() == old(Contents())[1..]
      ensures reports == old(reports) + [old(Contents())[0]]
      ensures ExpiryKept(old(expires), expires, items) && items.Keys <= old(items).Keys
    {
      hide Bytes;
      ContentsDistinct(list, items);
      hide Indexed, ItemsOf;
      ghost var c := Contents();
      ghost var k := RemoveElement(list[0]);
      assert c[k].key == c[0].key;
      assert Without(c, 0) == c[1..];
    }

    /** Drops entries from the front while the cache is over its limit. */
    method Shrink()
      requires Valid()
      modifies this`list, this`items, this`expires, this`usedBytes, this`reports
      ensures Valid() && Contents() == Fitting(old(Contents()), maxBytes)
      ensures reports == old(reports) + Dropped(old(Contents()), maxBytes)
      ensures ExpiryKept(old(expires), expires, items) && items.Keys <= old(items).Keys
    {
      ghost var c, out := Contents(), [];
      hide Indexed, ItemsOf, ExpiryKept;
      ExpirySame(expires, items);
      while maxBytes > 0 && usedBytes > maxBytes && |list| > 0
        invariant Valid() && ExpiryKept(old(expires), expires, items) && items.Keys <= old(items).Keys
        invariant Fitting(Contents(), maxBytes) == Fitting(c, maxBytes)
        invariant reports == old(reports) + out && out + Dropped(Contents(), maxBytes) == Dropped(c, maxBytes)
        decreases |list|
      {
        ghost var was, before, held := Contents(), expires, items;
        RemoveFront();
        ExpiryChain(old(expires), before, expires, held, items);
        DropStep(was, maxBytes);
        Appended(old(reports), out, was[0]);
        Regroup(out, was[0], Dropped(was[1..], maxBytes));
        out := out + [was[0]];
      }
    }

    /** Removes what has expired at `now`, then the least recently used entries over the limit. */
    method Evict(now: int) returns (ghost order: seq<Item>)
      requires Valid()
      modifies this`list, this`items, this`expires, this`usedBytes, this`reports
      ensures Valid() && Contents() == Evicted(old(Contents()), old(expires), maxBytes, now)
      ensures ExpiryKept(old(expires), expires, items) && Abs() == LruRuns.Evict(old(Abs()), now)
      ensures Enumerates(order, LateItems(old(Contents()), old(expires), now))
      ensures reports == old(reports) + order +
                         Dropped(Keeping(old(Contents()), LateKeys(old(expires), now)), maxBytes)
    {
      assert expires.Keys <= items.Keys;
      hide Valid, Contents, Keeping, NoDuplicates, Fitting, Dropped, ExpiryKept, Enumerates, LateItems, LateKeys;
      ghost var c, before := Contents(), expires;
      ExpiryMinus(expires, items, LateKeys(expires, now));
      order := DropLate(now);
      LateItemsEnumerated(order, c, before, now);
      ghost var mid, held := expires, items;
      Shrink();
      ExpiryChain(before, mid, expires, held, items);
      RestrictedExpiry(before);
    }

    /** What the index and the kept expiry times say about the abstract state. */
    lemma FindInIndex(key: Key)
      requires Valid()
      ensures LruRuns.Find(Contents(), key) == if key in items then Some(items[key].value) else None
    {
      EntryFound(list, items, key);
    }

    lemma RestrictedExpiry(before: map<Key, int>)
      requires Valid() && ExpiryKept(before, expires, items)
      ensures expires == LruRuns.Restricted(before, Contents())
    {
      hide Indexed, ItemsOf, LruRuns.Find;
      forall k ensures LruRuns.Find(Contents(), k).Some? <==> k in items {
        FindInIndex(k);
      }
    }

    method Delete(key: Key) returns (found: bool)
      requires Valid()
      modifies this`list, this`items, this`expires, this`usedBytes, this`reports
      ensures Valid() && (found <==> key in old(items))
      ensures items == old(items) - {key} && expires == old(expires) - {key}
      ensures Contents() == Keeping(old(Contents()), {key})
      ensures Abs() == LruRuns.Apply(old(Abs()), LruRuns.DeleteOp(key)) && maxBytes == old(maxBytes)
      ensures reports == old(reports) + if found then [Item(key, old(items[key].value))] else []
    {
      hide Indexed, ItemsOf, Bytes, Keeping, DistinctKeys;
      ghost var c := Contents();
      ContentsKeys(list, items, key);
      if key in items {
        ghost var k := RemoveKey(key);
        KeepingAllBut(c, k);
        return true;
      }
      KeepingNone(c, {key});
      assert items - {key} == items && expires - {key} == expires;
      return false;
    }

    /** `now` is the clock when the expiry is computed, `later` when eviction looks at it. */
    method SetWithExpiration(key: Key, val: Value, expiration: int, now: int, later: int)
      returns (ghost order: seq<Item>)
      requires Valid()
      modifies this, list
      ensures Valid() && maxBytes == old(maxBytes)
      ensures Abs() == LruRuns.Apply(old(Abs()), LruRuns.SetOp(key, val, expiration, now, later))
      ensures val == Nil ==>
                && Contents() == Keeping(old(Contents()), {key}) && expires == old(expires) - {key}
                && reports == old(reports) +
                              if key in old(items) then [Item(key, old(items[key].value))] else []
      ensures val != Nil && key in old(items) ==>
                && Contents() == Keeping(old(Contents()), {key}) + [Item(key, val)]
                && reports == old(reports) && expires == Expiring(old(expires), key, expiration, now)
                && usedBytes == old(usedBytes) + val.len - old(items[key].value.len)
      ensures val != Nil && key !in old(items) ==>
                var c := old(Contents()) + [Item(key, val)];
                var ex := Expiring(old(expires), key, expiration, now);
                && Contents() == Evicted(c, ex, maxBytes, later) && ExpiryKept(ex, expires, items)
                && Enumerates(order, LateItems(c, ex, later))
                && reports == old(reports) + order + Dropped(Keeping(c, LateKeys(ex, later)), maxBytes)
    {
      order := [];
      hide Valid, Contents, Keeping, Evicted, Dropped, Enumerates, ExpiryKept, LateItems, LateKeys, Expiring;
      hide Indexed, ItemsOf, Bytes, DistinctKeys, LruRuns.Find, LruRuns.Apply, LruRuns.Evict, LruRuns.Restricted;
      FindInIndex(key);
      LruRuns.SetApplied(Abs(), key, val, expiration, now, later);
      if val == Nil {
        var found := Delete(key);
        return;
      }
      if key in items {
        Replace(key, val, expiration, now);
        return;
      }
      order := Insert(key, val, expiration, now, later);
    }

    /** Adds a new key as the most recent, then evicts. */
    method Insert(key: Key, val: Value, expiration: int, now: int, later: int) returns (ghost order: seq<Item>)
      requires Valid() && key !in items && val != Nil
      modifies this`list, this`items, this`expires, this`usedBytes, this`reports
      ensures Valid()
      ensures var c := old(Contents()) + [Item(key, val)];
              var ex := Expiring(old(expires), key, expiration, now);
              && Abs() == LruRuns.Evict(LruRuns.State(c, ex, maxBytes), later)
              && Contents() == Evicted(c, ex, maxBytes, later) && ExpiryKept(ex, expires, items)
              && Enumerates(order, LateItems(c, ex, later))
              && reports == old(reports) + order + Dropped(Keeping(c, LateKeys(ex, later)), maxBytes)
    {
      hide Valid, Contents, Keeping, Evicted, Dropped, Enumerates, ExpiryKept, LateItems, LateKeys, Expiring;
      hide LruRuns.Evict;
      Append(key, val);
      SetExpiry(key, expiration, now);
      order := Evict(later);
    }

    method Replace(key: Key, val: Value, expiration: int, now: int)
      requires Valid() && key in items && val != Nil
      modifies this`list, this`usedBytes, this`expires, list
      ensures Valid() && items == old(items)
      ensures Contents() == Keeping(old(Contents()), {key}) + [Item(key, val)]
      ensures expires == Expiring(old(expires), key, expiration, now)
      ensures usedBytes == old(usedBytes) + val.len - old(items[key].value.len)
    {
      hide Valid, Contents, Keeping, Expiring;
      Overwrite(key, val);
      SetExpiry(key, expiration, now);
    }

    method SetExpiry(key: Key, expiration: int, now: int)
      requires Valid() && key in items
      modifies this`expires
      ensures Valid() && Contents() == old(Contents())
      ensures expires == Expiring(old(expires), key, expiration, now)
    {
      hide Indexed, ItemsOf, Bytes;
      if expiration > 0 {
        expires := expires[key := now + expiration];
      } else {
        expires := expires - {key};
      }
    }

    method MoveToBack(e: Entry, ghost k: nat)
      requires Valid() && k < |list| && list[k] == e
      modifies this`list
      ensures Valid() && Contents() == Without(old(Contents()), k) + [old(Contents())[k]]
    {
      hide Indexed, ItemsOf, Bytes;
      ghost var c := Contents();
      var at :| 0 <= at < |list| && list[at] == e;
      OnePlace(list, items, at, k);
      MovedToBack(list, items, at);
      BytesWithout(c, at);
      BytesSnoc(Without(c, at), c[at]);
      list := list[..at] + list[at + 1..] + [e];
    }

    /** Replaces the value of a present key and makes it the most recent; nothing is evicted. */
    method Overwrite(key: Key, val: Value)
      requires Valid() && key in items && val != Nil
      modifies this`list, this`usedBytes, list
      ensures Valid() && items == old(items) && expires == old(expires)
      ensures Contents() == Keeping(old(Contents()), {key}) + [Item(key, val)]
      ensures usedBytes == old(usedBytes) + val.len - old(items[key].value.len)
    {
      hide Indexed, ItemsOf, Bytes, Keeping, DistinctKeys, Without;
      var e := items[key];
      ghost var at := EntryAt(list, items, key);
      ghost var c := Contents();
      KeepingAllBut(c, at);
      BytesUpdate(c, at, Item(key, val));
      usedBytes := usedBytes + (val.len - e.value.len);
      SetValue(e, val, list, items, at);
      MoveToBack(e, at);
      WithoutUpdated(c, at, Item(key, val));
    }

    /**
    A hit becomes the most recent entry. An expired entry is a miss that leaves the cache as it is and
    starts a deletion of its own (`deleteLater`).
    */
    method Get(key: Key, now: int) returns (val: Value, hit: bool, deleteLater: bool)
      requires Valid()
      modifies this`list
      ensures Valid() && (hit <==> key in items && (key !in expires || now <= expires[key]))
      ensures deleteLater <==> key in items && key in expires && now > expires[key]
      ensures LruRuns.Answer(old(Abs()), key, now) == if hit then Some(val) else None
      ensures hit ==> val == items[key].value && Contents() == Keeping(old(Contents()), {key}) + [Item(key, val)]
      ensures !hit ==> val == Nil && Contents() == old(Contents())
      ensures Abs() == LruRuns.Apply(old(Abs()), LruRuns.GetOp(key, now))
    {
      hide Indexed, ItemsOf, Bytes, Keeping, DistinctKeys, LruRuns.Find, LruRuns.Apply;
      FindInIndex(key);
      LruRuns.GetApplied(Abs(), key, now);
      if key !in items {
        return Nil, false, false;
      }
      if key in expires && now > expires[key] {
        return Nil, false, true;
      }
      var e := items[key];
      ghost var at := EntryAt(list, items, key);
      ghost var c := Contents();
      KeepingAllBut(c, at);
      MoveToBack(e, at);
      return e.value, true, false;
    }

    /** Tells the callback of every entry, in the order of the index, and empties the cache. */
    method Clear() returns (ghost order: seq<Item>)
      requires Valid()
      modifies this`list, this`items, this`expires, this`usedBytes, this`reports
      ensures Valid() && Contents() == [] && items == map[] && expires == map[]
      ensures Abs() == LruRuns.Apply(old(Abs()), LruRuns.ClearOp)
      ensures NoDuplicates(order) && forall x :: x in order <==> x in old(Contents())
      ensures reports == old(reports) + order
    {
      hide NoDuplicates, Indexed;
      order := ReportAll();
      assert Indexed([], map[]) && Bytes([]) == 0 by { EmptyIndexed(); }
      list, items, expires, usedBytes := [], map[], map[], 0;
    }

    method ReportAll() returns (ghost order: seq<Item>)
      requires Valid()
      modifies this`reports
      ensures NoDuplicates(order) && forall x :: x in order <==> x in Contents()
      ensures reports == old(reports) + order
    {
      order := [];
      ghost var c := Contents();
      var todo := items.Keys;
      while todo != {}
        invariant todo <= items.Keys && c == Contents()
        invariant reports == old(reports) + order && NoDuplicates(order)
        invariant forall x :: x in order <==> x in c && x.key !in todo
        decreases todo
      {
        var k :| k in todo;
        var e := items[k];
        CallbackNext(list, items, todo, order, k);
        Appended(old(reports), order, Item(e.key, e.value));
        hide Indexed, ItemsOf, NoDuplicates;
        reports := reports + [Item(e.key, e.value)];
        order := order + [Item(e.key, e.value)];
        todo := todo - {k};
      }
    }

    method UpdateExpiration(key: Key, expiration: int, now: int) returns (found: bool)
      requires Valid()
      modifies this`expires
      ensures Valid() && Contents() == old(Contents()) && (found <==> key in items)
      ensures expires == if found then Expiring(old(expires), key, expiration, now) else old(expires)
      ensures Abs() == LruRuns.Apply(old(Abs()), LruRuns.UpdateExpirationOp(key, expiration, now))
    {
      hide Indexed, ItemsOf, Bytes, LruRuns.Find;
      FindInIndex(key);
      if key !in items {
        return false;
      }
      SetExpiry(key, expiration, now);
      return true;
    }

    /** A limit that is not positive is recorded without evicting anything. */
    method SetMaxBytes(max: int, now: int) returns (ghost order: seq<Item>)
      requires Valid()
      modifies this
      ensures Valid() && Abs() == LruRuns.Apply(old(Abs()), LruRuns.SetMaxBytesOp(max, now))
      ensures Contents() == if max > 0 then Evicted(old(Contents()), old(expires), max, now) else old(Contents())
      ensures max <= 0 ==> reports == old(reports)
      ensures max > 0 ==>
                && Enumerates(order, LateItems(old(Contents()), old(expires), now))
                && reports == old(reports) + order +
                              Dropped(Keeping(old(Contents()), LateKeys(old(expires), now)), max)
    {
      hide Indexed, ItemsOf, Bytes, Evicted, Dropped, Keeping, Enumerates, ExpiryKept;
      order := [];
      maxBytes := max;
      if max > 0 {
        order := Evict(now);
      }
    }

    method Append(key: Key, val: Value)
      requires Valid() && key !in items && val != Nil
      modifies this`list, this`items, this`usedBytes
      ensures Valid() && items.Keys == old(items).Keys + {key}
      ensures Contents() == old(Contents()) + [Item(key, val)]
      ensures fresh(list[|list| - 1]) && list[..|list| - 1] == old(list)
      ensures usedBytes == old(usedBytes) + |key.bytes| + val.len
    {
      hide Indexed, ItemsOf, Bytes;
      var e := new Entry(key, val);
      BytesSnoc(Contents(), Item(key, val));
      IndexedSnoc(list, items, e);
      list := list + [e];
      items := items[key := e];
      usedBytes := usedBytes + |key.bytes| + val.len;
    }
  }

  method SetValue(e: Entry, val: Value, ghost list: seq<Entry>, ghost items: map<Key, Entry>, ghost at: nat)
    requires Indexed(list, items) && at < |list| && list[at] == e && val != Nil
    modifies e`value
    ensures Indexed(list, items) && ItemsOf(list) == old(ItemsOf(list))[at := Item(e.key, val)]
  {
    e.value := val;
  }

  lemma IndexedSnoc(list: seq<Entry>, items: map<Key, Entry>, e: Entry)
    requires Indexed(list, items) && e.key !in items && e.value != Nil
    ensures Indexed(list + [e], items[e.key := e])
    ensures ItemsOf(list + [e]) == ItemsOf(list) + [Item(e.key, e.value)]
  {
    var r := list + [e];
    assert forall i {:trigger r[i]} :: 0 <= i < |list| ==> r[i] == list[i];
    assert r[|list|] == e;
    forall q | q in items ensures items[q] in r {
      assert items[q] in list;
    }
  }

  lemma CallbackNext(list: seq<Entry>, items: map<Key, Entry>, todo: set<Key>, order: seq<Item>, k: Key)
    requires Indexed(list, items) && k in todo && k in items && NoDuplicates(order)
    requires forall x :: x in order <==> x in ItemsOf(list) && x.key !in todo
    ensures items[k].key == k
    ensures var x := Item(k, items[k].value);
            NoDuplicates(order + [x]) &&
            forall y :: y in order + [x] <==> y in ItemsOf(list) && y.key !in todo - {k}
  {
    var c, x := ItemsOf(list), Item(k, items[k].value);
    assert items[k] in list;
    var i :| 0 <= i < |list| && list[i] == items[k];
    assert c[i] == x;
    ContentsDistinct(list, items);
    forall y | y in c && y.key == k ensures y == x {
      var j :| 0 <= j < |c| && c[j] == y;
    }
  }

  lemma StartKeeping(c: seq<Item>)
    ensures Keeping(c, {}) == c
  {
    KeepingNone(c, {});
  }

  lemma EmptyIndexed()
    ensures Indexed([], map[]) && Bytes([]) == 0
  {
  }

  lemma EntryFound(list: seq<Entry>, items: map<Key, Entry>, key: Key)
    requires Indexed(list, items)
    ensures LruRuns.Find(ItemsOf(list), key) == if key in items then Some(items[key].value) else None
  {
    if key in items {
      var at := EntryAt(list, items, key);
      LruRuns.FindAt(ItemsOf(list), at);
    } else {
      LruRuns.FindNone(ItemsOf(list), key);
    }
  }

  lemma EntryAt(list: seq<Entry>, items: map<Key, Entry>, key: Key) returns (at: nat)
    requires Indexed(list, items) && key in items
    ensures at < |list| && list[at] == items[key] && items[key].key == key && items[key].value != Nil
    ensures DistinctKeys(ItemsOf(list)) && ItemsOf(list)[at] == Item(key, items[key].value)
  {
    assert items[key] in list;
    at :| 0 <= at < |list| && list[at] == items[key];
    ContentsDistinct(list, items);
  }

  lemma ContentsKeys(list: seq<Entry>, items: map<Key, Entry>, k: Key)
    requires Indexed(list, items)
    ensures DistinctKeys(ItemsOf(list))
    ensures k in items ==> items[k].key == k
    ensures k !in items ==> forall x :: x in ItemsOf(list) ==> x.key !in {k}
  {
  }

  lemma MovedItems(list: seq<Entry>, k: nat)
    requires k < |list|
    ensures ItemsOf(list[..k] + list[k + 1..] + [list[k]]) == Without(ItemsOf(list), k) + [ItemsOf(list)[k]]
  {
  }

  lemma MovedToBack(list: seq<Entry>, items: map<Key, Entry>, k: nat)
    requires Indexed(list, items) && k < |list|
    ensures Indexed(list[..k] + list[k + 1..] + [list[k]], items)
    ensures ItemsOf(list[..k] + list[k + 1..] + [list[k]]) == Without(ItemsOf(list), k) + [ItemsOf(list)[k]]
  {
    var e := list[k];
    assert e.key in items && items[e.key] == e;
    hide Indexed;
    MovedItems(list, k);
    IndexedWithout(list, items, k);
    IndexedSnoc(list[..k] + list[k + 1..], items - {e.key}, e);
    assert (items - {e.key})[e.key := e] == items;
  }

  lemma KeepingAllBut(c: seq<Item>, i: nat)
    requires DistinctKeys(c) && i < |c|
    ensures Without(c, i) == Keeping(c, {c[i].key})
  {
    hide DistinctKeys, Keeping;
    StartKeeping(c);
    KeepingOneLess(c, {}, i);
    assert {} + {c[i].key} == {c[i].key};
  }

  lemma BytesUpdate(c: seq<Item>, i: nat, x: Item)
    requires i < |c|
    ensures Bytes(c[i := x]) == Bytes(c) - Size(c[i]) + Size(x)
  {
    BytesWithout(c, i);
    BytesWithout(c[i := x], i);
    WithoutUpdated(c, i, x);
  }

  lemma WithoutUpdated(c: seq<Item>, i: nat, x: Item)
    requires i < |c|
    ensures Without(c[i := x], i) == Without(c, i)
  {
  }

  ghost function LateItems(c: seq<Item>, expires: map<Key, int>, now: int): set<Item> {
    set x | x in c && Late(expires, x.key, now)
  }

  /** The expiry map says of every entry left what it said before, and nothing more. */
  ghost predicate ExpiryKept(before: map<Key, int>, after: map<Key, int>, items: map<Key, Entry>) {
    forall k :: (k in after ==> k in before && k in items && after[k] == before[k])
                && (k in before && k in items ==> k in after)
  }

  lemma ExpiryChain(a: map<Key, int>, b: map<Key, int>, c: map<Key, int>,
                    items: map<Key, Entry>, fewer: map<Key, Entry>)
    requires ExpiryKept(a, b, items) && ExpiryKept(b, c, fewer) && fewer.Keys <= items.Keys
    ensures ExpiryKept(a, c, fewer)
  {
  }

  lemma ExpirySame(expires: map<Key, int>, items: map<Key, Entry>)
    requires expires.Keys <= items.Keys
    ensures ExpiryKept(expires, expires, items)
  {
  }

  lemma ExpiryMinus(expires: map<Key, int>, items: map<Key, Entry>, gone: set<Key>)
    requires expires.Keys <= items.Keys
    ensures ExpiryKept(expires, expires - gone, items - gone)
  {
  }

  lemma LateItemsEnumerated(order: seq<Item>, c: seq<Item>, expires: map<Key, int>, now: int)
    requires NoDuplicates(order) && forall x :: x in order <==> x in c && Late(expires, x.key, now)
    ensures Enumerates(order, LateItems(c, expires, now))
  {
  }

  lemma DropStep(c: seq<Item>, max: int)
    requires max > 0 && Bytes(c) > max && c != []
    ensures Fitting(c, max) == Fitting(c[1..], max) && Dropped(c, max) == [c[0]] + Dropped(c[1..], max)
  {
  }

  lemma Regroup(a: seq<Item>, x: Item, b: seq<Item>)
    ensures (a + [x]) + b == a + ([x] + b)
  {
  }

  /** The state of the expiry pass: `gone` are the late keys visited, `kept` the items left. */
  ghost predicate Swept(c: seq<Item>, all: map<Key, int>, now: int, todo: set<Key>, gone: set<Key>,
                        kept: seq<Item>, order: seq<Item>)
  {
    && (forall k :: k in gone <==> k in all && k !in todo && Late(all, k, now))
    && kept == Keeping(c, gone)
    && NoDuplicates(order)
    && (forall x :: x in order <==> x in c && x.key in gone)
  }

  lemma MinusMinus<V>(m: map<Key, V>, gone: set<Key>, k: Key)
    ensures (m - gone) - {k} == m - (gone + {k})
  {
  }

  lemma Appended(a: seq<Item>, b: seq<Item>, x: Item)
    ensures (a + b) + [x] == a + (b + [x])
  {
  }

  lemma SweptStart(c: seq<Item>, all: map<Key, int>, now: int)
    ensures Swept(c, all, now, all.Keys, {}, c, [])
  {
    KeepingNone(c, {});
  }

  lemma SweptSkip(c: seq<Item>, all: map<Key, int>, now: int, todo: set<Key>, gone: set<Key>,
                  kept: seq<Item>, order: seq<Item>, key: Key)
    requires Swept(c, all, now, todo, gone, kept, order) && !Late(all, key, now)
    ensures Swept(c, all, now, todo - {key}, gone, kept, order)
  {
  }

  lemma SweptTake(c: seq<Item>, all: map<Key, int>, now: int, todo: set<Key>, gone: set<Key>,
                  kept: seq<Item>, order: seq<Item>, key: Key, k: nat)
    requires Swept(c, all, now, todo, gone, kept, order) && DistinctKeys(c)
    requires key in todo && Late(all, key, now) && k < |kept| && kept[k].key == key
    ensures Swept(c, all, now, todo - {key}, gone + {key}, Without(kept, k), order + [kept[k]])
  {
    hide DistinctKeys, Keeping, NoDuplicates;
    KeepingOneLess(c, gone, k);
    KeepingMembers(c, gone, kept[k]);
    OrderGrows(c, gone, order, kept[k]);
  }

  lemma SweptEnd(c: seq<Item>, all: map<Key, int>, now: int, gone: set<Key>, kept: seq<Item>, order: seq<Item>)
    requires Swept(c, all, now, {}, gone, kept, order)
    ensures gone == LateKeys(all, now) && kept == Keeping(c, LateKeys(all, now)) && NoDuplicates(order)
    ensures forall x :: x in order <==> x in c && Late(all, x.key, now)
  {
    hide Keeping, NoDuplicates;
  }

  lemma OnePlace(list: seq<Entry>, items: map<Key, Entry>, i: nat, j: nat)
    requires Indexed(list, items) && i < |list| && j < |list| && list[i] == list[j]
    ensures i == j
  {
  }

  lemma ContentsDistinct(list: seq<Entry>, items: map<Key, Entry>)
    requires Indexed(list, items)
    ensures DistinctKeys(ItemsOf(list))
  {
  }

  lemma OrderGrows(c: seq<Item>, gone: set<Key>, order: seq<Item>, x: Item)
    requires DistinctKeys(c) && x in c && x.key !in gone && NoDuplicates(order)
    requires forall y :: y in order <==> y in c && y.key in gone
    ensures NoDuplicates(order + [x])
    ensures forall y :: y in order + [x] <==> y in c && y.key in gone + {x.key}
  {
    forall y | y in c && y.key == x.key ensures y == x {
      var i :| 0 <= i < |c| && c[i] == y;
      var j :| 0 <= j < |c| && c[j] == x;
    }
  }

  lemma ItemsWithout(list: seq<Entry>, k: nat)
    requires k < |list|
    ensures ItemsOf(list[..k] + list[k + 1..]) == Without(ItemsOf(list), k)
  {
  }

  lemma IndexedWithout(list: seq<Entry>, items: map<Key, Entry>, k: nat)
    requires Indexed(list, items) && k < |list|
    ensures Indexed(list[..k] + list[k + 1..], items - {list[k].key})
    ensures list[k].value != Nil
  {
    var r, rest := list[..k] + list[k + 1..], items - {list[k].key};
    assert forall i {:trigger r[i]} :: 0 <= i < |r| ==> r[i] == list[if i < k then i else i + 1];
    assert forall i, j :: 0 <= i < j < |r| ==> r[i].key != r[j].key;
    forall i | 0 <= i < |r| ensures r[i].key in rest && rest[r[i].key] == r[i] && r[i].value != Nil {
    }
    forall q | q in rest ensures rest[q] in r && rest[q].key == q {
      StillListed(list, items, k, q);
    }
  }

  lemma StillListed(list: seq<Entry>, items: map<Key, Entry>, k: nat, q: Key)
    requires Indexed(list, items) && k < |list| && q in items && q != list[k].key
    ensures items[q] in list[..k] + list[k + 1..]
  {
    var r := list[..k] + list[k + 1..];
    var i :| 0 <= i < |list| && list[i] == items[q];
    assert r[if i < k then i else i - 1] == items[q];
  }
}
