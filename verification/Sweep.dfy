/** Deleting many keys of one bucket, and the pass that removes what has expired. */
module Sweep {
  import opened Types
  import opened RecencyList
  import opened TwoLevel

  // ----- Deleting a list of keys -----

  ghost function DeleteAll(b: Bucket, ks: seq<Key>): Change {
    if ks == [] then Change(b, [])
    else
      var c := DeleteAll(b, ks[..|ks| - 1]);
      var d := Delete(c.after, ks[|ks| - 1]);
      Change(d.after, c.reports + d.reports)
  }

  lemma {:induction false} DeleteAllLookups(b: Bucket, ks: seq<Key>, k: Key)
    requires WellFormed(b)
    ensures var t := DeleteAll(b, ks).after;
            && WellFormed(t) && t.cap1 == b.cap1 && t.cap2 == b.cap2
            && Lookup(t.l1, k) == (if k in ks then None else Lookup(b.l1, k))
            && Lookup(t.l2, k) == (if k in ks then None else Lookup(b.l2, k))
  {
    hide Lookup, WellFormed, Delete;
    if ks != [] {
      var i, last := ks[..|ks| - 1], ks[|ks| - 1];
      assert ks == i + [last];
      DeleteAllLookups(b, i, k);
      DeleteLookups(DeleteAll(b, i).after, last, k);
    }
  }

  /** No live entry holds nil; the eviction callback is then told of every deletion. */
  ghost predicate NoNil(b: Bucket) {
    forall k :: && (Lookup(b.l1, k).Some? ==> Lookup(b.l1, k).value.val != Nil)
                && (Lookup(b.l2, k).Some? ==> Lookup(b.l2, k).value.val != Nil)
  }

  ghost function ItemsOf(b: Bucket, ks: seq<Key>): (r: seq<Item>)
    requires forall k :: k in ks ==> View(b, k).Some?
    ensures |r| == |ks|
  {
    seq(|ks|, i requires 0 <= i < |ks| => Item(ks[i], View(b, ks[i]).value.val))
  }

  /** What deleting each of the keys on its own would report, one after the other. */
  ghost function ReportsOf(b: Bucket, ks: seq<Key>): seq<Item> {
    if ks == [] then [] else ReportsOf(b, ks[..|ks| - 1]) + Delete(b, ks[|ks| - 1]).reports
  }

  /** Deleting distinct keys reports what deleting each of them alone would, whatever the values. */
  lemma {:induction false} DeleteAllReports(b: Bucket, ks: seq<Key>)
    requires WellFormed(b) && NoDuplicates(ks)
    ensures DeleteAll(b, ks).reports == ReportsOf(b, ks)
  {
    hide Lookup, WellFormed;
    if ks != [] {
      var i, last := ks[..|ks| - 1], ks[|ks| - 1];
      assert ks == i + [last];
      DeleteAllReports(b, i);
      DeleteAllLookups(b, i, last);
    }
  }

  /** Without nil values that is each visible key once, with the value a client would have read. */
  lemma {:induction false} ReportsAreItems(b: Bucket, ks: seq<Key>)
    requires NoNil(b) && forall k :: k in ks ==> View(b, k).Some?
    ensures ReportsOf(b, ks) == ItemsOf(b, ks)
  {
    hide Lookup;
    if ks != [] {
      var i, last := ks[..|ks| - 1], ks[|ks| - 1];
      assert ks == i + [last];
      ReportsAreItems(b, i);
      assert ItemsOf(b, ks) == ItemsOf(b, i) + [Item(last, View(b, last).value.val)];
    }
  }

  // ----- One pass of the cleanup loop over a bucket -----

  predicate Due(expireAt: int, now: int) {
    expireAt > 0 && now >= expireAt
  }

  function CollectL1(ns: seq<Node>, now: int): seq<Key> {
    if ns == [] then []
    else
      var n := ns[|ns| - 1];
      CollectL1(ns[..|ns| - 1], now) + if Due(n.expireAt, now) then [n.key] else []
  }

  function CollectL2(ns: seq<Node>, now: int, found: seq<Key>): seq<Key> {
    if ns == [] then found
    else
      var n := ns[|ns| - 1];
      var r := CollectL2(ns[..|ns| - 1], now, found);
      if Due(n.expireAt, now) && n.key !in r then r + [n.key] else r
  }

  ghost function ExpiredKeys(b: Bucket, now: int): seq<Key> {
    CollectL2(LiveNodes(b.l2), now, CollectL1(LiveNodes(b.l1), now))
  }

  ghost function SweepBucket(b: Bucket, now: int): Change {
    DeleteAll(b, ExpiredKeys(b, now))
  }

  /** One of the copies of `k` in the bucket has expired. */
  ghost predicate HasDueCopy(b: Bucket, k: Key, now: int) {
    || (Lookup(b.l1, k).Some? && Due(Lookup(b.l1, k).value.expireAt, now))
    || (Lookup(b.l2, k).Some? && Due(Lookup(b.l2, k).value.expireAt, now))
  }

  lemma {:induction false} LiveNodesMembers(s: seq<Node>, n: Node)
    ensures n in LiveNodes(s) <==> n in s && !n.deleted
  {
    if s != [] {
      LiveNodesMembers(s[..|s| - 1], n);
      assert s == s[..|s| - 1] + [s[|s| - 1]];
    }
  }

  lemma {:induction false} LiveNodesDistinct(s: seq<Node>)
    requires Distinct(s)
    ensures Distinct(LiveNodes(s))
  {
    if s != [] {
      var i, n := s[..|s| - 1], s[|s| - 1];
      LiveNodesDistinct(i);
      forall x | x in LiveNodes(i) ensures x.key != n.key {
        LiveNodesMembers(i, x);
      }
    }
  }

  lemma LookupMembers(s: seq<Node>, k: Key, e: Entry)
    requires Distinct(s)
    ensures Lookup(s, k) == Some(e) <==> Node(k, e.val, e.expireAt, false) in LiveNodes(s)
  {
    var n := Node(k, e.val, e.expireAt, false);
    LiveNodesMembers(s, n);
    if n in s {
      var i :| 0 <= i < |s| && s[i] == n;
      FindAt(s, i);
    }
  }

  ghost predicate HasDue(ns: seq<Node>, k: Key, now: int) {
    exists n :: n in ns && n.key == k && Due(n.expireAt, now)
  }

  lemma HasDueSnoc(ns: seq<Node>, n: Node, k: Key, now: int)
    ensures HasDue(ns + [n], k, now) <==> HasDue(ns, k, now) || (n.key == k && Due(n.expireAt, now))
  {
    assert n in ns + [n];
    if HasDue(ns, k, now) {
      var x :| x in ns && x.key == k && Due(x.expireAt, now);
      assert x in ns + [n];
    }
  }

  lemma {:induction false} CollectL1Members(ns: seq<Node>, now: int, k: Key)
    requires Distinct(ns)
    ensures k in CollectL1(ns, now) <==> HasDue(ns, k, now)
    ensures NoDuplicates(CollectL1(ns, now))
  {
    hide HasDue;
    if ns == [] {
      EmptyHasNoDue(k, now);
    } else {
      var i, n := ns[..|ns| - 1], ns[|ns| - 1];
      assert ns == i + [n];
      HasDueSnoc(i, n, k, now);
      CollectL1Members(i, now, k);
      CollectL1Members(i, now, n.key);
      if HasDue(i, n.key, now) { NoDueIfAbsent(i, n.key, now); }
    }
  }

  lemma EmptyHasNoDue(k: Key, now: int)
    ensures !HasDue([], k, now)
  {
  }

  lemma NoDueIfAbsent(ns: seq<Node>, k: Key, now: int)
    requires HasDue(ns, k, now)
    ensures exists n :: n in ns && n.key == k
  {
  }

  lemma {:induction false} CollectL2Members(ns: seq<Node>, now: int, found: seq<Key>, k: Key)
    requires NoDuplicates(found)
    ensures k in CollectL2(ns, now, found) <==> k in found || HasDue(ns, k, now)
    ensures NoDuplicates(CollectL2(ns, now, found))
  {
    hide HasDue;
    if ns == [] {
      EmptyHasNoDue(k, now);
    } else {
      var i, n := ns[..|ns| - 1], ns[|ns| - 1];
      assert ns == i + [n];
      HasDueSnoc(i, n, k, now);
      CollectL2Members(i, now, found, k);
    }
  }

  lemma {:induction false} CollectL1Keys(ns: seq<Node>, now: int, k: Key)
    ensures k in CollectL1(ns, now) <==> HasDue(ns, k, now)
  {
    hide HasDue;
    if ns == [] {
      EmptyHasNoDue(k, now);
    } else {
      var i, n := ns[..|ns| - 1], ns[|ns| - 1];
      assert ns == i + [n];
      HasDueSnoc(i, n, k, now);
      CollectL1Keys(i, now, k);
    }
  }

  lemma {:induction false} CollectL2Keys(ns: seq<Node>, now: int, found: seq<Key>, k: Key)
    ensures k in CollectL2(ns, now, found) <==> k in found || HasDue(ns, k, now)
  {
    hide HasDue;
    if ns == [] {
      EmptyHasNoDue(k, now);
    } else {
      var i, n := ns[..|ns| - 1], ns[|ns| - 1];
      assert ns == i + [n];
      HasDueSnoc(i, n, k, now);
      CollectL2Keys(i, now, found, k);
      CollectL2Keys(i, now, found, n.key);
    }
  }

  /** The walks collect the keys of the nodes whose time is positive and not after the clock. */
  lemma CollectedAreOver(ns1: seq<Node>, ns2: seq<Node>, now: int, k: Key)
    ensures k in CollectL2(ns2, now, CollectL1(ns1, now)) <==>
            exists n :: (n in ns1 || n in ns2) && n.key == k && 0 < n.expireAt <= now
  {
    hide CollectL1, CollectL2;
    CollectL1Keys(ns1, now, k);
    CollectL2Keys(ns2, now, CollectL1(ns1, now), k);
  }

  /** The pass collects the keys with an expired copy, each once, though a key may have two. */
  lemma ExpiredKeysExact(b: Bucket, now: int, k: Key)
    requires WellFormed(b)
    ensures k in ExpiredKeys(b, now) <==> HasDueCopy(b, k, now)
    ensures NoDuplicates(ExpiredKeys(b, now))
  {
    hide Lookup, Distinct;
    LiveNodesDistinct(b.l1);
    CollectL1Members(LiveNodes(b.l1), now, k);
    CollectL2Members(LiveNodes(b.l2), now, CollectL1(LiveNodes(b.l1), now), k);
    HasDueIsLookup(b.l1, k, now);
    HasDueIsLookup(b.l2, k, now);
  }

  lemma HasDueIsLookup(s: seq<Node>, k: Key, now: int)
    requires Distinct(s)
    ensures HasDue(LiveNodes(s), k, now) <==> Lookup(s, k).Some? && Due(Lookup(s, k).value.expireAt, now)
  {
    hide Lookup, Distinct;
    if HasDue(LiveNodes(s), k, now) {
      var n :| n in LiveNodes(s) && n.key == k && Due(n.expireAt, now);
      LiveNodesMembers(s, n);
      LookupMembers(s, k, EntryOf(n));
    }
    if Lookup(s, k).Some? {
      LookupMembers(s, k, Lookup(s, k).value);
    }
  }

  /**
  Sweep exactness: at time `now` the pass removes both copies of exactly those keys that have an
  expired copy, leaves every other entry in place in both levels, and reports for each removed key what
  deleting it alone would; if no value is nil, that is the value a client would have read.
  */
  lemma SweepExact(b: Bucket, now: int, k: Key)
    requires WellFormed(b)
    ensures var c := SweepBucket(b, now);
            && WellFormed(c.after) && c.after.cap1 == b.cap1 && c.after.cap2 == b.cap2
            && Lookup(c.after.l1, k) == (if HasDueCopy(b, k, now) then None else Lookup(b.l1, k))
            && Lookup(c.after.l2, k) == (if HasDueCopy(b, k, now) then None else Lookup(b.l2, k))
            && !HasDueCopy(c.after, k, now)
    ensures SweepBucket(b, now).reports == ReportsOf(b, ExpiredKeys(b, now))
    ensures NoNil(b) ==> forall k' :: k' in ExpiredKeys(b, now) ==> View(b, k').Some?
    ensures NoNil(b) ==> SweepBucket(b, now).reports == ItemsOf(b, ExpiredKeys(b, now))
  {
    hide Lookup, WellFormed, NoDuplicates;
    ExpiredKeysExact(b, now, k);
    DeleteAllLookups(b, ExpiredKeys(b, now), k);
    DeleteAllReports(b, ExpiredKeys(b, now));
    if NoNil(b) {
      forall k' | k' in ExpiredKeys(b, now) ensures View(b, k').Some? {
        ExpiredKeysExact(b, now, k');
      }
      ReportsAreItems(b, ExpiredKeys(b, now));
    }
  }
}
