/**
The byte-bounded LRU store: a list of entries, least recently used first, an index from keys to
entries, an expiry map and a running byte count.
*/
module Lru {
  import opened Types

  // ----- Lists of items -----

  ghost predicate DistinctKeys(c: seq<Item>) {
    forall i, j :: 0 <= i < j < |c| ==> c[i].key != c[j].key
  }

  function Size(x: Item): nat {
    |x.key.bytes| + (if x.val == Nil then 0 else x.val.len)
  }

  function Bytes(c: seq<Item>): nat {
    if c == [] then 0 else Size(c[0]) + Bytes(c[1..])
  }

  lemma {:induction false} BytesConcat(a: seq<Item>, b: seq<Item>)
    ensures Bytes(a + b) == Bytes(a) + Bytes(b)
  {
    if a == [] {
      assert a + b == b;
    } else {
      assert (a + b)[1..] == a[1..] + b;
      BytesConcat(a[1..], b);
    }
  }

  lemma BytesWithout(c: seq<Item>, i: nat)
    requires i < |c|
    ensures Bytes(Without(c, i)) == Bytes(c) - Size(c[i])
  {
    hide Bytes;
    assert c == c[..i] + ([c[i]] + c[i + 1..]);
    BytesConcat(c[..i], [c[i]] + c[i + 1..]);
    BytesConcat(c[..i], c[i + 1..]);
    BytesCons(c[i], c[i + 1..]);
  }

  lemma BytesCons(x: Item, c: seq<Item>)
    ensures Bytes([x] + c) == Size(x) + Bytes(c)
  {
    assert ([x] + c)[1..] == c;
  }

  lemma BytesSnoc(c: seq<Item>, x: Item)
    ensures Bytes(c + [x]) == Bytes(c) + Size(x)
  {
    BytesConcat(c, [x]);
    assert [x][1..] == [];
  }

  // ----- What eviction leaves -----

  predicate Late(expires: map<Key, int>, k: Key, now: int) {
    k in expires && now > expires[k]
  }

  /** The expiry map after a write of `key`; a duration that is not positive means no expiry. */
  function Expiring(expires: map<Key, int>, key: Key, expiration: int, now: int): map<Key, int> {
    if expiration > 0 then expires[key := now + expiration] else expires - {key}
  }

  /** The items whose keys are not in `gone`, in the same order. */
  function Keeping(c: seq<Item>, gone: set<Key>): seq<Item> {
    if c == [] then []
    else (if c[0].key in gone then [] else [c[0]]) + Keeping(c[1..], gone)
  }

  function LateKeys(expires: map<Key, int>, now: int): set<Key> {
    set k | k in expires && Late(expires, k, now)
  }

  /** Drops from the front until the rest fits; a limit that is not positive means no limit. */
  function Fitting(c: seq<Item>, max: int): seq<Item> {
    if max <= 0 || Bytes(c) <= max || c == [] then c else Fitting(c[1..], max)
  }

  function Evicted(c: seq<Item>, expires: map<Key, int>, max: int, now: int): seq<Item> {
    Fitting(Keeping(c, LateKeys(expires, now)), max)
  }

  /** The front part that `Fitting` drops. */
  function Dropped(c: seq<Item>, max: int): seq<Item> {
    if max <= 0 || Bytes(c) <= max || c == [] then [] else [c[0]] + Dropped(c[1..], max)
  }

  lemma {:induction false} DroppedThenFitting(c: seq<Item>, max: int)
    ensures Dropped(c, max) + Fitting(c, max) == c
  {
    if !(max <= 0 || Bytes(c) <= max || c == []) {
      DroppedThenFitting(c[1..], max);
    }
  }

  /** With a positive limit, what is left is exactly the longest suffix within it. */
  lemma {:induction false} FittingIsLongest(c: seq<Item>, max: int)
    requires max > 0
    ensures exists i :: 0 <= i <= |c| && Fitting(c, max) == c[i..] && Bytes(c[i..]) <= max
                        && forall j :: 0 <= j < i ==> Bytes(c[j..]) > max
  {
    if Bytes(c) <= max || c == [] {
      assert c[0..] == c;
    } else {
      FittingIsLongest(c[1..], max);
      var i :| 0 <= i <= |c[1..]| && Fitting(c[1..], max) == c[1..][i..] && Bytes(c[1..][i..]) <= max
               && forall j :: 0 <= j < i ==> Bytes(c[1..][j..]) > max;
      assert c[i + 1..] == c[1..][i..];
      forall j | 0 <= j < i + 1 ensures Bytes(c[j..]) > max {
        if j == 0 {
          assert c[0..] == c;
        } else {
          assert c[j..] == c[1..][j - 1..];
        }
      }
    }
  }

  lemma {:induction false} KeepingMembers(c: seq<Item>, gone: set<Key>, x: Item)
    ensures x in Keeping(c, gone) <==> x in c && x.key !in gone
  {
    if c != [] {
      KeepingMembers(c[1..], gone, x);
      assert c == [c[0]] + c[1..];
    }
  }

  lemma {:induction false} KeepingNone(c: seq<Item>, gone: set<Key>)
    requires forall x :: x in c ==> x.key !in gone
    ensures Keeping(c, gone) == c
  {
    if c != [] {
      KeepingNone(c[1..], gone);
    }
  }

  /** Taking out the item at `i` of what is kept is keeping one key less. */
  lemma {:induction false} KeepingOneLess(c: seq<Item>, gone: set<Key>, i: nat)
    requires DistinctKeys(c) && i < |Keeping(c, gone)|
    ensures Without(Keeping(c, gone), i) == Keeping(c, gone + {Keeping(c, gone)[i].key})
  {
    if c[0].key in gone {
      KeepingOneLess(c[1..], gone, i);
      assert [] + Keeping(c[1..], gone) == Keeping(c[1..], gone);
    } else if i == 0 {
      KeepingSame(c[1..], gone, c[0].key);
      assert Without([c[0]] + Keeping(c[1..], gone), 0) == Keeping(c[1..], gone);
    } else {
      KeepingOneLess(c[1..], gone, i - 1);
      OtherKey(c, gone, i - 1);
      ConsWithout(c[0], Keeping(c[1..], gone), i - 1);
    }
  }

  lemma OtherKey(c: seq<Item>, gone: set<Key>, i: nat)
    requires DistinctKeys(c) && c != [] && i < |Keeping(c[1..], gone)|
    ensures Keeping(c[1..], gone)[i].key != c[0].key
  {
    var x := Keeping(c[1..], gone)[i];
    KeepingMembers(c[1..], gone, x);
    var j :| 0 <= j < |c[1..]| && c[1..][j] == x;
    assert c[j + 1] == x;
  }

  lemma ConsWithout(x: Item, s: seq<Item>, i: nat)
    requires i < |s|
    ensures Without([x] + s, i + 1) == [x] + Without(s, i) && ([x] + s)[i + 1] == s[i]
  {
  }

  lemma {:induction false} KeepingSame(c: seq<Item>, gone: set<Key>, k: Key)
    requires forall i :: 0 <= i < |c| ==> c[i].key != k
    ensures Keeping(c, gone + {k}) == Keeping(c, gone)
  {
    if c != [] {
      KeepingSame(c[1..], gone, k);
    }
  }

  /**
  What an eviction leaves, exactly: of the items that have not expired, in recency order, a suffix;
  with a positive limit the longest one that fits, otherwise all of them.
  */
  lemma EvictionIsExact(c: seq<Item>, expires: map<Key, int>, max: int, now: int)
    ensures var u := Keeping(c, LateKeys(expires, now));
            && (forall x :: x in u <==> x in c && (x.key !in expires || now <= expires[x.key]))
            && Dropped(u, max) + Evicted(c, expires, max, now) == u
            && (max <= 0 ==> Dropped(u, max) == [])
            && (max > 0 ==> Bytes(Evicted(c, expires, max, now)) <= max)
            && (max > 0 ==> forall j :: 0 <= j < |Dropped(u, max)| ==> Bytes(u[j..]) > max)
  {
    hide Keeping, Fitting, Dropped, Bytes;
    var u := Keeping(c, LateKeys(expires, now));
    forall x ensures x in u <==> x in c && (x.key !in expires || now <= expires[x.key]) {
      KeepingMembers(c, LateKeys(expires, now), x);
    }
    DroppedThenFitting(u, max);
    NothingDropped(u, max);
    if max > 0 {
      FittingIsLongest(u, max);
      var i :| 0 <= i <= |u| && Fitting(u, max) == u[i..] && Bytes(u[i..]) <= max
               && forall j :: 0 <= j < i ==> Bytes(u[j..]) > max;
      assert |Dropped(u, max)| == i;
    }
  }

  lemma NothingDropped(c: seq<Item>, max: int)
    ensures max <= 0 ==> Dropped(c, max) == []
  {
  }
}
