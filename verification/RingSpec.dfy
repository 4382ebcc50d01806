/**
What the consistent-hash ring means, independently of how it is stored: a set of virtual nodes placed
on the circle of 32-bit hashes, and for every hash the owner of the first virtual node met going
clockwise. The theorems say which keys change owner when the set of virtual nodes changes.
*/
module RingSpec {
  import opened Types

  const CIRCLE: int := 0x1_0000_0000

  type uint32 = x: int | 0 <= x < 0x1_0000_0000

  type HashFunc = Key -> uint32

  /** Virtual node number `i` of a node. */
  datatype Virtual = Virtual(node: Key, i: nat)

  function Decimal(n: nat): seq<byte> {
    (if n < 10 then [] else Decimal(n / 10)) + [(48 + n % 10) as byte]
  }

  /** The name of a virtual node: its node's name, a dash and its number. */
  function VirtualName(v: Virtual): Key {
    Key(v.node.bytes + [45] + Decimal(v.i))
  }

  function Point(h: HashFunc, v: Virtual): uint32 {
    h(VirtualName(v))
  }

  predicate IsDigit(b: byte) {
    48 <= b <= 57
  }

  /** The number that a string of decimal digits stands for. */
  function Parsed(ds: seq<byte>): int {
    if ds == [] then 0 else 10 * Parsed(ds[..|ds| - 1]) + (ds[|ds| - 1] as int - 48)
  }

  /** The usual way to write a number. */
  lemma {:induction false} DecimalParses(n: nat)
    ensures var ds := Decimal(n);
            && ds != [] && (forall i :: 0 <= i < |ds| ==> IsDigit(ds[i]))
            && Parsed(ds) == n && (n > 0 ==> ds[0] != 48) && (n == 0 ==> ds == [48])
  {
    var d := (48 + n % 10) as byte;
    if n < 10 {
      assert Decimal(n) == [d] && [d][..0] == [];
    } else {
      DecimalParses(n / 10);
      assert Decimal(n)[..|Decimal(n)| - 1] == Decimal(n / 10);
    }
  }

  /** Different virtual nodes have different names, also if names of nodes contain dashes and digits. */
  lemma VirtualNamesDiffer(v: Virtual, w: Virtual)
    requires VirtualName(v) == VirtualName(w)
    ensures v == w
  {
    hide Decimal;
    DecimalParses(v.i);
    DecimalParses(w.i);
    var a, b := Decimal(v.i), Decimal(w.i);
    var s, t := VirtualName(v).bytes, VirtualName(w).bytes;
    var p, q := |v.node.bytes|, |w.node.bytes|;
    assert forall j :: p < j < |s| ==> s[j] == a[j - p - 1];
    assert forall j :: q < j < |t| ==> t[j] == b[j - q - 1];
    OneLastDash(s, p, q);
    assert v.node.bytes == s[..p] == t[..q] == w.node.bytes;
    assert a == s[p + 1..] == t[q + 1..] == b;
  }

  lemma OneLastDash(s: seq<byte>, p: nat, q: nat)
    requires p < |s| && s[p] == 45 && forall j :: p < j < |s| ==> IsDigit(s[j])
    requires q < |s| && s[q] == 45 && forall j :: q < j < |s| ==> IsDigit(s[j])
    ensures p == q
  {
  }

  /** The virtual nodes of a ring with the given replica counts. */
  ghost function Virtuals(reps: map<Key, nat>): set<Virtual> {
    set n, i | n in reps && 0 <= i < reps[n] :: Virtual(n, i)
  }

  ghost predicate CollisionFree(h: HashFunc, vs: set<Virtual>) {
    forall v, w :: v in vs && w in vs && Point(h, v) == Point(h, w) ==> v == w
  }

  /** Points collide exactly if the hash collides on the names of two different virtual nodes. */
  lemma CollisionFreeIff(h: HashFunc, vs: set<Virtual>)
    ensures CollisionFree(h, vs) <==>
            forall v, w :: v in vs && w in vs && VirtualName(v) != VirtualName(w) ==>
                             h(VirtualName(v)) != h(VirtualName(w))
  {
    hide VirtualName;
    forall v, w | VirtualName(v) == VirtualName(w) ensures v == w {
      VirtualNamesDiffer(v, w);
    }
  }

  /** How far clockwise a point lies from a hash. */
  function Distance(x: uint32, p: uint32): nat {
    if p >= x then p - x else p - x + CIRCLE
  }

  ghost predicate Nearest(h: HashFunc, vs: set<Virtual>, x: uint32, v: Virtual) {
    v in vs && forall w :: w in vs ==> Distance(x, Point(h, v)) <= Distance(x, Point(h, w))
  }

  /** `n` owns the hash `x`. */
  ghost predicate Owns(h: HashFunc, vs: set<Virtual>, x: uint32, n: Key) {
    exists v :: Nearest(h, vs, x, v) && v.node == n
  }

  /** On a ring without collisions every hash has at most one owner. */
  lemma OwnerUnique(h: HashFunc, vs: set<Virtual>, x: uint32, a: Key, b: Key)
    requires CollisionFree(h, vs) && Owns(h, vs, x, a) && Owns(h, vs, x, b)
    ensures a == b
  {
    var v :| Nearest(h, vs, x, v) && v.node == a;
    var w :| Nearest(h, vs, x, w) && w.node == b;
  }

  function Count(reps: map<Key, nat>, n: Key): nat {
    if n in reps then reps[n] else 0
  }

  lemma InVirtuals(reps: map<Key, nat>, v: Virtual)
    ensures v in Virtuals(reps) <==> v.i < Count(reps, v.node)
  {
  }

  /**
  Minimal disruption, for any change of replica counts whatever: a hash moves from `a` to another
  node `b` only if `a` has lost virtual nodes or `b` has gained some.
  */
  lemma MovesOnlyToGainersOrFromLosers(h: HashFunc, before: map<Key, nat>, after: map<Key, nat>,
                                       x: uint32, a: Key, b: Key)
    requires CollisionFree(h, Virtuals(before) + Virtuals(after))
    requires Owns(h, Virtuals(before), x, a) && Owns(h, Virtuals(after), x, b) && a != b
    ensures Count(after, a) < Count(before, a) || Count(before, b) < Count(after, b)
  {
    hide Virtuals, Count;
    var v :| Nearest(h, Virtuals(before), x, v) && v.node == a;
    var w :| Nearest(h, Virtuals(after), x, w) && w.node == b;
    InVirtuals(before, v);
    InVirtuals(after, v);
    InVirtuals(before, w);
    InVirtuals(after, w);
    var all := Virtuals(before) + Virtuals(after);
    assert v in all && w in all;
    assert v in Virtuals(after) && w in Virtuals(before) ==> Point(h, v) == Point(h, w);
  }

  /** Adding nodes: a hash keeps its owner or goes to an added node. */
  lemma AddMovesOnlyToAdded(h: HashFunc, before: map<Key, nat>, added: map<Key, nat>, x: uint32, a: Key, b: Key)
    requires before.Keys !! added.Keys
    requires CollisionFree(h, Virtuals(before) + Virtuals(before + added))
    requires Owns(h, Virtuals(before), x, a) && Owns(h, Virtuals(before + added), x, b)
    ensures a == b || b in added
  {
    if a != b {
      MovesOnlyToGainersOrFromLosers(h, before, before + added, x, a, b);
    }
  }

  /** Removing a node: only the hashes it owned move. */
  lemma RemoveMovesOnlyFromRemoved(h: HashFunc, before: map<Key, nat>, node: Key, x: uint32, a: Key, b: Key)
    requires CollisionFree(h, Virtuals(before) + Virtuals(before - {node}))
    requires Owns(h, Virtuals(before), x, a) && Owns(h, Virtuals(before - {node}), x, b)
    ensures a == b || a == node
  {
    if a != b {
      MovesOnlyToGainersOrFromLosers(h, before, before - {node}, x, a, b);
    }
  }

  // ----- The stored ring -----

  ghost predicate Ascending(s: seq<int>) {
    forall i, j :: 0 <= i < j < |s| ==> s[i] < s[j]
  }

  /** The point list and the owner map describe the virtual nodes `vs`. */
  ghost predicate Places(h: HashFunc, keys: seq<int>, owner: map<int, Key>, vs: set<Virtual>) {
    && NoDuplicates(keys)
    && (forall p :: p in keys <==> p in owner)
    && (forall v :: v in vs ==> Point(h, v) in owner && owner[Point(h, v)] == v.node)
    && (forall p :: p in owner ==> exists v :: v in vs && Point(h, v) == p)
  }

  lemma {:induction false} AscendingUnique(a: seq<int>, b: seq<int>)
    requires Ascending(a) && Ascending(b) && forall x :: x in a <==> x in b
    ensures a == b
  {
    assert (a != [] ==> a[0] in a) && (b != [] ==> b[0] in b);
    if a != [] {
      assert a[0] in b && b[0] in a;
      var i :| 0 <= i < |b| && b[i] == a[0];
      var j :| 0 <= j < |a| && a[j] == b[0];
      assert a[0] == b[0];
      forall x ensures x in a[1..] <==> x in b[1..] {
        assert x in a <==> x in b;
        assert x in a <==> x == a[0] || x in a[1..];
        assert x in b <==> x == b[0] || x in b[1..];
        assert a[0] !in a[1..] && b[0] !in b[1..];
      }
      AscendingUnique(a[1..], b[1..]);
    }
  }

  /** A sorted ring and its owner map are determined by the virtual nodes, however they were built. */
  lemma RingDetermined(h: HashFunc, keys: seq<int>, owner: map<int, Key>,
                       keys': seq<int>, owner': map<int, Key>, vs: set<Virtual>)
    requires Places(h, keys, owner, vs) && Ascending(keys)
    requires Places(h, keys', owner', vs) && Ascending(keys')
    ensures keys == keys' && owner == owner'
  {
    forall p ensures p in owner <==> p in owner' {
      if p in owner {
        var v :| v in vs && Point(h, v) == p;
      }
      if p in owner' {
        var v :| v in vs && Point(h, v) == p;
      }
    }
    forall p | p in owner ensures owner[p] == owner'[p] {
      var v :| v in vs && Point(h, v) == p;
    }
    AscendingUnique(keys, keys');
  }

  lemma PlaceOne(h: HashFunc, keys: seq<int>, owner: map<int, Key>, vs: set<Virtual>, v: Virtual)
    requires Places(h, keys, owner, vs) && CollisionFree(h, vs + {v}) && v !in vs
    ensures Places(h, keys + [Point(h, v)], owner[Point(h, v) := v.node], vs + {v})
  {
    var p := Point(h, v);
    forall w | w in vs ensures Point(h, w) != p {
      assert w in vs + {v} && v in vs + {v};
    }
    assert p !in owner && p !in keys;
  }

  lemma TakeOne(h: HashFunc, keys: seq<int>, owner: map<int, Key>, vs: set<Virtual>, v: Virtual, keys': seq<int>)
    requires Places(h, keys, owner, vs) && CollisionFree(h, vs) && v in vs
    requires NoDuplicates(keys') && forall p :: p in keys' <==> p in keys && p != Point(h, v)
    ensures Places(h, keys', owner - {Point(h, v)}, vs - {v})
  {
    var p := Point(h, v);
    forall q | q in owner - {p} ensures exists w :: w in vs - {v} && Point(h, w) == q {
      var w :| w in vs && Point(h, w) == q;
      assert w in vs - {v};
    }
  }
}
