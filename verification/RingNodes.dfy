/**
Putting virtual nodes on the ring and taking them off, as functions on the point list and the owner
map, and when the result is a proper ring.
*/
module RingNodes {
  import opened Types
  import opened RingSpec
  import opened PointList

  // ----- Virtual nodes of one node -----

  ghost function Range(node: Key, lo: nat, hi: nat): set<Virtual> {
    set i | lo <= i < hi :: Virtual(node, i)
  }

  lemma VirtualsSplit(reps: map<Key, nat>, node: Key)
    ensures Virtuals(reps) == Virtuals(reps - {node}) + Range(node, 0, Count(reps, node))
    ensures Virtuals(reps - {node}) !! Range(node, 0, Count(reps, node))
  {
    hide Virtuals;
    forall v ensures v in Virtuals(reps) <==> v in Virtuals(reps - {node}) + Range(node, 0, Count(reps, node)) {
      InVirtuals(reps, v);
      InVirtuals(reps - {node}, v);
      assert v == Virtual(v.node, v.i);
    }
    forall v | v in Virtuals(reps - {node}) ensures v !in Range(node, 0, Count(reps, node)) {
      InVirtuals(reps - {node}, v);
    }
  }

  lemma SubsetCollisionFree(h: HashFunc, a: set<Virtual>, b: set<Virtual>)
    requires CollisionFree(h, b) && a <= b
    ensures CollisionFree(h, a)
  {
  }

  // ----- Adding virtual nodes -----

  function Copies(node: Key, r: nat): (vs: seq<Virtual>)
    ensures |vs| == r && forall i :: 0 <= i < r ==> vs[i] == Virtual(node, i)
  {
    seq(r, i requires 0 <= i < r => Virtual(node, i))
  }

  function PointsOf(h: HashFunc, vs: seq<Virtual>): (ps: seq<int>)
    ensures |ps| == |vs| && forall i :: 0 <= i < |vs| ==> ps[i] == Point(h, vs[i])
  {
    seq(|vs|, i requires 0 <= i < |vs| => Point(h, vs[i]))
  }

  /** The owner map after placing virtual nodes in turn; a later one takes over the point of an earlier one. */
  function OwnersOf(h: HashFunc, owner: map<int, Key>, vs: seq<Virtual>): map<int, Key> {
    if vs == [] then owner
    else
      var v := vs[|vs| - 1];
      OwnersOf(h, owner, vs[..|vs| - 1])[Point(h, v) := v.node]
  }

  function OwnersWithout(h: HashFunc, owner: map<int, Key>, vs: seq<Virtual>): map<int, Key> {
    if vs == [] then owner else OwnersWithout(h, owner, vs[..|vs| - 1]) - {Point(h, vs[|vs| - 1])}
  }

  lemma {:induction false} OwnersGone(h: HashFunc, owner: map<int, Key>, vs: seq<Virtual>)
    ensures forall v :: v in vs ==> Point(h, v) !in OwnersWithout(h, owner, vs)
    ensures forall p :: p in OwnersWithout(h, owner, vs) ==> p in owner && OwnersWithout(h, owner, vs)[p] == owner[p]
  {
    if vs != [] {
      OwnersGone(h, owner, vs[..|vs| - 1]);
      assert vs == vs[..|vs| - 1] + [vs[|vs| - 1]];
    }
  }

  /** The virtual nodes that adding the names places, in order; empty names are skipped. */
  function Listed(nodes: seq<Key>, r: nat): seq<Virtual> {
    if nodes == [] then []
    else
      var n := nodes[|nodes| - 1];
      Listed(nodes[..|nodes| - 1], r) + if n == EMPTY then [] else Copies(n, r)
  }

  lemma ListedNext(nodes: seq<Key>, r: nat, k: nat)
    requires k < |nodes|
    ensures Listed(nodes[..k + 1], r) ==
            Listed(nodes[..k], r) + if nodes[k] == EMPTY then [] else Copies(nodes[k], r)
  {
    assert nodes[..k + 1][..k] == nodes[..k];
  }

  lemma {:induction false} InListed(nodes: seq<Key>, r: nat, v: Virtual)
    ensures v in Listed(nodes, r) <==> v.node in Named(nodes) && v.i < r
  {
    if nodes != [] {
      var k := |nodes| - 1;
      InListed(nodes[..k], r, v);
      assert nodes == nodes[..k] + [nodes[k]];
      InCopies(nodes[k], r, v);
    }
  }

  lemma InCopies(node: Key, r: nat, v: Virtual)
    ensures v in Copies(node, r) <==> v.node == node && v.i < r
  {
    if v.node == node && v.i < r {
      assert Copies(node, r)[v.i] == v;
    }
  }

  ghost function Elements(vs: seq<Virtual>): set<Virtual> {
    set v | v in vs
  }

  lemma PointsConcat(h: HashFunc, a: seq<Virtual>, b: seq<Virtual>)
    ensures PointsOf(h, a + b) == PointsOf(h, a) + PointsOf(h, b)
  {
  }

  lemma {:induction false} OwnersConcat(h: HashFunc, owner: map<int, Key>, a: seq<Virtual>, b: seq<Virtual>)
    ensures OwnersOf(h, owner, a + b) == OwnersOf(h, OwnersOf(h, owner, a), b)
    decreases |b|
  {
    if b == [] {
      assert a + b == a;
    } else {
      assert (a + b)[..|a + b| - 1] == a + b[..|b| - 1];
      OwnersConcat(h, owner, a, b[..|b| - 1]);
    }
  }

  /** The virtual nodes are new, different from each other, and do not collide. */
  ghost predicate Placeable(h: HashFunc, vs: set<Virtual>, more: seq<Virtual>) {
    NoDuplicates(more) && (forall v :: v in more ==> v !in vs) && CollisionFree(h, vs + Elements(more))
  }

  lemma {:induction false} PlaceAll(h: HashFunc, keys: seq<int>, owner: map<int, Key>, vs: set<Virtual>,
                                    more: seq<Virtual>)
    requires Places(h, keys, owner, vs) && Placeable(h, vs, more)
    ensures Places(h, keys + PointsOf(h, more), OwnersOf(h, owner, more), vs + Elements(more))
    decreases |more|
  {
    hide Places, CollisionFree;
    if more == [] {
      assert keys + PointsOf(h, more) == keys && vs + Elements(more) == vs;
    } else {
      var k := |more| - 1;
      var init, v := more[..k], more[k];
      assert more == init + [v] && v !in init;
      assert vs + Elements(more) == vs + Elements(init) + {v};
      SubsetCollisionFree(h, vs + Elements(init), vs + Elements(more));
      PlaceAll(h, keys, owner, vs, init);
      PlaceOne(h, keys + PointsOf(h, init), OwnersOf(h, owner, init), vs + Elements(init), v);
      assert keys + PointsOf(h, more) == (keys + PointsOf(h, init)) + [Point(h, v)];
    }
  }

  lemma PointPlaced(h: HashFunc, keys: seq<int>, owner: map<int, Key>, vs: set<Virtual>, v: Virtual) returns (i: nat)
    requires Places(h, keys, owner, vs) && v in vs
    ensures i < |keys| && keys[i] == Point(h, v)
  {
    assert Point(h, v) in owner && Point(h, v) in keys;
    i :| 0 <= i < |keys| && keys[i] == Point(h, v);
  }

  lemma InitNoDuplicates(s: seq<Virtual>)
    requires NoDuplicates(s) && s != []
    ensures NoDuplicates(s[..|s| - 1]) && s[|s| - 1] !in s[..|s| - 1]
  {
  }

  /** Taking virtual nodes off a ring without collisions, one by one. */
  lemma {:induction false} TakeAll(h: HashFunc, keys: seq<int>, owner: map<int, Key>, vs: set<Virtual>,
                                   gone: seq<Virtual>)
    requires Places(h, keys, owner, vs) && CollisionFree(h, vs)
    requires NoDuplicates(gone) && forall v :: v in gone ==> v in vs
    ensures Places(h, RemoveEach(keys, PointsOf(h, gone)), OwnersWithout(h, owner, gone), vs - Elements(gone))
    decreases |gone|
  {
    hide Places, CollisionFree, RemoveFirst, RemoveEach, OwnersWithout, PointsOf, NoDuplicates;
    if gone == [] {
      StartRemoving(h, keys, owner);
      assert vs - Elements(gone) == vs;
    } else {
      var k := |gone| - 1;
      var init, v := gone[..k], gone[k];
      assert gone == init + [v] && gone[..k + 1] == gone;
      InitNoDuplicates(gone);
      TakeAll(h, keys, owner, vs, init);
      var ks, rest := RemoveEach(keys, PointsOf(h, init)), vs - Elements(init);
      RemoveNext(h, keys, owner, gone, k);
      SubsetCollisionFree(h, rest, vs);
      PlacesNoDuplicates(h, ks, OwnersWithout(h, owner, init), rest);
      RemoveFirstOfDistinct(ks, Point(h, v));
      TakeOne(h, ks, OwnersWithout(h, owner, init), rest, v, RemoveFirst(ks, Point(h, v)));
      assert rest - {v} == vs - Elements(gone);
    }
  }

  /** Without duplicates among the points, old and new, the virtual nodes were placeable. */
  lemma NoDuplicatesPlaceable(h: HashFunc, keys: seq<int>, owner: map<int, Key>, vs: set<Virtual>, more: seq<Virtual>)
    requires Places(h, keys, owner, vs) && CollisionFree(h, vs)
    requires NoDuplicates(keys + PointsOf(h, more))
    ensures Placeable(h, vs, more)
  {
    hide Places;
    var all := keys + PointsOf(h, more);
    forall i, j | 0 <= i < j < |more| ensures Point(h, more[i]) != Point(h, more[j]) {
      assert all[|keys| + i] != all[|keys| + j];
    }
    forall i, v | 0 <= i < |more| && v in vs ensures Point(h, v) != Point(h, more[i]) {
      var a := PointPlaced(h, keys, owner, vs, v);
      assert all[a] != all[|keys| + i];
    }
  }

  /** The wrap-around of the search finds the clockwise successor. */
  lemma SearchFindsOwner(h: HashFunc, keys: seq<int>, owner: map<int, Key>, vs: set<Virtual>, x: uint32, i: nat)
    requires Places(h, keys, owner, vs) && Ascending(keys) && keys != []
    requires i <= |keys| && (forall k :: 0 <= k < i ==> keys[k] < x) && (forall k :: i <= k < |keys| ==> keys[k] >= x)
    ensures var p := keys[if i == |keys| then 0 else i];
            p in owner && Owns(h, vs, x, owner[p])
  {
    var at := if i == |keys| then 0 else i;
    var p := keys[at];
    assert p in keys;
    var v :| v in vs && Point(h, v) == p;
    forall w | w in vs ensures Distance(x, Point(h, v)) <= Distance(x, Point(h, w)) {
      assert Point(h, w) in owner && Point(h, w) in keys;
      var k :| 0 <= k < |keys| && keys[k] == Point(h, w);
    }
    assert Nearest(h, vs, x, v);
  }

  lemma OwnerIsNode(h: HashFunc, reps: map<Key, nat>, x: uint32, n: Key)
    requires Owns(h, Virtuals(reps), x, n)
    ensures n in reps
  {
    var v :| Nearest(h, Virtuals(reps), x, v) && v.node == n;
    InVirtuals(reps, v);
  }

  // ----- Names -----

  lemma PotentialShrinks(h: HashFunc, a: set<Key>, b: set<Key>, max: nat)
    requires CollisionFree(h, Potential(b, max)) && a <= b
    ensures CollisionFree(h, Potential(a, max))
  {
    assert Potential(a, max) <= Potential(b, max);
  }

  ghost function Potential(nodes: set<Key>, max: nat): set<Virtual> {
    set n, i | n in nodes && 0 <= i < max :: Virtual(n, i)
  }

  /** The non-empty names among `nodes`; empty ones are skipped. */
  function Named(nodes: seq<Key>): set<Key> {
    set n | n in nodes && n != EMPTY
  }

  ghost predicate Distinct(nodes: seq<Key>) {
    forall i, j :: 0 <= i < j < |nodes| && nodes[i] != EMPTY ==> nodes[i] != nodes[j]
  }

  /** The replica counts after adding nodes with `r` virtual nodes each. */
  ghost function WithNodes(reps: map<Key, nat>, nodes: seq<Key>, r: nat): map<Key, nat> {
    reps + map n | n in Named(nodes) :: r
  }

  lemma WithNodesKeys(reps: map<Key, nat>, nodes: seq<Key>, r: nat)
    ensures WithNodes(reps, nodes, r).Keys == reps.Keys + Named(nodes)
    ensures forall n :: n in WithNodes(reps, nodes, r) ==>
              WithNodes(reps, nodes, r)[n] == if n in Named(nodes) then r else reps[n]
    ensures nodes == [] ==> WithNodes(reps, nodes, r) == reps
  {
    assert nodes == [] ==> Named(nodes) == {};
  }

  lemma NamedAre(nodes: seq<Key>)
    ensures forall n :: n in Named(nodes) <==> n in nodes && n != EMPTY
  {
  }

  /** The names are new and different from each other. */
  ghost predicate Addable(reps: map<Key, nat>, nodes: seq<Key>) {
    Distinct(nodes) && Named(nodes) !! reps.Keys
  }

  lemma StartAdding(h: HashFunc, keys: seq<int>, owner: map<int, Key>, reps: map<Key, nat>, r: nat)
    ensures keys + PointsOf(h, Listed([], r)) == keys && OwnersOf(h, owner, Listed([], r)) == owner
    ensures WithNodes(reps, [], r) == reps
  {
    WithNodesKeys(reps, [], r);
  }

  /** One more name of the list. */
  lemma AddNext(h: HashFunc, keys: seq<int>, owner: map<int, Key>, reps: map<Key, nat>, nodes: seq<Key>, k: nat, r: nat)
    requires k < |nodes|
    ensures var was, now, vs := Listed(nodes[..k], r), Listed(nodes[..k + 1], r), Copies(nodes[k], r);
            if nodes[k] == EMPTY
            then now == was && WithNodes(reps, nodes[..k + 1], r) == WithNodes(reps, nodes[..k], r)
            else
              && keys + PointsOf(h, now) == keys + PointsOf(h, was) + PointsOf(h, vs)
              && OwnersOf(h, owner, now) == OwnersOf(h, OwnersOf(h, owner, was), vs)
              && WithNodes(reps, nodes[..k + 1], r) == WithNodes(reps, nodes[..k], r)[nodes[k] := r]
  {
    hide Listed, OwnersOf, Named;
    var was, vs := Listed(nodes[..k], r), Copies(nodes[k], r);
    ListedNext(nodes, r, k);
    NamedNext(nodes, k);
    PointsConcat(h, was, vs);
    OwnersConcat(h, owner, was, vs);
    assert was + [] == was;
  }

  lemma NamedNext(nodes: seq<Key>, k: nat)
    requires k < |nodes|
    ensures Named(nodes[..k + 1]) == Named(nodes[..k]) + if nodes[k] == EMPTY then {} else {nodes[k]}
  {
  }

  lemma {:induction false} DistinctListed(nodes: seq<Key>, r: nat)
    requires r > 0
    ensures NoDuplicates(Listed(nodes, r)) <==> Distinct(nodes)
  {
    hide Named;
    if nodes != [] {
      var k := |nodes| - 1;
      var init, n := nodes[..k], nodes[k];
      DistinctListed(init, r);
      assert nodes == init + [n];
      var a, b := Listed(init, r), if n == EMPTY then [] else Copies(n, r);
      assert Distinct(nodes) <==> Distinct(init) && (n == EMPTY || n !in init);
      if n == EMPTY {
        assert a + b == a;
      } else {
        NameListed(init, n, r);
        DisjointConcat(a, b);
      }
    }
  }

  /** The virtual nodes of `n` are among the listed ones exactly if the name is. */
  lemma NameListed(nodes: seq<Key>, n: Key, r: nat)
    requires r > 0 && n != EMPTY
    ensures n !in nodes <==> forall v :: v in Copies(n, r) ==> v !in Listed(nodes, r)
    ensures NoDuplicates(Copies(n, r))
  {
    hide Listed;
    forall v | v in Copies(n, r) ensures v in Listed(nodes, r) <==> n in nodes {
      InListed(nodes, r, v);
      InCopies(n, r, v);
    }
    assert Copies(n, r)[0] in Copies(n, r);
  }

  lemma DisjointConcat(a: seq<Virtual>, b: seq<Virtual>)
    ensures NoDuplicates(a + b) <==> NoDuplicates(a) && NoDuplicates(b) && forall v :: v in b ==> v !in a
  {
    var c := a + b;
    if NoDuplicates(c) {
      forall i, j | 0 <= i < j < |a| ensures a[i] != a[j] { assert c[i] != c[j]; }
      forall i, j | 0 <= i < j < |b| ensures b[i] != b[j] { assert c[|a| + i] != c[|a| + j]; }
      forall v | v in b ensures v !in a {
        var j :| 0 <= j < |b| && b[j] == v;
        forall i | 0 <= i < |a| ensures a[i] != v { assert c[i] != c[|a| + j]; }
      }
    } else {
      var i, j :| 0 <= i < j < |c| && c[i] == c[j];
      assert i < |a| <= j ==> a[i] in a && b[j - |a|] in b;
    }
  }

  lemma AddableIffNew(reps: map<Key, nat>, nodes: seq<Key>, r: nat)
    requires r > 0 && forall n :: n in reps ==> reps[n] > 0
    ensures Addable(reps, nodes) <==>
            NoDuplicates(Listed(nodes, r)) && forall v :: v in Listed(nodes, r) ==> v !in Virtuals(reps)
    ensures Addable(reps, nodes) ==>
              Virtuals(WithNodes(reps, nodes, r)) == Virtuals(reps) + Elements(Listed(nodes, r))
  {
    hide Virtuals, Listed, Distinct, WithNodes;
    DistinctListed(nodes, r);
    if Named(nodes) !! reps.Keys {
      WithNodesKeys(reps, nodes, r);
      forall v ensures v in Listed(nodes, r) ==> v !in Virtuals(reps)
               ensures v in Virtuals(WithNodes(reps, nodes, r)) <==> v in Virtuals(reps) || v in Listed(nodes, r)
      {
        InListed(nodes, r, v);
        InVirtuals(reps, v);
        InVirtuals(WithNodes(reps, nodes, r), v);
      }
    } else {
      var n :| n in Named(nodes) && n in reps;
      InListed(nodes, r, Virtual(n, 0));
      InVirtuals(reps, Virtual(n, 0));
    }
  }

  /**
  Exactly when adding names leaves a proper ring, in which every point is listed once and belongs to
  the node it is a virtual node of: the names are new and distinct, and no two virtual nodes collide.
  */
  lemma AddKeepsRingIff(h: HashFunc, keys: seq<int>, owner: map<int, Key>, reps: map<Key, nat>, nodes: seq<Key>, r: nat)
    requires Places(h, keys, owner, Virtuals(reps)) && CollisionFree(h, Virtuals(reps))
    requires r > 0 && forall n :: n in reps ==> reps[n] > 0
    ensures var more, after := Listed(nodes, r), WithNodes(reps, nodes, r);
            Places(h, Sort(keys + PointsOf(h, more)), OwnersOf(h, owner, more), Virtuals(after)) <==>
            Addable(reps, nodes) && CollisionFree(h, Virtuals(after))
  {
    hide Virtuals, CollisionFree, Places, WithNodes, Listed, OwnersOf, Addable, Sort, NoDuplicates, Elements;
    var vs, more, after := Virtuals(reps), Listed(nodes, r), WithNodes(reps, nodes, r);
    var ks, owner' := keys + PointsOf(h, more), OwnersOf(h, owner, more);
    AddableIffNew(reps, nodes, r);
    SortedPoints(ks);
    if Places(h, Sort(ks), owner', Virtuals(after)) {
      PlacesNoDuplicates(h, Sort(ks), owner', Virtuals(after));
      NoDuplicatesPlaceable(h, keys, owner, vs, more);
    }
    if Addable(reps, nodes) && CollisionFree(h, Virtuals(after)) {
      PlaceAll(h, keys, owner, vs, more);
      PlacesSorted(h, ks, Sort(ks), owner', Virtuals(after));
    }
  }

  lemma PlacesSorted(h: HashFunc, keys: seq<int>, sorted: seq<int>, owner: map<int, Key>, vs: set<Virtual>)
    requires Places(h, keys, owner, vs)
    requires (NoDuplicates(sorted) <==> NoDuplicates(keys)) && forall p :: p in sorted <==> p in keys
    ensures Places(h, sorted, owner, vs)
  {
  }

  /** One node's virtual nodes are placed on a ring that does not have it. */
  lemma NodePlaced(h: HashFunc, keys: seq<int>, owner: map<int, Key>, reps: map<Key, nat>, node: Key, r: nat)
    ensures Places(h, keys, owner, Virtuals(reps)) && node !in reps ==>
              CollisionFree(h, Virtuals(reps) + Range(node, 0, r)) ==>
              Places(h, keys + PointsOf(h, Copies(node, r)), OwnersOf(h, owner, Copies(node, r)),
                     Virtuals(reps[node := r]))
  {
    hide Places, Virtuals, CollisionFree, OwnersOf;
    if Places(h, keys, owner, Virtuals(reps)) && node !in reps && CollisionFree(h, Virtuals(reps) + Range(node, 0, r)) {
      VirtualsSplit(reps[node := r], node);
      assert reps[node := r] - {node} == reps;
      CopiesAreRange(node, r);
      PlaceAll(h, keys, owner, Virtuals(reps), Copies(node, r));
    }
  }

  lemma StartRemoving(h: HashFunc, keys: seq<int>, owner: map<int, Key>)
    ensures RemoveEach(keys, PointsOf(h, [])) == keys && OwnersWithout(h, owner, []) == owner
  {
  }

  lemma RemoveNext(h: HashFunc, keys: seq<int>, owner: map<int, Key>, vs: seq<Virtual>, i: nat)
    requires i < |vs|
    ensures RemoveEach(keys, PointsOf(h, vs[..i + 1])) ==
            RemoveFirst(RemoveEach(keys, PointsOf(h, vs[..i])), Point(h, vs[i]))
    ensures OwnersWithout(h, owner, vs[..i + 1]) == OwnersWithout(h, owner, vs[..i]) - {Point(h, vs[i])}
  {
    hide RemoveFirst;
    assert vs[..i + 1][..i] == vs[..i];
    assert PointsOf(h, vs[..i + 1])[..i] == PointsOf(h, vs[..i]);
  }

  /** One node's virtual nodes are taken off a ring without collisions. */
  lemma NodeTaken(h: HashFunc, keys: seq<int>, owner: map<int, Key>, reps: map<Key, nat>, node: Key)
    requires node in reps
    ensures var gone := Copies(node, reps[node]);
            Places(h, keys, owner, Virtuals(reps)) && CollisionFree(h, Virtuals(reps)) ==>
              Places(h, RemoveEach(keys, PointsOf(h, gone)), OwnersWithout(h, owner, gone), Virtuals(reps - {node}))
  {
    hide Places, Virtuals, CollisionFree, OwnersWithout, RemoveEach;
    if Places(h, keys, owner, Virtuals(reps)) && CollisionFree(h, Virtuals(reps)) {
      var gone := Copies(node, reps[node]);
      VirtualsSplit(reps, node);
      CopiesAreRange(node, reps[node]);
      TakeAll(h, keys, owner, Virtuals(reps), gone);
      assert Virtuals(reps) - Elements(gone) == Virtuals(reps - {node});
    }
  }

  lemma CopiesAreRange(node: Key, r: nat)
    ensures Elements(Copies(node, r)) == Range(node, 0, r) && NoDuplicates(Copies(node, r))
  {
    forall v ensures v in Elements(Copies(node, r)) <==> v in Range(node, 0, r) {
      InCopies(node, r, v);
      assert v == Virtual(v.node, v.i);
    }
  }

  lemma VirtualsCovered(reps: map<Key, nat>, nodes: set<Key>, max: nat)
    requires (forall n :: n in reps ==> reps[n] <= max) && reps.Keys <= nodes
    ensures Virtuals(reps) <= Potential(nodes, max)
  {
    forall v | v in Virtuals(reps) ensures v in Potential(nodes, max) {
      InVirtuals(reps, v);
    }
  }

  lemma PotentialCovers(reps: map<Key, nat>, node: Key, r: nat, nodes: set<Key>, max: nat)
    requires r <= max && (forall n :: n in reps ==> reps[n] <= max) && reps.Keys + {node} <= nodes
    ensures Virtuals(reps) + Range(node, 0, r) <= Potential(nodes, max)
  {
  }

  lemma PlacesNoDuplicates(h: HashFunc, keys: seq<int>, owner: map<int, Key>, vs: set<Virtual>)
    requires Places(h, keys, owner, vs)
    ensures NoDuplicates(keys)
  {
  }
}
