/** The consistent-hash ring object: sorted points, owner map, replica counts and load counters. */
module HashRing {
  import opened Types
  import opened RingSpec
  import opened PointList
  import opened RingNodes
  import opened Rebalancing

  function OwnerOf(owner: map<int, Key>, p: int): Key {
    if p in owner then owner[p] else EMPTY
  }

  class Ring {
    const h: HashFunc
    const defaultReplicas: nat
    const minReplicas: nat
    const maxReplicas: nat
    const threshold: real
    var keys: seq<int>
    var hashMap: map<int, Key>
    var nodeReplicas: map<Key, nat>
    var nodeCounts: map<Key, nat>
    var totalRequests: nat

    ghost predicate Placed()
      reads this
    {
      Places(h, keys, hashMap, Virtuals(nodeReplicas))
    }

    method AddNode(node: Key, replicas: nat)
      modifies this`keys, this`hashMap, this`nodeReplicas
      ensures keys == old(keys) + PointsOf(h, Copies(node, replicas))
      ensures hashMap == OwnersOf(h, old(hashMap), Copies(node, replicas))
      ensures nodeReplicas == old(nodeReplicas)[node := replicas]
      ensures old(Placed()) && node !in old(nodeReplicas) ==>
                CollisionFree(h, Virtuals(old(nodeReplicas)) + Range(node, 0, replicas)) ==> Placed()
    {
      hide Places, Virtuals, CollisionFree, Range;
      ghost var vs := Copies(node, replicas);
      for i := 0 to replicas
        invariant nodeReplicas == old(nodeReplicas)
        invariant keys == old(keys) + PointsOf(h, vs[..i]) && hashMap == OwnersOf(h, old(hashMap), vs[..i])
      {
        assert vs[..i + 1] == vs[..i] + [Virtual(node, i)];
        keys := keys + [Point(h, Virtual(node, i))];
        hashMap := hashMap[Point(h, Virtual(node, i)) := node];
      }
      assert vs[..replicas] == vs;
      nodeReplicas := nodeReplicas[node := replicas];
      NodePlaced(h, old(keys), old(hashMap), old(nodeReplicas), node, replicas);
    }

    method RemoveNode(node: Key) returns (found: bool)
      modifies this`keys, this`hashMap, this`nodeReplicas, this`nodeCounts
      ensures found <==> Count(old(nodeReplicas), node) > 0
      ensures !found ==> unchanged(this)
      ensures found ==>
                var gone := Copies(node, old(nodeReplicas)[node]);
                && keys == RemoveEach(old(keys), PointsOf(h, gone)) && hashMap == OwnersWithout(h, old(hashMap), gone)
                && nodeReplicas == old(nodeReplicas) - {node} && nodeCounts == old(nodeCounts) - {node}
      ensures old(NonDecreasing(keys)) ==> NonDecreasing(keys)
      ensures old(Placed()) && CollisionFree(h, Virtuals(old(nodeReplicas))) ==> Placed()
    {
      hide Places, Virtuals, NonDecreasing, CollisionFree, RemoveEach, OwnersWithout;
      var replicas := Count(nodeReplicas, node);
      if replicas == 0 {
        return false;
      }
      ghost var vs := Copies(node, replicas);
      StartRemoving(h, keys, hashMap);
      assert vs[..0] == [];
      for i := 0 to replicas
        invariant nodeReplicas == old(nodeReplicas) && nodeCounts == old(nodeCounts)
        invariant keys == RemoveEach(old(keys), PointsOf(h, vs[..i]))
        invariant hashMap == OwnersWithout(h, old(hashMap), vs[..i])
      {
        RemoveNext(h, old(keys), old(hashMap), vs, i);
        hashMap := hashMap - {Point(h, Virtual(node, i))};
        keys := Splice(keys, Point(h, Virtual(node, i)));
      }
      assert vs[..replicas] == vs;
      RemoveEachFacts(old(keys), PointsOf(h, vs));
      NodeTaken(h, old(keys), old(hashMap), nodeReplicas, node);
      nodeReplicas := nodeReplicas - {node};
      nodeCounts := nodeCounts - {node};
      return true;
    }

    /** Every virtual node the given nodes may ever have hashes to a point of its own. */
    ghost predicate NoCollisions(nodes: set<Key>) {
      CollisionFree(h, Potential(nodes, maxReplicas))
    }

    ghost predicate ValidFields(keys: seq<int>, owner: map<int, Key>, reps: map<Key, nat>) {
      && 1 <= minReplicas <= defaultReplicas <= maxReplicas
      && NoCollisions(reps.Keys)
      && (forall n :: n in reps ==> minReplicas <= reps[n] <= maxReplicas)
      && Places(h, keys, owner, Virtuals(reps))
      && Ascending(keys)
    }

    ghost predicate Valid()
      reads this
    {
      ValidFields(keys, hashMap, nodeReplicas) && nodeCounts.Keys <= nodeReplicas.Keys
    }

    constructor (h: HashFunc, defaultReplicas: nat, minReplicas: nat, maxReplicas: nat, threshold: real)
      requires 1 <= minReplicas <= defaultReplicas <= maxReplicas
      ensures Valid() && nodeReplicas == map[] && keys == []
    {
      this.h := h;
      this.defaultReplicas := defaultReplicas;
      this.minReplicas := minReplicas;
      this.maxReplicas := maxReplicas;
      this.threshold := threshold;
      keys, hashMap, nodeReplicas, nodeCounts, totalRequests := [], map[], map[], map[], 0;
    }

    /**
    Adds the names with the default number of virtual nodes. The ring checks nothing; it stays a ring
    exactly if the names are new, different from each other, and nothing collides.
    */
    method Add(nodes: seq<Key>) returns (ok: bool)
      modifies this`keys, this`hashMap, this`nodeReplicas
      ensures ok <==> nodes != []
      ensures !ok ==> unchanged(this)
      ensures ok ==>
                && keys == Sort(old(keys) + PointsOf(h, Listed(nodes, defaultReplicas)))
                && hashMap == OwnersOf(h, old(hashMap), Listed(nodes, defaultReplicas))
      ensures nodeReplicas == WithNodes(old(nodeReplicas), nodes, defaultReplicas)
      ensures forall n :: n in nodeReplicas <==> n in old(nodeReplicas) || (n in nodes && n != EMPTY)
      ensures forall n :: n in nodes && n != EMPTY ==> nodeReplicas[n] == defaultReplicas
      ensures forall n :: n in old(nodeReplicas) && n !in nodes ==> nodeReplicas[n] == old(nodeReplicas)[n]
      ensures old(Valid()) && ok ==>
                (Placed() <==> Addable(old(nodeReplicas), nodes) && CollisionFree(h, Virtuals(nodeReplicas)))
      ensures old(Valid()) && Addable(old(nodeReplicas), nodes) ==>
                NoCollisions(old(nodeReplicas).Keys + Named(nodes)) ==> Valid()
    {
      hide ValidFields, Placed, WithNodes, Listed, OwnersOf, Sort, Virtuals, CollisionFree, Addable, Named;
      hide NoCollisions;
      WithNodesKeys(nodeReplicas, nodes, defaultReplicas);
      NamedAre(nodes);
      if nodes == [] {
        return false;
      }
      assert nodes[..0] == [];
      ghost var ks, owner, reps, r := keys, hashMap, nodeReplicas, defaultReplicas;
      StartAdding(h, ks, owner, reps, r);
      for k := 0 to |nodes|
        invariant keys == ks + PointsOf(h, Listed(nodes[..k], r))
        invariant hashMap == OwnersOf(h, owner, Listed(nodes[..k], r))
        invariant nodeReplicas == WithNodes(reps, nodes[..k], r)
      {
        AddNext(h, ks, owner, reps, nodes, k, r);
        if nodes[k] != EMPTY {
          AddNode(nodes[k], defaultReplicas);
        }
      }
      assert nodes[..|nodes|] == nodes;
      keys := Sort(keys);
      if old(Valid()) {
        AddedValid(ks, owner, reps, nodes);
      }
      return true;
    }

    /** What `Add` leaves of a valid ring with the given fields. */
    lemma AddedValid(ks: seq<int>, owner: map<int, Key>, reps: map<Key, nat>, nodes: seq<Key>)
      requires keys == Sort(ks + PointsOf(h, Listed(nodes, defaultReplicas)))
      requires hashMap == OwnersOf(h, owner, Listed(nodes, defaultReplicas))
      requires nodeReplicas == WithNodes(reps, nodes, defaultReplicas)
      requires nodeCounts.Keys <= reps.Keys
      requires ValidFields(ks, owner, reps)
      ensures Placed() <==> Addable(reps, nodes) && CollisionFree(h, Virtuals(nodeReplicas))
      ensures Addable(reps, nodes) && NoCollisions(reps.Keys + Named(nodes)) ==> Valid()
    {
      hide Places, WithNodes, Listed, OwnersOf, Sort, Virtuals, CollisionFree, Addable, Named, Ascending;
      assert CollisionFree(h, Virtuals(reps)) by {
        VirtualsCovered(reps, reps.Keys, maxReplicas);
        SubsetCollisionFree(h, Virtuals(reps), Potential(reps.Keys, maxReplicas));
      }
      AddKeepsRingIff(h, ks, owner, reps, nodes, defaultReplicas);
      WithNodesKeys(reps, nodes, defaultReplicas);
      if Addable(reps, nodes) && NoCollisions(reps.Keys + Named(nodes)) {
        VirtualsCovered(nodeReplicas, reps.Keys + Named(nodes), maxReplicas);
        SubsetCollisionFree(h, Virtuals(nodeReplicas), Potential(reps.Keys + Named(nodes), maxReplicas));
        assert NoDuplicates(keys) by { PlacesNoDuplicates(h, keys, hashMap, Virtuals(nodeReplicas)); }
        SortedPoints(ks + PointsOf(h, Listed(nodes, defaultReplicas)));
      }
    }

    method Remove(node: Key) returns (ok: bool)
      modifies this`keys, this`hashMap, this`nodeReplicas, this`nodeCounts
      ensures ok <==> node != EMPTY && Count(old(nodeReplicas), node) > 0
      ensures !ok ==> unchanged(this)
      ensures ok ==>
                var gone := Copies(node, old(nodeReplicas)[node]);
                && keys == RemoveEach(old(keys), PointsOf(h, gone)) && hashMap == OwnersWithout(h, old(hashMap), gone)
                && nodeReplicas == old(nodeReplicas) - {node} && nodeCounts == old(nodeCounts) - {node}
      ensures old(NonDecreasing(keys)) ==> NonDecreasing(keys)
      ensures old(Valid()) ==> Valid()
    {
      hide Places, Virtuals, CollisionFree, Ascending, NonDecreasing, RemoveEach, OwnersWithout;
      if node == EMPTY {
        return false;
      }
      ok := RemoveNode(node);
      if ok && old(Valid()) {
        RemovedValid(old(keys), old(hashMap), old(nodeReplicas), node);
      }
    }

    lemma RemovedValid(ks: seq<int>, owner: map<int, Key>, reps: map<Key, nat>, node: Key)
      requires ValidFields(ks, owner, reps) && node in reps
      requires nodeCounts.Keys <= reps.Keys - {node} && nodeReplicas == reps - {node}
      requires NonDecreasing(ks) ==> NonDecreasing(keys)
      requires Places(h, ks, owner, Virtuals(reps)) && CollisionFree(h, Virtuals(reps)) ==> Placed()
      ensures Valid()
    {
      hide Virtuals, CollisionFree, Ascending, NonDecreasing, Places;
      VirtualsCovered(reps, reps.Keys, maxReplicas);
      SubsetCollisionFree(h, Virtuals(reps), Potential(reps.Keys, maxReplicas));
      PotentialShrinks(h, nodeReplicas.Keys, reps.Keys, maxReplicas);
      AscendingIff(ks);
      AscendingIff(keys);
      PlacesNoDuplicates(h, keys, hashMap, Virtuals(nodeReplicas));
    }

    /** A point without an owner, which a ring that was not kept valid may have, leads to the empty name. */
    method Get(key: Key) returns (node: Key)
      requires NonDecreasing(keys)
      modifies this`nodeCounts, this`totalRequests
      ensures key == EMPTY || keys == [] ==> node == EMPTY && unchanged(this)
      ensures key != EMPTY && keys != [] ==>
                && (exists p :: Successor(keys, h(key), p) && node == OwnerOf(hashMap, p))
                && nodeCounts == old(nodeCounts)[node := Count(old(nodeCounts), node) + 1]
                && totalRequests == old(totalRequests) + 1
      ensures old(Valid()) ==> Valid()
      ensures old(Valid()) && key != EMPTY && keys != [] ==>
                node in nodeReplicas && Owns(h, Virtuals(nodeReplicas), h(key), node)
    {
      hide Places, Virtuals, CollisionFree, Ascending, Owns;
      if key == EMPTY {
        return EMPTY;
      }
      if keys == [] {
        return EMPTY;
      }
      var idx := Search(keys, h(key));
      SearchFindsSuccessor(keys, h(key), idx);
      if Valid() {
        SearchFindsOwner(h, keys, hashMap, Virtuals(nodeReplicas), h(key), idx);
        OwnerIsNode(h, nodeReplicas, h(key), hashMap[keys[if idx == |keys| then 0 else idx]]);
      }
      if idx == |keys| {
        idx := 0;
      }
      node := OwnerOf(hashMap, keys[idx]);
      nodeCounts := nodeCounts[node := Count(nodeCounts, node) + 1];
      totalRequests := totalRequests + 1;
    }

    ghost function Fields(): RingFields
      reads this
    {
      RingFields(keys, hashMap, nodeReplicas, nodeCounts)
    }

    /** What a rebalance makes of the fields of any ring, if it visits the counters in the given order. */
    ghost predicate IsRebalanced(f: RingFields, total: nat, order: seq<Key>)
      requires total > 0 && f.reps != map[]
      reads this
    {
      var g := RescaledAll(h, f, order, Average(total, f.reps), minReplicas, maxReplicas);
      && Enumerates(order, f.counts.Keys)
      && Fields() == RingFields(Sort(g.keys), g.owner, g.reps, map n | n in g.counts :: 0)
      && totalRequests == 0
    }

    /** Every node has its rescaled count; the unchanged ones keep a zeroed counter, the changed ones lose theirs. */
    ghost predicate IsRescaled(f: RingFields, total: nat)
      requires total > 0 && f.reps != map[]
      reads this
    {
      && nodeReplicas == Rebalanced(f.reps, f.counts, f.counts.Keys, Average(total, f.reps), minReplicas, maxReplicas)
      && totalRequests == 0
      && (forall n :: n in nodeCounts <==> n in f.counts && Count(nodeReplicas, n) == Count(f.reps, n))
      && (forall n :: n in nodeCounts ==> nodeCounts[n] == 0)
    }

    /** Rescales every node that has been counted; `order` is the order in which `nodeCounts` is visited. */
    method RebalanceNodes() returns (ghost order: seq<Key>)
      requires totalRequests > 0
      modifies this
      ensures old(nodeReplicas) == map[] ==> unchanged(this)
      ensures old(nodeReplicas) != map[] ==> IsRebalanced(old(Fields()), old(totalRequests), order)
      ensures old(Valid()) ==> Valid()
      ensures old(Valid()) && old(nodeReplicas) != map[] ==> IsRescaled(old(Fields()), old(totalRequests))
    {
      hide ValidFields, Average, RescaledOne, RescaledAll, Sort, NoDuplicates, Rebalanced;
      order := [];
      if |nodeReplicas| == 0 {
        return;
      }
      var avg := Average(totalRequests, nodeReplicas);
      ghost var f := Fields();
      var todo := nodeCounts.Keys;
      StartRescaling(h, f, avg, minReplicas, maxReplicas);
      while todo != {}
        invariant todo <= f.counts.Keys && totalRequests == old(totalRequests)
        invariant NoDuplicates(order) && forall n :: n in order <==> n in f.counts && n !in todo
        invariant Fields() == RescaledAll(h, f, order, avg, minReplicas, maxReplicas)
        decreases todo
      {
        var node :| node in todo;
        RescaledNext(h, f, order, node, avg, minReplicas, maxReplicas);
        OneMoreVisited(order, node);
        Rescale(node, avg);
        order := order + [node];
        todo := todo - {node};
      }
      nodeCounts := map n | n in nodeCounts :: 0;
      totalRequests := 0;
      keys := Sort(keys);
      if old(Valid()) {
        RebalancedValid(f, old(totalRequests), order);
      }
    }

    lemma RebalancedValid(f: RingFields, total: nat, order: seq<Key>)
      requires total > 0 && f.reps != map[] && IsRebalanced(f, total, order)
      requires ValidFields(f.keys, f.owner, f.reps) && f.counts.Keys <= f.reps.Keys
      ensures Valid() && IsRescaled(f, total)
    {
      hide RescaledAll, Sort, Rebalanced, Average, Places, Virtuals, Ascending, CollisionFree, Potential, NoDuplicates;
      var avg := Average(total, f.reps);
      var g := RescaledAll(h, f, order, avg, minReplicas, maxReplicas);
      assert Visited(order) == f.counts.Keys;
      RescaledAllProper(h, f, order, avg, minReplicas, maxReplicas);
      RebalancedFacts(f.reps, f.counts, f.counts.Keys, avg, minReplicas, maxReplicas);
      SortedPoints(g.keys);
      PlacesNoDuplicates(h, g.keys, g.owner, Virtuals(g.reps));
      PlacesSorted(h, g.keys, Sort(g.keys), g.owner, Virtuals(g.reps));
    }

    method Rescale(node: Key, avg: real)
      requires avg > 0.0
      modifies this`keys, this`hashMap, this`nodeReplicas, this`nodeCounts
      ensures Fields() == RescaledOne(h, old(Fields()), node, avg, minReplicas, maxReplicas)
    {
      hide Placed, NewReplicas, NonDecreasing, RemoveEach, OwnersOf, OwnersWithout;
      var current := Count(nodeReplicas, node);
      var replicas := NewReplicas(current, Count(nodeCounts, node), avg, minReplicas, maxReplicas);
      if replicas != current {
        var found := RemoveNode(node);
        if !found {
          return;
        }
        AddNode(node, replicas);
      }
    }

    /** The check the balancer runs once a minute. */
    method CheckAndRebalance() returns (rebalanced: bool, ghost order: seq<Key>)
      modifies this
      ensures rebalanced <==>
              && old(totalRequests) >= 10000 && old(nodeReplicas) != map[]
              && Skewed(old(nodeCounts), Average(old(totalRequests), old(nodeReplicas)), threshold)
      ensures !rebalanced ==> unchanged(this)
      ensures rebalanced ==> IsRebalanced(old(Fields()), old(totalRequests), order)
      ensures old(Valid()) ==> Valid()
      ensures old(Valid()) && rebalanced ==> IsRescaled(old(Fields()), old(totalRequests))
    {
      hide ValidFields, IsRebalanced, IsRescaled;
      order := [];
      if totalRequests < 10000 {
        return false, order;
      }
      if |nodeReplicas| == 0 {
        return false, order;
      }
      var avg := Average(totalRequests, nodeReplicas);
      var maxDiff := MaxDeviation(nodeCounts, avg);
      if maxDiff > threshold {
        order := RebalanceNodes();
        return true, order;
      }
      return false, order;
    }
  }

  lemma StartRescaling(h: HashFunc, f: RingFields, avg: real, min: nat, max: nat)
    requires avg > 0.0
    ensures RescaledAll(h, f, [], avg, min, max) == f && NoDuplicates<Key>([])
  {
  }

  lemma OneMoreVisited(order: seq<Key>, node: Key)
    requires NoDuplicates(order) && node !in order
    ensures NoDuplicates(order + [node])
  {
  }

  /**
  The replica counts say everything about a ring: whatever was added, removed and rebalanced in
  whatever order, two valid rings with the same counts have the same points and the same owners.
  */
  lemma CountsDetermineRing(a: Ring, b: Ring)
    requires a.Valid() && b.Valid() && a.h == b.h && a.nodeReplicas == b.nodeReplicas
    ensures a.keys == b.keys && a.hashMap == b.hashMap
  {
    hide Places, Virtuals, Ascending, CollisionFree;
    RingDetermined(a.h, a.keys, a.hashMap, b.keys, b.hashMap, Virtuals(a.nodeReplicas));
  }

  /** Adding a fresh node and removing it again restores the ring, its owner map and the counts exactly. */
  method AddThenRemove(r: Ring, node: Key)
    requires r.Valid() && node != EMPTY && node !in r.nodeReplicas
    requires r.NoCollisions(r.nodeReplicas.Keys + {node})
    modifies r
    ensures r.keys == old(r.keys) && r.hashMap == old(r.hashMap)
    ensures r.nodeReplicas == old(r.nodeReplicas) && r.nodeCounts == old(r.nodeCounts)
  {
    hide Places, Virtuals, CollisionFree, Ascending, Addable, Named, WithNodes, Listed, OwnersOf, Sort;
    OneName(r.nodeReplicas, node, r.defaultReplicas);
    var added := r.Add([node]);
    var removed := r.Remove(node);
    assert r.nodeReplicas == old(r.nodeReplicas);
    RingDetermined(r.h, r.keys, r.hashMap, old(r.keys), old(r.hashMap), Virtuals(r.nodeReplicas));
  }

  lemma OneName(reps: map<Key, nat>, node: Key, r: nat)
    requires node != EMPTY && node !in reps
    ensures Named([node]) == {node} && Addable(reps, [node]) && WithNodes(reps, [node], r) == reps[node := r]
    ensures reps[node := r] - {node} == reps
  {
    assert Named([node]) == {node};
    WithNodesKeys(reps, [node], r);
  }

  /**
  Adding a node twice and removing it once leaves its points on the ring without an owner: every key
  that comes to one of them gets no node at all.
  */
  method AddTwiceThenRemove(r: Ring, node: Key)
    requires r.Valid() && node != EMPTY && node !in r.nodeReplicas
    modifies r
    ensures r.nodeReplicas == old(r.nodeReplicas) && NonDecreasing(r.keys)
    ensures forall i :: 0 <= i < r.defaultReplicas ==>
              Point(r.h, Virtual(node, i)) in r.keys && OwnerOf(r.hashMap, Point(r.h, Virtual(node, i))) == EMPTY
  {
    hide Places, Virtuals, CollisionFree, Ascending, NonDecreasing, Addable, Named, WithNodes, Listed, OwnersOf, Sort,
         RemoveEach, OwnersWithout;
    ghost var ks, d := r.keys, r.defaultReplicas;
    OneName(r.nodeReplicas, node, d);
    OneListed(node, d);
    var added := r.Add([node]);
    OneMoreName(r.nodeReplicas, node, d);
    added := r.Add([node]);
    var removed := r.Remove(node);
    ghost var ps := PointsOf(r.h, Copies(node, d));
    SortSorts(Sort(ks + ps) + ps);
    PointsLeft(ks, ps);
    OwnersGone(r.h, OwnersOf(r.h, OwnersOf(r.h, old(r.hashMap), Copies(node, d)), Copies(node, d)), Copies(node, d));
    forall i | 0 <= i < d
      ensures Point(r.h, Virtual(node, i)) in r.keys && Point(r.h, Virtual(node, i)) !in r.hashMap
    {
      assert ps[i] in ps && Copies(node, d)[i] in Copies(node, d);
    }
  }

  lemma PointsLeft(ks: seq<int>, ps: seq<int>)
    ensures forall p :: p in ps ==> p in RemoveEach(Sort(Sort(ks + ps) + ps), ps)
  {
    hide Sort, RemoveEach;
    var once := Sort(ks + ps);
    var twice := Sort(once + ps);
    var left := RemoveEach(twice, ps);
    SortSorts(ks + ps);
    SortSorts(once + ps);
    RemoveEachFacts(twice, ps);
    assert multiset(left) == multiset(ks) + multiset(ps);
    forall p | p in ps ensures p in left {
      assert p in multiset(ps) && p in multiset(left);
    }
  }

  lemma OneListed(node: Key, r: nat)
    requires node != EMPTY
    ensures Listed([node], r) == Copies(node, r)
  {
    assert [node][..0] == [] && [] + Copies(node, r) == Copies(node, r);
  }

  lemma OneMoreName(reps: map<Key, nat>, node: Key, r: nat)
    requires node != EMPTY && node in reps && reps[node] == r
    ensures WithNodes(reps, [node], r) == reps
  {
    assert Named([node]) == {node};
    WithNodesKeys(reps, [node], r);
  }
}
