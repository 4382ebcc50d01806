/** How the number of virtual nodes follows the load. */
module Rebalancing {
  import opened Types
  import opened RingSpec
  import opened PointList
  import opened RingNodes

  /** Mean number of requests per node; the source computes it in floating point. */
  function Average(total: nat, reps: map<Key, nat>): (a: real)
    requires reps != map[]
    ensures total > 0 ==> a > 0.0
  {
    AtLeastOne(reps);
    total as real / |reps| as real
  }

  lemma AtLeastOne(reps: map<Key, nat>)
    requires reps != map[]
    ensures |reps| > 0
  {
  }

  function NewReplicas(current: nat, count: nat, avg: real, min: nat, max: nat): nat
    requires avg > 0.0
  {
    var ratio := count as real / avg;
    var scaled := if ratio > 1.0 then (current as real / ratio).Floor
                  else (current as real * (2.0 - ratio)).Floor;
    var raised := if scaled < min then min else scaled;
    if raised > max then max else raised
  }

  lemma ScaleDown(c: real, ratio: real)
    requires c >= 0.0 && ratio > 1.0
    ensures 0.0 <= c / ratio <= c
  {
    var q := c / ratio;
    assert q * ratio == c;
    assert q >= 0.0;
    assert c - q == q * (ratio - 1.0);
  }

  lemma ScaleUp(c: real, ratio: real)
    requires c >= 0.0 && ratio <= 1.0
    ensures c * (2.0 - ratio) >= c
  {
    assert c * (2.0 - ratio) == c + c * (1.0 - ratio);
  }

  /** A node loaded above the average never gains virtual nodes, any other never loses one. */
  lemma NewReplicasBounds(current: nat, count: nat, avg: real, min: nat, max: nat)
    requires avg > 0.0 && min <= current <= max
    ensures var r := NewReplicas(current, count, avg, min, max);
            min <= r <= max && (count as real > avg ==> r <= current) && (count as real <= avg ==> r >= current)
  {
    var ratio := count as real / avg;
    RatioAboveOne(count as real, avg);
    if ratio > 1.0 {
      FloorDown(current, ratio);
    } else {
      FloorUp(current, ratio);
    }
  }

  lemma FloorDown(current: nat, ratio: real)
    requires ratio > 1.0
    ensures 0 <= (current as real / ratio).Floor <= current
  {
    var x := current as real / ratio;
    assert 0.0 <= x <= current as real by { ScaleDown(current as real, ratio); }
    FloorBetween(x, current);
  }

  lemma FloorUp(current: nat, ratio: real)
    requires ratio <= 1.0
    ensures (current as real * (2.0 - ratio)).Floor >= current
  {
    var x := current as real * (2.0 - ratio);
    assert x >= current as real by { ScaleUp(current as real, ratio); }
    FloorAbove(x, current);
  }

  lemma RatioAboveOne(c: real, avg: real)
    requires avg > 0.0
    ensures c / avg > 1.0 <==> c > avg
  {
    var r := c / avg;
    assert r * avg == c;
    assert c - avg == (r - 1.0) * avg;
  }

  lemma FloorBetween(x: real, n: nat)
    requires 0.0 <= x <= n as real
    ensures 0 <= x.Floor <= n
  {
  }

  lemma FloorAbove(x: real, n: nat)
    requires x >= n as real
    ensures x.Floor >= n
  {
  }

  function Clamp(q: nat, min: nat, max: nat): nat {
    if max < min || max < q then max else if q < min then min else q
  }

  lemma FloorIs(x: real, q: int)
    requires q as real <= x < (q + 1) as real
    ensures x.Floor == q
  {
  }

  /** Scaling a product inequality by a positive factor. */
  lemma Quotient(x: real, c: real, q: int)
    requires c > 0.0
    ensures q as real <= x / c < (q + 1) as real <==> q as real * c <= x < (q + 1) as real * c
  {
    var y := x / c;
    assert y * c == x;
    MulOrder(q as real, y, c);
    MulOrder((q + 1) as real, y, c);
  }

  lemma MulOrder(a: real, b: real, c: real)
    requires c > 0.0
    ensures a <= b <==> a * c <= b * c
  {
    if a <= b {
      assert (b - a) * c >= 0.0;
    } else {
      assert (a - b) * c > 0.0;
    }
  }

  lemma OverloadedFloor(current: nat, count: nat, avg: real, min: nat, max: nat, q: nat)
    requires avg > 0.0 && count as real / avg > 1.0
    requires (current as real / (count as real / avg)).Floor == q
    ensures NewReplicas(current, count, avg, min, max) == Clamp(q, min, max)
  {
  }

  lemma DivideByRatio(x: real, c: real, avg: real)
    requires avg > 0.0 && c > 0.0
    ensures c / avg > 0.0 && x / (c / avg) == x * avg / c
  {
    var ratio := c / avg;
    assert ratio * avg == c;
    assert ratio > 0.0;
    SameQuotient(x, ratio, avg, c);
  }

  lemma SameQuotient(x: real, ratio: real, avg: real, c: real)
    requires ratio > 0.0 && avg > 0.0 && c > 0.0 && ratio * avg == c
    ensures x / ratio == x * avg / c
  {
    var y := x / ratio;
    assert y * ratio == x;
    assert y * c == y * ratio * avg;
    assert y == x * avg / c;
  }

  /** The load above the average: what is left is the share of the count that the average makes of the load. */
  lemma OverloadedExact(current: nat, count: nat, avg: real, min: nat, max: nat, q: nat)
    requires avg > 0.0 && count as real > avg
    requires q as real * count as real <= current as real * avg < (q + 1) as real * count as real
    ensures NewReplicas(current, count, avg, min, max) == Clamp(q, min, max)
  {
    hide NewReplicas, Clamp;
    var c := count as real;
    RatioAboveOne(c, avg);
    DivideByRatio(current as real, c, avg);
    FloorOfShare(current as real / (c / avg), current as real * avg, c, q);
    OverloadedFloor(current, count, avg, min, max, q);
  }

  lemma UnderloadedFloor(current: nat, count: nat, avg: real, min: nat, max: nat, q: nat)
    requires avg > 0.0 && count as real / avg <= 1.0
    requires (current as real * (2.0 - count as real / avg)).Floor == q
    ensures NewReplicas(current, count, avg, min, max) == Clamp(q, min, max)
  {
  }

  /** The quotient of two products that differ by the factor `avg`. */
  lemma FloorOfShare(x: real, p: real, avg: real, q: nat)
    requires avg > 0.0 && x == p / avg && q as real * avg <= p < (q + 1) as real * avg
    ensures x.Floor == q
  {
    Quotient(p, avg, q);
    FloorIs(x, q);
  }

  /** Any other load: the count grows by the share that the load falls short of the average. */
  lemma UnderloadedExact(current: nat, count: nat, avg: real, min: nat, max: nat, q: nat)
    requires avg > 0.0 && count as real <= avg
    requires q as real * avg <= current as real * (2.0 * avg - count as real) < (q + 1) as real * avg
    ensures NewReplicas(current, count, avg, min, max) == Clamp(q, min, max)
  {
    hide NewReplicas, Clamp;
    var c := count as real;
    RatioAboveOne(c, avg);
    RatioTimes(c, avg);
    Shortfall(current as real, c, avg, c / avg);
    FloorOfShare(current as real * (2.0 - c / avg), current as real * (2.0 * avg - c), avg, q);
    UnderloadedFloor(current, count, avg, min, max, q);
  }

  lemma RatioTimes(c: real, avg: real)
    requires avg > 0.0
    ensures c / avg * avg == c
  {
  }

  lemma Shortfall(x: real, c: real, avg: real, ratio: real)
    requires avg > 0.0 && ratio * avg == c
    ensures x * (2.0 - ratio) == x * (2.0 * avg - c) / avg
  {
    var y := x * (2.0 - ratio);
    assert (2.0 - ratio) * avg == 2.0 * avg - c;
    assert y * avg == x * ((2.0 - ratio) * avg);
  }

  /** There is such a number in either case. */
  lemma ShareExists(x: real, c: real) returns (q: nat)
    requires x >= 0.0 && c > 0.0
    ensures q as real * c <= x < (q + 1) as real * c
  {
    var y := x / c;
    assert y * c == x;
    assert y >= 0.0;
    q := y.Floor;
    Quotient(x, c, q);
  }

  lemma OverloadedProgress(current: nat, count: nat, avg: real, min: nat, max: nat)
    requires avg > 0.0 && min <= current <= max && count as real > avg
    ensures NewReplicas(current, count, avg, min, max) < current <==> current > min
  {
    hide NewReplicas;
    NewReplicasBounds(current, count, avg, min, max);
    var c := count as real;
    var x := current as real * avg;
    NotNegative(current as real, avg);
    var q := ShareExists(x, c);
    OverloadedExact(current, count, avg, min, max, q);
    if current > min { LessThanAll(current, c, avg, q); }
  }

  lemma UnderloadedProgress(current: nat, count: nat, avg: real, min: nat, max: nat)
    requires avg > 0.0 && min <= current <= max && count as real <= avg
    ensures NewReplicas(current, count, avg, min, max) > current <==>
            current < max && current as real * (avg - count as real) >= avg
  {
    hide NewReplicas;
    NewReplicasBounds(current, count, avg, min, max);
    var c := count as real;
    NotNegative(current as real, 2.0 * avg - c);
    NotNegative(current as real, avg - c);
    Distribute(current as real, avg, c);
    var q := ShareExists(current as real * (2.0 * avg - c), avg);
    UnderloadedExact(current, count, avg, min, max, q);
    WholeShare(current, avg, current as real * (avg - c), q);
  }

  lemma NotNegative(x: real, y: real)
    requires x >= 0.0 && y >= 0.0
    ensures x * y >= 0.0
  {
  }

  lemma Distribute(x: real, avg: real, c: real)
    ensures x * (2.0 * avg - c) == x * avg + x * (avg - c)
  {
  }

  /**
  Which nodes a rebalance changes: an overloaded node loses virtual nodes whenever it has more than the
  least number, and any other gains exactly if its shortfall is worth a whole one and it has not the
  greatest number.
  */
  lemma ProgressExact(current: nat, count: nat, avg: real, min: nat, max: nat)
    requires avg > 0.0 && min <= current <= max
    ensures var r, c := NewReplicas(current, count, avg, min, max), count as real;
            && (c > avg ==> (r < current <==> current > min))
            && (c <= avg ==> (r > current <==> current < max && current as real * (avg - c) >= avg))
  {
    hide NewReplicas;
    if count as real > avg {
      OverloadedProgress(current, count, avg, min, max);
    } else {
      UnderloadedProgress(current, count, avg, min, max);
    }
  }

  lemma LessThanAll(current: nat, c: real, avg: real, q: nat)
    requires c > avg > 0.0 && current > 0 && q as real * c <= current as real * avg
    ensures q < current
  {
    assert current as real * avg < current as real * c by { MulOrder(c, avg, current as real); }
    if q >= current { MulOrder(current as real, q as real, c); }
  }

  lemma WholeShare(current: nat, avg: real, more: real, q: nat)
    requires avg > 0.0 && more >= 0.0
    requires q as real * avg <= current as real * avg + more < (q + 1) as real * avg
    ensures q > current <==> more >= avg
  {
    assert (current + 1) as real * avg == current as real * avg + avg;
    if q > current {
      MulOrder((current + 1) as real, q as real, avg);
    } else {
      MulOrder((q + 1) as real, (current + 1) as real, avg);
    }
  }

  /** The average is the total shared out evenly. */
  lemma AverageExact(total: nat, reps: map<Key, nat>)
    requires reps != map[]
    ensures Average(total, reps) * |reps| as real == total as real
  {
    AtLeastOne(reps);
  }

  predicate Off(c: real, avg: real, threshold: real) {
    c > avg + threshold * avg || c < avg - threshold * avg
  }

  /** A load is skewed if some counter is off the average, either way, by more than the threshold share of it. */
  lemma SkewedExact(counts: map<Key, nat>, avg: real, threshold: real)
    requires avg > 0.0
    ensures Skewed(counts, avg, threshold) <==>
            || threshold < 0.0
            || exists n :: n in counts && Off(counts[n] as real, avg, threshold)
  {
    forall n | n in counts && threshold >= 0.0
      ensures Abs(counts[n] as real - avg) / avg > threshold <==>
              Off(counts[n] as real, avg, threshold)
    {
      DeviationExact(counts[n] as real, avg, threshold);
    }
  }

  lemma DeviationExact(c: real, avg: real, threshold: real)
    requires avg > 0.0 && threshold >= 0.0
    ensures Abs(c - avg) / avg > threshold <==> Off(c, avg, threshold)
  {
    var d := Abs(c - avg) / avg;
    assert d * avg == Abs(c - avg);
    assert threshold * avg >= 0.0;
    MulOrder(d, threshold, avg);
  }

  // ----- What a rebalance does to any ring -----

  datatype RingFields =
    RingFields(keys: seq<int>, owner: map<int, Key>, reps: map<Key, nat>, counts: map<Key, nat>)

  /** One node is rescaled; a name without virtual nodes is left as it is. */
  function RescaledOne(h: HashFunc, f: RingFields, node: Key, avg: real, min: nat, max: nat): RingFields
    requires avg > 0.0
  {
    var current := Count(f.reps, node);
    var replicas := NewReplicas(current, Count(f.counts, node), avg, min, max);
    if replicas == current || current == 0 then f
    else
      var gone, more := Copies(node, current), Copies(node, replicas);
      RingFields(RemoveEach(f.keys, PointsOf(h, gone)) + PointsOf(h, more),
                 OwnersOf(h, OwnersWithout(h, f.owner, gone), more),
                 f.reps[node := replicas], f.counts - {node})
  }

  function RescaledAll(h: HashFunc, f: RingFields, order: seq<Key>, avg: real, min: nat, max: nat): RingFields
    requires avg > 0.0
  {
    if order == [] then f
    else RescaledOne(h, RescaledAll(h, f, order[..|order| - 1], avg, min, max), order[|order| - 1], avg, min, max)
  }

  lemma RescaledNext(h: HashFunc, f: RingFields, order: seq<Key>, node: Key, avg: real, min: nat, max: nat)
    requires avg > 0.0
    ensures RescaledAll(h, f, order + [node], avg, min, max) ==
            RescaledOne(h, RescaledAll(h, f, order, avg, min, max), node, avg, min, max)
  {
    assert (order + [node])[..|order|] == order;
  }

  /** The replica counts once the nodes in `done` have been rescaled. */
  ghost function Rebalanced(reps: map<Key, nat>, counts: map<Key, nat>, done: set<Key>, avg: real, min: nat, max: nat)
    : map<Key, nat>
    requires done <= counts.Keys && avg > 0.0
  {
    map n | n in reps :: if n in done then NewReplicas(reps[n], counts[n], avg, min, max) else reps[n]
  }

  lemma RebalancedFacts(reps: map<Key, nat>, counts: map<Key, nat>, done: set<Key>, avg: real, min: nat, max: nat)
    requires done <= counts.Keys && avg > 0.0 && forall n :: n in reps ==> min <= reps[n] <= max
    ensures var r := Rebalanced(reps, counts, done, avg, min, max);
            && r.Keys == reps.Keys
            && (forall n :: n in r ==> min <= r[n] <= max)
            && (forall n :: n in r && n !in done ==> r[n] == reps[n])
            && (done == {} ==> r == reps)
  {
    hide NewReplicas;
    forall n | n in reps && n in done
      ensures min <= NewReplicas(reps[n], counts[n], avg, min, max) <= max {
      NewReplicasBounds(reps[n], counts[n], avg, min, max);
    }
  }

  lemma RebalancedNext(reps: map<Key, nat>, counts: map<Key, nat>, done: set<Key>, n: Key,
                       avg: real, min: nat, max: nat)
    requires done + {n} <= counts.Keys && avg > 0.0 && n in reps
    ensures Rebalanced(reps, counts, done + {n}, avg, min, max) ==
            Rebalanced(reps, counts, done, avg, min, max)[n := NewReplicas(reps[n], counts[n], avg, min, max)]
  {
    hide NewReplicas;
  }

  // ----- On a proper ring -----

  /** A proper ring whose virtual nodes, present and future, do not collide, and with counters for its nodes only. */
  ghost predicate Proper(h: HashFunc, f: RingFields, min: nat, max: nat) {
    && 1 <= min <= max && CollisionFree(h, Potential(f.reps.Keys, max))
    && (forall n :: n in f.reps ==> min <= f.reps[n] <= max)
    && Places(h, f.keys, f.owner, Virtuals(f.reps))
    && f.counts.Keys <= f.reps.Keys
  }

  lemma RescaledOneProper(h: HashFunc, f: RingFields, node: Key, avg: real, min: nat, max: nat)
    requires Proper(h, f, min, max) && node in f.counts && avg > 0.0
    ensures var g := RescaledOne(h, f, node, avg, min, max);
            && Proper(h, g, min, max)
            && g.reps == f.reps[node := NewReplicas(f.reps[node], f.counts[node], avg, min, max)]
            && g.counts == if g.reps[node] == f.reps[node] then f.counts else f.counts - {node}
  {
    hide Places, Virtuals, CollisionFree, NewReplicas, Potential, OwnersOf, OwnersWithout, RemoveEach;
    var current := f.reps[node];
    var replicas := NewReplicas(current, f.counts[node], avg, min, max);
    NewReplicasBounds(current, f.counts[node], avg, min, max);
    if replicas != current {
      RescaledPlaces(h, f, node, replicas, min, max);
      assert f.reps[node := replicas].Keys == f.reps.Keys;
    } else {
      assert f.reps[node := replicas] == f.reps;
    }
  }

  lemma RescaledPlaces(h: HashFunc, f: RingFields, node: Key, replicas: nat, min: nat, max: nat)
    requires Proper(h, f, min, max) && node in f.reps && replicas <= max
    ensures var gone, more := Copies(node, f.reps[node]), Copies(node, replicas);
            Places(h, RemoveEach(f.keys, PointsOf(h, gone)) + PointsOf(h, more),
                   OwnersOf(h, OwnersWithout(h, f.owner, gone), more), Virtuals(f.reps[node := replicas]))
  {
    hide Places, Virtuals, CollisionFree, Potential, OwnersOf, OwnersWithout, RemoveEach;
    var gone, left := Copies(node, f.reps[node]), f.reps - {node};
    PotentialCovers(f.reps, node, 0, f.reps.Keys, max);
    PotentialCovers(left, node, replicas, f.reps.Keys, max);
    SubsetCollisionFree(h, Virtuals(f.reps), Potential(f.reps.Keys, max));
    SubsetCollisionFree(h, Virtuals(left) + Range(node, 0, replicas), Potential(f.reps.Keys, max));
    NodeTaken(h, f.keys, f.owner, f.reps, node);
    NodePlaced(h, RemoveEach(f.keys, PointsOf(h, gone)), OwnersWithout(h, f.owner, gone), left, node, replicas);
    assert left[node := replicas] == f.reps[node := replicas];
  }

  function Visited(order: seq<Key>): set<Key> {
    set n | n in order
  }

  /** Whatever the order, every counted node is rescaled once, from what it had before the pass. */
  lemma {:induction false} RescaledAllProper(h: HashFunc, f: RingFields, order: seq<Key>, avg: real, min: nat, max: nat)
    requires Proper(h, f, min, max) && NoDuplicates(order) && Visited(order) <= f.counts.Keys && avg > 0.0
    ensures var g := RescaledAll(h, f, order, avg, min, max);
            && Proper(h, g, min, max)
            && g.reps == Rebalanced(f.reps, f.counts, Visited(order), avg, min, max)
            && (forall n :: n in g.counts <==> n in f.counts && (n !in order || g.reps[n] == f.reps[n]))
            && (forall n :: n in g.counts ==> g.counts[n] == f.counts[n])
  {
    hide Proper, NewReplicas, RescaledOne, Rebalanced;
    ProperBounds(h, f, min, max);
    if order == [] {
      RebalancedFacts(f.reps, f.counts, {}, avg, min, max);
      assert Visited(order) == {};
    } else {
      var k := |order| - 1;
      var init, node := order[..k], order[k];
      assert order == init + [node] && Visited(order) == Visited(init) + {node};
      RescaledAllProper(h, f, init, avg, min, max);
      var g := RescaledAll(h, f, init, avg, min, max);
      RebalancedFacts(f.reps, f.counts, Visited(init), avg, min, max);
      RebalancedNext(f.reps, f.counts, Visited(init), node, avg, min, max);
      RescaledOneProper(h, g, node, avg, min, max);
    }
  }

  lemma ProperBounds(h: HashFunc, f: RingFields, min: nat, max: nat)
    requires Proper(h, f, min, max)
    ensures f.counts.Keys <= f.reps.Keys && forall n :: n in f.reps ==> min <= f.reps[n] <= max
  {
  }

  /** A rebalance moves a hash only away from a node above the average load or to one not above it. */
  lemma RebalanceMoves(h: HashFunc, reps: map<Key, nat>, counts: map<Key, nat>, avg: real, min: nat, max: nat,
                       x: uint32, a: Key, b: Key)
    requires avg > 0.0 && forall n :: n in reps ==> min <= reps[n] <= max
    requires CollisionFree(h, Potential(reps.Keys, max))
    requires Owns(h, Virtuals(reps), x, a)
    requires Owns(h, Virtuals(Rebalanced(reps, counts, counts.Keys, avg, min, max)), x, b)
    requires a != b
    ensures var after := Rebalanced(reps, counts, counts.Keys, avg, min, max);
            || (a in counts && counts[a] as real > avg && Count(after, a) < Count(reps, a))
            || (b in counts && counts[b] as real <= avg && Count(reps, b) < Count(after, b))
  {
    hide NewReplicas, Virtuals, Potential, CollisionFree, Owns;
    var after := Rebalanced(reps, counts, counts.Keys, avg, min, max);
    RebalancedFacts(reps, counts, counts.Keys, avg, min, max);
    OwnerIsNode(h, reps, x, a);
    OwnerIsNode(h, after, x, b);
    PotentialCovers(reps, a, 0, reps.Keys, max);
    PotentialCovers(after, a, 0, reps.Keys, max);
    SubsetCollisionFree(h, Virtuals(reps) + Virtuals(after), Potential(reps.Keys, max));
    MovesOnlyToGainersOrFromLosers(h, reps, after, x, a, b);
    if a in counts { NewReplicasBounds(reps[a], counts[a], avg, min, max); }
    if b in counts { NewReplicasBounds(reps[b], counts[b], avg, min, max); }
  }

  function Abs(x: real): real {
    if x < 0.0 then -x else x
  }

  ghost predicate Skewed(counts: map<Key, nat>, avg: real, threshold: real)
    requires avg > 0.0
  {
    0.0 > threshold || exists n :: n in counts && Abs(counts[n] as real - avg) / avg > threshold
  }

  /** The largest relative deviation from the mean, or zero. */
  method MaxDeviation(counts: map<Key, nat>, avg: real) returns (m: real)
    requires avg > 0.0
    ensures m >= 0.0 && forall n :: n in counts ==> Abs(counts[n] as real - avg) / avg <= m
    ensures m == 0.0 || exists n :: n in counts && Abs(counts[n] as real - avg) / avg == m
  {
    m := 0.0;
    var todo := counts.Keys;
    while todo != {}
      invariant todo <= counts.Keys
      invariant m >= 0.0 && forall n :: n in counts && n !in todo ==> Abs(counts[n] as real - avg) / avg <= m
      invariant m == 0.0 || exists n :: n in counts && Abs(counts[n] as real - avg) / avg == m
      decreases todo
    {
      var n :| n in todo;
      var diff := Abs(counts[n] as real - avg);
      if diff / avg > m {
        m := diff / avg;
      }
      todo := todo - {n};
    }
  }
}
