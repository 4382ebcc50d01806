/**
When deletions stop travelling. A received Delete is passed on to every peer of the receiver, so what
matters is the graph of who knows whom: a deletion goes on for ever exactly if it is on its way to a
node from which the peers lead into a set of nodes that each know another node of the set.
*/
module DeleteCascade {
  import opened Types
  import opened Propagation

  type Graph = seq<seq<nat>>

  predicate IsGraph(g: Graph) {
    forall n, i :: 0 <= n < |g| && 0 <= i < |g[n]| ==> g[n][i] < |g|
  }

  ghost predicate KnowsOneOf(g: Graph, n: nat, xs: set<nat>) {
    n < |g| && exists i :: 0 <= i < |g[n]| && g[n][i] in xs
  }

  /** Every node of the set knows another one, or itself, in the set. */
  ghost predicate Closed(g: Graph, xs: set<nat>) {
    forall n :: n in xs ==> KnowsOneOf(g, n, xs)
  }

  // ----- Nodes from which messages can travel far -----

  ghost function Nodes(count: nat): (r: set<nat>)
    ensures |r| == count && forall n :: n in r <==> 0 <= n < count
  {
    if count == 0 then {} else Nodes(count - 1) + {count - 1}
  }

  /** The nodes with a path of `d` hops ahead of them. */
  ghost function Long(g: Graph, d: nat): set<nat> {
    if d == 0 then Nodes(|g|) else set n | n in Nodes(|g|) && KnowsOneOf(g, n, Long(g, d - 1))
  }

  lemma InLong(g: Graph, d: nat, n: nat)
    ensures d > 0 ==> (n in Long(g, d) <==> KnowsOneOf(g, n, Long(g, d - 1)))
    ensures d == 0 ==> (n in Long(g, d) <==> n < |g|)
  {
  }

  lemma KnowsMore(g: Graph, n: nat, xs: set<nat>, ys: set<nat>)
    requires KnowsOneOf(g, n, xs) && xs <= ys
    ensures KnowsOneOf(g, n, ys)
  {
  }

  lemma {:induction false} LongShrinks(g: Graph, d: nat)
    ensures Long(g, d + 1) <= Long(g, d)
    decreases d
  {
    hide Long, KnowsOneOf;
    if d > 0 {
      LongShrinks(g, d - 1);
    }
    forall n | n in Long(g, d + 1) ensures n in Long(g, d) {
      InLong(g, d + 1, n);
      InLong(g, d, n);
      if d > 0 {
        KnowsMore(g, n, Long(g, d), Long(g, d - 1));
      } else {
        KnowsInGraph(g, n, Long(g, d));
      }
    }
  }

  lemma KnowsInGraph(g: Graph, n: nat, xs: set<nat>)
    requires KnowsOneOf(g, n, xs)
    ensures n < |g|
  {
  }

  lemma LongStable(g: Graph, d: nat)
    requires Long(g, d + 1) == Long(g, d)
    ensures Long(g, d + 2) == Long(g, d + 1)
  {
    hide Long, KnowsOneOf;
    var xs, ys := Long(g, d + 1), Long(g, d + 2);
    LongShrinks(g, d + 1);
    forall n | n in xs ensures n in ys {
      InLong(g, d + 2, n);
      InLong(g, d + 1, n);
    }
  }

  lemma {:induction false} SmallerSet(a: set<nat>, b: set<nat>)
    requires a <= b
    ensures |a| <= |b| && (a != b ==> |a| < |b|)
    decreases a
  {
    if a == {} {
      if b != {} { assert |b| > 0; }
    } else {
      var x :| x in a;
      SmallerSet(a - {x}, b - {x});
      assert a != b ==> a - {x} != b - {x} by {
        if a - {x} == b - {x} {
          assert a == (a - {x}) + {x} && b == (b - {x}) + {x};
        }
      }
    }
  }

  lemma AllAtZero(g: Graph)
    ensures |Long(g, 0)| == |g|
  {
  }

  /** A round that changes the set removes a node, so it settles within as many rounds as there are nodes. */
  lemma {:induction false} LongSettles(g: Graph, d: nat)
    ensures |Long(g, d)| + d <= |g| || Long(g, d + 1) == Long(g, d)
    decreases d
  {
    hide Long;
    if d == 0 {
      AllAtZero(g);
    } else {
      LongSettles(g, d - 1);
      if Long(g, d) == Long(g, d - 1) {
        LongStable(g, d - 1);
      } else {
        LongShrinks(g, d - 1);
        SmallerSet(Long(g, d), Long(g, d - 1));
      }
    }
  }

  /** The nodes with a path as long as the graph has nodes form a closed set. */
  lemma LongIsClosed(g: Graph)
    ensures Closed(g, Long(g, |g|))
  {
    hide Long, KnowsOneOf;
    var xs := Long(g, |g|);
    LongSettles(g, |g|);
    if Long(g, |g| + 1) == xs {
      forall n | n in xs ensures KnowsOneOf(g, n, xs) {
        InLong(g, |g| + 1, n);
      }
    }
  }

  lemma {:induction false} ClosedIsLong(g: Graph, xs: set<nat>, d: nat)
    requires Closed(g, xs)
    ensures xs <= Long(g, d)
    decreases d
  {
    hide Long, KnowsOneOf;
    if d > 0 { ClosedIsLong(g, xs, d - 1); }
    forall n | n in xs ensures n in Long(g, d) {
      InLong(g, d, n);
      if d > 0 {
        KnowsMore(g, n, xs, Long(g, d - 1));
      } else {
        KnowsInGraph(g, n, xs);
      }
    }
  }

  // ----- What a deletion costs -----

  ghost predicate AllShort(g: Graph, ns: seq<nat>, d: nat) {
    forall i :: 0 <= i < |ns| ==> ns[i] < |g| && ns[i] !in Long(g, d)
  }

  lemma PeersShort(g: Graph, n: nat, d: nat)
    requires IsGraph(g) && n < |g| && n !in Long(g, d)
    ensures d > 0 && AllShort(g, g[n], d - 1)
  {
  }

  /** The number of deliveries a deletion sent to `n` leads to, its own included. */
  ghost function Cost(g: Graph, n: nat, d: nat): nat
    requires IsGraph(g) && n < |g| && n !in Long(g, d)
    decreases d, 0
  {
    PeersShort(g, n, d);
    1 + CostAll(g, g[n], d - 1)
  }

  ghost function CostAll(g: Graph, ns: seq<nat>, d: nat): nat
    requires IsGraph(g) && AllShort(g, ns, d)
    decreases d, 1 + |ns|
  {
    if ns == [] then 0 else Cost(g, ns[0], d) + CostAll(g, ns[1..], d)
  }

  lemma CostUnfold(g: Graph, n: nat, d: nat)
    requires IsGraph(g) && n < |g| && n !in Long(g, d)
    ensures d > 0 && AllShort(g, g[n], d - 1) && Cost(g, n, d) == 1 + CostAll(g, g[n], d - 1)
  {
    PeersShort(g, n, d);
  }

  lemma ShortStays(g: Graph, n: nat, d: nat)
    requires n !in Long(g, d)
    ensures n !in Long(g, d + 1)
  {
    hide Long;
    LongShrinks(g, d);
  }

  /** The cost does not depend on the bound used to define it. */
  lemma {:induction false} CostSame(g: Graph, n: nat, d: nat)
    requires IsGraph(g) && n < |g| && n !in Long(g, d)
    ensures n !in Long(g, d + 1) && Cost(g, n, d + 1) == Cost(g, n, d)
    decreases d, 0
  {
    ShortStays(g, n, d);
    PeersShort(g, n, d);
    PeersShort(g, n, d + 1);
    hide Long;
    CostAllSame(g, g[n], d - 1);
  }

  lemma {:induction false} CostAllSame(g: Graph, ns: seq<nat>, d: nat)
    requires IsGraph(g) && AllShort(g, ns, d)
    ensures AllShort(g, ns, d + 1) && CostAll(g, ns, d + 1) == CostAll(g, ns, d)
    decreases d, 1 + |ns|
  {
    forall i | 0 <= i < |ns| ensures ns[i] !in Long(g, d + 1) {
      ShortStays(g, ns[i], d);
    }
    hide Long;
    if ns != [] {
      CostSame(g, ns[0], d);
      CostAllSame(g, ns[1..], d);
    }
  }

  // ----- The wire -----

  /** The message is about `only`, or any key will do. */
  predicate Counts(m: Msg, only: Option<Key>) {
    only.None? || only.value == m.key
  }

  /** The deletions in flight that count are only on their way to nodes with bounded paths. */
  ghost predicate Bounded(s: Net, d: nat, only: Option<Key>) {
    WellFormed(s) && IsGraph(s.peers) && ShortTargets(s.peers, s.flight, d, only)
  }

  ghost predicate ShortTargets(g: Graph, fl: seq<Msg>, d: nat, only: Option<Key>) {
    forall i :: 0 <= i < |fl| && fl[i].DeleteMsg? && Counts(fl[i], only) ==> fl[i].to < |g| && fl[i].to !in Long(g, d)
  }

  ghost function MsgCost(g: Graph, m: Msg, d: nat, only: Option<Key>): nat
    requires IsGraph(g) && ShortTargets(g, [m], d, only)
  {
    assert [m][0] == m;
    if !Counts(m, only) then 0 else if m.DeleteMsg? then Cost(g, m.to, d) else 1
  }

  /** The deliveries of counting messages still to come if nothing is lost and no client acts. */
  ghost function WireCost(g: Graph, fl: seq<Msg>, d: nat, only: Option<Key>): nat
    requires IsGraph(g) && ShortTargets(g, fl, d, only)
  {
    if fl == [] then 0 else MsgCost(g, fl[0], d, only) + WireCost(g, fl[1..], d, only)
  }

  lemma {:induction false} WireConcat(g: Graph, a: seq<Msg>, b: seq<Msg>, d: nat, only: Option<Key>)
    requires IsGraph(g) && ShortTargets(g, a, d, only) && ShortTargets(g, b, d, only)
    ensures ShortTargets(g, a + b, d, only)
    ensures WireCost(g, a + b, d, only) == WireCost(g, a, d, only) + WireCost(g, b, d, only)
  {
    hide Long, MsgCost;
    if a == [] {
      assert a + b == b;
    } else {
      assert (a + b)[1..] == a[1..] + b;
      WireConcat(g, a[1..], b, d, only);
    }
  }

  lemma WireWithout(g: Graph, fl: seq<Msg>, i: nat, d: nat, only: Option<Key>)
    requires IsGraph(g) && ShortTargets(g, fl, d, only) && i < |fl|
    ensures ShortTargets(g, Without(fl, i), d, only) && ShortTargets(g, [fl[i]], d, only)
    ensures WireCost(g, Without(fl, i), d, only) == WireCost(g, fl, d, only) - MsgCost(g, fl[i], d, only)
  {
    hide Long, MsgCost;
    assert fl == fl[..i] + ([fl[i]] + fl[i + 1..]);
    assert ([fl[i]] + fl[i + 1..])[1..] == fl[i + 1..];
    WireConcat(g, fl[..i], [fl[i]] + fl[i + 1..], d, only);
    WireConcat(g, fl[..i], fl[i + 1..], d, only);
  }

  lemma {:induction false} WireOfDeletes(g: Graph, ns: seq<nat>, key: Key, d: nat, only: Option<Key>)
    requires IsGraph(g) && AllShort(g, ns, d) && (only.None? || only.value == key)
    ensures ShortTargets(g, DeleteMsgs(ns, key), d, only)
    ensures WireCost(g, DeleteMsgs(ns, key), d, only) == CostAll(g, ns, d)
  {
    hide Long, Cost;
    if ns != [] {
      assert DeleteMsgs(ns, key)[1..] == DeleteMsgs(ns[1..], key);
      WireOfDeletes(g, ns[1..], key, d, only);
    }
  }

  /** Every delivery of a counting message brings the count of deliveries to come down by exactly one. */
  lemma DeliveryCostsOne(s: Net, i: nat, d: nat, only: Option<Key>)
    requires Bounded(s, d, only) && i < |s.flight| && Counts(s.flight[i], only)
    ensures Bounded(Step(s, Deliver(i)), d, only)
    ensures WireCost(s.peers, Step(s, Deliver(i)).flight, d, only) == WireCost(s.peers, s.flight, d, only) - 1
  {
    hide Long, Cost, CostAll, WireCost;
    var g, fl, m := s.peers, Without(s.flight, i), s.flight[i];
    WireWithout(g, s.flight, i, d, only);
    assert fl + [] == fl;
    if m.DeleteMsg? {
      CostUnfold(g, m.to, d);
      PeersShort(g, m.to, d);
      CostAllSame(g, g[m.to], d - 1);
      WireOfDeletes(g, g[m.to], m.key, d, only);
      WireConcat(g, fl, DeleteMsgs(g[m.to], m.key), d, only);
    }
  }

  /** With bounded targets, a loss-free run ends after exactly as many deliveries as the wire costs. */
  lemma {:induction false} DeliveriesCounted(s: Net, es: seq<Event>, d: nat)
    requires Bounded(s, d, None) && ValidRun(s, es) && Deliveries(es)
    ensures Bounded(After(s, es), d, None)
    ensures |es| + WireCost(s.peers, After(s, es).flight, d, None) == WireCost(s.peers, s.flight, d, None)
    decreases |es|
  {
    hide Step, Long, WireCost;
    if es != [] {
      DeliveryCostsOne(s, es[0].i, d, None);
      DeliveriesCounted(Step(s, es[0]), es[1..], d);
    }
  }

  // ----- Exactly when deletions go on for ever -----

  ghost predicate DeletesInto(s: Net, xs: set<nat>) {
    exists i :: 0 <= i < |s.flight| && s.flight[i].DeleteMsg? && s.flight[i].to in xs
  }

  lemma DeliveryFlight(s: Net, i: nat)
    requires WellFormed(s) && i < |s.flight| && s.flight[i].DeleteMsg?
    ensures Step(s, Deliver(i)).flight == Without(s.flight, i) + DeleteMsgs(s.peers[s.flight[i].to], s.flight[i].key)
  {
  }

  lemma DeletesGoInto(s: Net, fl: seq<Msg>, ns: seq<nat>, key: Key, xs: set<nat>)
    requires s.flight == fl + DeleteMsgs(ns, key)
    requires exists j :: 0 <= j < |ns| && ns[j] in xs
    ensures DeletesInto(s, xs)
  {
    var j :| 0 <= j < |ns| && ns[j] in xs;
    assert s.flight[|fl| + j] == DeleteMsg(ns[j], key);
  }

  lemma DeliveryStaysInside(s: Net, xs: set<nat>) returns (i: nat)
    requires WellFormed(s) && Closed(s.peers, xs) && DeletesInto(s, xs)
    ensures i < |s.flight| && DeletesInto(Step(s, Deliver(i)), xs)
  {
    i :| 0 <= i < |s.flight| && s.flight[i].DeleteMsg? && s.flight[i].to in xs;
    var n := s.flight[i].to;
    DeliveryFlight(s, i);
    hide Step;
    assert KnowsOneOf(s.peers, n, xs);
    DeletesGoInto(Step(s, Deliver(i)), Without(s.flight, i), s.peers[n], s.flight[i].key, xs);
  }

  lemma {:induction false} EndlessRun(s: Net, xs: set<nat>, len: nat) returns (es: seq<Event>)
    requires WellFormed(s) && Closed(s.peers, xs) && DeletesInto(s, xs)
    ensures |es| == len && Deliveries(es) && ValidRun(s, es)
    decreases len
  {
    hide Step, Closed, DeletesInto;
    if len == 0 {
      es := [];
    } else {
      var i := DeliveryStaysInside(s, xs);
      var rest := EndlessRun(Step(s, Deliver(i)), xs, len - 1);
      es := [Deliver(i)] + rest;
      assert es[1..] == rest;
    }
  }

  /** There is a loss-free run of that many deliveries. */
  ghost predicate CanDeliver(s: Net, len: nat)
    requires WellFormed(s)
  {
    exists es :: |es| == len && Deliveries(es) && ValidRun(s, es)
  }

  ghost predicate Endless(s: Net)
    requires WellFormed(s)
  {
    forall len: nat :: CanDeliver(s, len)
  }

  lemma BoundedEnds(s: Net, d: nat)
    requires Bounded(s, d, None)
    ensures !CanDeliver(s, WireCost(s.peers, s.flight, d, None) + 1)
  {
    hide Step, Long, WireCost;
    if CanDeliver(s, WireCost(s.peers, s.flight, d, None) + 1) {
      var es :| |es| == WireCost(s.peers, s.flight, d, None) + 1 && Deliveries(es) && ValidRun(s, es);
      DeliveriesCounted(s, es, d);
    }
  }

  /**
  Deletions in flight travel for ever if and only if one of them is on its way into a set of nodes
  that each know a node of the set. Otherwise every loss-free run stops after a number of deliveries
  fixed by the wire and the graph.
  */
  lemma EndlessExactlyInClosedSets(s: Net)
    requires WellFormed(s)
    ensures Endless(s) <==> exists xs :: Closed(s.peers, xs) && DeletesInto(s, xs)
    ensures Endless(s) <==> !Bounded(s, |s.peers|, None)
  {
    var g, d := s.peers, |s.peers|;
    LongIsClosed(g);
    if Bounded(s, d, None) {
      forall xs | Closed(g, xs) ensures !DeletesInto(s, xs) {
        ClosedIsLong(g, xs, d);
      }
      BoundedEnds(s, d);
    } else {
      assert DeletesInto(s, Long(g, d));
      forall len: nat ensures CanDeliver(s, len) {
        var es := EndlessRun(s, Long(g, d), len);
      }
    }
  }

  /** A client's deletion at node n of a quiet network never comes to rest exactly if a peer of n is in such a set. */
  lemma ClientDeleteEndlessIff(s: Net, n: nat, key: Key)
    requires WellFormed(s) && s.flight == [] && n < |s.peers|
    ensures Endless(Step(s, ClientDelete(n, key))) <==>
            key != EMPTY && exists xs :: Closed(s.peers, xs) && KnowsOneOf(s.peers, n, xs)
  {
    var t := Step(s, ClientDelete(n, key));
    assert t.flight == if key == EMPTY then [] else [] + DeleteMsgs(s.peers[n], key);
    hide Step, Closed, Endless, Bounded;
    EndlessExactlyInClosedSets(t);
    forall xs ensures DeletesInto(t, xs) <==> key != EMPTY && KnowsOneOf(s.peers, n, xs) {
      if key != EMPTY && KnowsOneOf(s.peers, n, xs) {
        DeletesGoInto(t, [], s.peers[n], key, xs);
      }
    }
  }

  // ----- How fast they multiply -----

  ghost predicate OnlyDeletes(s: Net) {
    forall i :: 0 <= i < |s.flight| ==> s.flight[i].DeleteMsg?
  }

  ghost predicate EveryoneHasPeers(s: Net, q: nat) {
    forall n :: 0 <= n < |s.peers| ==> |s.peers[n]| >= q
  }

  /** Delivering a deletion replaces it by one message per peer of the receiver. */
  lemma DeleteStep(s: Net, i: nat)
    requires WellFormed(s) && OnlyDeletes(s) && i < |s.flight|
    ensures OnlyDeletes(Step(s, Deliver(i)))
    ensures |Step(s, Deliver(i)).flight| == |s.flight| - 1 + |s.peers[s.flight[i].to]|
  {
    WithoutAt(s.flight, i);
  }

  /** Where every node has at least q peers, each delivery adds at least q - 1 messages. */
  lemma {:induction false} DeletesMultiply(s: Net, es: seq<Event>, q: nat)
    requires WellFormed(s) && OnlyDeletes(s) && ValidRun(s, es) && EveryoneHasPeers(s, q) && q > 0
    requires Deliveries(es)
    ensures |After(s, es).flight| >= |s.flight| + |es| * (q - 1)
    decreases |es|
  {
    hide Step;
    if es != [] {
      DeleteStep(s, es[0].i);
      DeletesMultiply(Step(s, es[0]), es[1..], q);
      assert |es| * (q - 1) == (|es| - 1) * (q - 1) + (q - 1);
    }
  }
}
