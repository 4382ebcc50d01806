/**
What the nodes hold for a key once its messages have all arrived. Each node can end up with any value
on its way to it, with nothing if a deletion can reach it, and with what it has if nothing does; and
since the orders of arrival at different nodes are independent, every combination of these happens.
From this follows exactly when a write is sure to reach a node and when all nodes are sure to agree.
*/
module Agreement {
  import opened Types
  import opened Propagation
  import opened DeleteCascade

  ghost function Values(s: Net, key: Key): (w: seq<Option<Value>>)
    ensures |w| == |s.stores| && forall p :: 0 <= p < |w| ==> w[p] == ValueAt(s, p, key)
  {
    seq(|s.stores|, p requires 0 <= p < |s.stores| => ValueAt(s, p, key))
  }

  ghost predicate Settled(s: Net, key: Key) {
    forall x :: x in s.flight ==> x.key != key
  }

  /** The run leaves the key alone and ends with no message about it. */
  ghost predicate QuietRun(s: Net, es: seq<Event>, key: Key)
    requires WellFormed(s)
  {
    ValidRun(s, es) && Undisturbed(s, es, key) && Settled(After(s, es), key)
  }

  // ----- What can happen to one node -----

  ghost predicate Offered(s: Net, p: nat, key: Key, v: Value) {
    Acceptable(key, v) && SetMsg(p, key, v) in s.flight
  }

  ghost predicate AnyOffer(s: Net, p: nat, key: Key) {
    exists v :: Offered(s, p, key, v)
  }

  ghost predicate HasTargets(s: Net, key: Key, xs: set<nat>) {
    forall q: nat :: DeleteMsg(q, key) in s.flight ==> q in xs
  }

  ghost predicate PeersInside(g: Graph, xs: set<nat>) {
    forall q, j :: q in xs && q < |g| && 0 <= j < |g[q]| ==> g[q][j] in xs
  }

  /** Passed on from peer to peer, a deletion in flight comes to node p: p is in whatever they cannot leave. */
  ghost predicate Doomed(s: Net, p: nat, key: Key) {
    forall xs :: HasTargets(s, key, xs) && PeersInside(s.peers, xs) ==> p in xs
  }

  /** Node p may be left with `v`. */
  ghost predicate Possible(s: Net, p: nat, key: Key, v: Option<Value>)
    requires p < |s.stores|
  {
    || (v.Some? && Offered(s, p, key, v.value))
    || (v.None? && Doomed(s, p, key))
    || (!AnyOffer(s, p, key) && !Doomed(s, p, key) && v == ValueAt(s, p, key))
  }

  /** Each node on the way knows the next. */
  ghost predicate Leads(g: Graph, way: seq<nat>) {
    way != [] && forall i :: 0 <= i < |way| - 1 ==> way[i] < |g| && way[i + 1] in g[way[i]]
  }

  /** From the target of a deletion in flight the way leads to p. */
  ghost predicate WayTo(s: Net, key: Key, p: nat, way: seq<nat>) {
    Leads(s.peers, way) && DeleteMsg(way[0], key) in s.flight && way[|way| - 1] == p
  }

  ghost predicate Reached(s: Net, key: Key, p: nat) {
    exists way :: WayTo(s, key, p, way)
  }

  lemma {:induction false} WayStaysInside(s: Net, key: Key, p: nat, way: seq<nat>, xs: set<nat>)
    requires WayTo(s, key, p, way) && HasTargets(s, key, xs) && PeersInside(s.peers, xs)
    ensures p in xs
    decreases |way|
  {
    if |way| > 1 {
      var k := |way| - 2;
      WayStaysInside(s, key, way[k], way[..k + 1], xs);
      var j :| 0 <= j < |s.peers[way[k]]| && s.peers[way[k]][j] == p;
    }
  }

  lemma ReachedFurther(s: Net, key: Key, q: nat, j: nat)
    requires Reached(s, key, q) && q < |s.peers| && j < |s.peers[q]|
    ensures Reached(s, key, s.peers[q][j])
  {
    var way :| WayTo(s, key, q, way);
    var more := way + [s.peers[q][j]];
    assert forall i :: 0 <= i < |way| ==> more[i] == way[i];
    assert WayTo(s, key, s.peers[q][j], more);
  }

  /** The doomed nodes are those that a way along peers leads to from the target of a deletion. */
  lemma DoomedIffReached(s: Net, p: nat, key: Key)
    requires WellFormed(s)
    ensures Doomed(s, p, key) <==> Reached(s, key, p)
  {
    if Reached(s, key, p) {
      var way :| WayTo(s, key, p, way);
      forall xs | HasTargets(s, key, xs) && PeersInside(s.peers, xs) ensures p in xs {
        WayStaysInside(s, key, p, way, xs);
      }
    } else {
      hide Reached;
      var xs := set q | q in Nodes(|s.peers|) && Reached(s, key, q);
      forall q: nat | DeleteMsg(q, key) in s.flight ensures q in xs {
        TargetReached(s, key, q);
      }
      forall q, j | q in xs && q < |s.peers| && 0 <= j < |s.peers[q]| ensures s.peers[q][j] in xs {
        ReachedFurther(s, key, q, j);
      }
      assert HasTargets(s, key, xs) && PeersInside(s.peers, xs) && p !in xs;
    }
  }

  lemma TargetReached(s: Net, key: Key, q: nat)
    requires WellFormed(s) && DeleteMsg(q, key) in s.flight
    ensures q < |s.peers| && Reached(s, key, q)
  {
    var i :| 0 <= i < |s.flight| && s.flight[i] == DeleteMsg(q, key);
    assert WayTo(s, key, q, [q]);
  }

  // ----- How events change that -----

  /** The same messages about the key, and the same values of it. */
  ghost predicate SameFor(s: Net, t: Net, key: Key) {
    && s.peers == t.peers && |s.stores| == |t.stores|
    && (forall x :: x in s.flight && x.key == key ==> x in t.flight)
    && (forall x :: x in t.flight && x.key == key ==> x in s.flight)
    && (forall p :: 0 <= p < |s.stores| ==> ValueAt(s, p, key) == ValueAt(t, p, key))
  }

  lemma SameDoomed(s: Net, t: Net, p: nat, key: Key)
    requires s.peers == t.peers
    requires forall q: nat :: DeleteMsg(q, key) in s.flight <==> DeleteMsg(q, key) in t.flight
    ensures Doomed(s, p, key) <==> Doomed(t, p, key)
  {
    forall xs ensures HasTargets(s, key, xs) <==> HasTargets(t, key, xs) {
    }
  }

  lemma SamePossible(s: Net, t: Net, key: Key, p: nat, v: Option<Value>)
    requires SameFor(s, t, key) && p < |s.stores|
    ensures Possible(s, p, key, v) <==> Possible(t, p, key, v)
  {
    SameDoomed(s, t, p, key);
    forall x ensures Offered(s, p, key, x) <==> Offered(t, p, key, x) {
    }
  }

  lemma WithoutMembers(fl: seq<Msg>, i: nat)
    requires i < |fl|
    ensures forall x :: x in Without(fl, i) ==> x in fl
    ensures forall x :: x in fl && x != fl[i] ==> x in Without(fl, i)
    ensures forall c :: 0 <= c < |fl| && c != i ==> fl[c] in Without(fl, i)
  {
    WithoutAt(fl, i);
    var r := Without(fl, i);
    forall c | 0 <= c < |fl| && c != i ensures fl[c] in r {
      assert r[if c < i then c else c - 1] == fl[c];
    }
  }

  lemma OtherEvent(s: Net, e: Event, key: Key)
    requires WellFormed(s) && Enabled(s, e) && LeavesAlone(s, e, key)
    requires e.Deliver? ==> s.flight[e.i].key != key
    ensures SameFor(s, Step(s, e), key)
  {
    if e.Deliver? || e.Lose? {
      WithoutMembers(s.flight, e.i);
    }
  }

  /** A delivered write leaves the wire and sets the value of its node. */
  lemma SetArrives(s: Net, i: nat)
    requires WellFormed(s) && i < |s.flight| && s.flight[i].SetMsg?
    ensures var t, m := Step(s, Deliver(i)), s.flight[i];
            && t.flight == Without(s.flight, i)
            && forall p :: 0 <= p < |s.stores| ==>
                 ValueAt(t, p, m.key) ==
                 if p == m.to && Acceptable(m.key, m.val) then Some(m.val) else ValueAt(s, p, m.key)
  {
    assert Without(s.flight, i) + [] == Without(s.flight, i);
  }

  /** A delivered deletion is replaced by one per peer and takes the value of its node. */
  lemma DeleteArrives(s: Net, i: nat)
    requires WellFormed(s) && i < |s.flight| && s.flight[i].DeleteMsg?
    ensures var t, m := Step(s, Deliver(i)), s.flight[i];
            && t.flight == Without(s.flight, i) + DeleteMsgs(s.peers[m.to], m.key)
            && forall p :: 0 <= p < |s.stores| ==>
                 ValueAt(t, p, m.key) == if p == m.to then None else ValueAt(s, p, m.key)
  {
  }

  lemma DeletesAdded(fl: seq<Msg>, ns: seq<nat>, key: Key, q: nat)
    ensures DeleteMsg(q, key) in fl + DeleteMsgs(ns, key) <==> DeleteMsg(q, key) in fl || q in ns
  {
    var ms := DeleteMsgs(ns, key);
    if q in ns {
      var j :| 0 <= j < |ns| && ns[j] == q;
      assert ms[j] == DeleteMsg(q, key);
    }
  }

  lemma SetsNotAdded(fl: seq<Msg>, ns: seq<nat>, key: Key, x: Msg)
    requires x.SetMsg?
    ensures x in fl + DeleteMsgs(ns, key) <==> x in fl
  {
  }

  lemma TargetsBefore(s: Net, i: nat, xs: set<nat>)
    requires WellFormed(s) && i < |s.flight| && s.flight[i].DeleteMsg?
    requires HasTargets(s, s.flight[i].key, xs) && PeersInside(s.peers, xs)
    ensures HasTargets(Step(s, Deliver(i)), s.flight[i].key, xs)
  {
    hide Step;
    var t, m := Step(s, Deliver(i)), s.flight[i];
    DeleteArrives(s, i);
    WithoutMembers(s.flight, i);
    assert m == DeleteMsg(m.to, m.key) && m in s.flight;
    forall q: nat | DeleteMsg(q, m.key) in t.flight ensures q in xs {
      DeletesAdded(Without(s.flight, i), s.peers[m.to], m.key, q);
    }
  }

  lemma TargetsAfter(s: Net, i: nat, xs: set<nat>)
    requires WellFormed(s) && i < |s.flight| && s.flight[i].DeleteMsg?
    requires HasTargets(Step(s, Deliver(i)), s.flight[i].key, xs) && PeersInside(s.peers, xs)
    ensures var ys := xs + {s.flight[i].to};
            HasTargets(s, s.flight[i].key, ys) && PeersInside(s.peers, ys)
  {
    hide Step;
    var t, m := Step(s, Deliver(i)), s.flight[i];
    var ys := xs + {m.to};
    DeleteArrives(s, i);
    WithoutMembers(s.flight, i);
    forall q: nat | DeleteMsg(q, m.key) in s.flight ensures q in ys {
      DeletesAdded(Without(s.flight, i), s.peers[m.to], m.key, q);
    }
    forall j | 0 <= j < |s.peers[m.to]| ensures s.peers[m.to][j] in xs {
      DeletesAdded(Without(s.flight, i), s.peers[m.to], m.key, s.peers[m.to][j]);
    }
  }

  /** Delivering a deletion dooms nobody new, and reprieves at most the receiver. */
  lemma DoomedAfterDelete(s: Net, i: nat, p: nat)
    requires WellFormed(s) && i < |s.flight| && s.flight[i].DeleteMsg?
    ensures var t, m := Step(s, Deliver(i)), s.flight[i];
            && (Doomed(t, p, m.key) ==> Doomed(s, p, m.key))
            && (Doomed(s, p, m.key) && p != m.to ==> Doomed(t, p, m.key))
            && Doomed(s, m.to, m.key)
  {
    hide Step, HasTargets, PeersInside;
    var t, m := Step(s, Deliver(i)), s.flight[i];
    if Doomed(t, p, m.key) {
      forall xs | HasTargets(s, m.key, xs) && PeersInside(s.peers, xs) ensures p in xs {
        TargetsBefore(s, i, xs);
      }
    }
    if Doomed(s, p, m.key) && p != m.to {
      forall xs | HasTargets(t, m.key, xs) && PeersInside(s.peers, xs) ensures p in xs {
        TargetsAfter(s, i, xs);
        assert p in xs + {m.to};
      }
    }
    TargetIsDoomed(s, i);
  }

  lemma TargetIsDoomed(s: Net, i: nat)
    requires i < |s.flight| && s.flight[i].DeleteMsg?
    ensures Doomed(s, s.flight[i].to, s.flight[i].key)
  {
    var m := s.flight[i];
    assert m == DeleteMsg(m.to, m.key) && m in s.flight;
  }

  /** An undisturbing event opens up nothing that was not possible before. */
  lemma StepPossible(s: Net, e: Event, key: Key, p: nat, v: Option<Value>)
    requires WellFormed(s) && Enabled(s, e) && LeavesAlone(s, e, key) && p < |s.stores|
    requires Possible(Step(s, e), p, key, v)
    ensures Possible(s, p, key, v)
  {
    hide Step, Doomed;
    if e.Deliver? && s.flight[e.i].key == key {
      var t, m := Step(s, e), s.flight[e.i];
      WithoutMembers(s.flight, e.i);
      if m.SetMsg? {
        SetArrives(s, e.i);
        SameDoomed(s, t, p, key);
        OffersLeft(s, t, e.i, p, key);
        assert m == SetMsg(m.to, key, m.val) && m in s.flight;
      } else {
        DeleteArrives(s, e.i);
        DoomedAfterDelete(s, e.i, p);
        OffersKept(s, t, e.i, p, key);
      }
    } else {
      OtherEvent(s, e, key);
      SamePossible(s, Step(s, e), key, p, v);
    }
  }

  /** Of the offers to p only the one delivered may be gone. */
  lemma OffersLeft(s: Net, t: Net, i: nat, p: nat, key: Key)
    requires i < |s.flight| && s.flight[i].SetMsg? && t.flight == Without(s.flight, i)
    ensures forall x :: Offered(t, p, key, x) ==> Offered(s, p, key, x)
    ensures forall x :: Offered(s, p, key, x) && s.flight[i] != SetMsg(p, key, x) ==> Offered(t, p, key, x)
  {
    WithoutMembers(s.flight, i);
  }

  lemma OffersKept(s: Net, t: Net, i: nat, p: nat, key: Key)
    requires i < |s.flight| && s.flight[i].DeleteMsg? && s.flight[i].to < |s.peers|
    requires t.flight == Without(s.flight, i) + DeleteMsgs(s.peers[s.flight[i].to], s.flight[i].key)
    ensures forall x :: Offered(t, p, key, x) <==> Offered(s, p, key, x)
  {
    WithoutMembers(s.flight, i);
    forall x ensures Offered(t, p, key, x) <==> Offered(s, p, key, x) {
      SetsNotAdded(Without(s.flight, i), s.peers[s.flight[i].to], s.flight[i].key, SetMsg(p, key, x));
    }
  }

  lemma {:induction false} RunPossible(s: Net, es: seq<Event>, key: Key, p: nat, v: Option<Value>)
    requires WellFormed(s) && ValidRun(s, es) && Undisturbed(s, es, key) && p < |s.stores|
    requires Possible(After(s, es), p, key, v)
    ensures Possible(s, p, key, v)
    decreases |es|
  {
    hide Step, Possible, LeavesAlone, Enabled;
    if es != [] {
      SameSize(s, es[0]);
      RunPossible(Step(s, es[0]), es[1..], key, p, v);
      StepPossible(s, es[0], key, p, v);
    }
  }

  lemma SameSize(s: Net, e: Event)
    requires WellFormed(s) && Enabled(s, e)
    ensures |Step(s, e).stores| == |s.stores|
  {
  }

  lemma SettledPossible(s: Net, key: Key, p: nat, v: Option<Value>)
    requires Settled(s, key) && p < |s.stores|
    ensures Possible(s, p, key, v) <==> v == ValueAt(s, p, key)
  {
    assert HasTargets(s, key, {}) && PeersInside(s.peers, {});
  }

  // ----- Deletions that never come to rest -----

  ghost predicate KeyDeletesInto(s: Net, key: Key, xs: set<nat>) {
    exists q :: q in xs && DeleteMsg(q, key) in s.flight
  }

  /** A deletion of the key is on its way into a set of nodes that each know a node of the set. */
  ghost predicate Trapped(s: Net, key: Key) {
    exists xs :: Closed(s.peers, xs) && KeyDeletesInto(s, key, xs)
  }

  lemma TrappedIff(s: Net, key: Key)
    requires WellFormed(s)
    ensures Trapped(s, key) <==> !Bounded(s, |s.peers|, Some(key))
  {
    hide Long, Closed;
    var g, d := s.peers, |s.peers|;
    LongIsClosed(g);
    if Trapped(s, key) {
      var xs :| Closed(g, xs) && KeyDeletesInto(s, key, xs);
      ClosedIsLong(g, xs, d);
      var q :| q in xs && DeleteMsg(q, key) in s.flight;
      var i :| 0 <= i < |s.flight| && s.flight[i] == DeleteMsg(q, key);
    }
    if !Bounded(s, d, Some(key)) {
      var i :| 0 <= i < |s.flight| && s.flight[i].DeleteMsg? && Counts(s.flight[i], Some(key))
               && !(s.flight[i].to < |g| && s.flight[i].to !in Long(g, d));
      assert s.flight[i] == DeleteMsg(s.flight[i].to, key) && s.flight[i] in s.flight;
      assert KeyDeletesInto(s, key, Long(g, d));
    }
  }

  lemma TrappedStep(s: Net, e: Event, key: Key, xs: set<nat>)
    requires WellFormed(s) && Enabled(s, e) && LeavesAlone(s, e, key)
    requires Closed(s.peers, xs) && KeyDeletesInto(s, key, xs)
    ensures KeyDeletesInto(Step(s, e), key, xs)
  {
    hide Step;
    var t := Step(s, e);
    var q :| q in xs && DeleteMsg(q, key) in s.flight;
    if e.Deliver? && s.flight[e.i].key == key {
      var m := s.flight[e.i];
      WithoutMembers(s.flight, e.i);
      if m.SetMsg? {
        SetArrives(s, e.i);
        assert DeleteMsg(q, key) in t.flight;
      } else {
        DeleteArrives(s, e.i);
        DeletesAdded(Without(s.flight, e.i), s.peers[m.to], key, q);
        if m.to == q {
          assert KnowsOneOf(s.peers, q, xs);
          var j :| 0 <= j < |s.peers[q]| && s.peers[q][j] in xs;
          DeletesAdded(Without(s.flight, e.i), s.peers[m.to], key, s.peers[q][j]);
        } else {
          assert DeleteMsg(q, key) in t.flight;
        }
      }
    } else {
      OtherEvent(s, e, key);
      assert DeleteMsg(q, key) in t.flight;
    }
  }

  lemma {:induction false} TrappedRun(s: Net, es: seq<Event>, key: Key, xs: set<nat>)
    requires WellFormed(s) && ValidRun(s, es) && Undisturbed(s, es, key)
    requires Closed(s.peers, xs) && KeyDeletesInto(s, key, xs)
    ensures KeyDeletesInto(After(s, es), key, xs)
    decreases |es|
  {
    hide Step, KeyDeletesInto, Closed, LeavesAlone, Enabled;
    if es != [] {
      TrappedStep(s, es[0], key, xs);
      TrappedRun(Step(s, es[0]), es[1..], key, xs);
    }
  }

  // ----- Every combination happens -----

  /** Node by node, `w` is possible. */
  ghost predicate AllPossible(s: Net, key: Key, w: seq<Option<Value>>) {
    |w| == |s.stores| && forall p :: 0 <= p < |w| ==> Possible(s, p, key, w[p])
  }

  /** Another message will see to it that its node ends up with its value in `w`. */
  ghost predicate Unneeded(s: Net, i: nat, key: Key, w: seq<Option<Value>>)
    requires i < |s.flight|
  {
    s.flight[i].SetMsg? && s.flight[i].key == key && s.flight[i].to < |w| &&
    var v, p := w[s.flight[i].to], s.flight[i].to;
    || !Acceptable(key, s.flight[i].val)
    || (v.None? && Doomed(s, p, key))
    || (v.Some? && Acceptable(key, v.value) &&
        exists c :: 0 <= c < |s.flight| && c != i && s.flight[c] == SetMsg(p, key, v.value))
  }

  lemma DeliverUnneeded(s: Net, i: nat, key: Key, w: seq<Option<Value>>, p: nat)
    requires WellFormed(s) && AllPossible(s, key, w) && i < |s.flight| && Unneeded(s, i, key, w) && p < |w|
    ensures |Step(s, Deliver(i)).stores| == |w| && Possible(Step(s, Deliver(i)), p, key, w[p])
  {
    hide Step, Doomed;
    var t, m := Step(s, Deliver(i)), s.flight[i];
    SameSize(s, Deliver(i));
    SetArrives(s, i);
    WithoutMembers(s.flight, i);
    SameDoomed(s, t, p, key);
    OffersLeft(s, t, i, p, key);
    assert Possible(s, p, key, w[p]);
  }

  lemma UnneededOffer(s: Net, key: Key, w: seq<Option<Value>>, p: nat) returns (j: nat)
    requires p < |w| && w[p].None? && Doomed(s, p, key) && AnyOffer(s, p, key)
    ensures j < |s.flight| && Unneeded(s, j, key, w)
  {
    hide Doomed;
    var x :| Offered(s, p, key, x);
    j :| 0 <= j < |s.flight| && s.flight[j] == SetMsg(p, key, x);
  }

  lemma DeliverDeletion(s: Net, i: nat, key: Key, w: seq<Option<Value>>, p: nat)
    requires WellFormed(s) && AllPossible(s, key, w) && p < |w|
    requires i < |s.flight| && s.flight[i].DeleteMsg? && s.flight[i].key == key
    requires forall j :: 0 <= j < |s.flight| ==> !Unneeded(s, j, key, w)
    ensures |Step(s, Deliver(i)).stores| == |w| && Possible(Step(s, Deliver(i)), p, key, w[p])
  {
    hide Step, Doomed;
    var t, m := Step(s, Deliver(i)), s.flight[i];
    SameSize(s, Deliver(i));
    DeleteArrives(s, i);
    DoomedAfterDelete(s, i, p);
    OffersKept(s, t, i, p, key);
    assert Possible(s, p, key, w[p]);
    if w[p].None? && AnyOffer(s, p, key) && Doomed(s, p, key) {
      var j := UnneededOffer(s, key, w, p);
    }
  }

  lemma DeliverLast(s: Net, i: nat, key: Key, w: seq<Option<Value>>, p: nat)
    requires WellFormed(s) && AllPossible(s, key, w) && p < |w|
    requires i < |s.flight| && s.flight[i].SetMsg? && s.flight[i].key == key
    requires forall j :: 0 <= j < |s.flight| ==> !Unneeded(s, j, key, w)
    requires forall j :: 0 <= j < |s.flight| && s.flight[j].key == key ==> s.flight[j].SetMsg?
    ensures |Step(s, Deliver(i)).stores| == |w| && Possible(Step(s, Deliver(i)), p, key, w[p])
  {
    hide Step;
    var t, m := Step(s, Deliver(i)), s.flight[i];
    SameSize(s, Deliver(i));
    SetArrives(s, i);
    WithoutMembers(s.flight, i);
    NobodyDoomed(s, p, key);
    hide Doomed;
    SameDoomed(s, t, p, key);
    OffersLeft(s, t, i, p, key);
    assert Possible(s, p, key, w[p]);
    assert !Unneeded(s, i, key, w);
    if p == m.to {
      OnlyOffer(s, i, key, w);
    }
  }

  lemma NobodyDoomed(s: Net, p: nat, key: Key)
    requires forall j :: 0 <= j < |s.flight| && s.flight[j].key == key ==> s.flight[j].SetMsg?
    ensures !Doomed(s, p, key)
  {
    assert HasTargets(s, key, {}) && PeersInside(s.peers, {});
  }

  /** If every write is needed and nobody is doomed, a write in flight is the only one to its node. */
  lemma OnlyOffer(s: Net, i: nat, key: Key, w: seq<Option<Value>>)
    requires AllPossible(s, key, w) && i < |s.flight| && s.flight[i].SetMsg? && s.flight[i].key == key
    requires s.flight[i].to < |w| && !Doomed(s, s.flight[i].to, key)
    requires forall j :: 0 <= j < |s.flight| ==> !Unneeded(s, j, key, w)
    ensures Acceptable(key, s.flight[i].val) && w[s.flight[i].to] == Some(s.flight[i].val)
    ensures forall x :: x in Without(s.flight, i) && x.SetMsg? && x.key == key ==> x.to != s.flight[i].to
  {
    hide Doomed;
    var p, m := s.flight[i].to, s.flight[i];
    assert !Unneeded(s, i, key, w) && Possible(s, p, key, w[p]);
    assert m == SetMsg(p, key, m.val) && m in s.flight;
    assert Offered(s, p, key, m.val);
    var c :| 0 <= c < |s.flight| && s.flight[c] == SetMsg(p, key, w[p].value);
    assert c == i;
    WithoutAt(s.flight, i);
    var r := Without(s.flight, i);
    forall k | 0 <= k < |r| && r[k].SetMsg? && r[k].key == key ensures r[k].to != p {
      var j := if k < i then k else k + 1;
      assert r[k] == s.flight[j] && !Unneeded(s, j, key, w);
    }
  }

  /** While messages about the key are left, one can be delivered without closing off `w`. */
  lemma NextDelivery(s: Net, key: Key, w: seq<Option<Value>>) returns (i: nat)
    requires WellFormed(s) && AllPossible(s, key, w) && !Settled(s, key)
    ensures i < |s.flight| && s.flight[i].key == key && AllPossible(Step(s, Deliver(i)), key, w)
  {
    hide Step, Possible, Unneeded;
    if j :| 0 <= j < |s.flight| && Unneeded(s, j, key, w) {
      i := j;
      assert s.flight[i].key == key by { UnneededIsAbout(s, i, key, w); }
      SameSize(s, Deliver(i));
      forall p | 0 <= p < |w| ensures Possible(Step(s, Deliver(i)), p, key, w[p]) {
        DeliverUnneeded(s, i, key, w, p);
      }
    } else if j :| 0 <= j < |s.flight| && s.flight[j].DeleteMsg? && s.flight[j].key == key {
      i := j;
      SameSize(s, Deliver(i));
      forall p | 0 <= p < |w| ensures Possible(Step(s, Deliver(i)), p, key, w[p]) {
        DeliverDeletion(s, i, key, w, p);
      }
    } else {
      var x :| x in s.flight && x.key == key;
      i :| 0 <= i < |s.flight| && s.flight[i] == x;
      SameSize(s, Deliver(i));
      forall p | 0 <= p < |w| ensures Possible(Step(s, Deliver(i)), p, key, w[p]) {
        DeliverLast(s, i, key, w, p);
      }
    }
  }

  lemma UnneededIsAbout(s: Net, i: nat, key: Key, w: seq<Option<Value>>)
    requires i < |s.flight| && Unneeded(s, i, key, w)
    ensures s.flight[i].key == key
  {
  }

  /** A run of deliveries, all of messages about the key, that ends with exactly the values `w`. */
  lemma {:induction false} ReachOutcome(s: Net, key: Key, w: seq<Option<Value>>, d: nat) returns (es: seq<Event>)
    requires WellFormed(s) && AllPossible(s, key, w) && Bounded(s, d, Some(key))
    ensures QuietRun(s, es, key) && Deliveries(es) && Values(After(s, es), key) == w
    decreases WireCost(s.peers, s.flight, d, Some(key))
  {
    hide Step, Possible, Long, WireCost, Bounded;
    if Settled(s, key) {
      es := [];
      forall p | 0 <= p < |w| ensures w[p] == ValueAt(s, p, key) {
        SettledPossible(s, key, p, w[p]);
      }
    } else {
      var i := NextDelivery(s, key, w);
      BoundedNext(s, i, d, key);
      var rest := ReachOutcome(Step(s, Deliver(i)), key, w, d);
      es := [Deliver(i)] + rest;
      assert es[1..] == rest;
    }
  }

  lemma BoundedNext(s: Net, i: nat, d: nat, key: Key)
    requires Bounded(s, d, Some(key)) && i < |s.flight| && s.flight[i].key == key
    ensures Bounded(Step(s, Deliver(i)), d, Some(key))
    ensures WireCost(s.peers, Step(s, Deliver(i)).flight, d, Some(key)) < WireCost(s.peers, s.flight, d, Some(key))
  {
    hide Step, Long, WireCost;
    DeliveryCostsOne(s, i, d, Some(key));
  }

  ghost predicate EndsWith(s: Net, es: seq<Event>, key: Key, w: seq<Option<Value>>)
    requires WellFormed(s)
  {
    QuietRun(s, es, key) && Values(After(s, es), key) == w
  }

  /**
  The outcomes of a key, exactly. Once no client touches the key and none of its messages is lost, the
  values that the nodes can be left with are all combinations of what is possible at each of them, and
  no others, whatever happens to other keys; deliveries alone give them all. There are none at all if a
  deletion of the key never comes to rest.
  */
  lemma OutcomesExact(s: Net, key: Key, w: seq<Option<Value>>)
    requires WellFormed(s)
    ensures (exists es :: EndsWith(s, es, key, w)) <==> !Trapped(s, key) && AllPossible(s, key, w)
    ensures (exists es :: Deliveries(es) && EndsWith(s, es, key, w)) <==> !Trapped(s, key) && AllPossible(s, key, w)
  {
    hide Step, Possible, Long, WireCost, Trapped, ValidRun, Undisturbed, After;
    if !Trapped(s, key) && AllPossible(s, key, w) {
      TrappedIff(s, key);
      var es := ReachOutcome(s, key, w, |s.peers|);
      assert EndsWith(s, es, key, w);
    }
    forall es | EndsWith(s, es, key, w) ensures !Trapped(s, key) && AllPossible(s, key, w) {
      QuietEnd(s, es, key);
      hide Settled;
      forall p | 0 <= p < |w| ensures Possible(s, p, key, w[p]) {
        SettledPossible(After(s, es), key, p, w[p]);
        RunPossible(s, es, key, p, w[p]);
      }
    }
  }

  lemma QuietEnd(s: Net, es: seq<Event>, key: Key)
    requires WellFormed(s) && QuietRun(s, es, key)
    ensures !Trapped(s, key) && |After(s, es).stores| == |s.stores|
  {
    hide Step, Closed, ValidRun, Undisturbed, After;
    if Trapped(s, key) {
      var xs :| Closed(s.peers, xs) && KeyDeletesInto(s, key, xs);
      TrappedRun(s, es, key, xs);
    }
  }

  // ----- What a node is sure to end up with -----

  /** In every such run node p ends up with `v`. */
  ghost predicate AlwaysEnds(s: Net, p: nat, key: Key, v: Option<Value>)
    requires WellFormed(s) && p < |s.stores|
  {
    forall es :: QuietRun(s, es, key) ==> ValueAt(After(s, es), p, key) == v
  }

  /** Nothing on its way to p, and nothing that p is left with for lack of it, differs from `v`. */
  ghost predicate Bound(s: Net, p: nat, key: Key, v: Option<Value>)
    requires p < |s.stores|
  {
    && (forall x :: Offered(s, p, key, x) ==> v == Some(x))
    && (Doomed(s, p, key) ==> v == None)
    && (AnyOffer(s, p, key) || Doomed(s, p, key) || ValueAt(s, p, key) == v)
  }

  lemma BoundIff(s: Net, p: nat, key: Key, v: Option<Value>)
    requires p < |s.stores|
    ensures Bound(s, p, key, v) <==> forall x :: Possible(s, p, key, x) ==> x == v
  {
    hide Doomed;
    if forall x :: Possible(s, p, key, x) ==> x == v {
      forall x | Offered(s, p, key, x) ensures v == Some(x) {
        assert Possible(s, p, key, Some(x));
      }
      assert Doomed(s, p, key) ==> Possible(s, p, key, None);
      assert AnyOffer(s, p, key) || Doomed(s, p, key) || Possible(s, p, key, ValueAt(s, p, key));
    }
  }

  /** One of the possible values. */
  ghost function Pick(s: Net, p: nat, key: Key): (v: Option<Value>)
    requires p < |s.stores|
    ensures Possible(s, p, key, v)
  {
    if AnyOffer(s, p, key) then
      var x :| Offered(s, p, key, x);
      Some(x)
    else if Doomed(s, p, key) then None
    else ValueAt(s, p, key)
  }

  ghost function Picks(s: Net, key: Key): (w: seq<Option<Value>>)
    ensures AllPossible(s, key, w)
  {
    seq(|s.stores|, p requires 0 <= p < |s.stores| => Pick(s, p, key))
  }

  /** A run of deliveries that leaves p with a value that is possible there, and the others with some value. */
  lemma ReachOne(s: Net, p: nat, key: Key, v: Option<Value>) returns (es: seq<Event>)
    requires WellFormed(s) && p < |s.stores| && Possible(s, p, key, v) && !Trapped(s, key)
    ensures Deliveries(es) && EndsWith(s, es, key, Picks(s, key)[p := v])
  {
    hide Possible, Trapped, Picks, EndsWith;
    var w := Picks(s, key)[p := v];
    assert AllPossible(s, key, w);
    OutcomesExact(s, key, w);
    es :| Deliveries(es) && EndsWith(s, es, key, w);
  }

  /**
  A node is sure to end up with `v` if and only if everything on its way to it says so; or if the key
  never comes to rest.
  */
  lemma AlwaysEndsIff(s: Net, p: nat, key: Key, v: Option<Value>)
    requires WellFormed(s) && p < |s.stores|
    ensures AlwaysEnds(s, p, key, v) <==> Trapped(s, key) || Bound(s, p, key, v)
  {
    hide Possible, Trapped, Bound, Picks, ValidRun, Undisturbed, After;
    BoundIff(s, p, key, v);
    if AlwaysEnds(s, p, key, v) && !Trapped(s, key) {
      forall x | Possible(s, p, key, x) ensures x == v {
        var es := ReachOne(s, p, key, x);
        assert Values(After(s, es), key)[p] == x;
      }
    }
    if Trapped(s, key) || Bound(s, p, key, v) {
      forall es | QuietRun(s, es, key) ensures ValueAt(After(s, es), p, key) == v {
        var w := Values(After(s, es), key);
        QuietEnd(s, es, key);
        assert EndsWith(s, es, key, w);
        OutcomesExact(s, key, w);
        assert Possible(s, p, key, w[p]);
      }
    }
  }

  /** With only writes of the key in flight: all of them to p carry `val`, and p has it or one is coming. */
  lemma OnlyWritesEndIff(s: Net, p: nat, key: Key, val: Value)
    requires WellFormed(s) && p < |s.stores|
    requires forall x :: x in s.flight && x.key == key ==> x.SetMsg? && Acceptable(key, x.val)
    ensures AlwaysEnds(s, p, key, Some(val)) <==>
            && (forall x :: x in s.flight && x.key == key && x.to == p ==> x == SetMsg(p, key, val))
            && (ValueAt(s, p, key) == Some(val) || SetMsg(p, key, val) in s.flight)
  {
    hide AlwaysEnds;
    NobodyDoomed(s, p, key);
    AlwaysEndsIff(s, p, key, Some(val));
    hide Doomed;
    assert !Trapped(s, key);
    forall x | x in s.flight && x.key == key && x.to == p ensures Offered(s, p, key, x.val) {
      assert x == SetMsg(p, key, x.val);
    }
  }

  // ----- When all nodes agree -----

  ghost predicate Agree(s: Net, key: Key) {
    forall p, q :: 0 <= p < |s.stores| && 0 <= q < |s.stores| ==> ValueAt(s, p, key) == ValueAt(s, q, key)
  }

  ghost predicate AlwaysAgree(s: Net, key: Key)
    requires WellFormed(s)
  {
    forall es :: QuietRun(s, es, key) ==> Agree(After(s, es), key)
  }

  ghost predicate AllBound(s: Net, key: Key, v: Option<Value>) {
    forall p :: 0 <= p < |s.stores| ==> Bound(s, p, key, v)
  }

  lemma EndAgrees(s: Net, es: seq<Event>, key: Key, w: seq<Option<Value>>, p: nat, q: nat)
    requires WellFormed(s) && AlwaysAgree(s, key) && EndsWith(s, es, key, w) && p < |w| && q < |w|
    ensures w[p] == w[q]
  {
    hide ValidRun, Undisturbed, After;
    var t := After(s, es);
    assert w[p] == ValueAt(t, p, key) && w[q] == ValueAt(t, q, key);
  }

  /**
  All nodes are sure to agree once the messages about a key have arrived, in whatever order, if and
  only if one value is what every node is bound to; or there is only one node, or no end to it.
  */
  lemma AlwaysAgreeIff(s: Net, key: Key)
    requires WellFormed(s)
    ensures AlwaysAgree(s, key) <==> Trapped(s, key) || |s.stores| <= 1 || exists v :: AllBound(s, key, v)
  {
    hide Possible, Trapped, Bound, Picks, ValidRun, Undisturbed, After, EndsWith;
    if AlwaysAgree(s, key) && !Trapped(s, key) && |s.stores| > 1 {
      var w := Picks(s, key);
      forall p | 0 <= p < |w| ensures Bound(s, p, key, w[0]) {
        AgreeBinds(s, key, p);
        BoundIff(s, p, key, w[0]);
      }
      assert AllBound(s, key, w[0]);
    }
    if Trapped(s, key) || |s.stores| <= 1 || exists v :: AllBound(s, key, v) {
      forall es | QuietRun(s, es, key) ensures Agree(After(s, es), key) {
        QuietEnd(s, es, key);
        if |s.stores| > 1 {
          var v :| AllBound(s, key, v);
          BoundAgree(s, es, key, v);
        }
      }
    }
  }

  lemma BoundAgree(s: Net, es: seq<Event>, key: Key, v: Option<Value>)
    requires WellFormed(s) && QuietRun(s, es, key) && AllBound(s, key, v)
    ensures Agree(After(s, es), key)
  {
    hide Bound, Trapped, ValidRun, Undisturbed, After;
    QuietEnd(s, es, key);
    forall p | 0 <= p < |s.stores| ensures ValueAt(After(s, es), p, key) == v {
      AlwaysEndsIff(s, p, key, v);
    }
  }

  lemma AgreeBinds(s: Net, key: Key, p: nat)
    requires WellFormed(s) && AlwaysAgree(s, key) && !Trapped(s, key) && |s.stores| > 1 && p < |s.stores|
    ensures forall x :: Possible(s, p, key, x) ==> x == Picks(s, key)[0]
  {
    hide Possible, Trapped, Picks, AlwaysAgree, EndsWith;
    var w := Picks(s, key);
    var q := if p == 0 then 1 else 0;
    forall x | Possible(s, p, key, x) ensures x == w[0] {
      var es := ReachOne(s, p, key, x);
      EndAgrees(s, es, key, w[p := x], p, q);
      var es0 := ReachOne(s, q, key, w[q]);
      assert w[q := w[q]] == w;
      EndAgrees(s, es0, key, w, q, 0);
    }
  }

  // ----- Writes -----

  lemma WriteStep(s: Net, n: nat, key: Key, val: Value)
    requires WellFormed(s) && n < |s.peers| && Acceptable(key, val)
    ensures var t := Step(s, ClientSet(n, key, val));
            && t.flight == s.flight + SetMsgs(s.peers[n], key, val) && |t.stores| == |s.stores|
            && forall p :: 0 <= p < |s.stores| ==>
                 ValueAt(t, p, key) == if p == n then Some(val) else ValueAt(s, p, key)
  {
  }

  lemma SetsAdded(fl: seq<Msg>, ns: seq<nat>, key: Key, val: Value, x: Msg)
    ensures x in fl + SetMsgs(ns, key, val) <==> x in fl || (x.SetMsg? && x == SetMsg(x.to, key, val) && x.to in ns)
  {
    var ms := SetMsgs(ns, key, val);
    if x.SetMsg? && x.to in ns && x == SetMsg(x.to, key, val) {
      var j :| 0 <= j < |ns| && ns[j] == x.to;
      assert ms[j] == x;
    }
  }

  /** A write adds one offer for every peer and leaves deletions as they are. */
  lemma WriteOffers(s: Net, n: nat, key: Key, val: Value, p: nat)
    requires WellFormed(s) && n < |s.peers| && Acceptable(key, val)
    ensures var t := Step(s, ClientSet(n, key, val));
            && (forall x :: Offered(t, p, key, x) <==> Offered(s, p, key, x) || (p in s.peers[n] && x == val))
            && (Doomed(t, p, key) <==> Doomed(s, p, key))
            && (Trapped(t, key) <==> Trapped(s, key))
  {
    hide Step, Closed;
    var t := Step(s, ClientSet(n, key, val));
    WriteStep(s, n, key, val);
    forall x ensures Offered(t, p, key, x) <==> Offered(s, p, key, x) || (p in s.peers[n] && x == val) {
      SetsAdded(s.flight, s.peers[n], key, val, SetMsg(p, key, x));
    }
    forall q: nat ensures DeleteMsg(q, key) in s.flight <==> DeleteMsg(q, key) in t.flight {
      SetsAdded(s.flight, s.peers[n], key, val, DeleteMsg(q, key));
    }
    SameDoomed(s, t, p, key);
    assert forall xs :: KeyDeletesInto(s, key, xs) <==> KeyDeletesInto(t, key, xs);
  }

  /**
  A client's write at node n is sure to be what n, or any of its peers, ends up with, if and only if
  nothing else is on its way there: no other value, and no deletion that can come there.
  */
  lemma WriteReachesEveryPeer(s: Net, n: nat, key: Key, val: Value, p: nat)
    requires WellFormed(s) && n < |s.peers| && Acceptable(key, val) && (p == n || p in s.peers[n])
    ensures p < |s.stores| && |Step(s, ClientSet(n, key, val)).stores| == |s.stores|
    ensures AlwaysEnds(Step(s, ClientSet(n, key, val)), p, key, Some(val)) <==>
            Trapped(s, key) || (!Doomed(s, p, key) && forall x :: Offered(s, p, key, x) ==> x == val)
  {
    hide Step, Doomed, Trapped, AlwaysEnds, Offered;
    var t := Step(s, ClientSet(n, key, val));
    WriteStep(s, n, key, val);
    WriteOffers(s, n, key, val, p);
    AlwaysEndsIff(t, p, key, Some(val));
    assert p in s.peers[n] ==> Offered(t, p, key, val);
    assert Bound(t, p, key, Some(val)) <==>
           (!Doomed(s, p, key) && forall x :: Offered(s, p, key, x) ==> x == val);
  }

  /**
  Two nodes that know each other and write one key before they hear of each other can swap their
  values and stay different with nothing left in flight.
  */
  lemma ConcurrentWritesDiverge(s: Net, n: nat, m: nat, key: Key, a: Value, b: Value) returns (es: seq<Event>)
    requires WellFormed(s) && n < |s.peers| && m < |s.peers| && n != m && m in s.peers[n] && n in s.peers[m]
    requires Acceptable(key, a) && Acceptable(key, b) && !Trapped(s, key)
    ensures var t := Step(Step(s, ClientSet(n, key, a)), ClientSet(m, key, b));
            && Deliveries(es) && QuietRun(t, es, key)
            && ValueAt(After(t, es), m, key) == Some(a) && ValueAt(After(t, es), n, key) == Some(b)
  {
    hide Step, Doomed, Trapped, Offered, ValidRun, Undisturbed, After, Picks;
    var s1 := Step(s, ClientSet(n, key, a));
    var t := Step(s1, ClientSet(m, key, b));
    WriteOffers(s, n, key, a, m);
    WriteOffers(s1, m, key, b, m);
    WriteOffers(s1, m, key, b, n);
    var w := Picks(t, key)[m := Some(a)][n := Some(b)];
    assert AllPossible(t, key, w);
    OutcomesExact(t, key, w);
    es :| Deliveries(es) && EndsWith(t, es, key, w);
    assert Values(After(t, es), key)[m] == Some(a) && Values(After(t, es), key)[n] == Some(b);
  }
}
