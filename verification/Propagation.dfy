/**
How writes and deletions travel between the nodes of a group. Messages may be lost, delayed and
reordered. A received Set is marked as coming from a peer and goes no further; a received Delete
carries no mark and is passed on again.
*/
module Propagation {
  import opened Types

  datatype Msg = SetMsg(to: nat, key: Key, val: Value) | DeleteMsg(to: nat, key: Key)

  datatype Event =
    | ClientSet(node: nat, key: Key, val: Value)     // a call on the local group
    | ClientDelete(node: nat, key: Key)
    | RemoteSet(node: nat, key: Key, val: Value)     // a client calling the Set service directly
    | Deliver(i: nat)
    | Lose(i: nat)

  /** `peers[n]` are the other nodes that node n knows. */
  datatype Net = Net(peers: seq<seq<nat>>, stores: seq<map<Key, Value>>, flight: seq<Msg>)

  ghost predicate WellFormed(s: Net) {
    && |s.peers| == |s.stores|
    && (forall n, i :: 0 <= n < |s.peers| && 0 <= i < |s.peers[n]| ==> s.peers[n][i] < |s.peers|)
    && (forall i :: 0 <= i < |s.flight| ==> s.flight[i].to < |s.peers| && s.flight[i].key != EMPTY)
  }

  predicate Acceptable(key: Key, val: Value) {
    key != EMPTY && val != Nil && val.len > 0
  }

  function SetMsgs(peers: seq<nat>, key: Key, val: Value): (r: seq<Msg>)
    ensures |r| == |peers| && forall i :: 0 <= i < |r| ==> r[i] == SetMsg(peers[i], key, val)
  {
    seq(|peers|, i requires 0 <= i < |peers| => SetMsg(peers[i], key, val))
  }

  function DeleteMsgs(peers: seq<nat>, key: Key): (r: seq<Msg>)
    ensures |r| == |peers| && forall i :: 0 <= i < |r| ==> r[i] == DeleteMsg(peers[i], key)
  {
    seq(|peers|, i requires 0 <= i < |peers| => DeleteMsg(peers[i], key))
  }

  /** Set on the group of node n; only an unmarked request is sent on. */
  function GroupSet(s: Net, n: nat, key: Key, val: Value, fromPeer: bool): (t: Net)
    requires n < |s.stores| && n < |s.peers|
    ensures WellFormed(s) ==> WellFormed(t)
  {
    if !Acceptable(key, val) then s
    else
      s.(stores := s.stores[n := s.stores[n][key := val]],
         flight := s.flight + if fromPeer then [] else SetMsgs(s.peers[n], key, val))
  }

  function GroupDelete(s: Net, n: nat, key: Key, fromPeer: bool): (t: Net)
    requires n < |s.stores| && n < |s.peers|
    ensures WellFormed(s) ==> WellFormed(t)
  {
    if key == EMPTY then s
    else
      s.(stores := s.stores[n := s.stores[n] - {key}],
         flight := s.flight + if fromPeer then [] else DeleteMsgs(s.peers[n], key))
  }

  ghost predicate Enabled(s: Net, e: Event) {
    match e
    case ClientSet(n, _, _) => n < |s.peers|
    case ClientDelete(n, _) => n < |s.peers|
    case RemoteSet(n, _, _) => n < |s.peers|
    case Deliver(i) => i < |s.flight|
    case Lose(i) => i < |s.flight|
  }

  lemma WithoutAt(fl: seq<Msg>, i: nat)
    requires i < |fl|
    ensures var r := Without(fl, i);
            forall j {:trigger r[j]} :: 0 <= j < |r| ==> r[j] == fl[if j < i then j else j + 1]
    ensures forall x :: x in fl && x != fl[i] ==> x in Without(fl, i)
  {
    var r := Without(fl, i);
    forall x | x in fl && x != fl[i] ensures x in r {
      var j :| 0 <= j < |fl| && fl[j] == x;
      assert r[if j < i then j else j - 1] == x;
    }
  }

  /** One message less on the wire. */
  ghost function Received(s: Net, i: nat): (t: Net)
    requires WellFormed(s) && i < |s.flight|
    ensures WellFormed(t)
  {
    WithoutAt(s.flight, i);
    s.(flight := Without(s.flight, i))
  }

  ghost function Step(s: Net, e: Event): (t: Net)
    requires WellFormed(s) && Enabled(s, e)
    ensures WellFormed(t) && t.peers == s.peers
  {
    match e
    case ClientSet(n, k, v) => GroupSet(s, n, k, v, false)
    case ClientDelete(n, k) => GroupDelete(s, n, k, false)
    case RemoteSet(n, k, v) => GroupSet(s, n, k, v, true)
    case Deliver(i) =>
      (match s.flight[i]
       case SetMsg(n, k, v) => GroupSet(Received(s, i), n, k, v, true)
       case DeleteMsg(n, k) => GroupDelete(Received(s, i), n, k, false))
    case Lose(i) => Received(s, i)
  }

  ghost predicate ValidRun(s: Net, es: seq<Event>)
    requires WellFormed(s)
    decreases |es|
  {
    es == [] || (Enabled(s, es[0]) && ValidRun(Step(s, es[0]), es[1..]))
  }

  ghost function After(s: Net, es: seq<Event>): (t: Net)
    requires WellFormed(s) && ValidRun(s, es)
    ensures WellFormed(t) && t.peers == s.peers
    decreases |es|
  {
    if es == [] then s else After(Step(s, es[0]), es[1..])
  }

  // ----- What one event does to the stores -----

  /** What node p holds under a key. */
  ghost function ValueAt(s: Net, p: nat, key: Key): Option<Value>
    requires p < |s.stores|
  {
    if key in s.stores[p] then Some(s.stores[p][key]) else None
  }

  /** The node and key that an event writes, with the value, or deletes; other events touch no store. */
  function Touched(s: Net, e: Event): Option<(nat, Key, Option<Value>)> {
    match e
    case ClientSet(n, k, v) => Some((n, k, Some(v)))
    case RemoteSet(n, k, v) => Some((n, k, Some(v)))
    case ClientDelete(n, k) => Some((n, k, None))
    case Deliver(i) =>
      if i >= |s.flight| then None
      else (match s.flight[i]
            case SetMsg(n, k, v) => Some((n, k, Some(v)))
            case DeleteMsg(n, k) => Some((n, k, None)))
    case Lose(_) => None
  }

  /**
  Every event, at every node and key: a write binds its key at its node unless the key is empty, the
  value nil or of no length; a deletion unbinds its key there; nothing else changes anywhere.
  */
  lemma StoresExact(s: Net, e: Event, p: nat, k: Key)
    requires WellFormed(s) && Enabled(s, e) && p < |s.stores|
    ensures |Step(s, e).stores| == |s.stores|
    ensures var t := Touched(s, e);
            ValueAt(Step(s, e), p, k) ==
            if t.None? || t.value.0 != p || t.value.1 != k || k == EMPTY then ValueAt(s, p, k)
            else match t.value.2
                 case None => None
                 case Some(v) => if v == Nil || v.len == 0 then ValueAt(s, p, k) else Some(v)
  {
  }

  // ----- Sets go one hop -----

  /** The Set messages among those in flight. */
  function Sets(fl: seq<Msg>): nat {
    if fl == [] then 0 else (if fl[0].SetMsg? then 1 else 0) + Sets(fl[1..])
  }

  lemma {:induction false} SetsConcat(a: seq<Msg>, b: seq<Msg>)
    ensures Sets(a + b) == Sets(a) + Sets(b)
  {
    if a == [] {
      assert a + b == b;
    } else {
      assert (a + b)[1..] == a[1..] + b;
      SetsConcat(a[1..], b);
    }
  }

  lemma SetsWithout(fl: seq<Msg>, i: nat)
    requires i < |fl|
    ensures Sets(Without(fl, i)) == Sets(fl) - if fl[i].SetMsg? then 1 else 0
  {
    hide Sets;
    assert fl == fl[..i] + ([fl[i]] + fl[i + 1..]);
    SetsConcat(fl[..i], [fl[i]] + fl[i + 1..]);
    SetsConcat(fl[..i], fl[i + 1..]);
    SetsCons(fl[i], fl[i + 1..]);
  }

  lemma SetsCons(m: Msg, fl: seq<Msg>)
    ensures Sets([m] + fl) == Sets(fl) + if m.SetMsg? then 1 else 0
  {
    assert ([m] + fl)[1..] == fl;
  }

  lemma {:induction false} SetsOfSame(fl: seq<Msg>, b: bool)
    requires forall i :: 0 <= i < |fl| ==> fl[i].SetMsg? == b
    ensures Sets(fl) == if b then |fl| else 0
  {
    if fl != [] { SetsOfSame(fl[1..], b); }
  }

  /** The Set messages an event sends: one per peer, for an acceptable client write only. */
  function SentBy(peers: seq<seq<nat>>, e: Event): nat {
    if e.ClientSet? && e.node < |peers| && Acceptable(e.key, e.val) then |peers[e.node]| else 0
  }

  /** The Set messages an event takes off the wire, delivered or lost. */
  function TakenBy(s: Net, e: Event): nat {
    if (e.Deliver? || e.Lose?) && e.i < |s.flight| && s.flight[e.i].SetMsg? then 1 else 0
  }

  lemma SetStep(s: Net, e: Event)
    requires WellFormed(s) && Enabled(s, e)
    ensures Sets(Step(s, e).flight) + TakenBy(s, e) == Sets(s.flight) + SentBy(s.peers, e)
  {
    match e
    case ClientSet(n, k, v) =>
      SetsConcat(s.flight, SetMsgs(s.peers[n], k, v));
      SetsOfSame(SetMsgs(s.peers[n], k, v), true);
    case ClientDelete(n, k) =>
      SetsConcat(s.flight, DeleteMsgs(s.peers[n], k));
      SetsOfSame(DeleteMsgs(s.peers[n], k), false);
    case RemoteSet(n, k, v) => assert s.flight + [] == s.flight;
    case Lose(i) => SetsWithout(s.flight, i);
    case Deliver(i) =>
      SetsWithout(s.flight, i);
      var fl, m := Without(s.flight, i), s.flight[i];
      assert fl + [] == fl;
      if m.DeleteMsg? {
        SetsConcat(fl, DeleteMsgs(s.peers[m.to], m.key));
        SetsOfSame(DeleteMsgs(s.peers[m.to], m.key), false);
      }
  }

  function SentIn(peers: seq<seq<nat>>, es: seq<Event>): nat {
    if es == [] then 0 else SentBy(peers, es[0]) + SentIn(peers, es[1..])
  }

  ghost function TakenIn(s: Net, es: seq<Event>): nat
    requires WellFormed(s) && ValidRun(s, es)
    decreases |es|
  {
    if es == [] then 0 else TakenBy(s, es[0]) + TakenIn(Step(s, es[0]), es[1..])
  }

  /**
  Conservation of Set messages, in every run with writes, deletions, losses and reordering mixed: the
  Set messages in flight are those that client writes sent, one per peer of the writing node, less
  those delivered or lost. Delivery sends none, nor does a write that arrives by a remote call.
  */
  lemma {:induction false} SetMessagesConserved(s: Net, es: seq<Event>)
    requires WellFormed(s) && ValidRun(s, es)
    ensures Sets(After(s, es).flight) + TakenIn(s, es) == Sets(s.flight) + SentIn(s.peers, es)
    decreases |es|
  {
    hide Step, Sets, SentBy, TakenBy;
    if es != [] {
      SetStep(s, es[0]);
      SetMessagesConserved(Step(s, es[0]), es[1..]);
    }
  }

  // ----- Runs that leave a key alone -----

  ghost predicate Deliveries(es: seq<Event>) {
    forall i :: 0 <= i < |es| ==> es[i].Deliver?
  }

  /** The event is not a client's business with `key`, and loses no message about it. */
  predicate LeavesAlone(s: Net, e: Event, key: Key) {
    match e
    case ClientSet(_, k, _) => k != key
    case ClientDelete(_, k) => k != key
    case RemoteSet(_, k, _) => k != key
    case Deliver(_) => true
    case Lose(i) => i < |s.flight| && s.flight[i].key != key
  }

  ghost predicate Undisturbed(s: Net, es: seq<Event>, key: Key)
    requires WellFormed(s) && ValidRun(s, es)
    decreases |es|
  {
    es == [] ||
    (LeavesAlone(s, es[0], key) && Undisturbed(Step(s, es[0]), es[1..], key))
  }
}
