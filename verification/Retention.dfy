/**
How long a key stays in one level, whatever is done to it, and where deleted slots end up.
Runs are arbitrary sequences of put, get and del on one cache.
*/
module Retention {
  import opened Types
  import opened RecencyList

  datatype CacheOp =
    | PutOp(key: Key, val: Value, expireAt: int)
    | GetOp(key: Key)
    | DelOp(key: Key)

  ghost function Step(s: seq<Node>, cap: nat, op: CacheOp): seq<Node>
    requires cap > 0
  {
    match op
    case PutOp(k, v, e) => Put(s, cap, Node(k, v, e, false)).list
    case GetOp(k) => Touch(s, k)
    case DelOp(k) => Del(s, k)
  }

  ghost function Run(s: seq<Node>, cap: nat, ops: seq<CacheOp>): seq<Node>
    requires cap > 0
    decreases |ops|
  {
    if ops == [] then s else Run(Step(s, cap, ops[0]), cap, ops[1..])
  }

  /** The keys a run puts or gets. */
  function Used(ops: seq<CacheOp>): set<Key> {
    if ops == [] then {} else (if ops[0].DelOp? then {} else {ops[0].key}) + Used(ops[1..])
  }

  /** The entry `k` should have after `ops` if nothing is ever evicted: the last put wins. */
  function LastPut(e: Entry, k: Key, ops: seq<CacheOp>): Entry
    decreases |ops|
  {
    if ops == [] then e
    else
      var op := ops[0];
      LastPut(if op.PutOp? && op.key == k then Entry(op.val, op.expireAt) else e, k, ops[1..])
  }

  /** `q` is nearer the head of the list than `k`. */
  ghost predicate Before(s: seq<Node>, q: Key, k: Key) {
    0 <= Find(s, q) < Find(s, k)
  }

  /** Every key nearer the head of the list than `k` is one of `used`. */
  ghost predicate AheadWithin(s: seq<Node>, k: Key, used: set<Key>) {
    forall q :: Before(s, q, k) ==> q in used
  }

  lemma StepFits(s: seq<Node>, cap: nat, op: CacheOp)
    requires Fits(s, cap) && cap > 0
    ensures Fits(Step(s, cap, op), cap)
  {
    match op
    case PutOp(k, v, e) => PutFind(s, cap, Node(k, v, e, false), k);
    case GetOp(k) => TouchFind(s, k, k);
    case DelOp(k) => DelFind(s, k, k);
  }

  lemma {:induction false} RunFits(s: seq<Node>, cap: nat, ops: seq<CacheOp>)
    requires Fits(s, cap) && cap > 0
    ensures Fits(Run(s, cap, ops), cap)
    decreases |ops|
  {
    if ops != [] {
      StepFits(s, cap, ops[0]);
      RunFits(Step(s, cap, ops[0]), cap, ops[1..]);
    }
  }

  lemma {:induction false} CountWithin(s: seq<Node>, used: set<Key>)
    requires Distinct(s) && forall j :: 0 <= j < |s| ==> s[j].key in used
    ensures |s| <= |used|
  {
    if s != [] {
      CountWithin(s[1..], used - {s[0].key});
    }
  }

  lemma {:induction false} CountBefore(s: seq<Node>, n: nat, used: set<Key>)
    requires Distinct(s) && n <= |s|
    requires forall q :: q in used ==> 0 <= Find(s, q) < n
    ensures |used| <= n
  {
    if n == 0 {
      assert used == {};
    } else {
      var x := s[n - 1].key;
      FindAt(s, n - 1);
      hide Distinct;
      forall q | q in used - {x} ensures 0 <= Find(s, q) < n - 1 {
        assert s[Find(s, q)].key == q;
      }
      CountBefore(s, n - 1, used - {x});
    }
  }

  lemma {:induction false} SubsetCount<T>(a: set<T>, b: set<T>)
    requires a <= b
    ensures |a| <= |b|
    decreases a
  {
    if a != {} {
      var x :| x in a;
      SubsetCount(a - {x}, b - {x});
    }
  }

  function UsedAfter(used: set<Key>, op: CacheOp, k: Key): set<Key> {
    if op.DelOp? || op.key == k then used else used + {op.key}
  }

  /** Who can come to stand before `k` in one step: only the key being put or got. */
  lemma StepBefore(s: seq<Node>, cap: nat, op: CacheOp, k: Key, q: Key)
    requires Fits(s, cap) && cap > 0 && Holds(s, k) && op != DelOp(k)
    ensures Before(Step(s, cap, op), q, k) ==> op.key != k && (Before(s, q, k) || (q == op.key && !op.DelOp?))
  {
    hide Put, Touch, Del, Distinct;
    match op
    case PutOp(key, v, e) =>
      PutFind(s, cap, Node(key, v, e, false), k);
      PutFind(s, cap, Node(key, v, e, false), q);
    case GetOp(key) =>
      TouchFind(s, key, k);
      TouchFind(s, key, q);
    case DelOp(key) =>
      DelFind(s, key, k);
      DelFind(s, key, q);
  }

  /** A key drops out only as the last of a full list, when a new key is put. */
  lemma StepHolds(s: seq<Node>, cap: nat, op: CacheOp, k: Key)
    requires Fits(s, cap) && cap > 0 && Holds(s, k)
    ensures Holds(Step(s, cap, op), k) ||
            (op.PutOp? && !Holds(s, op.key) && |s| == cap && Find(s, k) == cap - 1)
  {
    hide Put, Touch, Del, Distinct;
    match op
    case PutOp(key, v, e) => PutFind(s, cap, Node(key, v, e, false), k);
    case GetOp(key) => TouchFind(s, key, k);
    case DelOp(key) => DelFind(s, key, k);
  }

  /** After its own use a key is at the head; using another key puts at most that key ahead of it. */
  lemma AheadStep(s: seq<Node>, cap: nat, op: CacheOp, k: Key, used: set<Key>)
    requires Fits(s, cap) && cap > 0 && Holds(s, k) && op != DelOp(k) && AheadWithin(s, k, used)
    ensures var t := Step(s, cap, op);
            var used' := UsedAfter(used, op, k);
            if Holds(t, k) then AheadWithin(t, k, used') else |used'| >= cap
  {
    hide Distinct, Step;
    var t, used' := Step(s, cap, op), UsedAfter(used, op, k);
    forall q | Before(t, q, k) ensures q in used' {
      StepBefore(s, cap, op, k, q);
    }
    StepHolds(s, cap, op, k);
    if !Holds(t, k) {
      CountEvicted(s, k, op.key, used);
    }
  }

  lemma CountEvicted(s: seq<Node>, k: Key, q: Key, used: set<Key>)
    requires Distinct(s) && Find(s, k) == |s| - 1 && AheadWithin(s, k, used) && !Holds(s, q)
    ensures |used + {q}| >= |s|
  {
    forall j | 0 <= j < |s| - 1 ensures s[j].key in used - {q} {
      FindAt(s, j);
      assert Before(s, s[j].key, k);
    }
    if |s| > 0 { CountWithin(s[..|s| - 1], used - {q}); }
    assert used + {q} == (used - {q}) + {q};
  }

  /** One step of another key, or a use of `k` itself, leaves the entry of a key that stays. */
  lemma StepLookup(s: seq<Node>, cap: nat, op: CacheOp, k: Key)
    requires Fits(s, cap) && cap > 0 && Lookup(s, k).Some? && op != DelOp(k)
    ensures Holds(Step(s, cap, op), k) ==>
              Lookup(Step(s, cap, op), k) ==
              if op.PutOp? && op.key == k then Some(Entry(op.val, op.expireAt)) else Lookup(s, k)
  {
    hide Put, Touch, Del, Distinct;
    match op
    case PutOp(key, v, e) => PutFind(s, cap, Node(key, v, e, false), k);
    case GetOp(key) => TouchLookup(s, key, k);
    case DelOp(key) => DelLookup(s, key, k);
  }

  lemma UsedStep(used: set<Key>, ops: seq<CacheOp>, k: Key)
    requires ops != [] && k !in used
    ensures UsedAfter(used, ops[0], k) + Used(ops[1..]) - {k} == used + Used(ops) - {k}
    ensures |UsedAfter(used, ops[0], k)| <= |used + Used(ops) - {k}|
  {
    SubsetCount(UsedAfter(used, ops[0], k), used + Used(ops) - {k});
  }

  /**
  A key that is live with only keys of `used` ahead of it survives every run that does not delete it,
  as long as those keys and the ones the run uses number fewer than the capacity.
  */
  lemma {:induction false} Survives(s: seq<Node>, cap: nat, k: Key, ops: seq<CacheOp>, used: set<Key>)
    requires Fits(s, cap) && cap > 0
    requires Lookup(s, k).Some? && AheadWithin(s, k, used) && k !in used
    requires DelOp(k) !in ops
    requires |used + Used(ops) - {k}| < cap
    ensures Lookup(Run(s, cap, ops), k) == Some(LastPut(Lookup(s, k).value, k, ops))
    decreases |ops|
  {
    hide Fits, AheadWithin, Step, Used;
    if ops != [] {
      var op := ops[0];
      StepFits(s, cap, op);
      AheadStep(s, cap, op, k, used);
      StepLookup(s, cap, op, k);
      UsedStep(used, ops, k);
      Survives(Step(s, cap, op), cap, k, ops[1..], UsedAfter(used, op, k));
    }
  }

  lemma FirstUse(s: seq<Node>, cap: nat, first: CacheOp)
    requires Fits(s, cap) && cap > 0
    requires first.PutOp? || (first.GetOp? && Lookup(s, first.key).Some?)
    ensures var t := Step(s, cap, first);
            && Fits(t, cap) && Find(t, first.key) == 0
            && Lookup(t, first.key) ==
               (if first.PutOp? then Some(Entry(first.val, first.expireAt)) else Lookup(s, first.key))
  {
    hide Put, Touch, Distinct;
    var k := first.key;
    if first.PutOp? {
      PutFind(s, cap, Node(k, first.val, first.expireAt, false), k);
    } else {
      TouchFind(s, k, k);
    }
  }

  /**
  LRU retention. Once `k` has been put, or got while live, no sequence of puts, gets and deletes of
  other keys can push it out before `cap` distinct other keys have been put or got; until then it
  keeps exactly the entry last put for it.
  */
  lemma RetainedUntilCapOthersUsed(s: seq<Node>, cap: nat, first: CacheOp, ops: seq<CacheOp>)
    requires Fits(s, cap) && cap > 0
    requires first.PutOp? || (first.GetOp? && Lookup(s, first.key).Some?)
    requires DelOp(first.key) !in ops
    requires |Used(ops) - {first.key}| < cap
    ensures var k := first.key;
            var e := if first.PutOp? then Entry(first.val, first.expireAt) else Lookup(s, k).value;
            Lookup(Run(s, cap, [first] + ops), k) == Some(LastPut(e, k, ops))
  {
    hide Step, Fits;
    FirstUse(s, cap, first);
    assert ([first] + ops)[1..] == ops;
    assert {} + Used(ops) - {first.key} == Used(ops) - {first.key};
    Survives(Step(s, cap, first), cap, first.key, ops, {});
  }

  ghost predicate OnlyPutsOfOthers(ops: seq<CacheOp>, k: Key) {
    forall i :: 0 <= i < |ops| ==> ops[i].PutOp? && ops[i].key != k
  }

  lemma {:induction false} StaysGone(s: seq<Node>, cap: nat, k: Key, ops: seq<CacheOp>)
    requires Fits(s, cap) && cap > 0 && !Holds(s, k) && OnlyPutsOfOthers(ops, k)
    ensures !Holds(Run(s, cap, ops), k)
    decreases |ops|
  {
    hide Put, Distinct;
    if ops != [] {
      var op := ops[0];
      PutFind(s, cap, Node(op.key, op.val, op.expireAt, false), k);
      StaysGone(Step(s, cap, op), cap, k, ops[1..]);
    }
  }

  lemma PutPushesBack(s: seq<Node>, cap: nat, n: Node, k: Key, q: Key)
    requires Fits(s, cap) && cap > 0 && Holds(s, k) && n.key != k
    ensures var t := Put(s, cap, n).list;
            Holds(t, k) && (q == n.key || Before(s, q, k)) ==> Before(t, q, k)
  {
    hide Put, Distinct;
    PutFind(s, cap, n, k);
    PutFind(s, cap, n, q);
    if q != n.key && Find(s, n.key) < 0 && |s| >= cap && q != k {
      assert Find(s, q) == |s| - 1 ==> !Before(s, q, k);
    }
  }

  lemma {:induction false} PutsPushBack(s: seq<Node>, cap: nat, k: Key, ops: seq<CacheOp>, q: Key)
    requires Fits(s, cap) && cap > 0 && Holds(s, k) && OnlyPutsOfOthers(ops, k)
    requires Before(s, q, k) || q in Used(ops)
    ensures var t := Run(s, cap, ops); Holds(t, k) ==> Before(t, q, k)
    decreases |ops|
  {
    hide Put, Fits, Before;
    if ops != [] {
      var op := ops[0];
      var t := Step(s, cap, op);
      StepFits(s, cap, op);
      if Holds(t, k) {
        PutPushesBack(s, cap, Node(op.key, op.val, op.expireAt, false), k, q);
        PutsPushBack(t, cap, k, ops[1..], q);
      } else {
        StaysGone(t, cap, k, ops[1..]);
      }
    }
  }

  lemma {:induction false} NotUsed(ops: seq<CacheOp>, k: Key)
    requires OnlyPutsOfOthers(ops, k)
    ensures k !in Used(ops)
  {
    if ops != [] { NotUsed(ops[1..], k); }
  }

  /**
  The bound is exact: when a put of `k` is followed only by puts of other keys, `k` is still there
  if and only if fewer than `cap` distinct keys were put.
  */
  lemma RetentionIsTight(s: seq<Node>, cap: nat, first: CacheOp, ops: seq<CacheOp>)
    requires Fits(s, cap) && cap > 0 && first.PutOp? && OnlyPutsOfOthers(ops, first.key)
    ensures Holds(Run(s, cap, [first] + ops), first.key) <==> |Used(ops)| < cap
  {
    hide Step, Distinct, Used;
    var k, t := first.key, Step(s, cap, first);
    FirstUse(s, cap, first);
    assert ([first] + ops)[1..] == ops;
    NotUsed(ops, k);
    if |Used(ops)| < cap {
      assert Used(ops) - {k} == Used(ops);
      RetainedUntilCapOthersUsed(s, cap, first, ops);
    } else {
      var r := Run(t, cap, ops);
      RunFits(t, cap, ops);
      if Holds(r, k) {
        forall q | q in Used(ops) ensures 0 <= Find(r, q) < Find(r, k) {
          PutsPushBack(t, cap, k, ops, q);
        }
        CountBefore(r, Find(r, k), Used(ops));
      }
    }
  }

  // ----- Where deleted nodes end up -----

  /** No live node behind a deleted one. */
  ghost predicate LiveFirst(s: seq<Node>) {
    forall i, j :: 0 <= i < j < |s| && s[i].deleted ==> s[j].deleted
  }

  lemma LiveFirstCons(n: Node, s: seq<Node>)
    requires LiveFirst(s) && !n.deleted
    ensures LiveFirst([n] + s)
  {
    var t := [n] + s;
    assert forall j {:trigger t[j]} :: 0 < j < |t| ==> t[j] == s[j - 1];
  }

  lemma LiveFirstWithout(s: seq<Node>, k: nat)
    requires LiveFirst(s) && k < |s|
    ensures LiveFirst(Without(s, k)) && LiveFirst(s[..|s| - 1])
  {
    var t := Without(s, k);
    assert forall j {:trigger t[j]} :: 0 <= j < |t| ==> t[j] == s[if j < k then j else j + 1];
  }

  lemma PutLiveFirst(s: seq<Node>, cap: nat, n: Node)
    requires LiveFirst(s) && cap > 0 && !n.deleted
    ensures LiveFirst(Put(s, cap, n).list)
    ensures Put(s, cap, n).evicted.Some? ==> |s| >= cap && forall i :: 0 <= i < |s| ==> !s[i].deleted
  {
    var i := Find(s, n.key);
    LastLiveAllLive(s);
    hide LiveFirst, Without;
    if i >= 0 {
      LiveFirstWithout(s, i);
      LiveFirstCons(n, Without(s, i));
    } else if |s| >= cap {
      LiveFirstWithout(s, 0);
      LiveFirstCons(n, s[..|s| - 1]);
    } else {
      LiveFirstCons(n, s);
    }
  }

  lemma LastLiveAllLive(s: seq<Node>)
    requires LiveFirst(s)
    ensures s != [] && !s[|s| - 1].deleted ==> forall i :: 0 <= i < |s| ==> !s[i].deleted
  {
  }

  lemma DelLiveFirst(s: seq<Node>, k: Key)
    requires LiveFirst(s)
    ensures LiveFirst(Del(s, k))
  {
    var i, t := Find(s, k), Del(s, k);
    if i >= 0 && !s[i].deleted {
      assert forall j {:trigger t[j]} :: 0 <= j < |s| - 1 ==> t[j] == s[if j < i then j else j + 1];
    }
  }

  /**
  Without gets, deleted nodes form a suffix of the list after every run; a put then throws out a
  live entry only when every slot of the cache is live.
  */
  lemma {:induction false} PutsAndDelsKeepLiveFirst(s: seq<Node>, cap: nat, ops: seq<CacheOp>, n: Node)
    requires Fits(s, cap) && cap > 0 && LiveFirst(s) && !n.deleted
    requires forall i :: 0 <= i < |ops| ==> !ops[i].GetOp?
    ensures var t := Run(s, cap, ops);
            && LiveFirst(t)
            && (Put(t, cap, n).evicted.Some? ==> |t| == cap && forall i :: 0 <= i < cap ==> !t[i].deleted)
    decreases |ops|
  {
    hide Put, Del, LiveFirst;
    if ops == [] {
      PutLiveFirst(s, cap, n);
    } else {
      StepFits(s, cap, ops[0]);
      match ops[0] {
        case PutOp(k, v, e) => PutLiveFirst(s, cap, Node(k, v, e, false));
        case DelOp(k) => DelLiveFirst(s, k);
      }
      PutsAndDelsKeepLiveFirst(Step(s, cap, ops[0]), cap, ops[1..], n);
    }
  }
}
