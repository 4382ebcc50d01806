/**
The meaning of one level of the two-level store: a list of nodes, most recently used first, in
which a deleted entry stays behind as a dead node. `Put`, `Touch` and `Del` say what put, get and
del do to that list; the array representation that carries it out is in SlotCache.
*/
module RecencyList {
  import opened Types

  datatype Node = Node(key: Key, val: Value, expireAt: int, deleted: bool)

  datatype Entry = Entry(val: Value, expireAt: int)

  datatype PutResult = PutResult(list: seq<Node>, evicted: Option<Node>)

  ghost predicate Distinct(s: seq<Node>) {
    forall i, j :: 0 <= i < j < |s| ==> s[i].key != s[j].key
  }

  /** Every list a cache of capacity `cap` can hold. */
  ghost predicate Fits(s: seq<Node>, cap: nat) {
    Distinct(s) && |s| <= cap
  }

  /** The position of key `k`, or -1; when keys are distinct it is the only one. */
  ghost function Find(s: seq<Node>, k: Key): (i: int)
    ensures -1 <= i < |s|
    ensures i >= 0 ==> s[i].key == k
    ensures i < 0 ==> forall j :: 0 <= j < |s| ==> s[j].key != k
  {
    if i: nat :| i < |s| && s[i].key == k then i else -1
  }

  ghost function Put(s: seq<Node>, cap: nat, n: Node): PutResult
    requires cap > 0
  {
    var i := Find(s, n.key);
    if i >= 0 then PutResult([n] + Without(s, i), None)
    else if |s| >= cap then
      var tail := s[|s| - 1];
      PutResult([n] + s[..|s| - 1], if tail.deleted then None else Some(tail))
    else PutResult([n] + s, None)
  }

  ghost function Touch(s: seq<Node>, k: Key): seq<Node> {
    var i := Find(s, k);
    if i >= 0 then [s[i]] + Without(s, i) else s
  }

  ghost function Del(s: seq<Node>, k: Key): seq<Node> {
    var i := Find(s, k);
    if i >= 0 && !s[i].deleted then Without(s, i) + [s[i].(deleted := true)] else s
  }

  /** The live entry stored under `k`, if any. */
  ghost function Lookup(s: seq<Node>, k: Key): Option<Entry> {
    var i := Find(s, k);
    if i >= 0 && !s[i].deleted then Some(Entry(s[i].val, s[i].expireAt)) else None
  }

  /** The live nodes in list order. */
  function LiveNodes(s: seq<Node>): seq<Node> {
    if s == [] then []
    else
      var n := s[|s| - 1];
      LiveNodes(s[..|s| - 1]) + if n.deleted then [] else [n]
  }

  ghost predicate Holds(s: seq<Node>, k: Key) {
    Find(s, k) >= 0
  }

  lemma FindAt(s: seq<Node>, i: nat)
    requires Distinct(s) && i < |s|
    ensures Find(s, s[i].key) == i
  {
  }

  lemma FindOnly(s: seq<Node>, i: nat, k: Key)
    requires Distinct(s) && i < |s| && s[i].key == k
    ensures Find(s, k) == i
  {
  }

  lemma FindNone(s: seq<Node>, k: Key)
    requires forall j :: 0 <= j < |s| ==> s[j].key != k
    ensures Find(s, k) == -1
  {
  }

  /** Position of a node after the one at `i` has gone to the front. */
  function AfterMove(j: int, i: int): int {
    if j == i then 0 else if 0 <= j < i then j + 1 else j
  }

  lemma MovedToFront(s: seq<Node>, i: nat, n: Node, k: Key)
    requires Distinct(s) && i < |s| && n.key == s[i].key
    ensures var t := [n] + Without(s, i);
            && Distinct(t)
            && Find(t, k) == AfterMove(Find(s, k), i)
            && (Find(s, k) >= 0 ==> t[Find(t, k)] == if Find(s, k) == i then n else s[Find(s, k)])
  {
    var t := [n] + Without(s, i);
    assert forall j {:trigger t[j]} :: 0 <= j < |t| ==>
        t[j] == if j == 0 then n else s[if j <= i then j - 1 else j];
    DistinctMoved(s, i, n);
    var j := Find(s, k);
    if j >= 0 {
      FindOnly(t, AfterMove(j, i), k);
    } else {
      FindNone(t, k);
    }
  }

  lemma DistinctMoved(s: seq<Node>, i: nat, n: Node)
    requires Distinct(s) && i < |s| && n.key == s[i].key
    ensures Distinct([n] + Without(s, i)) && Distinct(Without(s, i) + [n])
  {
    var t := [n] + Without(s, i);
    forall a, b | 0 <= a < b < |t| ensures t[a].key != t[b].key {
      assert t[b] == s[if b <= i then b - 1 else b];
      assert a > 0 ==> t[a] == s[if a <= i then a - 1 else a];
    }
    var u := Without(s, i) + [n];
    forall a, b | 0 <= a < b < |u| ensures u[a].key != u[b].key {
      assert u[a] == s[if a < i then a else a + 1];
      assert b < |u| - 1 ==> u[b] == s[if b < i then b else b + 1];
    }
  }

  /** Position of a node after the one at `i` has gone to the back. */
  function AfterDrop(j: int, i: int, len: int): int {
    if j == i then len - 1 else if j > i then j - 1 else j
  }

  lemma MovedToBack(s: seq<Node>, i: nat, n: Node, k: Key)
    requires Distinct(s) && i < |s| && n.key == s[i].key
    ensures var t := Without(s, i) + [n];
            && Distinct(t)
            && Find(t, k) == AfterDrop(Find(s, k), i, |s|)
            && (Find(s, k) >= 0 ==> t[Find(t, k)] == if Find(s, k) == i then n else s[Find(s, k)])
  {
    var t := Without(s, i) + [n];
    assert forall j {:trigger t[j]} :: 0 <= j < |t| ==>
        t[j] == if j == |s| - 1 then n else s[if j < i then j else j + 1];
    DistinctMoved(s, i, n);
    var j := Find(s, k);
    if j >= 0 {
      FindOnly(t, AfterDrop(j, i, |s|), k);
    } else {
      FindNone(t, k);
    }
  }

  // ----- What each operation does to the position and the node of every key -----

  ghost function PutPosition(s: seq<Node>, cap: nat, n: Node, k: Key): int {
    var i, j := Find(s, n.key), Find(s, k);
    if i >= 0 then AfterMove(j, i)
    else if k == n.key then 0
    else if j < 0 || (|s| >= cap && j == |s| - 1) then -1
    else j + 1
  }

  ghost function Evicted(s: seq<Node>, cap: nat, k: Key): Option<Node>
    requires cap > 0
  {
    if !Holds(s, k) && |s| >= cap && !s[|s| - 1].deleted then Some(s[|s| - 1]) else None
  }

  lemma ConsFind(s: seq<Node>, n: Node, k: Key)
    requires Distinct(s) && !Holds(s, n.key)
    ensures var t := [n] + s;
            && Distinct(t)
            && Find(t, k) == (if k == n.key then 0 else if Holds(s, k) then Find(s, k) + 1 else -1)
            && (Find(t, k) >= 0 ==> t[Find(t, k)] == if k == n.key then n else s[Find(s, k)])
  {
    var t := [n] + s;
    assert forall j {:trigger t[j]} :: 0 <= j < |t| ==> t[j] == if j == 0 then n else s[j - 1];
    if k == n.key {
      FindOnly(t, 0, k);
    } else if Holds(s, k) {
      FindOnly(t, Find(s, k) + 1, k);
    } else {
      FindNone(t, k);
    }
  }

  lemma InitFind(s: seq<Node>, k: Key)
    requires Distinct(s) && |s| > 0
    ensures var t := s[..|s| - 1];
            && Distinct(t)
            && Find(t, k) == (if Find(s, k) == |s| - 1 then -1 else Find(s, k))
  {
    var t := s[..|s| - 1];
    if 0 <= Find(s, k) < |s| - 1 {
      FindOnly(t, Find(s, k), k);
    } else {
      FindNone(t, k);
    }
  }

  lemma PutFind(s: seq<Node>, cap: nat, n: Node, k: Key)
    requires Fits(s, cap) && cap > 0
    ensures var t := Put(s, cap, n).list;
            && Fits(t, cap)
            && Find(t, k) == PutPosition(s, cap, n, k)
            && Put(s, cap, n).evicted == Evicted(s, cap, n.key)
            && (Find(t, k) >= 0 ==> t[Find(t, k)] == if k == n.key then n else s[Find(s, k)])
  {
    var i := Find(s, n.key);
    if i >= 0 {
      MovedToFront(s, i, n, k);
    } else if |s| >= cap {
      InitFind(s, k);
      InitFind(s, n.key);
      ConsFind(s[..|s| - 1], n, k);
    } else {
      ConsFind(s, n, k);
    }
  }

  lemma TouchFind(s: seq<Node>, q: Key, k: Key)
    requires Distinct(s)
    ensures var t := Touch(s, q);
            && Distinct(t) && |t| == |s|
            && Find(t, k) == (if Holds(s, q) then AfterMove(Find(s, k), Find(s, q)) else Find(s, k))
            && (Holds(s, k) ==> t[Find(t, k)] == s[Find(s, k)])
  {
    var i := Find(s, q);
    if i >= 0 {
      MovedToFront(s, i, s[i], k);
    }
  }

  lemma DelFind(s: seq<Node>, q: Key, k: Key)
    requires Distinct(s)
    ensures var t := Del(s, q);
            && Distinct(t) && |t| == |s|
            && Find(t, k) == (if Lookup(s, q).Some? then AfterDrop(Find(s, k), Find(s, q), |s|) else Find(s, k))
            && (Holds(s, k) ==> t[Find(t, k)] == if k == q then s[Find(s, k)].(deleted := true) else s[Find(s, k)])
  {
    var i := Find(s, q);
    if i >= 0 && !s[i].deleted {
      MovedToBack(s, i, s[i].(deleted := true), k);
    }
  }

  /** A put binds its own key and forgets at most the evicted one. */
  lemma PutLookup(s: seq<Node>, cap: nat, n: Node, k: Key)
    requires Fits(s, cap) && cap > 0 && !n.deleted
    ensures var r := Put(s, cap, n);
            && Fits(r.list, cap)
            && Lookup(r.list, k) ==
               if k == n.key then Some(Entry(n.val, n.expireAt))
               else if r.evicted.Some? && r.evicted.value.key == k then None
               else Lookup(s, k)
  {
    hide Put, Distinct;
    PutFind(s, cap, n, k);
    if !Holds(s, n.key) && |s| >= cap && Find(s, k) != |s| - 1 {
      FindAt(s, |s| - 1);
    }
  }

  lemma TouchLookup(s: seq<Node>, q: Key, k: Key)
    requires Distinct(s)
    ensures Lookup(Touch(s, q), k) == Lookup(s, k)
  {
    TouchFind(s, q, k);
  }

  lemma DelLookup(s: seq<Node>, q: Key, k: Key)
    requires Distinct(s)
    ensures Lookup(Del(s, q), k) == if k == q then None else Lookup(s, k)
  {
    DelFind(s, q, k);
  }
}
