/**
One level of the two-level store as it is laid out in memory: a preallocated slot array, a circular
doubly linked list threaded through an index array whose row 0 is the sentinel, and a map from keys
to slots. Each method is proved to do to the list of nodes what RecencyList says.
*/
module SlotCache {
  import opened Types
  import opened RecencyList

  type uint16 = x: int | 0 <= x < 65536

  const PREV: uint16 := 0
  const NEXT: uint16 := 1

  // ----- The linked list, as two columns of indices -----

  predicate SlotSeq(s: seq<uint16>, rows: int) {
    forall j :: 0 <= j < |s| ==> 1 <= s[j] < rows
  }

  /** The slot at position `j`; the sentinel stands before the first and after the last. */
  function At(s: seq<uint16>, j: int): uint16 {
    if 0 <= j < |s| then s[j] else 0
  }

  /** Following `to` from the sentinel visits `s` and returns to the sentinel; `from` is the mirror image. */
  ghost predicate Linked(from: seq<uint16>, to: seq<uint16>, s: seq<uint16>) {
    && |from| == |to| > 0
    && SlotSeq(s, |to|)
    && NoDuplicates(s)
    && to[0] == At(s, 0)
    && from[0] == At(s, |s| - 1)
    && (forall j {:trigger to[s[j]]} :: 0 <= j < |s| ==> to[s[j]] == At(s, j + 1))
    && (forall j {:trigger from[s[j]]} :: 0 <= j < |s| ==> from[s[j]] == At(s, j - 1))
  }

  function Reverse<T>(s: seq<T>): (r: seq<T>)
    ensures |r| == |s| && forall j :: 0 <= j < |s| ==> r[j] == s[|s| - 1 - j]
  {
    seq(|s|, j requires 0 <= j < |s| => s[|s| - 1 - j])
  }

  lemma ReverseNoDuplicates(s: seq<uint16>)
    requires NoDuplicates(s)
    ensures NoDuplicates(Reverse(s))
  {
    var r, last := Reverse(s), |s| - 1;
    forall i, j | 0 <= i < j < |r| ensures r[i] != r[j] {
      assert s[last - j] != s[last - i];
    }
  }

  lemma LinkedReverse(from: seq<uint16>, to: seq<uint16>, s: seq<uint16>)
    requires Linked(from, to, s)
    ensures Linked(to, from, Reverse(s))
  {
    hide NoDuplicates;
    var r, last := Reverse(s), |s| - 1;
    ReverseNoDuplicates(s);
    forall j | 0 <= j < |r| ensures from[r[j]] == At(r, j + 1) && to[r[j]] == At(r, j - 1) {
      assert r[j] == s[last - j];
      assert from[s[last - j]] == At(s, last - j - 1) && to[s[last - j]] == At(s, last - j + 1);
    }
  }

  /** The columns after slot `s[k]`, not already first, has been unlinked and put first. */
  ghost predicate Relinked(from: seq<uint16>, to: seq<uint16>, s: seq<uint16>, k: nat,
                           from': seq<uint16>, to': seq<uint16>)
    requires Linked(from, to, s) && 0 < k < |s|
  {
    var i, next := s[k], to[s[k]];
    && |from'| == |to'| == |to|
    && (forall x :: 0 <= x < |to| ==>
          to'[x] == if x == 0 then i else if x == i then s[0] else if x == s[k - 1] then next else to[x])
    && (forall x :: 0 <= x < |to| ==>
          from'[x] == if x == i then 0 else if x == s[0] then i else if x == next then s[k - 1] else from[x])
  }

  function MovedFirst<T>(s: seq<T>, k: nat): (r: seq<T>)
    requires k < |s|
    ensures |r| == |s|
    ensures forall j :: 0 <= j < |r| ==> r[j] == s[if j == 0 then k else if j <= k then j - 1 else j]
  {
    [s[k]] + Without(s, k)
  }

  lemma MovedFirstNoDuplicates<T>(s: seq<T>, k: nat)
    requires k < |s| && NoDuplicates(s)
    ensures NoDuplicates(MovedFirst(s, k))
    ensures forall x :: x in s <==> x in MovedFirst(s, k)
  {
    var r := MovedFirst(s, k);
    forall x | x in s ensures x in r {
      var j :| 0 <= j < |s| && s[j] == x;
      assert r[if j == k then 0 else if j < k then j + 1 else j] == x;
    }
  }

  lemma RelinkedAt(from: seq<uint16>, to: seq<uint16>, s: seq<uint16>, k: nat,
                   from': seq<uint16>, to': seq<uint16>, j: nat)
    requires Linked(from, to, s) && 0 < k < |s| && Relinked(from, to, s, k, from', to') && j < |s|
    ensures var r := MovedFirst(s, k);
            to'[r[j]] == At(r, j + 1) && from'[r[j]] == At(r, j - 1)
  {
    var r := MovedFirst(s, k);
    var p := if j == 0 then k else if j <= k then j - 1 else j;
    var x := s[p];
    assert r[j] == x;
    assert to[x] == At(s, p + 1) && from[x] == At(s, p - 1);
    assert x == s[0] <==> p == 0;
    assert x == s[k - 1] <==> p == k - 1;
    assert x == to[s[k]] <==> p == k + 1;
  }

  lemma RelinkedEnds(from: seq<uint16>, to: seq<uint16>, s: seq<uint16>, k: nat,
                     from': seq<uint16>, to': seq<uint16>)
    requires Linked(from, to, s) && 0 < k < |s| && Relinked(from, to, s, k, from', to')
    ensures var r := MovedFirst(s, k);
            |from'| == |to'| == |to| && to'[0] == At(r, 0) && from'[0] == At(r, |r| - 1)
  {
    assert to[s[k]] == At(s, k + 1);
    assert MovedFirst(s, k)[|s| - 1] == if k == |s| - 1 then s[k - 1] else s[|s| - 1];
  }

  lemma RelinkedIsLinked(from: seq<uint16>, to: seq<uint16>, s: seq<uint16>, k: nat,
                         from': seq<uint16>, to': seq<uint16>)
    requires Linked(from, to, s) && 0 < k < |s| && Relinked(from, to, s, k, from', to')
    ensures Linked(from', to', MovedFirst(s, k))
  {
    hide NoDuplicates, Relinked, At;
    var r := MovedFirst(s, k);
    MovedFirstNoDuplicates(s, k);
    RelinkedEnds(from, to, s, k, from', to');
    forall j | 0 <= j < |r| ensures to'[r[j]] == At(r, j + 1) && from'[r[j]] == At(r, j - 1) {
      RelinkedAt(from, to, s, k, from', to', j);
    }
  }

  /** Linking in a fresh slot `x` before the first one. */
  lemma ConsIsLinked(from: seq<uint16>, to: seq<uint16>, s: seq<uint16>, x: uint16,
                     from': seq<uint16>, to': seq<uint16>)
    requires Linked(from, to, s) && 1 <= x < |to| && x !in s
    requires |from'| == |from| && from' == from[to[0] := x][x := 0]
    requires |to'| == |to| && to' == to[x := to[0]][0 := x]
    ensures Linked(from', to', [x] + s)
  {
    var r := [x] + s;
    forall j | 0 <= j < |r| ensures to'[r[j]] == At(r, j + 1) && from'[r[j]] == At(r, j - 1) {
      if j > 0 {
        var y := s[j - 1];
        assert r[j] == y;
        assert to[y] == At(s, j) && from[y] == At(s, j - 2);
      }
    }
  }

  /** Moving a slot to the front of the reversed list moves it to the back of the list. */
  lemma MovedFirstReversed<T>(s: seq<T>, k: nat)
    requires k < |s|
    ensures Reverse(MovedFirst(Reverse(s), |s| - 1 - k)) == Without(s, k) + [s[k]]
  {
  }

  ghost function Column(d: array2<uint16>, c: uint16): (r: seq<uint16>)
    requires c < d.Length1
    reads d
    ensures |r| == d.Length0 && forall x :: 0 <= x < d.Length0 ==> r[x] == d[x, c]
  {
    seq(d.Length0, x requires 0 <= x < d.Length0 reads d => d[x, c])
  }

  // ----- Slots and keys -----

  /** The nodes in list order. */
  ghost function Nodes(order: seq<uint16>, m: seq<Node>): (r: seq<Node>)
    requires SlotSeq(order, |m| + 1)
    ensures |r| == |order| && forall j :: 0 <= j < |r| ==> r[j] == m[order[j] - 1]
  {
    seq(|order|, j requires 0 <= j < |order| => m[order[j] - 1])
  }

  /** The key map is a bijection between the stored keys and the used slots. */
  ghost predicate Indexed(hmap: map<Key, uint16>, m: seq<Node>, last: int) {
    && 0 <= last <= |m|
    && (forall k :: k in hmap ==> 1 <= hmap[k] <= last && m[hmap[k] - 1].key == k)
    && (forall i :: 0 <= i < last ==> m[i].key in hmap && hmap[m[i].key] == i + 1)
  }

  /** `order` lists the slots 1 to `last`, each once. */
  ghost predicate Lists(order: seq<uint16>, last: int) {
    && NoDuplicates(order)
    && |order| == last
    && (forall j :: 0 <= j < |order| ==> 1 <= order[j] <= last)
    && (forall i :: 1 <= i <= last ==> i in order)
  }

  lemma NodesDistinct(order: seq<uint16>, m: seq<Node>, hmap: map<Key, uint16>)
    requires Lists(order, |order|) && Indexed(hmap, m, |order|)
    ensures Distinct(Nodes(order, m))
  {
    var s := Nodes(order, m);
    forall i, j | 0 <= i < j < |s| ensures s[i].key != s[j].key {
      assert hmap[m[order[i] - 1].key] == order[i] && hmap[m[order[j] - 1].key] == order[j];
    }
  }

  /** Looking a key up in the map finds its position in the list. */
  lemma PositionOf(order: seq<uint16>, m: seq<Node>, hmap: map<Key, uint16>, key: Key) returns (k: int)
    requires Lists(order, |order|) && Indexed(hmap, m, |order|)
    ensures k == Find(Nodes(order, m), key)
    ensures k >= 0 <==> key in hmap
    ensures k >= 0 ==> order[k] == hmap[key] && 1 <= order[k] <= |m| && m[order[k] - 1].key == key
  {
    NodesDistinct(order, m, hmap);
    k := Find(Nodes(order, m), key);
    if key in hmap {
      assert hmap[key] in order;
      var j :| 0 <= j < |order| && order[j] == hmap[key];
      FindAt(Nodes(order, m), j);
    }
  }

  lemma NodesMovedFirst(order: seq<uint16>, m: seq<Node>, k: nat, n: Node)
    requires Lists(order, |order|) && k < |order| <= |m|
    ensures SlotSeq(order, |m| + 1) && SlotSeq(MovedFirst(order, k), |m| + 1)
    ensures Nodes(MovedFirst(order, k), m[order[k] - 1 := n]) == [n] + Without(Nodes(order, m), k)
  {
  }

  lemma NodesMovedLast(order: seq<uint16>, m: seq<Node>, k: nat, n: Node)
    requires Lists(order, |order|) && k < |order| <= |m|
    ensures SlotSeq(order, |m| + 1) && SlotSeq(Without(order, k) + [order[k]], |m| + 1)
    ensures Nodes(Without(order, k) + [order[k]], m[order[k] - 1 := n]) == Without(Nodes(order, m), k) + [n]
  {
  }

  lemma ListsMovedFirst(order: seq<uint16>, k: nat)
    requires Lists(order, |order|) && k < |order|
    ensures Lists(MovedFirst(order, k), |order|)
    ensures 1 <= order[k] <= |order|
  {
    var r := MovedFirst(order, k);
    MovedFirstNoDuplicates(order, k);
    forall i | 1 <= i <= |order| ensures i in r {
      assert i in order;
    }
  }

  lemma ListsMovedLast(order: seq<uint16>, k: nat)
    requires Lists(order, |order|) && k < |order|
    ensures Lists(Without(order, k) + [order[k]], |order|)
    ensures 1 <= order[k] <= |order|
  {
    var r := Without(order, k) + [order[k]];
    assert forall j {:trigger r[j]} :: 0 <= j < |r| - 1 ==> r[j] == order[if j < k then j else j + 1];
    assert r[|r| - 1] == order[k];
    forall i | 1 <= i <= |order| ensures i in r {
      assert i in order;
      var j :| 0 <= j < |order| && order[j] == i;
      assert r[if j == k then |order| - 1 else if j < k then j else j - 1] == i;
    }
  }

  lemma ListsCons(order: seq<uint16>)
    requires Lists(order, |order|) && |order| < 65535
    ensures Lists([|order| + 1] + order, |order| + 1)
    ensures |order| + 1 !in order
  {
    var r := [|order| + 1] + order;
    forall i | 1 <= i <= |order| + 1 ensures i in r {
      if i <= |order| { assert i in order; }
    }
  }

  lemma NodesCons(order: seq<uint16>, m: seq<Node>, n: Node)
    requires Lists(order, |order|) && |order| < |m| < 65535
    ensures Nodes([|order| + 1] + order, m[|order| := n]) == [n] + Nodes(order, m)
  {
  }

  lemma IndexedRewritten(hmap: map<Key, uint16>, m: seq<Node>, last: int, i: uint16, n: Node)
    requires Indexed(hmap, m, last) && 1 <= i <= last && n.key !in hmap
    ensures Indexed((hmap - {m[i - 1].key})[n.key := i], m[i - 1 := n], last)
  {
  }

  lemma IndexedUpdated(hmap: map<Key, uint16>, m: seq<Node>, last: int, i: uint16, n: Node)
    requires Indexed(hmap, m, last) && 1 <= i <= last && n.key == m[i - 1].key
    ensures Indexed(hmap, m[i - 1 := n], last)
  {
  }

  lemma IndexedInserted(hmap: map<Key, uint16>, m: seq<Node>, last: int, n: Node)
    requires Indexed(hmap, m, last) && last < |m| < 65535 && n.key !in hmap
    ensures Indexed(hmap[n.key := last + 1], m[last := n], last + 1)
    ensures |hmap| == 0 <==> last == 0
  {
    if last > 0 { assert m[0].key in hmap; }
    if |hmap| > 0 { var k :| k in hmap; }
  }

  lemma LinkedEnds(from: seq<uint16>, to: seq<uint16>, s: seq<uint16>)
    requires Linked(from, to, s)
    ensures |from| == |to| > 0 && to[0] == At(s, 0) < |to| && from[0] == At(s, |s| - 1) < |to|
  {
  }

  class Cache {
    const capacity: uint16
    const dlnk: array2<uint16>
    const m: array<Node>
    var hmap: map<Key, uint16>
    var last: uint16
    ghost var order: seq<uint16>

    ghost predicate Shape() {
      && 1 <= capacity < 65535
      && dlnk.Length0 == capacity + 1
      && dlnk.Length1 == 2
      && m.Length == capacity
    }

    ghost predicate Valid()
      reads this, dlnk, m
    {
      && Shape()
      && |order| == last <= capacity
      && Lists(order, last)
      && Indexed(hmap, m[..], last)
      && Linked(Column(dlnk, PREV), Column(dlnk, NEXT), order)
    }

    /** The list this cache represents, most recently used first. */
    ghost function Contents(): seq<Node>
      requires Valid()
      reads this, dlnk, m
    {
      Nodes(order, m[..])
    }

    lemma ContentsFit()
      requires Valid()
      ensures Fits(Contents(), capacity)
    {
      hide Linked;
      NodesDistinct(order, m[..], hmap);
    }

    /** Capacity 65535 is excluded: cap+1 would wrap to 0 and leave no sentinel. */
    constructor (cap: uint16)
      requires 1 <= cap < 65535
      ensures Valid() && fresh(dlnk) && fresh(m)
      ensures capacity == cap && Contents() == []
    {
      capacity := cap;
      dlnk := new uint16[cap + 1, 2]((i, j) => 0);
      m := new Node[cap](i => Node(EMPTY, Nil, 0, false));
      hmap := map[];
      last := 0;
      order := [];
    }

    /**
    Moves slot `idx` to the end of the list at which `dlnk[0][t]` points. `s` is the list read in
    direction `t`: the list itself when t is NEXT, its reverse when t is PREV.
    */
    method Adjust(idx: uint16, f: uint16, t: uint16, ghost s: seq<uint16>, ghost k: nat)
      requires Shape() && f + t == 1
      requires Linked(Column(dlnk, f), Column(dlnk, t), s) && k < |s| && s[k] == idx
      modifies dlnk
      ensures Linked(Column(dlnk, f), Column(dlnk, t), MovedFirst(s, k))
    {
      ghost var from, to := Column(dlnk, f), Column(dlnk, t);
      assert from[s[k]] == At(s, k - 1) && to[s[k]] == At(s, k + 1);
      if dlnk[idx, f] != 0 {
        dlnk[dlnk[idx, t], f] := dlnk[idx, f];
        dlnk[dlnk[idx, f], t] := dlnk[idx, t];
        dlnk[idx, f] := 0;
        dlnk[idx, t] := dlnk[0, t];
        dlnk[dlnk[0, t], f] := idx;
        dlnk[0, t] := idx;
        assert Relinked(from, to, s, k, Column(dlnk, f), Column(dlnk, t));
        RelinkedIsLinked(from, to, s, k, Column(dlnk, f), Column(dlnk, t));
      } else {
        assert MovedFirst(s, k) == s;
      }
    }

    method MoveToHead(idx: uint16, ghost k: nat)
      requires Shape() && Linked(Column(dlnk, PREV), Column(dlnk, NEXT), order)
      requires k < |order| && order[k] == idx
      modifies this`order, dlnk
      ensures Linked(Column(dlnk, PREV), Column(dlnk, NEXT), order)
      ensures order == MovedFirst(old(order), k)
    {
      Adjust(idx, PREV, NEXT, order, k);
      order := MovedFirst(order, k);
    }

    method MoveToTail(idx: uint16, ghost k: nat)
      requires Shape() && Linked(Column(dlnk, PREV), Column(dlnk, NEXT), order)
      requires k < |order| && order[k] == idx
      modifies this`order, dlnk
      ensures Linked(Column(dlnk, PREV), Column(dlnk, NEXT), order)
      ensures order == Without(old(order), k) + [idx]
    {
      LinkedReverse(Column(dlnk, PREV), Column(dlnk, NEXT), order);
      ghost var r, j := Reverse(order), |order| - 1 - k;
      Adjust(idx, NEXT, PREV, r, j);
      LinkedReverse(Column(dlnk, NEXT), Column(dlnk, PREV), MovedFirst(r, j));
      MovedFirstReversed(order, k);
      order := Reverse(MovedFirst(r, j));
    }

    method Put(key: Key, val: Value, expireAt: int) returns (ev: Option<Node>)
      requires Valid()
      modifies this, dlnk, m
      ensures Valid()
      ensures var r := RecencyList.Put(old(Contents()), capacity, Node(key, val, expireAt, false));
              Contents() == r.list && ev == r.evicted
    {
      hide Linked, Indexed, Lists;
      ghost var k := PositionOf(order, m[..], hmap, key);
      ghost var was := Contents();
      var n := Node(key, val, expireAt, false);
      if key in hmap {
        Update(hmap[key], n, k);
        return None;
      }
      if last == capacity {
        k := |order| - 1;
        assert Without(was, k) == was[..k];
        var idx := Tail();
        ListsMovedFirst(order, k);
        assert was[k] == m[idx - 1];
        ev := if !m[idx - 1].deleted then Some(m[idx - 1]) else None;
        Replace(idx, n, k);
        return;
      }
      Insert(n);
      return None;
    }

    /** The branch of put for a key that has a slot already. */
    method Update(idx: uint16, n: Node, ghost k: nat)
      requires Valid() && k < |order| && order[k] == idx && n.key == m[idx - 1].key
      modifies this`order, dlnk, m
      ensures Valid() && Contents() == [n] + Without(old(Contents()), k)
    {
      hide Linked, Indexed, Lists;
      ListsMovedFirst(order, k);
      NodesMovedFirst(order, m[..], k, n);
      IndexedUpdated(hmap, m[..], last, idx, n);
      ghost var was := m[..];
      m[idx - 1] := n;
      assert m[..] == was[idx - 1 := n];
      MoveToHead(idx, k);
    }

    method Tail() returns (idx: uint16)
      requires Shape() && Linked(Column(dlnk, PREV), Column(dlnk, NEXT), order)
      ensures idx == At(order, |order| - 1)
    {
      LinkedEnds(Column(dlnk, PREV), Column(dlnk, NEXT), order);
      idx := dlnk[0, PREV];
    }

    /** The branch of put for a new key when every slot is used: slot `idx` changes hands. */
    method Replace(idx: uint16, n: Node, ghost k: nat)
      requires Valid() && k < |order| && order[k] == idx && n.key !in hmap
      modifies this`hmap, this`order, dlnk, m
      ensures Valid() && Contents() == [n] + Without(old(Contents()), k)
    {
      hide Linked, Indexed, Lists;
      ListsMovedFirst(order, k);
      NodesMovedFirst(order, m[..], k, n);
      Rebind(idx, n);
      MoveToHead(idx, k);
    }

    method Rebind(idx: uint16, n: Node)
      requires Indexed(hmap, m[..], last) && 1 <= idx <= last && n.key !in hmap
      modifies this`hmap, m
      ensures Indexed(hmap, m[..], last) && m[..] == old(m[..])[idx - 1 := n]
    {
      IndexedRewritten(hmap, m[..], last, idx, n);
      hmap := hmap - {m[idx - 1].key};
      m[idx - 1] := n;
      hmap := hmap[n.key := idx];
    }

    /** The branch of put that takes the next unused slot. */
    method Insert(n: Node)
      requires Valid() && last < capacity && n.key !in hmap
      modifies this, dlnk, m
      ensures Valid() && Contents() == [n] + old(Contents())
    {
      hide Linked, Indexed, Lists;
      ghost var was := m[..];
      IndexedInserted(hmap, was, last, n);
      ListsCons(order);
      NodesCons(order, was, n);
      last := last + 1;
      LinkFirst(last, |hmap| <= 0);
      m[last - 1] := n;
      assert m[..] == was[last - 1 := n];
      hmap := hmap[n.key := last];
      order := [last] + order;
    }

    method LinkFirst(slot: uint16, empty: bool)
      requires Shape() && Linked(Column(dlnk, PREV), Column(dlnk, NEXT), order)
      requires 1 <= slot <= capacity && slot !in order && (empty <==> order == [])
      modifies dlnk
      ensures Linked(Column(dlnk, PREV), Column(dlnk, NEXT), [slot] + order)
    {
      hide Linked;
      ghost var from, to := Column(dlnk, PREV), Column(dlnk, NEXT);
      LinkedEnds(from, to, order);
      if empty {
        dlnk[0, PREV] := slot;
      } else {
        dlnk[dlnk[0, NEXT], PREV] := slot;
      }
      dlnk[slot, PREV], dlnk[slot, NEXT] := 0, dlnk[0, NEXT];
      dlnk[0, NEXT] := slot;
      ghost var head: uint16 := to[0];
      assert Column(dlnk, PREV) == from[head := slot][slot := 0];
      assert Column(dlnk, NEXT) == to[slot := head][0 := slot];
      ConsIsLinked(from, to, order, slot, Column(dlnk, PREV), Column(dlnk, NEXT));
    }

    method Get(key: Key) returns (r: Option<Node>)
      requires Valid()
      modifies this`order, dlnk
      ensures Valid() && Contents() == Touch(old(Contents()), key)
      ensures var k := Find(old(Contents()), key);
              r == if k >= 0 then Some(old(Contents())[k]) else None
    {
      hide Linked, Indexed, Lists;
      ghost var k := PositionOf(order, m[..], hmap, key);
      if key in hmap {
        var idx := hmap[key];
        ListsMovedFirst(order, k);
        NodesMovedFirst(order, m[..], k, m[idx - 1]);
        assert m[..] == m[..][idx - 1 := m[idx - 1]];
        MoveToHead(idx, k);
        return Some(m[idx - 1]);
      }
      return None;
    }

    /** A hit returns the node as it was, apart from the mark it now carries. */
    method Del(key: Key) returns (r: Option<Node>)
      requires Valid()
      modifies this`order, dlnk, m
      ensures Valid() && Contents() == RecencyList.Del(old(Contents()), key)
      ensures var k := Find(old(Contents()), key);
              r == if k >= 0 && !old(Contents())[k].deleted
                   then Some(old(Contents())[k].(deleted := true)) else None
    {
      hide Linked, Indexed, Lists;
      ghost var k := PositionOf(order, m[..], hmap, key);
      if key in hmap && !m[hmap[key] - 1].deleted {
        var idx := hmap[key];
        ListsMovedLast(order, k);
        NodesMovedLast(order, m[..], k, m[idx - 1].(deleted := true));
        IndexedUpdated(hmap, m[..], last, idx, m[idx - 1].(deleted := true));
        ghost var was := m[..];
        m[idx - 1] := m[idx - 1].(deleted := true);
        assert m[..] == was[idx - 1 := m[idx - 1]];
        MoveToTail(idx, k);
        return Some(m[idx - 1]);
      }
      return None;
    }

    /** Follows the successor links from the sentinel until they lead back to it. */
    method Walk() returns (live: seq<Node>)
      requires Valid()
      ensures live == LiveNodes(Contents())
    {
      hide Indexed;
      live := [];
      assert Column(dlnk, NEXT)[0] == At(order, 0);
      var idx := dlnk[0, NEXT];
      ghost var j := 0;
      while idx != 0
        invariant 0 <= j <= |order| && idx == At(order, j)
        invariant live == LiveNodes(Contents()[..j])
        decreases |order| - j
      {
        assert Contents()[..j + 1][..j] == Contents()[..j];
        assert Column(dlnk, NEXT)[order[j]] == At(order, j + 1);
        if !m[idx - 1].deleted {
          live := live + [m[idx - 1]];
        }
        idx := dlnk[idx, NEXT];
        j := j + 1;
      }
      assert Contents()[..j] == Contents();
    }
  }
}
