/** The sorted list of points as the ring handles it: sorting, binary search and removal of points. */
module PointList {
  import opened Types
  import opened RingSpec

  function Insert(x: int, s: seq<int>): seq<int> {
    if s == [] || x <= s[0] then [x] + s else [s[0]] + Insert(x, s[1..])
  }

  function Sort(s: seq<int>): seq<int> {
    if s == [] then [] else Insert(s[0], Sort(s[1..]))
  }

  ghost predicate NonDecreasing(s: seq<int>) {
    forall i, j :: 0 <= i < j < |s| ==> s[i] <= s[j]
  }

  lemma InsertLater(x: int, s: seq<int>)
    requires s != [] && x > s[0]
    ensures Insert(x, s) == [s[0]] + Insert(x, s[1..])
  {
  }

  lemma InsertedAbove(x: int, s: seq<int>)
    requires NonDecreasing(s) && s != [] && x > s[0]
    requires NonDecreasing(Insert(x, s[1..])) && multiset(Insert(x, s[1..])) == multiset{x} + multiset(s[1..])
    ensures NonDecreasing(Insert(x, s)) && multiset(Insert(x, s)) == multiset{x} + multiset(s)
  {
    hide Insert;
    InsertLater(x, s);
    var t := Insert(x, s[1..]);
    assert s == [s[0]] + s[1..];
    forall i | 0 <= i < |t| ensures s[0] <= t[i] {
      assert t[i] in multiset(t);
    }
  }

  lemma {:induction false} InsertSorts(x: int, s: seq<int>)
    requires NonDecreasing(s)
    ensures NonDecreasing(Insert(x, s)) && multiset(Insert(x, s)) == multiset{x} + multiset(s)
  {
    if s != [] && x > s[0] {
      InsertSorts(x, s[1..]);
      InsertedAbove(x, s);
    }
  }

  /** Sorting lists the same points, repeated ones as often, in order. */
  lemma {:induction false} SortSorts(s: seq<int>)
    ensures NonDecreasing(Sort(s)) && multiset(Sort(s)) == multiset(s)
  {
    if s != [] {
      SortSorts(s[1..]);
      assert s == [s[0]] + s[1..];
      InsertSorts(s[0], Sort(s[1..]));
    }
  }

  ghost predicate AtMostOnce(m: multiset<int>) {
    forall x :: m[x] <= 1
  }

  lemma ConsCount(x: int, s: seq<int>, y: int)
    ensures multiset([x] + s)[y] == multiset(s)[y] + (if x == y then 1 else 0)
    ensures multiset(s)[y] > 0 <==> y in s
  {
    assert multiset([x] + s) == multiset{x} + multiset(s);
    assert y in multiset(s) <==> y in s;
  }

  lemma ConsNoDuplicates(x: int, s: seq<int>)
    ensures NoDuplicates([x] + s) <==> NoDuplicates(s) && x !in s
  {
    var t := [x] + s;
    if NoDuplicates(t) {
      forall i | 0 <= i < |s| ensures s[i] != x { assert t[0] != t[i + 1]; }
      forall i, j | 0 <= i < j < |s| ensures s[i] != s[j] { assert t[i + 1] != t[j + 1]; }
    }
  }

  lemma {:induction false} OnceEach(s: seq<int>)
    ensures NoDuplicates(s) <==> AtMostOnce(multiset(s))
  {
    hide NoDuplicates;
    if s == [] {
      NoneTwice();
    } else {
      var x, rest := s[0], s[1..];
      assert s == [x] + rest;
      OnceEach(rest);
      ConsNoDuplicates(x, rest);
      ConsCount(x, rest, x);
      if NoDuplicates(s) {
        forall y ensures multiset(s)[y] <= 1 { ConsCount(x, rest, y); }
      } else if x !in rest {
        var y :| multiset(rest)[y] > 1;
        ConsCount(x, rest, y);
      }
    }
  }

  lemma NoneTwice()
    ensures NoDuplicates<int>([])
  {
  }

  /** Sorted points ascend strictly exactly if there are no duplicates among them. */
  lemma SortedPoints(s: seq<int>)
    ensures NoDuplicates(Sort(s)) <==> NoDuplicates(s)
    ensures Ascending(Sort(s)) <==> NoDuplicates(s)
    ensures forall p :: p in Sort(s) <==> p in s
  {
    hide Sort;
    SortSorts(s);
    OnceEach(s);
    OnceEach(Sort(s));
    forall p ensures p in Sort(s) <==> p in s {
      assert p in multiset(Sort(s)) <==> p in multiset(s);
    }
  }

  /** Binary search for the first point not below `x`. */
  method Search(keys: seq<int>, x: int) returns (i: nat)
    requires NonDecreasing(keys)
    ensures i <= |keys|
    ensures forall k :: 0 <= k < i ==> keys[k] < x
    ensures forall k :: i <= k < |keys| ==> keys[k] >= x
  {
    i := 0;
    var j := |keys|;
    while i < j
      invariant 0 <= i <= j <= |keys|
      invariant forall k :: 0 <= k < i ==> keys[k] < x
      invariant forall k :: j <= k < |keys| ==> keys[k] >= x
    {
      var mid := (i + j) / 2;
      if keys[mid] < x {
        i := mid + 1;
      } else {
        j := mid;
      }
    }
  }

  function RemoveFirst(s: seq<int>, p: int): seq<int> {
    if s == [] then [] else if s[0] == p then s[1..] else [s[0]] + RemoveFirst(s[1..], p)
  }

  /** Removes the first occurrence of `p`, if there is one. */
  method Splice(keys: seq<int>, p: int) returns (r: seq<int>)
    ensures r == RemoveFirst(keys, p)
  {
    for j := 0 to |keys|
      invariant p !in keys[..j]
    {
      if keys[j] == p {
        SpliceAt(keys, p, j);
        return keys[..j] + keys[j + 1..];
      }
    }
    assert keys[..|keys|] == keys;
    NothingToRemove(keys, p);
    return keys;
  }

  lemma {:induction false} SpliceAt(keys: seq<int>, p: int, j: nat)
    requires j < |keys| && keys[j] == p && p !in keys[..j]
    ensures keys[..j] + keys[j + 1..] == RemoveFirst(keys, p)
  {
    if j > 0 {
      assert keys[0] in keys[..j];
      assert keys[1..][..j - 1] == keys[..j][1..];
      SpliceAt(keys[1..], p, j - 1);
    }
  }

  lemma {:induction false} NothingToRemove(s: seq<int>, p: int)
    requires p !in s
    ensures RemoveFirst(s, p) == s
  {
    if s != [] { NothingToRemove(s[1..], p); }
  }

  lemma PrependLow(x: int, s: seq<int>)
    requires NonDecreasing(s) && forall i :: 0 <= i < |s| ==> x <= s[i]
    ensures NonDecreasing([x] + s)
  {
  }

  lemma {:induction false} RemoveFirstMembers(s: seq<int>, p: int, q: int)
    requires q in RemoveFirst(s, p)
    ensures q in s
  {
    if s != [] && s[0] != p && q != s[0] {
      RemoveFirstMembers(s[1..], p, q);
    }
  }

  /** One occurrence goes, everything else stays and stays in order. */
  lemma {:induction false} RemoveFirstFacts(s: seq<int>, p: int)
    ensures multiset(RemoveFirst(s, p)) == multiset(s) - multiset{p}
    ensures NonDecreasing(s) ==> NonDecreasing(RemoveFirst(s, p))
  {
    if s != [] {
      assert s == [s[0]] + s[1..];
      if s[0] != p {
        RemoveFirstFacts(s[1..], p);
        var t := RemoveFirst(s[1..], p);
        if NonDecreasing(s) {
          forall i | 0 <= i < |t| ensures s[0] <= t[i] {
            RemoveFirstMembers(s[1..], p, t[i]);
          }
          PrependLow(s[0], t);
        }
      }
    }
  }

  /** Removes one occurrence of each of the points in turn. */
  function RemoveEach(s: seq<int>, ps: seq<int>): seq<int> {
    if ps == [] then s else RemoveFirst(RemoveEach(s, ps[..|ps| - 1]), ps[|ps| - 1])
  }

  lemma {:induction false} RemoveEachFacts(s: seq<int>, ps: seq<int>)
    ensures multiset(RemoveEach(s, ps)) == multiset(s) - multiset(ps)
    ensures NonDecreasing(s) ==> NonDecreasing(RemoveEach(s, ps))
    decreases |ps|
  {
    hide NonDecreasing;
    if ps != [] {
      var k := |ps| - 1;
      assert ps == ps[..k] + [ps[k]];
      RemoveEachFacts(s, ps[..k]);
      RemoveFirstFacts(RemoveEach(s, ps[..k]), ps[k]);
    }
  }

  lemma AscendingIff(s: seq<int>)
    ensures Ascending(s) <==> NonDecreasing(s) && NoDuplicates(s)
  {
  }

  /** Without duplicates, removing a point leaves exactly the other points. */
  lemma RemoveFirstOfDistinct(s: seq<int>, p: int)
    requires NoDuplicates(s)
    ensures NoDuplicates(RemoveFirst(s, p)) && forall q :: q in RemoveFirst(s, p) <==> q in s && q != p
  {
    hide RemoveFirst, NoDuplicates;
    var t := RemoveFirst(s, p);
    RemoveFirstFacts(s, p);
    OnceEach(s);
    OnceEach(t);
    forall q ensures q in t <==> q in s && q != p {
      assert q in t <==> multiset(t)[q] > 0;
      assert q in s <==> multiset(s)[q] > 0;
    }
  }

  /** The first point not below `x`, or the lowest of all if there is none. */
  ghost predicate Successor(keys: seq<int>, x: int, p: int) {
    && p in keys
    && ((p >= x && forall q :: q in keys && q >= x ==> p <= q) || (forall q :: q in keys ==> p <= q < x))
  }

  lemma SearchFindsSuccessor(keys: seq<int>, x: int, i: nat)
    requires NonDecreasing(keys) && keys != []
    requires i <= |keys| && (forall k :: 0 <= k < i ==> keys[k] < x) && (forall k :: i <= k < |keys| ==> keys[k] >= x)
    ensures Successor(keys, x, keys[if i == |keys| then 0 else i])
  {
  }
}
