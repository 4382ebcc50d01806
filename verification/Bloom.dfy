/** The Bloom filter: a bit array in 64-bit words, read as the set of positions that are set. */
module Bloom {
  import opened Types

  type uint64 = x: int | 0 <= x < 0x1_0000_0000_0000_0000

  /** The keyed hash; only the low byte of the seed reaches it. */
  type SeededHash = (Key, byte) -> uint64

  function Mask(bit: nat): bv64
    requires bit < 64
  {
    1 << bit
  }

  lemma SetBit(w: bv64, a: nat, b: nat)
    requires a < 64 && b < 64
    ensures (w | Mask(a)) & Mask(b) != 0 <==> a == b || w & Mask(b) != 0
  {
    hide Mask;
    if a < 16 {
      SetBitBelow16(w, a, b);
    } else if a < 32 {
      SetBitBelow32(w, a, b);
    } else if a < 48 {
      SetBitBelow48(w, a, b);
    } else {
      SetBitBelow64(w, a, b);
    }
  }

  lemma SetBitBelow16(w: bv64, a: nat, b: nat)
    requires 0 <= a < 16 && b < 64
    ensures (w | Mask(a)) & Mask(b) != 0 <==> a == b || w & Mask(b) != 0
  {
  }

  lemma SetBitBelow32(w: bv64, a: nat, b: nat)
    requires 16 <= a < 32 && b < 64
    ensures (w | Mask(a)) & Mask(b) != 0 <==> a == b || w & Mask(b) != 0
  {
  }

  lemma SetBitBelow48(w: bv64, a: nat, b: nat)
    requires 32 <= a < 48 && b < 64
    ensures (w | Mask(a)) & Mask(b) != 0 <==> a == b || w & Mask(b) != 0
  {
  }

  lemma SetBitBelow64(w: bv64, a: nat, b: nat)
    requires 48 <= a < 64 && b < 64
    ensures (w | Mask(a)) & Mask(b) != 0 <==> a == b || w & Mask(b) != 0
  {
  }

  lemma NoBit(b: nat)
    requires b < 64
    ensures 0 & Mask(b) == 0
  {
  }

  /** Whether position `o` is set. */
  predicate Has(words: seq<bv64>, o: nat) {
    o / 64 < |words| && words[o / 64] & Mask(o % 64) != 0
  }

  /** The set a word array encodes. */
  ghost function Positions(words: seq<bv64>): set<nat> {
    set o: nat | o < 64 * |words| && Has(words, o)
  }

  lemma InPositions(words: seq<bv64>, o: nat)
    ensures o in Positions(words) <==> Has(words, o)
  {
  }

  /** Setting one bit of one word adds one position. */
  lemma SetPosition(words: seq<bv64>, o: nat)
    requires o / 64 < |words|
    ensures Positions(words[o / 64 := words[o / 64] | Mask(o % 64)]) == Positions(words) + {o}
  {
    var after := words[o / 64 := words[o / 64] | Mask(o % 64)];
    forall p: nat ensures p in Positions(after) <==> p in Positions(words) || p == o {
      InPositions(after, p);
      InPositions(words, p);
      hide Positions, Mask;
      if p / 64 == o / 64 {
        SetBit(words[o / 64], o % 64, p % 64);
      }
    }
  }

  /** Probe number `i` of a key. */
  function Probe(h: SeededHash, m: nat, key: Key, i: nat): nat
    requires m > 0
  {
    h(key, (i % 256) as byte) % m
  }

  ghost function Probes(h: SeededHash, m: nat, key: Key, k: nat): set<nat>
    requires m > 0
  {
    set i | 0 <= i < k :: Probe(h, m, key, i)
  }

  class BloomFilter {
    const h: SeededHash
    const m: nat
    const k: nat
    const bits: array<bv64>

    ghost predicate Valid() {
      m > 0 && bits.Length == (m + 63) / 64
    }

    ghost function Set(): set<nat>
      reads bits
    {
      Positions(bits[..])
    }

    /** `m` and `k` are what the sizing formulas gave; with m == 0 the code divides by zero. */
    constructor (h: SeededHash, m: nat, k: nat)
      requires m > 0
      ensures Valid() && fresh(bits) && this.h == h && this.m == m && this.k == k && Set() == {}
    {
      this.h, this.m, this.k := h, m, k;
      bits := new bv64[(m + 63) / 64](i => 0);
      new;
      forall o: nat ensures o !in Set() {
        InPositions(bits[..], o);
        NoBit(o % 64);
      }
    }

    method SetOffset(offset: nat)
      requires offset / 64 < bits.Length
      modifies bits
      ensures Set() == old(Set()) + {offset}
    {
      hide Positions, Mask;
      ghost var words := bits[..];
      SetPosition(words, offset);
      bits[offset / 64] := bits[offset / 64] | Mask(offset % 64);
      assert bits[..] == words[offset / 64 := words[offset / 64] | Mask(offset % 64)];
    }

    method Add(key: Key)
      requires Valid()
      modifies bits
      ensures Set() == old(Set()) + Probes(h, m, key, k)
      ensures forall o :: o in Set() <==>
                o in old(Set()) || exists i :: 0 <= i < k && o == h(key, (i % 256) as byte) % m
    {
      hide Set, Probe, Probes;
      ghost var before := Set();
      NoProbes(h, m, key);
      for i := 0 to k
        invariant Set() == before + Probes(h, m, key, i)
      {
        ProbeInRange(h, m, key, i);
        ProbesNext(h, m, key, i);
        SetOffset(Probe(h, m, key, i));
      }
      forall o ensures o in Probes(h, m, key, k) <==> exists i :: 0 <= i < k && o == h(key, (i % 256) as byte) % m {
        ProbesAre(h, m, key, k, o);
      }
    }

    /** A caller that adds keys one after the other. */
    method AddEach(keys: seq<Key>)
      requires Valid()
      modifies bits
      ensures Set() == AddAll(old(Set()), h, m, k, keys)
      ensures forall key :: key in keys ==> Probes(h, m, key, k) <= Set()
    {
      hide Set, Probes;
      ghost var before := Set();
      for i := 0 to |keys|
        invariant Set() == AddAll(before, h, m, k, keys[..i])
      {
        AddAllNext(before, h, m, k, keys, i);
        Add(keys[i]);
      }
      assert keys[..|keys|] == keys;
      forall key | key in keys ensures Probes(h, m, key, k) <= Set() {
        NoFalseNegative(before, h, m, k, keys, key);
      }
    }

    method TestOffset(offset: nat) returns (r: bool)
      requires offset / 64 < bits.Length
      ensures r <==> offset in Set()
    {
      hide Positions, Mask;
      InPositions(bits[..], offset);
      return bits[offset / 64] & Mask(offset % 64) != 0;
    }

    method Contains(key: Key) returns (r: bool)
      requires Valid()
      ensures r <==> Probes(h, m, key, k) <= Set()
      ensures r <==> forall i :: 0 <= i < k ==> h(key, (i % 256) as byte) % m in Set()
    {
      hide Set, Probe, Probes;
      NoProbes(h, m, key);
      ProbesWithin(h, m, key, k, Set());
      for i := 0 to k
        invariant Probes(h, m, key, i) <= Set()
      {
        ProbeInRange(h, m, key, i);
        var there := TestOffset(Probe(h, m, key, i));
        if !there {
          ProbeAmong(h, m, key, i, k);
          return false;
        }
        ProbesNext(h, m, key, i);
      }
      return true;
    }
  }

  lemma ProbeInRange(h: SeededHash, m: nat, key: Key, i: nat)
    requires m > 0
    ensures Probe(h, m, key, i) / 64 < (m + 63) / 64
  {
  }

  lemma NoProbes(h: SeededHash, m: nat, key: Key)
    requires m > 0
    ensures Probes(h, m, key, 0) == {}
  {
  }

  lemma ProbeAmong(h: SeededHash, m: nat, key: Key, i: nat, k: nat)
    requires m > 0 && i < k
    ensures Probe(h, m, key, i) in Probes(h, m, key, k)
  {
    hide Probe;
  }

  /** The probes of a key are its hashes with the seeds below k, each reduced to its low byte, modulo m. */
  lemma ProbesAre(h: SeededHash, m: nat, key: Key, k: nat, o: int)
    requires m > 0
    ensures o in Probes(h, m, key, k) <==> exists i :: 0 <= i < k && o == h(key, (i % 256) as byte) % m
  {
    if i :| 0 <= i < k && o == h(key, (i % 256) as byte) % m {
      assert o == Probe(h, m, key, i);
    }
  }

  lemma ProbesWithin(h: SeededHash, m: nat, key: Key, k: nat, xs: set<nat>)
    requires m > 0
    ensures Probes(h, m, key, k) <= xs <==> forall i :: 0 <= i < k ==> h(key, (i % 256) as byte) % m in xs
  {
    if Probes(h, m, key, k) <= xs {
      forall i | 0 <= i < k ensures h(key, (i % 256) as byte) % m in xs {
        ProbeAmong(h, m, key, i, k);
      }
    }
  }

  lemma ProbesNext(h: SeededHash, m: nat, key: Key, i: nat)
    requires m > 0
    ensures Probes(h, m, key, i + 1) == Probes(h, m, key, i) + {Probe(h, m, key, i)}
  {
    hide Probe;
  }

  // ----- Any sequence of additions -----

  ghost function AddAll(set0: set<nat>, h: SeededHash, m: nat, k: nat, keys: seq<Key>): set<nat>
    requires m > 0
  {
    if keys == [] then set0
    else AddAll(set0, h, m, k, keys[..|keys| - 1]) + Probes(h, m, keys[|keys| - 1], k)
  }

  lemma AddAllNext(set0: set<nat>, h: SeededHash, m: nat, k: nat, keys: seq<Key>, i: nat)
    requires m > 0 && i < |keys|
    ensures AddAll(set0, h, m, k, keys[..i + 1]) == AddAll(set0, h, m, k, keys[..i]) + Probes(h, m, keys[i], k)
  {
    assert keys[..i + 1][..i] == keys[..i];
  }

  /** Adding keys yields the union of their probes, whatever the order and repetition. */
  lemma {:induction false} AddAllIsUnion(set0: set<nat>, h: SeededHash, m: nat, k: nat, keys: seq<Key>, o: nat)
    requires m > 0
    ensures o in AddAll(set0, h, m, k, keys) <==>
            o in set0 || exists key :: key in keys && o in Probes(h, m, key, k)
  {
    hide Probes;
    if keys != [] {
      var i, last := keys[..|keys| - 1], keys[|keys| - 1];
      assert keys == i + [last];
      AddAllIsUnion(set0, h, m, k, i, o);
      assert last in keys;
    }
  }

  /** No key that was added is ever reported absent. */
  lemma NoFalseNegative(set0: set<nat>, h: SeededHash, m: nat, k: nat, keys: seq<Key>, key: Key)
    requires m > 0 && key in keys
    ensures Probes(h, m, key, k) <= AddAll(set0, h, m, k, keys)
  {
    hide Probes;
    forall o | o in Probes(h, m, key, k) ensures o in AddAll(set0, h, m, k, keys) {
      AddAllIsUnion(set0, h, m, k, keys, o);
    }
  }

  /** Two sequences with the same keys leave the same set. */
  lemma OrderDoesNotMatter(set0: set<nat>, h: SeededHash, m: nat, k: nat, a: seq<Key>, b: seq<Key>)
    requires m > 0 && forall key :: key in a <==> key in b
    ensures AddAll(set0, h, m, k, a) == AddAll(set0, h, m, k, b)
  {
    hide Probes, AddAll;
    forall o: nat ensures o in AddAll(set0, h, m, k, a) <==> o in AddAll(set0, h, m, k, b) {
      AddAllIsUnion(set0, h, m, k, a, o);
      AddAllIsUnion(set0, h, m, k, b, o);
    }
  }
}
