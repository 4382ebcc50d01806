/** How a key finds its bucket: the BKDR hash in wrapping 32-bit arithmetic, masked to a power of two. */
module Routing {
  import opened Types

  function Pow2(e: nat): (p: nat)
    ensures p > 0
  {
    if e == 0 then 1 else 2 * Pow2(e - 1)
  }

  // ----- The mask -----

  function MaskOfNextPowOf2(cap: bv16): bv16 {
    if cap > 0 && cap & (cap - 1) == 0 then cap - 1
    else
      var c1 := cap | (cap >> 1);
      var c2 := c1 | (c1 >> 2);
      var c3 := c2 | (c2 >> 4);
      c3 | (c3 >> 8)
  }

  /** Between two powers of two the smearing fills every bit below the upper one. */
  lemma MaskBetween(cap: bv16, top: bv16)
    requires top & (top - 1) == 0 && top > 0
    requires top >> 1 < cap <= top
    ensures MaskOfNextPowOf2(cap) == top - 1
  {
  }

  lemma Pow2Values()
    ensures Pow2(0) == 1
    ensures Pow2(1) == 2
    ensures Pow2(2) == 4
    ensures Pow2(3) == 8
    ensures Pow2(4) == 16
    ensures Pow2(5) == 32
    ensures Pow2(6) == 64
    ensures Pow2(7) == 128
    ensures Pow2(8) == 256
    ensures Pow2(9) == 512
    ensures Pow2(10) == 1024
    ensures Pow2(11) == 2048
    ensures Pow2(12) == 4096
    ensures Pow2(13) == 8192
    ensures Pow2(14) == 16384
    ensures Pow2(15) == 32768
  {
    assert Pow2(4) == 16;
    assert Pow2(8) == 256;
    assert Pow2(12) == 4096;
  }

  lemma MaskSmall(cap: bv16) returns (e: nat)
    requires 1 <= cap <= 16
    ensures MaskOfNextPowOf2(cap) as int + 1 == Pow2(e) && e <= 15
    ensures Pow2(e) >= cap as int
    ensures e > 0 ==> Pow2(e - 1) < cap as int
  {
    hide MaskOfNextPowOf2, Pow2;
    Pow2Values();
    if cap <= 1 {
      e := 0;
      MaskBetween(cap, 1);
    } else if cap <= 2 {
      e := 1;
      MaskBetween(cap, 2);
    } else if cap <= 4 {
      e := 2;
      MaskBetween(cap, 4);
    } else if cap <= 8 {
      e := 3;
      MaskBetween(cap, 8);
    } else {
      e := 4;
      MaskBetween(cap, 16);
    }
  }

  lemma MaskMedium(cap: bv16) returns (e: nat)
    requires 16 < cap <= 512
    ensures MaskOfNextPowOf2(cap) as int + 1 == Pow2(e) && e <= 15
    ensures Pow2(e) >= cap as int
    ensures e > 0 ==> Pow2(e - 1) < cap as int
  {
    hide MaskOfNextPowOf2, Pow2;
    Pow2Values();
    if cap <= 32 {
      e := 5;
      MaskBetween(cap, 32);
    } else if cap <= 64 {
      e := 6;
      MaskBetween(cap, 64);
    } else if cap <= 128 {
      e := 7;
      MaskBetween(cap, 128);
    } else if cap <= 256 {
      e := 8;
      MaskBetween(cap, 256);
    } else {
      e := 9;
      MaskBetween(cap, 512);
    }
  }

  lemma MaskLarge(cap: bv16) returns (e: nat)
    requires 512 < cap <= 0x8000
    ensures MaskOfNextPowOf2(cap) as int + 1 == Pow2(e) && e <= 15
    ensures Pow2(e) >= cap as int
    ensures e > 0 ==> Pow2(e - 1) < cap as int
  {
    hide MaskOfNextPowOf2, Pow2;
    Pow2Values();
    if cap <= 1024 {
      e := 10;
      MaskBetween(cap, 1024);
    } else if cap <= 2048 {
      e := 11;
      MaskBetween(cap, 2048);
    } else if cap <= 4096 {
      e := 12;
      MaskBetween(cap, 4096);
    } else if cap <= 8192 {
      e := 13;
      MaskBetween(cap, 8192);
    } else if cap <= 16384 {
      e := 14;
      MaskBetween(cap, 16384);
    } else {
      e := 15;
      MaskBetween(cap, 32768);
    }
  }

  /** For 1..32768 buckets the mask is one less than the least power of two not below the request. */
  lemma MaskIsLeastPowerOfTwo(cap: bv16) returns (e: nat)
    requires 1 <= cap <= 0x8000
    ensures MaskOfNextPowOf2(cap) as int + 1 == Pow2(e) && e <= 15
    ensures Pow2(e) >= cap as int
    ensures e > 0 ==> Pow2(e - 1) < cap as int
  {
    hide MaskOfNextPowOf2, Pow2;
    if cap <= 16 {
      e := MaskSmall(cap);
    } else if cap <= 512 {
      e := MaskMedium(cap);
    } else {
      e := MaskLarge(cap);
    }
  }

  /** Beyond 32768 the mask is all ones, mask+1 wraps to 0 and the store would get no bucket. */
  lemma MaskOverflows(cap: bv16)
    ensures MaskOfNextPowOf2(cap) == 0xffff <==> cap > 0x8000
  {
  }

  // ----- The hash -----

  function Wrap32(x: int): (r: int)
    ensures -0x8000_0000 <= r < 0x8000_0000 && (r - x) % 0x1_0000_0000 == 0
  {
    (x + 0x8000_0000) % 0x1_0000_0000 - 0x8000_0000
  }

  function Hash(s: seq<byte>): (h: int)
    ensures -0x8000_0000 <= h < 0x8000_0000
  {
    if s == [] then 0 else Wrap32(Hash(s[..|s| - 1]) * 131 + s[|s| - 1] as int)
  }

  method HashBKDR(k: Key) returns (h: int)
    ensures h == Hash(k.bytes)
  {
    h := 0;
    for i := 0 to |k.bytes|
      invariant h == Hash(k.bytes[..i])
    {
      assert k.bytes[..i + 1][..i] == k.bytes[..i];
      h := Wrap32(h * 131 + k.bytes[i] as int);
    }
    assert k.bytes[..|k.bytes|] == k.bytes;
  }

  function Pow131(n: nat): nat {
    if n == 0 then 1 else 131 * Pow131(n - 1)
  }

  /** The bytes as a number in base 131, first byte first. */
  function Base131(s: seq<byte>): nat {
    if s == [] then 0 else s[0] as int * Pow131(|s| - 1) + Base131(s[1..])
  }

  lemma {:induction false} Base131Snoc(s: seq<byte>, b: byte)
    ensures Base131(s + [b]) == Base131(s) * 131 + b as int
  {
    if s == [] {
      assert s + [b] == [b] && [b][1..] == [];
    } else {
      assert (s + [b])[1..] == s[1..] + [b];
      Base131Snoc(s[1..], b);
      assert s[0] as int * (131 * Pow131(|s| - 1)) == s[0] as int * Pow131(|s| - 1) * 131;
    }
  }

  lemma CongruentNext(h: int, p: int, x: int)
    requires (h - p) % 0x1_0000_0000 == 0
    ensures (h * 131 + x - (p * 131 + x)) % 0x1_0000_0000 == 0
  {
    var q := (h - p) / 0x1_0000_0000;
    assert h - p == 0x1_0000_0000 * q;
    assert h * 131 + x - (p * 131 + x) == 0x1_0000_0000 * (131 * q);
  }

  lemma CongruentChain(a: int, b: int, c: int)
    requires (a - b) % 0x1_0000_0000 == 0 && (b - c) % 0x1_0000_0000 == 0
    ensures (a - c) % 0x1_0000_0000 == 0
  {
  }

  /** The hash is that number, reduced to 32 bits. */
  lemma {:induction false} HashIsBase131(s: seq<byte>)
    ensures (Hash(s) - Base131(s)) % 0x1_0000_0000 == 0
  {
    if s != [] {
      var i, b := s[..|s| - 1], s[|s| - 1];
      assert s == i + [b];
      HashIsBase131(i);
      Base131Snoc(i, b);
      CongruentNext(Hash(i), Base131(i), b as int);
      CongruentChain(Hash(s), Hash(i) * 131 + b as int, Base131(s));
    }
  }

  /** Bitwise and of a two's complement number with a non-negative one. */
  function And(a: int, b: nat): (r: nat)
    ensures r <= b
    decreases b
  {
    if b == 0 then 0 else 2 * And(a / 2, b / 2) + (a % 2) * (b % 2)
  }

  /** Masking with 2^e - 1 is reduction modulo 2^e, for negative hashes too. */
  lemma {:induction false} AndMask(a: int, e: nat)
    ensures And(a, Pow2(e) - 1) == a % Pow2(e)
    decreases e
  {
    hide And;
    if e > 0 {
      AndMask(a / 2, e - 1);
      AndOdd(a, Pow2(e - 1));
      ModDouble(a, Pow2(e - 1));
    }
  }

  lemma AndOdd(a: int, p: nat)
    requires p > 0
    ensures And(a, 2 * p - 1) == 2 * And(a / 2, p - 1) + a % 2
  {
    assert (2 * p - 1) / 2 == p - 1 && (2 * p - 1) % 2 == 1;
  }

  lemma ModDouble(a: int, p: nat)
    requires p > 0
    ensures a % (2 * p) == 2 * (a / 2 % p) + a % 2
  {
    var q := a / 2 / p;
    assert a / 2 == q * p + a / 2 % p;
    assert a == (2 * p) * q + (2 * (a / 2 % p) + a % 2);
    ModUnique(a, 2 * p, q, 2 * (a / 2 % p) + a % 2);
  }

  lemma ModUnique(a: int, d: int, q: int, r: int)
    requires 0 <= r < d && a == d * q + r
    ensures a % d == r
  {
    var q', r' := a / d, a % d;
    assert d * q' + r' == d * q + r;
    assert d * (q - q') == d * q - d * q' == r' - r;
    assert d * (q' - q) == d * q' - d * q == r - r';
    if q > q' {
      MulAtLeast(d, q - q');
    } else if q < q' {
      MulAtLeast(d, q' - q);
    }
  }

  lemma {:induction false} MulAtLeast(d: int, x: int)
    requires d > 0 && x > 0
    ensures d * x >= d
  {
    if x > 1 { MulAtLeast(d, x - 1); }
  }

  /** The bucket of a key. */
  function Route(k: Key, mask: nat): (i: nat)
    ensures i <= mask
  {
    And(Hash(k.bytes), mask)
  }

  lemma {:induction false} Pow2Divides(e: nat)
    requires e <= 32
    ensures Pow2(e) * Pow2(32 - e) == 0x1_0000_0000
    decreases 32 - e
  {
    if e == 32 {
      Pow2Of32();
    } else {
      Pow2Divides(e + 1);
      Regroup(Pow2(e), Pow2(31 - e));
    }
  }

  lemma Regroup(a: int, b: int)
    ensures (2 * a) * b == a * (2 * b)
  {
  }

  lemma Pow2Of32()
    ensures Pow2(32) == 0x1_0000_0000
  {
    Pow2Values();
    assert Pow2(20) == 1048576;
    assert Pow2(28) == 268435456;
  }

  lemma CongruentBelow(a: int, b: int, d: int, f: int)
    requires d > 0 && d * f == 0x1_0000_0000 && (a - b) % 0x1_0000_0000 == 0
    ensures a % d == b % d
  {
    var q := (a - b) / 0x1_0000_0000;
    assert a - b == d * f * q;
    var r := b % d;
    assert b == d * (b / d) + r;
    assert a == d * (f * q + b / d) + r;
    ModUnique(a, d, f * q + b / d, r);
  }

  lemma SameBucket(s: seq<byte>, e: nat)
    requires e <= 15
    ensures Hash(s) % Pow2(e) == Base131(s) % Pow2(e)
  {
    hide Hash, Base131, Pow2;
    HashIsBase131(s);
    Pow2Divides(e);
    CongruentBelow(Hash(s), Base131(s), Pow2(e), Pow2(32 - e));
  }

  /** So a key's bucket is its bytes, read in base 131, modulo the number of buckets. */
  lemma RouteIsBase131(k: Key, cap: bv16)
    requires 1 <= cap <= 0x8000
    ensures var mask := MaskOfNextPowOf2(cap) as int;
            0 <= mask && Route(k, mask) == Base131(k.bytes) % (mask + 1)
  {
    hide MaskOfNextPowOf2, Hash, Base131, Route, Pow2;
    var e := MaskIsLeastPowerOfTwo(cap);
    RouteIsModulo(k, cap);
    SameBucket(k.bytes, e);
  }

  /** With the mask the store computes, routing is the hash modulo the number of buckets. */
  lemma RouteIsModulo(k: Key, cap: bv16)
    requires 1 <= cap <= 0x8000
    ensures var mask := MaskOfNextPowOf2(cap) as int;
            0 <= mask && Route(k, mask) == Hash(k.bytes) % (mask + 1)
  {
    var e := MaskIsLeastPowerOfTwo(cap);
    AndMask(Hash(k.bytes), e);
  }
}
