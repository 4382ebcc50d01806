/**
The Bloom gate in front of loading. The gate turns away every key the filter does not know, and the
only place that teaches the filter a key lies behind the gate.
*/
module Policy {
  import opened Types
  import opened Bloom

  /** What the source of truth answers, should it be asked. */
  datatype Load = Loaded(data: nat) | LoadFails

  datatype Op =
    | GetOp(key: Key, load: Load)
    | SetOp(key: Key, data: nat)
    | DeleteOp(key: Key)
    | ClearOp
    | LoseOp(key: Key)  // the store expires or evicts an entry on its own

  datatype Reply = Rejected | Found(data: nat) | Failed

  /**
  The positions set in the filter, whether the store has been created, which the first write does, and
  the stored entries; None is the placeholder for a failed load.
  */
  datatype Held = Held(bits: set<nat>, made: bool, cache: map<Key, Option<nat>>)

  const NEW: Held := Held({}, false, map[])

  datatype Gate = Gate(h: SeededHash, m: nat, k: nat)

  ghost predicate Passes(c: Gate, s: Held, key: Key)
    requires c.m > 0
  {
    Probes(c.h, c.m, key, c.k) <= s.bits
  }

  predicate Cached(s: Held, key: Key) {
    s.made && key in s.cache && s.cache[key].Some?
  }

  ghost function ReplyTo(c: Gate, s: Held, key: Key, load: Load): Reply
    requires c.m > 0
  {
    if !Passes(c, s, key) then Rejected
    else if Cached(s, key) then Found(s.cache[key].value)
    else if s.made && load.Loaded? then Found(load.data)
    else Failed
  }

  ghost function Step(c: Gate, s: Held, op: Op): Held
    requires c.m > 0
  {
    match op
    case GetOp(key, load) =>
      if !Passes(c, s, key) || Cached(s, key) || !s.made then s
      else if load.Loaded? then
        Held(s.bits + Probes(c.h, c.m, key, c.k), true, s.cache[key := Some(load.data)])
      else s.(cache := s.cache[key := None])
    case SetOp(key, data) => s.(made := true, cache := s.cache[key := Some(data)])
    case DeleteOp(key) => s.(cache := s.cache - {key})
    case ClearOp => s.(cache := map[])
    case LoseOp(key) => s.(cache := s.cache - {key})
  }

  class CachePolicy {
    const bf: BloomFilter
    var made: bool
    var cache: map<Key, Option<nat>>

    ghost function TheGate(): Gate {
      Gate(bf.h, bf.m, bf.k)
    }

    ghost function Now(): Held
      reads this, bf.bits
    {
      Held(bf.Set(), made, cache)
    }

    constructor (h: SeededHash, m: nat, k: nat)
      requires m > 0
      ensures bf.Valid() && fresh(bf.bits)
      ensures TheGate() == Gate(h, m, k) && Now() == NEW
    {
      bf := new BloomFilter(h, m, k);
      made, cache := false, map[];
    }

    method Get(key: Key, load: Load) returns (reply: Reply)
      requires bf.Valid()
      modifies this, bf.bits
      ensures Now() == Step(TheGate(), old(Now()), GetOp(key, load))
      ensures reply == ReplyTo(TheGate(), old(Now()), key, load)
    {
      hide BloomFilter.Set, Probes;
      var known := bf.Contains(key);
      if !known {
        return Rejected;
      }
      if made && key in cache && cache[key].Some? {
        return Found(cache[key].value);
      }
      reply := LoadFromSource(key, load);
    }

    /**
    Runs inside the request merger; another caller may have filled the cache since the first look. The
    second look does not ask whether there is a store: without one it panics, which the merger turns
    into an error, and nothing is loaded.
    */
    method LoadFromSource(key: Key, load: Load) returns (reply: Reply)
      requires bf.Valid()
      modifies this, bf.bits
      ensures Cached(old(Now()), key) ==> reply == Found(old(cache)[key].value) && Now() == old(Now())
      ensures !old(made) ==> reply == Failed && Now() == old(Now())
      ensures old(made) && !Cached(old(Now()), key) ==>
                && made && reply == (if load.Loaded? then Found(load.data) else Failed)
                && cache == old(cache)[key := if load.Loaded? then Some(load.data) else None]
                && bf.Set() == old(bf.Set()) + if load.Loaded? then Probes(bf.h, bf.m, key, bf.k) else {}
    {
      hide BloomFilter.Set, Probes;
      if !made {
        return Failed;
      }
      if key in cache && cache[key].Some? {
        return Found(cache[key].value);
      }
      match load
      case LoadFails =>
        cache := cache[key := None];
        return Failed;
      case Loaded(data) =>
        Set(key, data);
        bf.Add(key);
        return Found(data);
    }

    method Set(key: Key, data: nat)
      requires bf.Valid()
      modifies this
      ensures Now() == Step(TheGate(), old(Now()), SetOp(key, data))
    {
      made, cache := true, cache[key := Some(data)];
    }

    method Delete(key: Key)
      requires bf.Valid()
      modifies this
      ensures Now() == Step(TheGate(), old(Now()), DeleteOp(key))
    {
      cache := cache - {key};
    }

    method Clear()
      requires bf.Valid()
      modifies this
      ensures Now() == Step(TheGate(), old(Now()), ClearOp)
    {
      cache := map[];
    }
  }

  /** What a read that passes the gate replies right after a write, a deletion, a clear or another read. */
  lemma ReplyAfter(c: Gate, s: Held, key: Key, load: Load, k: Key, data: nat, load0: Load)
    requires c.m > 0 && Passes(c, s, key)
    ensures k == key ==> ReplyTo(c, Step(c, s, SetOp(k, data)), key, load) == Found(data)
    ensures k != key && s.made ==> ReplyTo(c, Step(c, s, SetOp(k, data)), key, load) == ReplyTo(c, s, key, load)
    ensures ReplyTo(c, Step(c, s, DeleteOp(k)), key, load) ==
            if k != key then ReplyTo(c, s, key, load)
            else if s.made && load.Loaded? then Found(load.data) else Failed
    ensures ReplyTo(c, Step(c, s, ClearOp), key, load) ==
            if s.made && load.Loaded? then Found(load.data) else Failed
    ensures ReplyTo(c, Step(c, s, GetOp(key, load0)), key, load) ==
            if !s.made then Failed
            else if key in s.cache && s.cache[key].Some? then Found(s.cache[key].value)
            else if load0.Loaded? then Found(load0.data)
            else if load.Loaded? then Found(load.data)
            else Failed
  {
    hide Probes;
  }

  // ----- Runs -----

  ghost function Run(c: Gate, s: Held, ops: seq<Op>): Held
    requires c.m > 0
    decreases |ops|
  {
    if ops == [] then s else Run(c, Step(c, s, ops[0]), ops[1..])
  }

  ghost predicate AllRejected(c: Gate) requires c.m > 0 {
    forall ops: seq<Op>, key: Key, load: Load ::
      ReplyTo(c, Run(c, NEW, ops), key, load) == Rejected
  }

  lemma {:induction false} NoRunSetsABit(c: Gate, s: Held, ops: seq<Op>)
    requires c.m > 0 && c.k > 0 && s.bits == {}
    ensures Run(c, s, ops).bits == {}
    decreases |ops|
  {
    hide Probes;
    if ops != [] {
      if ops[0].GetOp? {
        HasProbe(c, ops[0].key);
      }
      NoRunSetsABit(c, Step(c, s, ops[0]), ops[1..]);
    }
  }

  lemma HasProbe(c: Gate, key: Key)
    requires c.m > 0 && c.k > 0
    ensures Probe(c.h, c.m, key, 0) in Probes(c.h, c.m, key, c.k)
  {
  }

  /**
  From a new policy, every read of every run is turned away, also of keys that were written, if and
  only if the filter uses at least one probe; with none it turns nothing away.
  */
  lemma GateRejectsEverything(c: Gate)
    requires c.m > 0
    ensures AllRejected(c) <==> c.k > 0
  {
    hide Run, Probes;
    var s0 := NEW;
    if c.k > 0 {
      forall ops: seq<Op>, key: Key, load: Load ensures ReplyTo(c, Run(c, s0, ops), key, load) == Rejected {
        NoRunSetsABit(c, s0, ops);
        HasProbe(c, key);
      }
    } else {
      NoProbes(c.h, c.m, EMPTY);
      assert ReplyTo(c, Run(c, s0, []), EMPTY, LoadFails) != Rejected;
    }
  }

  /** Gate or no gate, until something is written no read of any run brings up a value: nothing can be loaded. */
  lemma {:induction false} NothingLoadsBeforeAWrite(c: Gate, s: Held, ops: seq<Op>, key: Key, load: Load)
    requires c.m > 0 && !s.made && forall i :: 0 <= i < |ops| ==> !ops[i].SetOp?
    ensures !Run(c, s, ops).made && !ReplyTo(c, Run(c, s, ops), key, load).Found?
    decreases |ops|
  {
    hide Probes;
    if ops != [] {
      NothingLoadsBeforeAWrite(c, Step(c, s, ops[0]), ops[1..], key, load);
    }
  }

  // ----- Had Set taught the filter -----

  ghost function StepTeaching(c: Gate, s: Held, op: Op): Held
    requires c.m > 0
  {
    var t := Step(c, s, op);
    if op.SetOp? then t.(bits := t.bits + Probes(c.h, c.m, op.key, c.k)) else t
  }

  ghost function RunTeaching(c: Gate, s: Held, ops: seq<Op>): Held
    requires c.m > 0
    decreases |ops|
  {
    if ops == [] then s else RunTeaching(c, StepTeaching(c, s, ops[0]), ops[1..])
  }

  /** With the filter fed on writes, a written key passes the gate in every later state. */
  lemma {:induction false} TaughtKeysPass(c: Gate, s: Held, ops: seq<Op>, key: Key)
    requires c.m > 0 && (Passes(c, s, key) || exists op :: op in ops && op.SetOp? && op.key == key)
    ensures Passes(c, RunTeaching(c, s, ops), key)
    decreases |ops|
  {
    hide Probes;
    if ops != [] {
      assert ops == [ops[0]] + ops[1..];
      TaughtKeysPass(c, StepTeaching(c, s, ops[0]), ops[1..], key);
    }
  }
}
