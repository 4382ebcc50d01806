/**
Request merging as a step system. Any number of callers run Do concurrently; looking up the shared
map, storing a call in it, running the function, releasing the waiters and deleting the entry are
separate steps, because the code holds no lock across them.
*/
module Singleflight {
  import opened Types

  datatype Error = NoError | Failed(code: int) | PanicError(reason: int)

  /** How an execution of the caller's function ends. */
  datatype Ending = Returns(val: Option<int>, err: Error) | Panics(reason: int)

  datatype Answer = Answer(val: Option<int>, err: Error)

  /** What the deferred recover leaves in the call record. */
  function AnswerOf(e: Ending): Answer {
    match e
    case Returns(v, err) => Answer(v, err)
    case Panics(r) => Answer(None, PanicError(r))
  }

  /** A call record; `ending`, `stored` and `deleted` are history. */
  datatype Call = Call(key: Key, owner: nat, answer: Answer, done: bool,
                       ending: Option<Ending>, stored: nat, deleted: Option<nat>)

  datatype Phase =
    | Start
    | Missed
    | Running(c: nat)
    | Ran(c: nat)
    | Released(c: nat)
    | Deleted(c: nat)
    | Waiting(c: nat)
    | Returned(c: nat, answer: Answer)

  datatype Caller = Caller(key: Key, phase: Phase, loaded: nat)

  datatype State = State(callers: seq<Caller>, table: map<Key, nat>, calls: seq<Call>, time: nat)

  function Initial(keys: seq<Key>): State {
    State(seq(|keys|, i requires 0 <= i < |keys| => Caller(keys[i], Start, 0)), map[], [], 0)
  }

  /** Only a waiter whose call is not done, and a caller that has returned, cannot step. */
  predicate Enabled(s: State, i: nat) {
    i < |s.callers| &&
    match s.callers[i].phase
    case Waiting(c) => c < |s.calls| && s.calls[c].done
    case Returned(_, _) => false
    case Start => true
    case Missed => true
    case Running(c) => c < |s.calls|
    case Ran(c) => c < |s.calls|
    case Released(c) => c < |s.calls|
    case Deleted(c) => c < |s.calls|
  }

  function SetPhase(s: State, i: nat, p: Phase): State
    requires i < |s.callers|
  {
    s.(callers := s.callers[i := s.callers[i].(phase := p)], time := s.time + 1)
  }

  /** One step of caller `i`; `e` is how its function ends, if this is the step that runs it. */
  function Step(s: State, i: nat, e: Ending): State
    requires Enabled(s, i)
  {
    var me := s.callers[i];
    match me.phase
    case Start =>
      var p := if me.key in s.table then Waiting(s.table[me.key]) else Missed;
      s.(callers := s.callers[i := me.(phase := p, loaded := s.time)], time := s.time + 1)
    case Missed =>
      var c := |s.calls|;
      SetPhase(s, i, Running(c))
        .(calls := s.calls + [Call(me.key, i, Answer(None, NoError), false, None, s.time, None)],
          table := s.table[me.key := c])
    case Running(c) =>
      SetPhase(s, i, Ran(c)).(calls := s.calls[c := s.calls[c].(answer := AnswerOf(e), ending := Some(e))])
    case Ran(c) =>
      SetPhase(s, i, Released(c)).(calls := s.calls[c := s.calls[c].(done := true)])
    case Released(c) =>
      SetPhase(s, i, Deleted(c))
        .(calls := s.calls[c := s.calls[c].(deleted := Some(s.time))], table := s.table - {me.key})
    case Deleted(c) => SetPhase(s, i, Returned(c, s.calls[c].answer))
    case Waiting(c) => SetPhase(s, i, Returned(c, s.calls[c].answer))
  }

  // ----- The invariant -----

  /** The phases a caller goes through with the call `c` it created itself. */
  predicate OwnerPhase(p: Phase, c: nat) {
    match p
    case Running(d) => d == c
    case Ran(d) => d == c
    case Released(d) => d == c
    case Deleted(d) => d == c
    case Returned(d, _) => d == c
    case _ => false
  }

  predicate Active(p: Phase) {
    p.Running? || p.Ran? || p.Released?
  }

  /** A call is filled in exactly as far as its owner has got. */
  ghost predicate CallOk(s: State, c: nat)
    requires c < |s.calls|
  {
    var call := s.calls[c];
    call.owner < |s.callers| &&
    var p := s.callers[call.owner].phase;
    && s.callers[call.owner].key == call.key
    && OwnerPhase(p, c)
    && (call.ending.Some? <==> !p.Running?)
    && (call.ending.Some? ==> call.answer == AnswerOf(call.ending.value))
    && (call.done <==> !p.Running? && !p.Ran?)
    && (call.deleted.Some? <==> p.Deleted? || p.Returned?)
    && (call.deleted.Some? ==> call.stored <= call.deleted.value)
    && call.stored < s.time
  }

  /** The span of call `c`, from its store to its delete, contains moment `t`. */
  predicate InSpan(call: Call, t: nat) {
    call.stored <= t && (call.deleted.Some? ==> t <= call.deleted.value)
  }

  ghost predicate CallerOk(s: State, i: nat)
    requires i < |s.callers|
  {
    var me := s.callers[i];
    && (me.phase.Start? || me.loaded < s.time)
    && match me.phase
       case Start => true
       case Missed => true
       case Waiting(c) =>
         c < |s.calls| && s.calls[c].key == me.key && InSpan(s.calls[c], me.loaded)
       case Returned(c, a) =>
         && c < |s.calls| && s.calls[c].key == me.key
         && s.calls[c].done && a == s.calls[c].answer
         && (InSpan(s.calls[c], me.loaded) || (s.calls[c].owner == i && me.loaded <= s.calls[c].stored))
       case Running(c) => c < |s.calls| && s.calls[c].owner == i && me.loaded <= s.calls[c].stored
       case Ran(c) => c < |s.calls| && s.calls[c].owner == i && me.loaded <= s.calls[c].stored
       case Released(c) => c < |s.calls| && s.calls[c].owner == i && me.loaded <= s.calls[c].stored
       case Deleted(c) => c < |s.calls| && s.calls[c].owner == i && me.loaded <= s.calls[c].stored
  }

  /** Whatever call the map holds has an owner that has not reached its delete. */
  ghost predicate EntryOk(s: State, k: Key)
    requires k in s.table
  {
    var c := s.table[k];
    c < |s.calls| && s.calls[c].key == k && s.calls[c].owner < |s.callers| &&
    Active(s.callers[s.calls[c].owner].phase) && OwnerPhase(s.callers[s.calls[c].owner].phase, c)
  }

  ghost predicate Inv(s: State) {
    && (forall c :: 0 <= c < |s.calls| ==> CallOk(s, c))
    && (forall i :: 0 <= i < |s.callers| ==> CallerOk(s, i))
    && (forall k :: k in s.table ==> EntryOk(s, k))
  }

  lemma InitialInv(keys: seq<Key>)
    ensures Inv(Initial(keys))
  {
  }

  lemma StepKeepsInv(s: State, i: nat, e: Ending)
    requires Inv(s) && Enabled(s, i)
    ensures Inv(Step(s, i, e))
  {
    var t := Step(s, i, e);
    assert CallerOk(s, i);
    forall c | 0 <= c < |t.calls| ensures CallOk(t, c) {
      StepKeepsCall(s, i, e, c);
    }
    forall j | 0 <= j < |t.callers| ensures CallerOk(t, j) {
      StepKeepsCaller(s, i, e, j);
    }
    forall k | k in t.table ensures EntryOk(t, k) {
      StepKeepsEntry(s, i, e, k);
    }
  }

  lemma StepKeepsCall(s: State, i: nat, e: Ending, c: nat)
    requires Inv(s) && Enabled(s, i) && c < |Step(s, i, e).calls|
    ensures CallOk(Step(s, i, e), c)
  {
    assert CallerOk(s, i);
    if c < |s.calls| {
      assert CallOk(s, c);
    }
  }

  lemma StepKeepsCaller(s: State, i: nat, e: Ending, j: nat)
    requires Inv(s) && Enabled(s, i) && j < |s.callers|
    ensures |Step(s, i, e).callers| == |s.callers| && CallerOk(Step(s, i, e), j)
  {
    hide OwnerPhase;
    assert CallerOk(s, i) && CallerOk(s, j);
    var p := s.callers[i].phase;
    if p.Start? && s.callers[i].key in s.table {
      assert EntryOk(s, s.callers[i].key);
      assert CallOk(s, s.table[s.callers[i].key]);
    }
    match p {
      case Running(c) => assert CallOk(s, c);
      case Ran(c) => assert CallOk(s, c);
      case Released(c) => assert CallOk(s, c);
      case Deleted(c) => assert CallOk(s, c);
      case Waiting(c) => assert CallOk(s, c);
      case _ =>
    }
  }

  lemma StepKeepsEntry(s: State, i: nat, e: Ending, k: Key)
    requires Inv(s) && Enabled(s, i) && k in Step(s, i, e).table
    ensures EntryOk(Step(s, i, e), k)
  {
    assert CallerOk(s, i);
    if k in s.table {
      assert EntryOk(s, k);
      assert CallOk(s, s.table[k]);
    }
  }

  // ----- Runs -----

  /** A move: which caller steps, and how its function ends should this step run it. */
  datatype Move = Move(i: nat, e: Ending)

  ghost predicate ValidRun(s: State, moves: seq<Move>)
    decreases |moves|
  {
    moves == [] || (Enabled(s, moves[0].i) && ValidRun(Step(s, moves[0].i, moves[0].e), moves[1..]))
  }

  ghost function After(s: State, moves: seq<Move>): State
    requires ValidRun(s, moves)
    decreases |moves|
  {
    if moves == [] then s else After(Step(s, moves[0].i, moves[0].e), moves[1..])
  }

  lemma {:induction false} RunKeepsInv(s: State, moves: seq<Move>)
    requires Inv(s) && ValidRun(s, moves)
    ensures Inv(After(s, moves)) && |After(s, moves).callers| == |s.callers|
    decreases |moves|
  {
    hide Inv, Step;
    if moves != [] {
      StepKeepsInv(s, moves[0].i, moves[0].e);
      SameCallers(s, moves[0].i, moves[0].e);
      RunKeepsInv(Step(s, moves[0].i, moves[0].e), moves[1..]);
    }
  }

  lemma SameCallers(s: State, i: nat, e: Ending)
    requires Enabled(s, i)
    ensures |Step(s, i, e).callers| == |s.callers|
  {
  }

  /**
  Result provenance. In every interleaving, what Do(key) returns is the outcome of one execution of a
  function for the same key, a panic turned into an error included. Either that execution's call was in
  the map at the moment this Do looked the key up, between its store and its delete, or it is this Do's
  own call, stored after the lookup.
  */
  lemma ReturnsAnOverlappingExecution(keys: seq<Key>, moves: seq<Move>, i: nat)
    requires ValidRun(Initial(keys), moves)
    requires i < |After(Initial(keys), moves).callers| && After(Initial(keys), moves).callers[i].phase.Returned?
    ensures var s := After(Initial(keys), moves);
            var me := s.callers[i];
            exists c :: 0 <= c < |s.calls| && s.calls[c].key == me.key && s.calls[c].ending.Some?
                        && (match s.calls[c].ending.value
                            case Returns(v, err) => me.phase.answer.val == v && me.phase.answer.err == err
                            case Panics(r) => me.phase.answer.val == None && me.phase.answer.err == PanicError(r))
                        && (InSpan(s.calls[c], me.loaded) ||
                            (s.calls[c].owner == i && me.loaded <= s.calls[c].stored))
  {
    hide Step, ValidRun, After;
    InitialInv(keys);
    RunKeepsInv(Initial(keys), moves);
    var s := After(Initial(keys), moves);
    assert CallerOk(s, i);
    assert CallOk(s, s.callers[i].phase.c);
  }

  /** When every caller has returned, the map is empty. */
  lemma NothingLeftBehind(keys: seq<Key>, moves: seq<Move>)
    requires ValidRun(Initial(keys), moves)
    requires var s := After(Initial(keys), moves);
             forall i :: 0 <= i < |s.callers| ==> s.callers[i].phase.Returned?
    ensures After(Initial(keys), moves).table == map[]
  {
    hide Step, ValidRun, After;
    InitialInv(keys);
    RunKeepsInv(Initial(keys), moves);
    var s := After(Initial(keys), moves);
    assert forall k :: k in s.table ==> EntryOk(s, k);
  }

  /** Progress: as long as some caller has not returned, some caller can step, panics or not. */
  lemma NeverStuck(keys: seq<Key>, moves: seq<Move>, i: nat) returns (j: nat)
    requires ValidRun(Initial(keys), moves)
    requires i < |After(Initial(keys), moves).callers| && !After(Initial(keys), moves).callers[i].phase.Returned?
    ensures Enabled(After(Initial(keys), moves), j)
  {
    hide Step, ValidRun, After;
    InitialInv(keys);
    RunKeepsInv(Initial(keys), moves);
    var s := After(Initial(keys), moves);
    assert CallerOk(s, i);
    j := i;
    if s.callers[i].phase.Waiting? {
      var c := s.callers[i].phase.c;
      assert CallOk(s, c);
      if !s.calls[c].done {
        j := s.calls[c].owner;
      }
    }
  }

  // ----- Every run ends -----

  function Rank(p: Phase): nat {
    match p
    case Start => 6
    case Missed => 5
    case Running(_) => 4
    case Ran(_) => 3
    case Released(_) => 2
    case Deleted(_) => 1
    case Waiting(_) => 1
    case Returned(_, _) => 0
  }

  function Work(cs: seq<Caller>): nat {
    if cs == [] then 0 else Rank(cs[0].phase) + Work(cs[1..])
  }

  lemma {:induction false} WorkUpdate(cs: seq<Caller>, i: nat, me: Caller)
    requires i < |cs|
    ensures Work(cs[i := me]) == Work(cs) - Rank(cs[i].phase) + Rank(me.phase)
  {
    if i > 0 {
      assert cs[i := me][1..] == cs[1..][i - 1 := me];
      WorkUpdate(cs[1..], i - 1, me);
    } else {
      assert cs[0 := me][1..] == cs[1..];
    }
  }

  lemma StepWorks(s: State, i: nat, e: Ending)
    requires Enabled(s, i)
    ensures Work(Step(s, i, e).callers) < Work(s.callers)
  {
    var t := Step(s, i, e);
    assert t.callers == s.callers[i := t.callers[i]];
    WorkUpdate(s.callers, i, t.callers[i]);
  }

  lemma {:induction false} WorkShrinks(s: State, moves: seq<Move>)
    requires ValidRun(s, moves)
    ensures |moves| + Work(After(s, moves).callers) <= Work(s.callers)
    decreases |moves|
  {
    hide Step, Work;
    if moves != [] {
      StepWorks(s, moves[0].i, moves[0].e);
      WorkShrinks(Step(s, moves[0].i, moves[0].e), moves[1..]);
    }
  }

  lemma {:induction false} InitialWork(keys: seq<Key>)
    ensures Work(Initial(keys).callers) == 6 * |keys|
  {
    if keys != [] {
      assert Initial(keys).callers[1..] == Initial(keys[1..]).callers;
      InitialWork(keys[1..]);
    }
  }

  /** Every step uses up work, so no run of n callers is longer than 6n steps. */
  lemma RunsAreFinite(keys: seq<Key>, moves: seq<Move>)
    requires ValidRun(Initial(keys), moves)
    ensures |moves| <= 6 * |keys|
  {
    hide Work, ValidRun, After;
    WorkShrinks(Initial(keys), moves);
    InitialWork(keys);
  }

  /** A run that cannot go on has brought every caller home and left the map empty. */
  lemma RunsEndComplete(keys: seq<Key>, moves: seq<Move>)
    requires ValidRun(Initial(keys), moves)
    requires forall j: nat :: !Enabled(After(Initial(keys), moves), j)
    ensures var s := After(Initial(keys), moves);
            s.table == map[] && forall i :: 0 <= i < |s.callers| ==> s.callers[i].phase.Returned?
  {
    hide ValidRun, After, Enabled;
    var s := After(Initial(keys), moves);
    forall i | 0 <= i < |s.callers| ensures s.callers[i].phase.Returned? {
      if !s.callers[i].phase.Returned? {
        var j := NeverStuck(keys, moves, i);
      }
    }
    NothingLeftBehind(keys, moves);
  }

  // ----- Merging -----

  /** Between a missed lookup and the deletion of the entry. */
  predicate Committed(p: Phase) {
    p.Missed? || Active(p)
  }

  /** No caller looks a key up while another one is between a missed lookup of it and its store. */
  ghost predicate Careful(s: State, i: nat)
    requires i < |s.callers|
  {
    s.callers[i].phase.Start? ==>
      forall j :: 0 <= j < |s.callers| && s.callers[j].key == s.callers[i].key ==> !s.callers[j].phase.Missed?
  }

  ghost predicate CarefulRun(s: State, moves: seq<Move>)
    requires ValidRun(s, moves)
    decreases |moves|
  {
    moves == [] || (Careful(s, moves[0].i) && CarefulRun(Step(s, moves[0].i, moves[0].e), moves[1..]))
  }

  /** At most one caller per key is committed, and the map leads to it once it has stored its call. */
  ghost predicate Merged(s: State) {
    && (forall i, j | 0 <= i < |s.callers| && 0 <= j < |s.callers| && s.callers[i].key == s.callers[j].key ::
          Committed(s.callers[i].phase) && Committed(s.callers[j].phase) ==> i == j)
    && (forall i :: 0 <= i < |s.callers| && Active(s.callers[i].phase) ==> s.callers[i].key in s.table)
  }

  lemma CarefulStepKeepsMerged(s: State, i: nat, e: Ending)
    requires Merged(s) && Enabled(s, i) && Careful(s, i)
    ensures Merged(Step(s, i, e))
  {
    var t := Step(s, i, e);
    assert forall j :: 0 <= j < |s.callers| && j != i ==> t.callers[j] == s.callers[j];
    assert t.callers[i].key == s.callers[i].key;
    forall j | 0 <= j < |t.callers| && Active(t.callers[j].phase) ensures t.callers[j].key in t.table {
      if j != i && s.callers[i].phase.Released? {
        assert s.callers[j].key != s.callers[i].key;
      }
    }
  }

  lemma {:induction false} CarefulRunKeepsMerged(s: State, moves: seq<Move>)
    requires Merged(s) && ValidRun(s, moves) && CarefulRun(s, moves)
    ensures Merged(After(s, moves))
    decreases |moves|
  {
    hide Step, Careful, Merged;
    if moves != [] {
      CarefulStepKeepsMerged(s, moves[0].i, moves[0].e);
      CarefulRunKeepsMerged(Step(s, moves[0].i, moves[0].e), moves[1..]);
    }
  }

  /** In every run of careful steps at most one function per key is in flight. */
  lemma OneFunctionPerKey(keys: seq<Key>, moves: seq<Move>, i: nat, j: nat)
    requires ValidRun(Initial(keys), moves) && CarefulRun(Initial(keys), moves)
    requires var t := After(Initial(keys), moves);
             i < |t.callers| && j < |t.callers| && t.callers[i].key == t.callers[j].key
             && t.callers[i].phase.Running? && t.callers[j].phase.Running?
    ensures i == j
  {
    hide Step, ValidRun, After, CarefulRun;
    assert Merged(Initial(keys));
    CarefulRunKeepsMerged(Initial(keys), moves);
  }

  /**
  The condition is needed: from any state, a lookup that misses while another caller of the key is
  between its own missed lookup and its store can be followed by both functions running at once.
  */
  lemma CarelessLookupRunsTwo(s: State, i: nat, j: nat, e: Ending)
    requires i < |s.callers| && j < |s.callers| && i != j && s.callers[i].key == s.callers[j].key
    requires s.callers[i].phase.Start? && s.callers[j].phase.Missed? && s.callers[i].key !in s.table
    ensures var moves := [Move(i, e), Move(j, e), Move(i, e)];
            && !Careful(s, i) && ValidRun(s, moves) && |After(s, moves).callers| == |s.callers|
            && After(s, moves).callers[i].phase.Running? && After(s, moves).callers[j].phase.Running?
  {
    var moves := [Move(i, e), Move(j, e), Move(i, e)];
    var s1 := Step(s, i, e);
    var s2 := Step(s1, j, e);
    var s3 := Step(s2, i, e);
    assert moves[1..] == [Move(j, e), Move(i, e)] && moves[1..][1..] == [Move(i, e)] && moves[1..][1..][1..] == [];
    assert ValidRun(s3, []) && After(s3, []) == s3;
    assert ValidRun(s2, [Move(i, e)]) && After(s2, [Move(i, e)]) == s3;
    assert ValidRun(s1, [Move(j, e), Move(i, e)]) && After(s1, [Move(j, e), Move(i, e)]) == s3;
  }
}
