/** Sharing of computations between the callers of the memo cache, in every run. */
module MemoSharing {
  import opened Wrappers
  import opened MemoSlots
  import opened Asyncmemo

  predicate StepAt(states: seq<State>, steps: seq<Step>, i: nat)
    requires |states| == |steps| + 1 && i < |steps|
  {
    Enabled(states[i], steps[i]) && states[i + 1] == Apply(states[i], steps[i])
  }

  /** A run, with all states that it goes through. */
  predicate Trace(states: seq<State>, steps: seq<Step>) {
    |states| == |steps| + 1 && forall i | 0 <= i < |steps| :: StepAt(states, steps, i)
  }

  lemma {:induction false} RunHasTrace(s: State, steps: seq<Step>, s': State) returns (states: seq<State>)
    requires Run(s, steps, s')
    ensures Trace(states, steps) && states[0] == s && states[|steps|] == s'
    decreases |steps|
  {
    states := [s];
    if steps != [] {
      var rest := RunHasTrace(Apply(s, steps[0]), steps[1..], s');
      states := [s] + rest;
      forall i | 0 <= i < |steps| ensures StepAt(states, steps, i) {
        if i > 0 {
          assert StepAt(rest, steps[1..], i - 1);
        }
      }
    }
  }

  /** In step `i` caller `c` makes a move. */
  predicate Moves(states: seq<State>, steps: seq<Step>, i: nat, c: nat) {
    |states| == |steps| + 1 && i < |steps| && steps[i].Advance? && steps[i].caller == c && c < |states[i].callers|
  }

  predicate FoundAbsent(states: seq<State>, steps: seq<Step>, i: nat, c: nat) {
    && Moves(states, steps, i, c) && states[i].callers[c].pc == Looking
    && states[i].callers[c].key !in states[i].cache
  }

  predicate FoundWaiting(states: seq<State>, steps: seq<Step>, i: nat, c: nat, f: nat) {
    && Moves(states, steps, i, c) && states[i].callers[c].pc == Looking
    && states[i].callers[c].key in states[i].cache && states[i].cache[states[i].callers[c].key] == Waiting(f)
  }

  /** The error of `f` is gone when the caller asks for it. */
  predicate FoundTaken(states: seq<State>, steps: seq<Step>, i: nat, c: nat, f: nat) {
    && Moves(states, steps, i, c) && states[i].callers[c].pc == Taking(f, Cached)
    && f < |states[i].futures| && states[i].futures[f].state == Errored(false)
  }

  predicate HoldsCached(c: Caller, f: nat) {
    c.pc == Polling(f, Cached) || c.pc == Removing(f, Cached) || c.pc == Taking(f, Cached)
  }

  ghost predicate EverFoundWaiting(states: seq<State>, steps: seq<Step>, i: nat, c: nat, f: nat) {
    exists k | 0 <= k < i :: FoundWaiting(states, steps, k, c, f)
  }

  /** The caller looked and found nothing, or found a computation whose error it then found taken. */
  ghost predicate Refused(states: seq<State>, steps: seq<Step>, j: nat, c: nat) {
    || FoundAbsent(states, steps, j, c)
    || exists f :: FoundTaken(states, steps, j, c, f) && EverFoundWaiting(states, steps, j, c, f)
  }

  ghost predicate RefusedLast(states: seq<State>, steps: seq<Step>, i: nat, c: nat) {
    exists j | 0 <= j < i :: Refused(states, steps, j, c) && forall m | j < m < i :: !Moves(states, steps, m, c)
  }

  lemma CallerStays(states: seq<State>, steps: seq<Step>, i: nat, c: nat)
    requires Trace(states, steps) && i < |steps| && !Moves(states, steps, i, c) && c < |states[i + 1].callers|
    ensures c < |states[i].callers| ==> states[i + 1].callers[c] == states[i].callers[c]
    ensures c >= |states[i].callers| ==> states[i + 1].callers[c].pc == Idle
  {
    assert StepAt(states, steps, i);
  }

  const EMPTY := State([], map[], [])

  lemma {:induction false} TraceKeepsInv(states: seq<State>, steps: seq<Step>, i: nat)
    requires Trace(states, steps) && states[0] == EMPTY && i <= |steps|
    ensures Inv(states[i])
    decreases i
  {
    if i > 0 {
      assert StepAt(states, steps, i - 1);
      TraceKeepsInv(states, steps, i - 1);
      StepKeepsInv(states[i - 1], steps[i - 1]);
    }
  }

  /** What the caller that moves found, by where it is afterwards. */
  lemma MoveFinds(states: seq<State>, steps: seq<Step>, i: nat, c: nat)
    requires Trace(states, steps) && Moves(states, steps, i, c) && Inv(states[i])
    ensures c < |states[i + 1].callers|
    ensures forall f | HoldsCached(states[i + 1].callers[c], f) ::
      FoundWaiting(states, steps, i, c, f) || HoldsCached(states[i].callers[c], f)
    ensures states[i + 1].callers[c].pc == Filling ==>
      FoundAbsent(states, steps, i, c) ||
      exists f :: FoundTaken(states, steps, i, c, f) && HoldsCached(states[i].callers[c], f)
  {
    assert StepAt(states, steps, i);
    var caller := states[i].callers[c];
    assert CallerOk(states[i], caller);
    if states[i + 1].callers[c].pc == Filling && caller.pc.Taking? {
      assert FoundTaken(states, steps, i, c, caller.pc.future);
    }
  }

  lemma {:induction false} CachedWasFound(states: seq<State>, steps: seq<Step>, i: nat, c: nat, f: nat)
    requires Trace(states, steps) && states[0] == EMPTY && i <= |steps|
    requires c < |states[i].callers| && HoldsCached(states[i].callers[c], f)
    ensures EverFoundWaiting(states, steps, i, c, f)
    decreases i
  {
    TraceKeepsInv(states, steps, i - 1);
    if Moves(states, steps, i - 1, c) {
      MoveFinds(states, steps, i - 1, c);
      if !FoundWaiting(states, steps, i - 1, c, f) {
        CachedWasFound(states, steps, i - 1, c, f);
      }
    } else {
      CallerStays(states, steps, i - 1, c);
      CachedWasFound(states, steps, i - 1, c, f);
    }
  }

  lemma {:induction false} FillingWasRefused(states: seq<State>, steps: seq<Step>, i: nat, c: nat)
    requires Trace(states, steps) && states[0] == EMPTY && i <= |steps|
    requires c < |states[i].callers| && states[i].callers[c].pc == Filling
    ensures RefusedLast(states, steps, i, c)
    decreases i
  {
    TraceKeepsInv(states, steps, i - 1);
    if Moves(states, steps, i - 1, c) {
      MoveFinds(states, steps, i - 1, c);
      if !FoundAbsent(states, steps, i - 1, c) {
        var f :| FoundTaken(states, steps, i - 1, c, f) && HoldsCached(states[i - 1].callers[c], f);
        CachedWasFound(states, steps, i - 1, c, f);
      }
      assert Refused(states, steps, i - 1, c);
    } else {
      CallerStays(states, steps, i - 1, c);
      FillingWasRefused(states, steps, i - 1, c);
    }
  }

  /** In every run from an empty cache a step makes at most one computation, and only for a caller whose last move
      was to find the key absent, or to find the error taken of a computation that it had found in the cache. */
  lemma ComputesOnlyIfRefused(states: seq<State>, steps: seq<Step>, i: nat)
    requires Trace(states, steps) && states[0] == EMPTY && i < |steps|
    requires |states[i + 1].futures| != |states[i].futures|
    ensures steps[i].Advance? && steps[i].caller < |states[i].callers|
    ensures states[i + 1].futures == states[i].futures + [Future(states[i].callers[steps[i].caller].key, Running)]
    ensures RefusedLast(states, steps, i, steps[i].caller)
  {
    assert StepAt(states, steps, i);
    FillingWasRefused(states, steps, i, steps[i].caller);
  }

  // A value in the cache.

  /** The step may take `key` out of the cache. */
  predicate Evicts(s: State, step: Step, key: Key)
    requires Enabled(s, step)
  {
    match step
    case Drop(keys) => key in keys
    case Advance(c, evicted) =>
      key in evicted || (s.callers[c].pc.Removing? && s.callers[c].key == key)
    case _ => false
  }

  predicate EvictsAt(states: seq<State>, steps: seq<Step>, i: nat, key: Key)
    requires |states| == |steps| + 1 && i < |steps|
  {
    Enabled(states[i], steps[i]) && Evicts(states[i], steps[i], key)
  }

  predicate Undisturbed(states: seq<State>, steps: seq<Step>, key: Key)
    requires |states| == |steps| + 1
  {
    forall i | 0 <= i < |steps| :: !EvictsAt(states, steps, i, key)
  }

  predicate HasValue(s: State, key: Key, v: Value) {
    key in s.cache && s.cache[key] == Complete(v)
  }

  lemma StepKeepsValue(s: State, step: Step, key: Key, v: Value)
    requires Enabled(s, step) && !Evicts(s, step, key) && HasValue(s, key, v)
    ensures HasValue(Apply(s, step), key, v)
  {
  }

  lemma {:induction false} ValueStays(states: seq<State>, steps: seq<Step>, key: Key, v: Value, i: nat)
    requires Trace(states, steps) && Undisturbed(states, steps, key) && i <= |steps|
    requires HasValue(states[0], key, v)
    ensures HasValue(states[i], key, v)
    decreases i
  {
    if i > 0 {
      assert StepAt(states, steps, i - 1) && !EvictsAt(states, steps, i - 1, key);
      ValueStays(states, steps, key, v, i - 1);
      StepKeepsValue(states[i - 1], steps[i - 1], key, v);
    }
  }

  /** Until its key is evicted, a cached value stays as it is, and every caller that looks it up returns it in that
      very step, without a new computation. */
  lemma ValueIsShared(states: seq<State>, steps: seq<Step>, key: Key, v: Value, i: nat, c: nat)
    requires Trace(states, steps) && Undisturbed(states, steps, key)
    requires HasValue(states[0], key, v)
    requires Moves(states, steps, i, c) && states[i].callers[c].pc == Looking && states[i].callers[c].key == key
    ensures c < |states[i + 1].callers| && states[i + 1].callers[c].pc == Returned(v)
    ensures states[i + 1].futures == states[i].futures && states[i + 1].cache == states[i].cache
  {
    assert StepAt(states, steps, i);
    ValueStays(states, steps, key, v, i);
  }

  /** A caller that returns the value of a computation leaves a value in the cache, unless its write evicts it. */
  lemma ReturnedIsCached(s: State, c: nat, evicted: set<Key>)
    requires Inv(s) && Enabled(s, Advance(c, evicted)) && !s.callers[c].pc.Looking?
    requires s.callers[c].key !in evicted && Apply(s, Advance(c, evicted)).callers[c].pc.Returned?
    ensures var s' := Apply(s, Advance(c, evicted));
            && s.callers[c].key in s'.cache && s'.cache[s.callers[c].key].Complete?
            && forall key | key in s.cache && key !in evicted && key != s.callers[c].key ::
                 key in s'.cache && s'.cache[key] == s.cache[key]
  {
  }

  // A poll ends after a few moves of its caller, whatever the others do.

  predicate PollEnded(c: Caller) {
    c.pc.Idle? || c.pc.Returned? || c.pc.ReturnedError?
  }

  function OriginRank(origin: Origin): nat {
    match origin case Own => 0 case Cached => 5 case Fresh => 10
  }

  /** How far a poll has come: its own computation, then the cache, then a fresh one. */
  function Rank(pc: Pc): nat {
    match pc
    case Polling(_, origin) => 1 + OriginRank(origin)
    case Storing(_, origin, _) => 2 + OriginRank(origin)
    case Removing(_, origin) => 2 + OriginRank(origin)
    case Taking(_, origin) => 3 + OriginRank(origin)
    case Looking => 4
    case Filling => 9
    case _ => 0
  }

  function CountMoves(steps: seq<Step>, c: nat): nat {
    if steps == [] then 0
    else (if steps[0].Advance? && steps[0].caller == c then 1 else 0) + CountMoves(steps[1..], c)
  }

  ghost predicate Unfinished(states: seq<State>, c: nat) {
    forall i | 0 <= i < |states| :: c < |states[i].callers| && !PollEnded(states[i].callers[c])
  }

  lemma MoveRanksUp(s: State, c: nat, evicted: set<Key>)
    requires Inv(s) && Enabled(s, Advance(c, evicted)) && !PollEnded(s.callers[c])
    ensures var s' := Apply(s, Advance(c, evicted));
            PollEnded(s'.callers[c]) || Rank(s.callers[c].pc) < Rank(s'.callers[c].pc) <= 13
  {
    assert CallerOk(s, s.callers[c]);
  }

  lemma {:induction false} MovesRankUp(states: seq<State>, steps: seq<Step>, c: nat)
    requires Trace(states, steps) && Unfinished(states, c) && Inv(states[0])
    ensures CountMoves(steps, c) <= 13 - Rank(states[0].callers[c].pc)
    decreases |steps|
  {
    assert c < |states[0].callers| && !PollEnded(states[0].callers[c]);
    if steps != [] {
      var rest := states[1..];
      assert StepAt(states, steps, 0);
      assert c < |states[1].callers| && !PollEnded(states[1].callers[c]);
      forall i | 0 <= i < |steps[1..]| ensures StepAt(rest, steps[1..], i) {
        assert StepAt(states, steps, i + 1);
      }
      assert forall i | 0 <= i < |rest| :: rest[i] == states[i + 1];
      StepKeepsInv(states[0], steps[0]);
      if steps[0].Advance? && steps[0].caller == c {
        MoveRanksUp(states[0], c, steps[0].evicted);
      }
      MovesRankUp(rest, steps[1..], c);
    }
  }

  /** While a poll goes on its caller makes at most twelve moves, in any run and from any reachable state. */
  lemma {:induction false} PollIsShort(states: seq<State>, steps: seq<Step>, c: nat)
    requires Trace(states, steps) && Unfinished(states, c) && Inv(states[0])
    ensures CountMoves(steps, c) <= 12
  {
    assert c < |states[0].callers| && !PollEnded(states[0].callers[c]);
    assert CallerOk(states[0], states[0].callers[c]);
    MovesRankUp(states, steps, c);
  }
}
