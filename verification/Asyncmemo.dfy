/** Runs of the memo cache: callers that poll shared computations, step by step, while entries are evicted,
    invalidated and cleared at any time. */
module Asyncmemo {
  import opened Wrappers
  import opened BoundedHash
  import opened MemoSlots

  type Key = nat
  type Value = nat

  /** A failed computation holds its error until one caller takes it. */
  datatype Computation = Running | Ready(value: Value) | Errored(present: bool)

  datatype Future = Future(key: Key, state: Computation)

  /** The three ways a poll comes to a computation: its own from an earlier poll, one found in the cache, or a
      fresh one from the filler. */
  datatype Origin = Own | Cached | Fresh

  /** Where a caller is between two operations on shared state. */
  datatype Pc =
    | Idle
    | Polling(future: nat, origin: Origin)
    | Storing(future: nat, origin: Origin, slot: Slot<Value>)
    | Removing(future: nat, origin: Origin)
    | Taking(future: nat, origin: Origin)
    | Looking
    | Filling
    | Returned(value: Value)
    | ReturnedError(future: nat)
    | Panicked

  datatype Caller = Caller(key: Key, internal: Option<nat>, pc: Pc)

  datatype State = State(futures: seq<Future>, cache: map<Key, Slot<Value>>, callers: seq<Caller>)

  datatype Step =
    | Get(key: Key)
    | Resolve(future: nat, state: Computation)
    | Advance(caller: nat, evicted: set<Key>)
    | Drop(keys: set<Key>) // eviction, invalidation or clearing by anyone

  predicate Enabled(s: State, step: Step) {
    match step
    case Get(_) => true
    case Resolve(f, state) =>
      f < |s.futures| && s.futures[f].state == Running && (state.Ready? || state == Errored(true))
    case Advance(c, _) =>
      && c < |s.callers|
      && !s.callers[c].pc.Returned? && !s.callers[c].pc.ReturnedError? && !s.callers[c].pc.Panicked?
      && RefersToFuture(s, s.callers[c])
    case Drop(_) => true
  }

  predicate RefersToFuture(s: State, c: Caller) {
    match c.pc
    case Polling(f, _) => f < |s.futures|
    case Taking(f, _) => f < |s.futures|
    case _ => true
  }

  /** What writing a slot leaves under the key; the write may also evict, itself included. */
  function Stored(cache: map<Key, Slot<Value>>, key: Key, slot: Slot<Value>, evicted: set<Key>): map<Key, Slot<Value>> {
    var kept := if key in cache && cache[key].Complete? then cache[key] else slot;
    cache[key := kept] - evicted
  }

  function AsMap(entries: Entries<Key, Slot<Value>>): map<Key, Slot<Value>> {
    map k | k in Keys(entries) && Lookup(entries, k).Some? :: Lookup(entries, k).value
  }

  lemma {:induction false} LookupIsKey(entries: Entries<Key, Slot<Value>>, k: Key)
    ensures Lookup(entries, k).Some? <==> k in Keys(entries)
    decreases |entries|
  {
    if entries != [] {
      LookupIsKey(entries[1..], k);
    }
  }

  lemma {:induction false} LookupWithout(entries: Entries<Key, Slot<Value>>, key: Key, k: Key)
    ensures Lookup(Without(entries, key), k) == if k == key then None else Lookup(entries, k)
    decreases |entries|
  {
    if entries != [] {
      LookupWithout(entries[1..], key, k);
      if entries[0].0 != key {
        assert ([entries[0]] + Without(entries[1..], key))[1..] == Without(entries[1..], key);
      }
    }
  }

  lemma {:induction false} LookupInSuffix(suffix: Entries<Key, Slot<Value>>, entries: Entries<Key, Slot<Value>>, k: Key)
    requires DistinctKeys(entries) && IsSuffix(suffix, entries) && Lookup(suffix, k).Some?
    ensures Lookup(entries, k) == Lookup(suffix, k)
    decreases |entries|
  {
    if |suffix| < |entries| {
      assert suffix == entries[1..][|entries[1..]| - |suffix|..];
      LookupInSuffix(suffix, entries[1..], k);
      LookupIsKey(entries[1..], k);
    }
  }

  /** What writing a slot into a shard leaves there is what the steps below take it to leave. */
  lemma {:induction false} InsertIsStored(before: Entries<Key, Slot<Value>>, after: Entries<Key, Slot<Value>>,
                                          key: Key, slot: Slot<Value>, fits: bool)
    requires DistinctKeys(before) && IsSuffix(Without(after, key), Without(before, key))
    requires Lookup(after, key) == if !fits then None
                                   else if Lookup(before, key).Some? && Lookup(before, key).value.Complete?
                                   then Lookup(before, key)
                                   else Some(slot)
    ensures exists evicted :: AsMap(after) == Stored(AsMap(before), key, slot, evicted)
  {
    var evicted := (Keys(before) + {key}) - Keys(after);
    var written := Stored(AsMap(before), key, slot, evicted);
    forall k ensures SlotAt(AsMap(after), k) == SlotAt(written, k) {
      AsMapGet(after, k);
      AsMapGet(before, k);
      AsMapGet(before, key);
      if k != key && k in Keys(after) {
        OthersStay(before, after, key, k);
      }
    }
    SameGet(AsMap(after), written);
  }

  function SlotAt(m: map<Key, Slot<Value>>, k: Key): Option<Slot<Value>> {
    if k in m then Some(m[k]) else None
  }

  lemma SameGet(a: map<Key, Slot<Value>>, b: map<Key, Slot<Value>>)
    requires forall k :: SlotAt(a, k) == SlotAt(b, k)
    ensures a == b
  {
    assert forall k :: k in a <==> SlotAt(a, k).Some?;
    assert forall k :: k in b <==> SlotAt(b, k).Some?;
  }

  lemma {:induction false} AsMapGet(entries: Entries<Key, Slot<Value>>, k: Key)
    ensures SlotAt(AsMap(entries), k) == Lookup(entries, k)
    ensures Lookup(entries, k).Some? <==> k in Keys(entries)
  {
    LookupIsKey(entries, k);
  }

  lemma {:induction false} OthersStay(before: Entries<Key, Slot<Value>>, after: Entries<Key, Slot<Value>>, key: Key,
                                      k: Key)
    requires DistinctKeys(before) && IsSuffix(Without(after, key), Without(before, key)) && k != key && k in Keys(after)
    ensures k in Keys(before) && Lookup(before, k) == Lookup(after, k)
  {
    WithoutRemoves(before, key);
    LookupIsKey(after, k);
    LookupIsKey(before, k);
    LookupWithout(after, key, k);
    LookupWithout(before, key, k);
    LookupInSuffix(Without(after, key), Without(before, key), k);
  }

  function With(s: State, c: nat, caller: Caller): State
    requires c < |s.callers|
  {
    s.(callers := s.callers[c := caller])
  }

  /** One operation of a caller. */
  function AdvanceCaller(s: State, c: nat, evicted: set<Key>): State
    requires Enabled(s, Advance(c, evicted))
  {
    var caller := s.callers[c];
    match caller.pc
    case Idle =>
      With(s, c, caller.(internal := None,
                         pc := if caller.internal.Some? then Polling(caller.internal.value, Own) else Looking))
    case Polling(f, origin) =>
      With(s, c, caller.(pc := match s.futures[f].state
                               case Running => Storing(f, origin, Waiting(f))
                               case Ready(v) => Storing(f, origin, Complete(v))
                               case Errored(_) => Removing(f, origin)))
    case Storing(f, _, slot) =>
      With(s.(cache := Stored(s.cache, caller.key, slot, evicted)), c,
           if slot.Complete? then caller.(pc := Returned(slot.item))
           else caller.(internal := Some(f), pc := Idle))
    case Removing(f, origin) => With(s.(cache := s.cache - {caller.key}), c, caller.(pc := Taking(f, origin)))
    case Taking(f, origin) =>
      if s.futures[f].state == Errored(true) then
        With(s.(futures := s.futures[f := s.futures[f].(state := Errored(false))]), c, caller.(pc := ReturnedError(f)))
      else
        With(s, c, caller.(pc := match origin case Own => Looking case Cached => Filling case Fresh => Panicked))
    case Looking =>
      With(s, c, caller.(pc := if caller.key !in s.cache then Filling
                               else match s.cache[caller.key]
                                    case Complete(v) => Returned(v)
                                    case Waiting(f) => Polling(f, Cached)))
    case Filling =>
      With(s.(futures := s.futures + [Future(caller.key, Running)]), c, caller.(pc := Polling(|s.futures|, Fresh)))
  }

  function Apply(s: State, step: Step): State
    requires Enabled(s, step)
  {
    match step
    case Get(key) => s.(callers := s.callers + [Caller(key, None, Idle)])
    case Resolve(f, state) => s.(futures := s.futures[f := s.futures[f].(state := state)])
    case Advance(c, evicted) => AdvanceCaller(s, c, evicted)
    case Drop(keys) => s.(cache := s.cache - keys)
  }

  predicate Run(s: State, steps: seq<Step>, s': State)
    decreases |steps|
  {
    if steps == [] then s == s' else Enabled(s, steps[0]) && Run(Apply(s, steps[0]), steps[1..], s')
  }

  // What holds in every reachable state.

  /** The filler produced `v` for `key`. */
  ghost predicate Produced(s: State, key: Key, v: Value) {
    exists f :: 0 <= f < |s.futures| && s.futures[f] == Future(key, Ready(v))
  }

  predicate IsFor(s: State, f: nat, key: Key) {
    f < |s.futures| && s.futures[f].key == key
  }

  ghost predicate SlotOk(s: State, key: Key, slot: Slot<Value>) {
    match slot
    case Waiting(f) => IsFor(s, f, key)
    case Complete(v) => Produced(s, key, v)
  }

  /** The computation that a caller has in hand and shares with nobody yet. */
  predicate HoldsFresh(c: Caller, f: nat) {
    match c.pc
    case Polling(g, Fresh) => f == g
    case Storing(g, Fresh, _) => f == g
    case Removing(g, Fresh) => f == g
    case Taking(g, Fresh) => f == g
    case _ => false
  }

  predicate Mentions(c: Caller, f: nat) {
    c.internal == Some(f) ||
    match c.pc
    case Polling(g, _) => f == g
    case Storing(g, _, _) => f == g
    case Removing(g, _) => f == g
    case Taking(g, _) => f == g
    case ReturnedError(g) => f == g
    case _ => false
  }

  /** The computation failed, and if it is fresh its error is still there. */
  predicate HasFailed(s: State, f: nat, key: Key, origin: Origin) {
    IsFor(s, f, key) && s.futures[f].state.Errored? && (origin == Fresh ==> s.futures[f].state.present)
  }

  ghost predicate CallerOk(s: State, c: Caller) {
    && (c.internal.Some? ==> c.pc.Idle? && IsFor(s, c.internal.value, c.key))
    && match c.pc
       case Polling(f, origin) => IsFor(s, f, c.key) && (origin == Fresh ==> s.futures[f].state != Errored(false))
       case Storing(f, _, slot) => IsFor(s, f, c.key) && SlotOk(s, c.key, slot) && (slot.Waiting? ==> slot.future == f)
       case Removing(f, origin) => HasFailed(s, f, c.key, origin)
       case Taking(f, origin) => HasFailed(s, f, c.key, origin)
       case Returned(v) => Produced(s, c.key, v)
       case ReturnedError(f) => IsFor(s, f, c.key) && s.futures[f].state == Errored(false)
       case Panicked => false
       case _ => true
  }

  /** A fresh computation is in no slot and in no other caller's hands. */
  predicate FreshIsPrivate(s: State, c: nat, f: nat)
    requires c < |s.callers|
  {
    HoldsFresh(s.callers[c], f) ==>
      && (forall key | key in s.cache :: s.cache[key] != Waiting(f))
      && (forall d | 0 <= d < |s.callers| && d != c :: !Mentions(s.callers[d], f))
  }

  /** No two callers were given the error of one computation. */
  predicate ErrorsOnce(s: State) {
    forall c, d | 0 <= c < d < |s.callers| && s.callers[c].pc.ReturnedError? && s.callers[d].pc.ReturnedError? ::
      s.callers[c].pc.future != s.callers[d].pc.future
  }

  ghost predicate Inv(s: State) {
    && (forall key | key in s.cache :: SlotOk(s, key, s.cache[key]))
    && (forall c | 0 <= c < |s.callers| :: CallerOk(s, s.callers[c]))
    && (forall c, f: nat | 0 <= c < |s.callers| :: FreshIsPrivate(s, c, f))
    && ErrorsOnce(s)
  }

  /** Computations keep their key, a produced value stays, and an error at most changes hands. */
  predicate Grows(s: State, s': State) {
    && |s.futures| <= |s'.futures|
    && forall f | 0 <= f < |s.futures| ::
         && s'.futures[f].key == s.futures[f].key
         && (s.futures[f].state.Ready? ==> s'.futures[f].state == s.futures[f].state)
         && (s.futures[f].state.Errored? ==> s'.futures[f].state.Errored?)
         && (s.futures[f].state == Errored(false) ==> s'.futures[f].state == Errored(false))
  }

  lemma StepGrows(s: State, step: Step)
    requires Enabled(s, step)
    ensures Grows(s, Apply(s, step))
  {
  }

  lemma ProducedStays(s: State, s': State, key: Key, v: Value)
    requires Grows(s, s') && Produced(s, key, v)
    ensures Produced(s', key, v)
  {
  }

  lemma SlotStays(s: State, s': State, key: Key, slot: Slot<Value>)
    requires Grows(s, s') && SlotOk(s, key, slot)
    ensures SlotOk(s', key, slot)
  {
  }

  /** A caller that did not move keeps its invariant, if nobody took the error of its fresh computation. */
  lemma CallerStays(s: State, s': State, c: Caller)
    requires Grows(s, s') && CallerOk(s, c)
    requires forall f: nat | HoldsFresh(c, f) && f < |s.futures| ::
      s'.futures[f].state == Errored(false) ==> s.futures[f].state == Errored(false)
    ensures CallerOk(s', c)
  {
  }

  /** A caller that has not returned can always take its next step. */
  lemma NeverStuck(s: State, c: nat, evicted: set<Key>)
    requires Inv(s) && c < |s.callers|
    ensures s.callers[c].pc.Returned? || s.callers[c].pc.ReturnedError? || Enabled(s, Advance(c, evicted))
  {
  }

  lemma CacheKept(s: State, step: Step)
    requires Inv(s) && Enabled(s, step)
    ensures var s' := Apply(s, step); forall key | key in s'.cache :: SlotOk(s', key, s'.cache[key])
  {
    var s' := Apply(s, step);
    StepGrows(s, step);
    forall key | key in s'.cache ensures SlotOk(s', key, s'.cache[key]) {
      if key in s.cache && s'.cache[key] == s.cache[key] {
        SlotStays(s, s', key, s.cache[key]);
      } else {
        var c := s.callers[step.caller];
        assert CallerOk(s, c);
        SlotStays(s, s', key, c.pc.slot);
      }
    }
  }

  lemma MoverOk(s: State, c: nat, evicted: set<Key>)
    requires Inv(s) && Enabled(s, Advance(c, evicted))
    ensures var s' := Apply(s, Advance(c, evicted)); CallerOk(s', s'.callers[c])
  {
    var s' := Apply(s, Advance(c, evicted));
    var caller := s.callers[c];
    assert CallerOk(s, caller);
    StepGrows(s, Advance(c, evicted));
    match caller.pc {
      case Polling(f, _) =>
        if s.futures[f].state.Ready? {
          assert s'.futures[f] == Future(caller.key, Ready(s.futures[f].state.value));
        }
      case Storing(_, _, slot) =>
        if slot.Complete? {
          ProducedStays(s, s', caller.key, slot.item);
        }
      case Looking =>
        if caller.key in s.cache {
          SlotStays(s, s', caller.key, s.cache[caller.key]);
        }
      case _ =>
    }
  }

  /** An error disappears only in the step of the caller that takes it, and that caller mentions it. */
  lemma ErrorsAreTaken(s: State, step: Step, f: nat)
    requires Enabled(s, step) && f < |s.futures|
    requires s.futures[f].state != Errored(false) && Apply(s, step).futures[f].state == Errored(false)
    ensures step.Advance? && Mentions(s.callers[step.caller], f)
  {
  }

  lemma CallersKept(s: State, step: Step)
    requires Inv(s) && Enabled(s, step)
    ensures var s' := Apply(s, step); forall c | 0 <= c < |s'.callers| :: CallerOk(s', s'.callers[c])
  {
    var s' := Apply(s, step);
    StepGrows(s, step);
    forall c | 0 <= c < |s'.callers| ensures CallerOk(s', s'.callers[c]) {
      if step.Advance? && step.caller == c {
        MoverOk(s, c, step.evicted);
      } else if c < |s.callers| {
        forall f: nat | HoldsFresh(s.callers[c], f) && f < |s.futures|
          ensures s'.futures[f].state == Errored(false) ==> s.futures[f].state == Errored(false)
        {
          assert FreshIsPrivate(s, c, f);
          if s'.futures[f].state == Errored(false) && s.futures[f].state != Errored(false) {
            ErrorsAreTaken(s, step, f);
          }
        }
        CallerStays(s, s', s.callers[c]);
      }
    }
  }

  /** What the caller that moves mentions afterwards it mentioned before, found in the cache, or just made. */
  lemma MoverMentions(s: State, c: nat, evicted: set<Key>, f: nat)
    requires Inv(s) && Enabled(s, Advance(c, evicted))
    requires Mentions(Apply(s, Advance(c, evicted)).callers[c], f)
    ensures || Mentions(s.callers[c], f)
            || (s.callers[c].key in s.cache && s.cache[s.callers[c].key] == Waiting(f))
            || (s.callers[c].pc.Filling? && f == |s.futures|)
  {
  }

  lemma NewWaitingSlot(s: State, step: Step, key: Key, f: nat)
    requires Inv(s) && Enabled(s, step)
    requires key in Apply(s, step).cache && Apply(s, step).cache[key] == Waiting(f)
    ensures || (key in s.cache && s.cache[key] == Waiting(f))
            || (step.Advance? && s.callers[step.caller].pc.Storing? && Mentions(s.callers[step.caller], f))
  {
  }

  lemma FreshStays(s: State, c: nat, evicted: set<Key>, f: nat)
    requires Inv(s) && Enabled(s, Advance(c, evicted))
    requires HoldsFresh(Apply(s, Advance(c, evicted)).callers[c], f)
    ensures HoldsFresh(s.callers[c], f) || (s.callers[c].pc.Filling? && f == |s.futures|)
    ensures !s.callers[c].pc.Storing?
  {
  }

  lemma FreshKept(s: State, step: Step, c: nat, f: nat)
    requires Inv(s) && Enabled(s, step) && c < |Apply(s, step).callers|
    ensures FreshIsPrivate(Apply(s, step), c, f)
  {
    var s' := Apply(s, step);
    if HoldsFresh(s'.callers[c], f) {
      var moves := step.Advance? && step.caller == c;
      if moves {
        FreshStays(s, c, step.evicted, f);
      }
      assert HoldsFresh(s.callers[c], f) ==> FreshIsPrivate(s, c, f);
      forall key | key in s'.cache ensures s'.cache[key] != Waiting(f) {
        if s'.cache[key] == Waiting(f) {
          NewWaitingSlot(s, step, key, f);
        }
      }
      forall d | 0 <= d < |s'.callers| && d != c ensures !Mentions(s'.callers[d], f) {
        if Mentions(s'.callers[d], f) {
          if step.Advance? && step.caller == d {
            MoverMentions(s, d, step.evicted, f);
          }
        }
      }
    }
  }

  lemma ErrorsKeptOnce(s: State, step: Step)
    requires Inv(s) && Enabled(s, step)
    ensures ErrorsOnce(Apply(s, step))
  {
  }

  lemma StepKeepsInv(s: State, step: Step)
    requires Inv(s) && Enabled(s, step)
    ensures Inv(Apply(s, step))
  {
    var s' := Apply(s, step);
    CacheKept(s, step);
    CallersKept(s, step);
    forall c, f: nat | 0 <= c < |s'.callers| ensures FreshIsPrivate(s', c, f) {
      FreshKept(s, step, c, f);
    }
    ErrorsKeptOnce(s, step);
  }

  lemma {:induction false} RunKeepsInv(s: State, steps: seq<Step>, s': State)
    requires Inv(s) && Run(s, steps, s')
    ensures Inv(s')
    decreases |steps|
  {
    if steps != [] {
      StepKeepsInv(s, steps[0]);
      RunKeepsInv(Apply(s, steps[0]), steps[1..], s');
    }
  }

  /** In every run from an empty cache: a returned or cached value is one the filler produced for that key, an
      error goes to at most one caller, and no caller finds the error of its own fresh computation gone. */
  lemma {:induction false} MemoIsSound(steps: seq<Step>, s: State, c: nat, d: nat, key: Key)
    requires Run(State([], map[], []), steps, s)
    requires c < |s.callers| && d < |s.callers|
    ensures s.callers[c].pc.Returned? ==> Produced(s, s.callers[c].key, s.callers[c].pc.value)
    ensures s.callers[c].pc.ReturnedError? ==>
      IsFor(s, s.callers[c].pc.future, s.callers[c].key) && s.futures[s.callers[c].pc.future].state.Errored?
    ensures c != d && s.callers[c].pc.ReturnedError? && s.callers[d].pc.ReturnedError? ==>
      s.callers[c].pc.future != s.callers[d].pc.future
    ensures !s.callers[c].pc.Panicked?
    ensures key in s.cache && s.cache[key].Complete? ==> Produced(s, key, s.cache[key].item)
  {
    RunKeepsInv(State([], map[], []), steps, s);
    assert CallerOk(s, s.callers[c]) && CallerOk(s, s.callers[d]);
    assert key in s.cache ==> SlotOk(s, key, s.cache[key]);
  }
}
