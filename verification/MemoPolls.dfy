/** One poll of the memo cache, told from start to end. */
module MemoPolls {
  import opened Wrappers
  import opened MemoSlots
  import opened Asyncmemo

  lemma {:induction false} RunMore(s: State, steps: seq<Step>, mid: State, step: Step)
    requires Run(s, steps, mid) && Enabled(mid, step)
    ensures Run(s, steps + [step], Apply(mid, step))
    decreases |steps|
  {
    if steps == [] {
      assert (steps + [step])[1..] == [];
    } else {
      assert (steps + [step])[1..] == steps[1..] + [step];
      RunMore(Apply(s, steps[0]), steps[1..], mid, step);
    }
  }

  /** The caller alone moves from `s` to `s'`, and nothing is evicted. */
  ghost predicate Alone(s: State, c: nat, s': State) {
    exists steps :: Run(s, steps, s') && forall step | step in steps :: step == Advance(c, {})
  }

  lemma AloneStays(s: State, c: nat)
    ensures Alone(s, c, s)
  {
    assert Run(s, [], s);
  }

  lemma AloneMore(s: State, c: nat, mid: State)
    requires Alone(s, c, mid) && Enabled(mid, Advance(c, {}))
    ensures Alone(s, c, Apply(mid, Advance(c, {})))
  {
    var steps :| Run(s, steps, mid) && forall step | step in steps :: step == Advance(c, {});
    RunMore(s, steps, mid, Advance(c, {}));
    assert Run(s, steps + [Advance(c, {})], Apply(mid, Advance(c, {})));
  }

  /** The slot of a key that has come to hold `slot`, unless it had a value. */
  function Keeping(cache: map<Key, Slot<Value>>, key: Key, slot: Slot<Value>): map<Key, Slot<Value>> {
    if key in cache && cache[key].Complete? then cache else cache[key := slot]
  }

  /** What a poll of computation `f` leads to, unless its error was taken: the caller waits on, returns the value
      and leaves it in the cache, or takes the error and clears the slot. */
  function Polled(s: State, c: nat, f: nat): State
    requires c < |s.callers| && f < |s.futures|
  {
    var key := s.callers[c].key;
    match s.futures[f].state
    case Running =>
      s.(cache := Keeping(s.cache, key, Waiting(f)), callers := s.callers[c := Caller(key, Some(f), Idle)])
    case Ready(v) =>
      s.(cache := Keeping(s.cache, key, Complete(v)), callers := s.callers[c := Caller(key, None, Returned(v))])
    case Errored(_) =>
      State(s.futures[f := Future(s.futures[f].key, Errored(false))], s.cache - {key},
            s.callers[c := Caller(key, None, ReturnedError(f))])
  }

  /** A fresh computation is under way, shared through the cache. */
  function Restarted(s: State, c: nat): State
    requires c < |s.callers|
  {
    var key, f := s.callers[c].key, |s.futures|;
    State(s.futures + [Future(key, Running)], s.cache[key := Waiting(f)], s.callers[c := Caller(key, Some(f), Idle)])
  }

  /** The computation that the caller has, or else finds in the cache. */
  function InReach(s: State, c: nat): Option<nat>
    requires c < |s.callers|
  {
    var caller := s.callers[c];
    if caller.internal.Some? then caller.internal
    else if caller.key in s.cache && s.cache[caller.key].Waiting? then Some(s.cache[caller.key].future)
    else None
  }

  lemma PollsKnown(s: State, c: nat, mid: State, f: nat, origin: Origin)
    requires Alone(s, c, mid) && c < |mid.callers| && f < |mid.futures|
    requires mid.callers[c].pc == Polling(f, origin) && mid.callers[c].internal == None
    requires mid.futures[f].state != Errored(false)
    ensures Alone(s, c, Polled(mid, c, f))
  {
    var one := Apply(mid, Advance(c, {}));
    AloneMore(s, c, mid);
    var two := Apply(one, Advance(c, {}));
    AloneMore(s, c, one);
    if mid.futures[f].state.Errored? {
      AloneMore(s, c, two);
      assert Apply(two, Advance(c, {})) == Polled(mid, c, f);
    } else {
      assert two.cache == Polled(mid, c, f).cache;
      assert two == Polled(mid, c, f);
    }
  }

  /** Past a computation whose error was taken. */
  lemma PollsMoved(s: State, c: nat, mid: State, f: nat, origin: Origin)
    requires Alone(s, c, mid) && c < |mid.callers| && f < |mid.futures| && origin != Fresh
    requires mid.callers[c].pc == Polling(f, origin) && mid.callers[c].internal == None
    requires mid.futures[f].state == Errored(false)
    ensures var key := mid.callers[c].key;
            Alone(s, c, mid.(cache := mid.cache - {key}, callers := mid.callers[c := Caller(key, None, Filling)]))
  {
    var key := mid.callers[c].key;
    var one := Apply(mid, Advance(c, {}));
    AloneMore(s, c, mid);
    var two := Apply(one, Advance(c, {}));
    AloneMore(s, c, one);
    var three := Apply(two, Advance(c, {}));
    AloneMore(s, c, two);
    var end := mid.(cache := mid.cache - {key}, callers := mid.callers[c := Caller(key, None, Filling)]);
    if origin == Own {
      AloneMore(s, c, three);
      assert Apply(three, Advance(c, {})) == end;
    } else {
      assert three == end;
    }
  }

  lemma Fills(s: State, c: nat, mid: State)
    requires Alone(s, c, mid) && c < |mid.callers| && mid.callers[c].key !in mid.cache
    requires mid.callers[c].pc == Filling && mid.callers[c].internal == None
    ensures Alone(s, c, Restarted(mid, c))
  {
    var one := Apply(mid, Advance(c, {}));
    AloneMore(s, c, mid);
    PollsKnown(s, c, one, |mid.futures|, Fresh);
    assert Polled(one, c, |mid.futures|) == Restarted(mid, c);
  }

  lemma FillsAnew(s: State, c: nat, mid: State, f: nat, origin: Origin)
    requires Alone(s, c, mid) && c < |mid.callers| && f < |mid.futures| && origin != Fresh
    requires mid.callers[c].pc == Polling(f, origin) && mid.callers[c].internal == None
    requires mid.futures[f].state == Errored(false)
    ensures Alone(s, c, Restarted(mid, c))
  {
    var key := mid.callers[c].key;
    var end := mid.(cache := mid.cache - {key}, callers := mid.callers[c := Caller(key, None, Filling)]);
    PollsMoved(s, c, mid, f, origin);
    Fills(s, c, end);
    assert end.cache[key := Waiting(|mid.futures|)] == mid.cache[key := Waiting(|mid.futures|)];
    assert Restarted(end, c) == Restarted(mid, c);
  }

  /** A poll that nobody disturbs. A value in the cache is returned and nothing else changes, unless the caller has a
      computation of its own. Otherwise the computation in reach is polled, if there is one; a new one is made only
      if there is none, or if the error of the one in reach was taken. */
  lemma PollAlone(s: State, c: nat)
    requires Inv(s) && c < |s.callers| && s.callers[c].pc == Idle
    ensures var caller, f := s.callers[c], InReach(s, c);
            && (f.Some? ==> IsFor(s, f.value, caller.key))
            && Alone(s, c,
                     if f.Some? then
                       if s.futures[f.value].state == Errored(false) then Restarted(s, c) else Polled(s, c, f.value)
                     else if caller.key in s.cache then
                       s.(callers := s.callers[c := caller.(pc := Returned(s.cache[caller.key].item))])
                     else Restarted(s, c))
  {
    var caller, f := s.callers[c], InReach(s, c);
    assert CallerOk(s, caller);
    assert caller.key in s.cache ==> SlotOk(s, caller.key, s.cache[caller.key]);
    AloneStays(s, c);
    var one := Apply(s, Advance(c, {}));
    AloneMore(s, c, s);
    if caller.internal.Some? {
      PollsInReach(s, c, one, caller.internal.value, Own);
    } else {
      var two := Apply(one, Advance(c, {}));
      AloneMore(s, c, one);
      if caller.key !in s.cache {
        Fills(s, c, two);
        assert Restarted(two, c) == Restarted(s, c);
      } else if s.cache[caller.key].Waiting? {
        PollsInReach(s, c, two, s.cache[caller.key].future, Cached);
      } else {
        assert two == s.(callers := s.callers[c := caller.(pc := Returned(s.cache[caller.key].item))]);
      }
    }
  }

  lemma PollsInReach(s: State, c: nat, mid: State, f: nat, origin: Origin)
    requires Alone(s, c, mid) && c < |s.callers| && f < |s.futures| && origin != Fresh
    requires mid == s.(callers := s.callers[c := Caller(s.callers[c].key, None, Polling(f, origin))])
    ensures Alone(s, c, if s.futures[f].state == Errored(false) then Restarted(s, c) else Polled(s, c, f))
  {
    if s.futures[f].state == Errored(false) {
      FillsAnew(s, c, mid, f, origin);
      assert Restarted(mid, c) == Restarted(s, c);
    } else {
      PollsKnown(s, c, mid, f, origin);
      assert Polled(mid, c, f) == Polled(s, c, f);
    }
  }

  /** A call for a key that has a value returns it, and only the call itself is new. */
  lemma HitReturns(s: State, key: Key)
    requires Inv(s) && key in s.cache && s.cache[key].Complete?
    ensures Alone(Apply(s, Get(key)), |s.callers|,
                  s.(callers := s.callers + [Caller(key, None, Returned(s.cache[key].item))]))
  {
    var s1, c := Apply(s, Get(key)), |s.callers|;
    StepKeepsInv(s, Get(key));
    PollAlone(s1, c);
    assert s1.callers[c := Caller(key, None, Returned(s.cache[key].item))]
      == s.callers + [Caller(key, None, Returned(s.cache[key].item))];
  }

  /** A call for a key that was dropped starts a computation that the next call for it will share. */
  lemma DroppedIsComputedAnew(s: State, keys: set<Key>, key: Key) returns (s': State)
    requires Inv(s) && key in keys
    ensures Alone(Apply(Apply(s, Drop(keys)), Get(key)), |s.callers|, s')
    ensures s'.futures == s.futures + [Future(key, Running)]
    ensures s'.callers == s.callers + [Caller(key, Some(|s.futures|), Idle)]
    ensures s'.cache == (s.cache - keys)[key := Waiting(|s.futures|)]
  {
    var s1 := Apply(s, Drop(keys));
    StepKeepsInv(s, Drop(keys));
    var s2, c := Apply(s1, Get(key)), |s.callers|;
    StepKeepsInv(s1, Get(key));
    PollAlone(s2, c);
    s' := Restarted(s2, c);
  }

  /** A caller that waits returns the value that its computation comes to, and then the cache has a value for
      the key. */
  lemma WaiterReturns(s: State, c: nat, f: nat, v: Value) returns (s': State)
    requires Inv(s) && c < |s.callers| && s.callers[c].pc == Idle && s.callers[c].internal == Some(f)
    requires f < |s.futures| && s.futures[f].state == Running
    ensures Alone(Apply(s, Resolve(f, Ready(v))), c, s')
    ensures s'.callers == s.callers[c := Caller(s.callers[c].key, None, Returned(v))]
    ensures s.callers[c].key in s'.cache && s'.cache[s.callers[c].key].Complete?
  {
    var s1 := Apply(s, Resolve(f, Ready(v)));
    StepKeepsInv(s, Resolve(f, Ready(v)));
    PollAlone(s1, c);
    s' := Polled(s1, c, f);
  }
}
