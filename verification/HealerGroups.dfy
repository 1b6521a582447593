/** What a healing pass decides about each group of entries, told by stores, timestamps and the deadline. */
module HealerGroups {
  import opened Healer

  /** The passes of a run, in the order in which they started. */
  function Starts(steps: seq<Step>): seq<Step> {
    if steps == [] then []
    else (if steps[0].StartPass? then [steps[0]] else []) + Starts(steps[1..])
  }

  /** Some configured store has no entry among these. */
  predicate Incomplete(stores: set<StoreId>, entries: map<nat, QueueEntry>) {
    exists st | st in stores :: forall id | id in entries :: entries[id].store != st
  }

  predicate TooYoung(stores: set<StoreId>, entries: map<nat, QueueEntry>, deadline: int) {
    Incomplete(stores, entries) && forall id | id in entries :: entries[id].timestamp >= deadline
  }

  /** Some configured store has no entry, and some entry is older than the deadline. */
  predicate NeedsHealing(stores: set<StoreId>, entries: map<nat, QueueEntry>, deadline: int) {
    Incomplete(stores, entries) && exists id | id in entries :: entries[id].timestamp < deadline
  }

  lemma MissingIsIncomplete(stores: set<StoreId>, entries: map<nat, QueueEntry>)
    ensures MissingStores(stores, entries.Values) != {} <==> Incomplete(stores, entries)
  {
    if MissingStores(stores, entries.Values) != {} {
      var st :| st in MissingStores(stores, entries.Values);
      forall id | id in entries ensures entries[id].store != st {
        assert entries[id] in entries.Values;
      }
    }
    if Incomplete(stores, entries) {
      var st :| st in stores && forall id | id in entries :: entries[id].store != st;
      assert st in MissingStores(stores, entries.Values);
    }
  }

  /** The group holds the entries that its pass read; it is skipped if it was too young, is cleared without any
      store being asked if all stores have entries, and is neither while it is still to be healed. */
  predicate GroupMatches(stores: set<StoreId>, group: Group, entries: map<nat, QueueEntry>, deadline: int) {
    && group.entries == entries
    && (forall id | id in entries :: entries[id].key == group.key)
    && (group.status == Skipped <==> TooYoung(stores, entries, deadline))
    && (!Incomplete(stores, entries) ==> group.status == Cleared)
  }

  ghost predicate PassMatches(stores: set<StoreId>, pass: Pass, start: Step) {
    && start.StartPass? && |pass.groups| == |start.batches|
    && forall g | 0 <= g < |pass.groups| :: GroupMatches(stores, pass.groups[g], start.batches[g], start.deadline)
  }

  ghost predicate Matches(s: State, starts: seq<Step>) {
    && |s.passes| == |starts|
    && forall p | 0 <= p < |starts| :: PassMatches(Configured(s), s.passes[p], starts[p])
  }

  lemma NewGroupMatches(stores: set<StoreId>, entries: map<nat, QueueEntry>, deadline: int)
    requires OneKey(entries)
    ensures GroupMatches(stores, GroupOf(stores, entries, deadline, KeyOf(entries)), entries, deadline)
  {
    MissingIsIncomplete(stores, entries);
  }

  lemma StartMatches(s: State, batches: seq<map<nat, QueueEntry>>, deadline: int)
    requires Enabled(s, StartPass(batches, deadline))
    ensures PassMatches(Configured(s), Apply(s, StartPass(batches, deadline)).passes[|s.passes|],
                        StartPass(batches, deadline))
  {
    var groups := Apply(s, StartPass(batches, deadline)).passes[|s.passes|].groups;
    forall g | 0 <= g < |groups| ensures GroupMatches(Configured(s), groups[g], batches[g], deadline) {
      assert batches[g] in batches;
      NewGroupMatches(Configured(s), batches[g], deadline);
    }
  }

  /** A step of the pass that works on this group. */
  predicate Touches(step: Step, p: nat, g: nat) {
    match step
    case Fetch(pass, group, _) => pass == p && group == g
    case Put(pass, group, _, _, _) => pass == p && group == g
    case FinishPuts(pass, group) => pass == p && group == g
    case ReportHealed(pass, group, _, _) => pass == p && group == g
    case FinishReport(pass, group) => pass == p && group == g
    case _ => false
  }

  lemma TouchedGroup(s: State, step: Step, p: nat, g: nat)
    requires Enabled(s, step) && Touches(step, p, g)
    ensures InPass(s, p, g) && !Settled(s.passes[p].groups[g].status)
    ensures var s' := Apply(s, step);
            && |s'.passes| == |s.passes| && |s'.passes[p].groups| == |s.passes[p].groups|
            && s'.passes[p].groups[g] == s.passes[p].groups[g].(status := s'.passes[p].groups[g].status)
            && s'.passes[p].groups[g].status != Skipped
  {
  }

  lemma UntouchedGroup(s: State, step: Step, p: nat, g: nat)
    requires Enabled(s, step) && !Touches(step, p, g) && p < |s.passes| && g < |s.passes[p].groups|
    ensures var s' := Apply(s, step);
            && p < |s'.passes| && |s'.passes[p].groups| == |s.passes[p].groups|
            && s'.passes[p].groups[g] == s.passes[p].groups[g]
  {
  }

  lemma PassStepMatches(s: State, step: Step, p: nat, start: Step)
    requires Enabled(s, step) && p < |s.passes| && PassMatches(Configured(s), s.passes[p], start)
    ensures p < |Apply(s, step).passes| && PassMatches(Configured(s), Apply(s, step).passes[p], start)
  {
    var s' := Apply(s, step);
    assert p < |s'.passes| && |s'.passes[p].groups| == |s.passes[p].groups|;
    forall g | 0 <= g < |s.passes[p].groups|
      ensures GroupMatches(Configured(s), s'.passes[p].groups[g], start.batches[g], start.deadline)
    {
      assert GroupMatches(Configured(s), s.passes[p].groups[g], start.batches[g], start.deadline);
      if Touches(step, p, g) {
        TouchedGroup(s, step, p, g);
      } else {
        UntouchedGroup(s, step, p, g);
      }
    }
  }

  lemma StepMatches(s: State, step: Step, starts: seq<Step>)
    requires Enabled(s, step) && Matches(s, starts)
    ensures Matches(Apply(s, step), starts + Starts([step]))
  {
    var s' := Apply(s, step);
    KeepsConfigured(s, step);
    assert Starts([step]) == if step.StartPass? then [step] else [];
    assert |s'.passes| == |starts + Starts([step])|;
    forall p | 0 <= p < |s'.passes|
      ensures PassMatches(Configured(s'), s'.passes[p], (starts + Starts([step]))[p])
    {
      if p < |s.passes| {
        PassStepMatches(s, step, p, starts[p]);
      } else {
        StartMatches(s, step.batches, step.deadline);
      }
    }
  }

  /** No step works on a group that was too young or that all stores have entries of. */
  predicate LeavesDecided(step: Step, stores: set<StoreId>, starts: seq<Step>) {
    forall p, g | 0 <= p < |starts| && starts[p].StartPass? && 0 <= g < |starts[p].batches| && Touches(step, p, g) ::
      NeedsHealing(stores, starts[p].batches[g], starts[p].deadline)
  }

  lemma StepLeavesDecided(s: State, step: Step, starts: seq<Step>, more: seq<Step>)
    requires Enabled(s, step) && Matches(s, starts)
    ensures LeavesDecided(step, Configured(s), starts + more)
  {
    var all := starts + more;
    forall p, g | 0 <= p < |all| && all[p].StartPass? && 0 <= g < |all[p].batches| && Touches(step, p, g)
      ensures NeedsHealing(Configured(s), all[p].batches[g], all[p].deadline)
    {
      TouchedGroup(s, step, p, g);
      assert PassMatches(Configured(s), s.passes[p], starts[p]) && all[p] == starts[p];
      assert GroupMatches(Configured(s), s.passes[p].groups[g], starts[p].batches[g], starts[p].deadline);
    }
  }

  lemma {:induction false} StartsFirst(starts: seq<Step>, steps: seq<Step>)
    requires steps != []
    ensures starts + Starts(steps) == (starts + Starts([steps[0]])) + Starts(steps[1..])
  {
    var first := if steps[0].StartPass? then [steps[0]] else [];
    assert [steps[0]][1..] == [] && Starts([steps[0]]) == first + [];
    assert starts + (first + Starts(steps[1..])) == (starts + first) + Starts(steps[1..]);
  }

  lemma KeepsConfigured(s: State, step: Step)
    requires Enabled(s, step)
    ensures Configured(Apply(s, step)) == Configured(s)
  {
  }

  lemma {:induction false} RunMatches(s: State, steps: seq<Step>, s': State, starts: seq<Step>)
    requires Run(s, steps, s') && Matches(s, starts)
    ensures Matches(s', starts + Starts(steps)) && Configured(s') == Configured(s)
    decreases |steps|
  {
    if steps == [] {
      assert starts + Starts(steps) == starts;
    } else {
      StartsFirst(starts, steps);
      KeepsConfigured(s, steps[0]);
      StepMatches(s, steps[0], starts);
      RunMatches(Apply(s, steps[0]), steps[1..], s', starts + Starts([steps[0]]));
    }
  }

  lemma {:induction false} RunLeavesDecided(s: State, steps: seq<Step>, s': State, starts: seq<Step>, step: Step)
    requires Run(s, steps, s') && Matches(s, starts) && step in steps
    ensures LeavesDecided(step, Configured(s), starts + Starts(steps))
    decreases |steps|
  {
    if step == steps[0] {
      StepLeavesDecided(s, step, starts, Starts(steps));
    } else {
      StartsFirst(starts, steps);
      KeepsConfigured(s, steps[0]);
      StepMatches(s, steps[0], starts);
      RunLeavesDecided(Apply(s, steps[0]), steps[1..], s', starts + Starts([steps[0]]), step);
    }
  }

  /** In every run, the groups of each pass are the batches of the step that started it. A group is skipped if and
      only if some configured store has no entry in it and every entry is at or after the deadline, and only a group
      with a missing store and an older entry is ever worked on. */
  lemma {:induction false} SkippedExactly(s0: State, steps: seq<Step>, s: State, p: nat, g: nat)
    requires Start(s0) && Run(s0, steps, s) && p < |s.passes| && g < |s.passes[p].groups|
    ensures |Starts(steps)| == |s.passes| && Starts(steps)[p].StartPass?
    ensures |Starts(steps)[p].batches| == |s.passes[p].groups|
    ensures var start, group, stores := Starts(steps)[p], s.passes[p].groups[g], s0.stores.Keys;
            && s.stores.Keys == stores && group.entries == start.batches[g]
            && (forall id | id in start.batches[g] :: start.batches[g][id].key == group.key)
            && (group.status == Skipped <==> TooYoung(stores, start.batches[g], start.deadline))
            && (!Incomplete(stores, start.batches[g]) ==> group.status == Cleared)
            && (!NeedsHealing(stores, start.batches[g], start.deadline) ==>
                  forall step | step in steps :: !Touches(step, p, g))
  {
    assert Matches(s0, []);
    RunMatches(s0, steps, s, []);
    assert [] + Starts(steps) == Starts(steps);
    assert PassMatches(Configured(s), s.passes[p], Starts(steps)[p]);
    assert GroupMatches(Configured(s), s.passes[p].groups[g], Starts(steps)[p].batches[g], Starts(steps)[p].deadline);
    forall step | step in steps && Touches(step, p, g)
      ensures NeedsHealing(Configured(s), Starts(steps)[p].batches[g], Starts(steps)[p].deadline)
    {
      RunLeavesDecided(s0, steps, s, [], step);
    }
  }
}
