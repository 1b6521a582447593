/** When a healing pass gets done, and what it has then achieved. */
module HealerProgress {
  import opened Healer
  import opened HealerGroups

  /** A put of the pass failed, or its answer was lost. */
  predicate IsFailedPut(step: Step, p: nat, g: nat) {
    step.Put? && step.pass == p && step.group == g && !step.reported
  }

  /** Nothing of the pass fails: no put, and no other operation. */
  predicate Succeeds(step: Step, p: nat) {
    !(step.Abort? && step.pass == p) && !(step.Put? && step.pass == p && !step.reported)
  }

  predicate AllSucceed(steps: seq<Step>, p: nat) {
    forall step | step in steps :: Succeeds(step, p)
  }

  predicate Unhealed(status: Status) {
    (status.Putting? && status.unhealed != {}) || status.Reporting? || status.Kept?
  }

  predicate UnhealedAt(s: State, p: nat, g: nat) {
    p < |s.passes| && g < |s.passes[p].groups| && Unhealed(s.passes[p].groups[g].status)
  }

  lemma UnhealedStep(s: State, step: Step, p: nat, g: nat)
    requires Enabled(s, step) && UnhealedAt(Apply(s, step), p, g)
    ensures UnhealedAt(s, p, g) || IsFailedPut(step, p, g)
  {
  }

  lemma {:induction false} UnhealedRun(s: State, steps: seq<Step>, s': State, p: nat, g: nat)
    requires Run(s, steps, s') && UnhealedAt(s', p, g)
    ensures UnhealedAt(s, p, g) || exists step :: step in steps && IsFailedPut(step, p, g)
    decreases |steps|
  {
    if steps != [] {
      UnhealedRun(Apply(s, steps[0]), steps[1..], s', p, g);
      if UnhealedAt(Apply(s, steps[0]), p, g) {
        UnhealedStep(s, steps[0], p, g);
        assert steps[0] in steps;
      }
    }
  }

  /** Every store holds the blob of these entries, and the queue has none of them left. */
  predicate Healed(s: State, entries: map<nat, QueueEntry>) {
    forall id | id in entries :: id !in s.queue && AllHold(s.stores, entries[id].key)
  }

  /** A pass that runs to its end leaves alone the batches with a store missing and no entry before the deadline,
      and those of which a put failed in this run; for all others every store holds the blob and the entries are
      gone. */
  lemma {:induction false} FinishedPassHeals(s0: State, steps: seq<Step>, s: State, p: nat, g: nat)
    requires Start(s0) && Run(s0, steps, s)
    requires p < |s.passes| && s.passes[p].progress == Finished && g < |s.passes[p].groups|
    ensures |Starts(steps)| == |s.passes| && Starts(steps)[p].StartPass? && g < |Starts(steps)[p].batches|
    ensures var start := Starts(steps)[p];
            || TooYoung(s0.stores.Keys, start.batches[g], start.deadline)
            || (exists step :: step in steps && IsFailedPut(step, p, g))
            || Healed(s, start.batches[g])
  {
    RunKeepsInv(s0, steps, s);
    SkippedExactly(s0, steps, s, p, g);
    FinishedGroup(s, s.passes[p], g);
    if UnhealedAt(s, p, g) {
      UnhealedRun(s0, steps, s, p, g);
    }
  }

  lemma AbortedStep(s: State, step: Step, p: nat)
    requires Enabled(s, step) && p < |Apply(s, step).passes| && Apply(s, step).passes[p].progress == Aborted
    ensures (p < |s.passes| && s.passes[p].progress == Aborted) || step == Abort(p)
  {
  }

  lemma {:induction false} AbortedRun(s: State, steps: seq<Step>, s': State, p: nat)
    requires Run(s, steps, s') && p < |s'.passes| && s'.passes[p].progress == Aborted
    ensures (p < |s.passes| && s.passes[p].progress == Aborted) || Abort(p) in steps
    decreases |steps|
  {
    if steps != [] {
      AbortedRun(Apply(s, steps[0]), steps[1..], s', p);
      var s1 := Apply(s, steps[0]);
      if p < |s1.passes| && s1.passes[p].progress == Aborted {
        AbortedStep(s, steps[0], p);
      }
    }
  }

  /** While nothing of a pass fails, it keeps no group back and does not end early; once it is done, every
      batch with all stores or an entry before the deadline is in all stores and its entries are gone. */
  lemma {:induction false} SuccessfulPassHeals(s0: State, steps: seq<Step>, s: State, p: nat, g: nat)
    requires Start(s0) && Run(s0, steps, s) && AllSucceed(steps, p)
    requires p < |s.passes| && g < |s.passes[p].groups|
    ensures |Starts(steps)| == |s.passes| && Starts(steps)[p].StartPass? && g < |Starts(steps)[p].batches|
    ensures var group, start := s.passes[p].groups[g], Starts(steps)[p];
            && s.passes[p].progress != Aborted && !group.status.Reporting? && !group.status.Kept?
            && (s.passes[p].progress == Finished && !TooYoung(s0.stores.Keys, start.batches[g], start.deadline) ==>
                  Healed(s, start.batches[g]))
  {
    assert forall step | step in steps :: Succeeds(step, p) && !IsFailedPut(step, p, g) && step != Abort(p);
    SkippedExactly(s0, steps, s, p, g);
    if UnhealedAt(s, p, g) {
      UnhealedRun(s0, steps, s, p, g);
    }
    if s.passes[p].progress == Aborted {
      AbortedRun(s0, steps, s, p);
    }
    if s.passes[p].progress == Finished {
      FinishedPassHeals(s0, steps, s, p, g);
    }
  }

  // A group that no configured store is known to hold.

  predicate Fetchable(s: State, entries: map<nat, QueueEntry>) {
    SeenStores(Configured(s), entries.Values) != {}
  }

  /** The group waits to be fetched and there is no store to fetch it from. */
  predicate Waits(s: State, p: nat, g: nat) {
    && p < |s.passes| && g < |s.passes[p].groups|
    && (s.passes[p].progress == Healing || s.passes[p].progress == Aborted)
    && s.passes[p].groups[g].status == Eligible && !Fetchable(s, s.passes[p].groups[g].entries)
  }

  lemma WaitsStep(s: State, step: Step, p: nat, g: nat)
    requires Enabled(s, step) && Waits(s, p, g)
    ensures Waits(Apply(s, step), p, g)
  {
    assert Apply(s, step).stores.Keys == s.stores.Keys;
  }

  /** Such a group is never healed, and its pass never gets to delete anything. */
  lemma {:induction false} WaitsForever(s: State, steps: seq<Step>, s': State, p: nat, g: nat)
    requires Run(s, steps, s') && Waits(s, p, g)
    ensures Waits(s', p, g)
    decreases |steps|
  {
    if steps != [] {
      WaitsStep(s, steps[0], p, g);
      WaitsForever(Apply(s, steps[0]), steps[1..], s', p, g);
    }
  }

  /** An entry of a store that is not configured any more, old enough to be healed: the pass that reads it never
      finishes, whatever succeeds. */
  lemma UnknownStoreBlocksPass(key: Key, blob: Blob, known: StoreId, unknown: StoreId, time: int)
    returns (s0: State, start: Step)
    requires known != unknown
    ensures Start(s0) && s0.queue.Values == {QueueEntry(key, unknown, time)} && s0.stores.Keys == {known}
    ensures start.StartPass? && start.batches == [s0.queue] && start.deadline == time + 1 && Enabled(s0, start)
    ensures forall steps, s | Run(Apply(s0, start), steps, s) ::
      0 < |s.passes| && (s.passes[0].progress == Healing || s.passes[0].progress == Aborted)
  {
    var none: map<Key, Blob> := map[];
    var entry := QueueEntry(key, unknown, time);
    s0 := State(map[known := none], map[key := blob], map[0 := entry], 1, []);
    assert 0 in s0.queue && s0.queue[0] == entry && s0.queue.Values == {entry};
    start := StartPass([s0.queue], time + 1);
    var s1 := Apply(s0, start);
    var group := s1.passes[0].groups[0];
    assert group.entries == s0.queue;
    assert SeenStores({known}, {entry}) == {};
    assert known in MissingStores({known}, {entry});
    assert Waits(s1, 0, 0);
    forall steps, s | Run(s1, steps, s) ensures Waits(s, 0, 0) {
      WaitsForever(s1, steps, s, 0, 0);
    }
  }

  // A pass that can be finished.

  /** Nothing stands in the way of the group: it has been fetched, can be, or need not be. */
  predicate CanHeal(s: State, group: Group) {
    group.status == Eligible ==> Fetchable(s, group.entries)
  }

  predicate Ready(s: State, p: nat) {
    && p < |s.passes| && s.passes[p].progress != Aborted
    && forall g | 0 <= g < |s.passes[p].groups| :: CanHeal(s, s.passes[p].groups[g])
  }

  ghost predicate OnTrack(s: State, p: nat) {
    Inv(s) && Ready(s, p)
  }

  function StatusWork(stores: nat, status: Status): nat {
    match status
    case Eligible => 3 + 2 * stores
    case Putting(_, todo, healed, _) => 2 + 2 * |todo| + |healed|
    case Reporting(toReport, _) => 1 + |toReport|
    case _ => 0
  }

  function GroupsWork(stores: nat, groups: seq<Group>): nat {
    if groups == [] then 0 else StatusWork(stores, groups[0].status) + GroupsWork(stores, groups[1..])
  }

  lemma {:induction false} LessWork(stores: nat, groups: seq<Group>, g: nat, group: Group)
    requires g < |groups| && StatusWork(stores, group.status) < StatusWork(stores, groups[g].status)
    ensures GroupsWork(stores, groups[g := group]) < GroupsWork(stores, groups)
    decreases |groups|
  {
    if g == 0 {
      assert groups[g := group][1..] == groups[1..];
    } else {
      assert groups[g := group][1..] == groups[1..][g - 1 := group];
      LessWork(stores, groups[1..], g - 1, group);
    }
  }

  function Phase(progress: Progress): nat {
    match progress
    case Healing => 2
    case Deleting(_) => 1
    case _ => 0
  }

  function Work(s: State, p: nat): nat
    requires p < |s.passes|
  {
    match s.passes[p].progress
    case Healing => GroupsWork(|s.stores.Keys|, s.passes[p].groups)
    case Deleting(ids) => |ids|
    case _ => 0
  }

  /** Both passes are where they should be, and the second has less left to do. */
  predicate LessLeft(s: State, s': State, p: nat) {
    && p < |s.passes| && p < |s'.passes|
    && (Phase(s'.passes[p].progress) < Phase(s.passes[p].progress)
        || (Phase(s'.passes[p].progress) == Phase(s.passes[p].progress) && Work(s', p) < Work(s, p)))
  }

  ghost predicate Advances(s: State, step: Step, p: nat) {
    Enabled(s, step) && Succeeds(step, p) && OnTrack(Apply(s, step), p) && LessLeft(s, Apply(s, step), p)
  }

  /** One group of a healing pass changes for the better. */
  lemma GroupAdvances(s: State, s': State, p: nat, g: nat, status: Status)
    requires Ready(s, p) && InPass(s, p, g)
    requires s'.passes == SetStatus(s, p, g, status).passes && s'.stores.Keys == s.stores.Keys
    requires CanHeal(s, s.passes[p].groups[g].(status := status))
    requires StatusWork(|s.stores.Keys|, status) < StatusWork(|s.stores.Keys|, s.passes[p].groups[g].status)
    ensures Ready(s', p) && LessLeft(s, s', p)
  {
    LessWork(|s.stores.Keys|, s.passes[p].groups, g, s.passes[p].groups[g].(status := status));
  }

  lemma FetchAdvances(s: State, p: nat, g: nat) returns (step: Step)
    requires OnTrack(s, p) && InPass(s, p, g) && s.passes[p].groups[g].status == Eligible
    ensures Advances(s, step, p)
  {
    var group := s.passes[p].groups[g];
    var seen := SeenStores(Configured(s), group.entries.Values);
    assert CanHeal(s, group);
    var source :| source in seen;
    assert PassOk(s, s.passes[p]);
    SeenHold(s, group, source);
    step := Fetch(p, g, source);
    var missing := MissingStores(Configured(s), group.entries.Values);
    SubsetIsSmaller(missing, s.stores.Keys);
    GroupAdvances(s, Apply(s, step), p, g, Putting(s.stores[source][group.key], missing, {}, {}));
    StepKeepsInv(s, step);
  }

  lemma SubsetIsSmaller(a: set<StoreId>, b: set<StoreId>)
    requires a <= b
    ensures |a| <= |b|
  {
    assert b == a + (b - a);
  }

  lemma PutAdvances(s: State, p: nat, g: nat) returns (step: Step)
    requires OnTrack(s, p) && InPass(s, p, g)
    requires s.passes[p].groups[g].status.Putting? && s.passes[p].groups[g].status.todo != {}
    ensures Advances(s, step, p)
  {
    var target :| target in s.passes[p].groups[g].status.todo;
    TodoIsConfigured(s, p, g, target);
    step := Put(p, g, target, true, true);
    PutLeavesLess(s, p, g, target);
    StepKeepsInv(s, step);
  }

  lemma TodoIsConfigured(s: State, p: nat, g: nat, target: StoreId)
    requires Inv(s) && InPass(s, p, g)
    requires s.passes[p].groups[g].status.Putting? && target in s.passes[p].groups[g].status.todo
    ensures target in s.stores
  {
    assert PassOk(s, s.passes[p]) && StatusOk(s, s.passes[p].groups[g]);
  }

  lemma PutLeavesLess(s: State, p: nat, g: nat, target: StoreId)
    requires Ready(s, p) && Enabled(s, Put(p, g, target, true, true))
    ensures var s' := Apply(s, Put(p, g, target, true, true)); Ready(s', p) && LessLeft(s, s', p)
  {
    var group := s.passes[p].groups[g];
    var Putting(blob, todo, healed, unhealed) := group.status;
    assert |todo - {target}| < |todo| && |healed + {target}| <= |healed| + 1;
    GroupAdvances(s, Apply(s, Put(p, g, target, true, true)), p, g,
                  Putting(blob, todo - {target}, healed + {target}, unhealed));
  }

  lemma FinishPutsAdvances(s: State, p: nat, g: nat)
    requires OnTrack(s, p) && InPass(s, p, g)
    requires s.passes[p].groups[g].status.Putting? && s.passes[p].groups[g].status.todo == {}
    ensures Advances(s, FinishPuts(p, g), p)
  {
    var status := s.passes[p].groups[g].status;
    GroupAdvances(s, Apply(s, FinishPuts(p, g)), p, g,
                  if status.unhealed == {} then Cleared else Reporting(status.healed, status.unhealed));
    StepKeepsInv(s, FinishPuts(p, g));
  }

  lemma ReportAdvances(s: State, p: nat, g: nat) returns (step: Step)
    requires OnTrack(s, p) && InPass(s, p, g) && s.passes[p].groups[g].status.Reporting?
    ensures Advances(s, step, p)
  {
    var Reporting(toReport, unhealed) := s.passes[p].groups[g].status;
    if toReport == {} {
      step := FinishReport(p, g);
      GroupAdvances(s, Apply(s, step), p, g, Kept(unhealed));
    } else {
      var target :| target in toReport;
      step := ReportHealed(p, g, target, 0);
      assert |toReport - {target}| < |toReport|;
      GroupAdvances(s, Apply(s, step), p, g, Reporting(toReport - {target}, unhealed));
    }
    StepKeepsInv(s, step);
  }

  lemma DeleteAdvances(s: State, p: nat) returns (step: Step)
    requires OnTrack(s, p) && s.passes[p].progress.Deleting?
    ensures Advances(s, step, p)
  {
    var ids := s.passes[p].progress.ids;
    if ids == {} {
      step := FinishDelete(p);
    } else {
      var id :| id in ids;
      step := Delete(p, id);
    }
    ProgressAdvances(s, Apply(s, step), p);
    StepKeepsInv(s, step);
  }

  lemma ProgressAdvances(s: State, s': State, p: nat)
    requires Ready(s, p) && s'.stores == s.stores && p < |s'.passes| && s'.passes[p].groups == s.passes[p].groups
    requires s'.passes[p].progress != Aborted
    ensures Ready(s', p)
  {
  }

  lemma SomeStepAdvances(s: State, p: nat) returns (step: Step)
    requires OnTrack(s, p) && s.passes[p].progress != Finished
    ensures Advances(s, step, p)
  {
    if s.passes[p].progress.Deleting? {
      step := DeleteAdvances(s, p);
    } else if g: nat :| g < |s.passes[p].groups| && !Healer.Settled(s.passes[p].groups[g].status) {
      assert CanHeal(s, s.passes[p].groups[g]);
      if s.passes[p].groups[g].status == Eligible {
        step := FetchAdvances(s, p, g);
      } else if s.passes[p].groups[g].status.Reporting? {
        step := ReportAdvances(s, p, g);
      } else if s.passes[p].groups[g].status.todo != {} {
        step := PutAdvances(s, p, g);
      } else {
        step := FinishPuts(p, g);
        FinishPutsAdvances(s, p, g);
      }
    } else {
      step := StartDelete(p);
      ProgressAdvances(s, Apply(s, step), p);
      StepKeepsInv(s, step);
    }
  }

  /** A pass whose groups can be fetched can be finished from any state in which it has not been aborted, whatever
      puts have failed so far. */
  lemma {:induction false} CanFinish(s: State, p: nat) returns (steps: seq<Step>, s': State)
    requires OnTrack(s, p)
    ensures Run(s, steps, s') && AllSucceed(steps, p) && p < |s'.passes| && s'.passes[p].progress == Finished
    decreases Phase(s.passes[p].progress), Work(s, p)
  {
    steps, s' := [], s;
    if s.passes[p].progress != Finished {
      var step := SomeStepAdvances(s, p);
      var rest;
      rest, s' := CanFinish(Apply(s, step), p);
      steps := [step] + rest;
      assert steps[1..] == rest;
    }
  }

  ghost predicate Finishes(s: State, p: nat) {
    exists steps, s' ::
      Run(s, steps, s') && AllSucceed(steps, p) && p < |s'.passes| && s'.passes[p].progress == Finished
  }

  /** One of the entries is of a configured store. */
  predicate HasSource(stores: set<StoreId>, entries: map<nat, QueueEntry>) {
    exists id | id in entries :: entries[id].store in stores
  }

  lemma SourceIsFetchable(s: State, entries: map<nat, QueueEntry>)
    ensures Fetchable(s, entries) <==> HasSource(Configured(s), entries)
  {
    if HasSource(Configured(s), entries) {
      var id :| id in entries && entries[id].store in s.stores;
      assert entries[id] in entries.Values;
      assert entries[id].store in SeenStores(Configured(s), entries.Values);
    }
  }

  lemma EligibleExactly(s: State, batches: seq<map<nat, QueueEntry>>, deadline: int, g: nat)
    requires Enabled(s, StartPass(batches, deadline)) && g < |batches|
    ensures var group := Apply(s, StartPass(batches, deadline)).passes[|s.passes|].groups[g];
            && group.entries == batches[g]
            && (group.status == Eligible <==> NeedsHealing(Configured(s), batches[g], deadline))
            && (group.status != Eligible ==> group.status == Skipped || group.status == Cleared)
  {
    assert batches[g] in batches;
    MissingIsIncomplete(Configured(s), batches[g]);
  }

  lemma BlockedBatch(s: State, batches: seq<map<nat, QueueEntry>>, deadline: int, g: nat)
    requires Enabled(s, StartPass(batches, deadline)) && g < |batches|
    requires NeedsHealing(Configured(s), batches[g], deadline) && !HasSource(Configured(s), batches[g])
    ensures !Finishes(Apply(s, StartPass(batches, deadline)), |s.passes|)
  {
    var s1, p := Apply(s, StartPass(batches, deadline)), |s.passes|;
    EligibleExactly(s, batches, deadline, g);
    SourceIsFetchable(s, batches[g]);
    assert Waits(s1, p, g);
    forall steps, s' | Run(s1, steps, s') ensures p < |s'.passes| && s'.passes[p].progress != Finished {
      WaitsForever(s1, steps, s', p, g);
    }
  }

  lemma ReadyBatches(s: State, batches: seq<map<nat, QueueEntry>>, deadline: int)
    requires Inv(s) && Enabled(s, StartPass(batches, deadline))
    requires forall b | b in batches :: NeedsHealing(Configured(s), b, deadline) ==> HasSource(Configured(s), b)
    ensures Finishes(Apply(s, StartPass(batches, deadline)), |s.passes|)
  {
    var s1, p := Apply(s, StartPass(batches, deadline)), |s.passes|;
    forall g | 0 <= g < |s1.passes[p].groups| ensures CanHeal(s1, s1.passes[p].groups[g]) {
      assert batches[g] in batches;
      EligibleExactly(s, batches, deadline, g);
      SourceIsFetchable(s, batches[g]);
    }
    StepKeepsInv(s, StartPass(batches, deadline));
    var steps, s' := CanFinish(s1, p);
  }

  /** A pass can run to its end without a failure if and only if every batch with a missing store and an entry
      before the deadline has an entry of a configured store. */
  lemma FinishesExactly(s: State, batches: seq<map<nat, QueueEntry>>, deadline: int)
    requires Inv(s) && Enabled(s, StartPass(batches, deadline))
    ensures Finishes(Apply(s, StartPass(batches, deadline)), |s.passes|) <==>
            forall b | b in batches :: NeedsHealing(s.stores.Keys, b, deadline) ==> HasSource(s.stores.Keys, b)
  {
    if forall b | b in batches :: NeedsHealing(s.stores.Keys, b, deadline) ==> HasSource(s.stores.Keys, b) {
      ReadyBatches(s, batches, deadline);
    } else {
      var b :| b in batches && NeedsHealing(s.stores.Keys, b, deadline) && !HasSource(s.stores.Keys, b);
      var g :| 0 <= g < |batches| && batches[g] == b;
      BlockedBatch(s, batches, deadline, g);
    }
  }
}
