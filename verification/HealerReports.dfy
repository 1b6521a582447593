/** What a healing pass that could not heal everything leaves in the queue, and what an ended pass still does. */
module HealerReports {
  import opened Healer
  import opened HealerGroups

  predicate WroteTo(steps: seq<Step>, p: nat, g: nat, st: StoreId) {
    Put(p, g, st, true, true) in steps
  }

  ghost predicate ReportedTo(steps: seq<Step>, p: nat, g: nat, st: StoreId) {
    exists timestamp :: ReportHealed(p, g, st, timestamp) in steps
  }

  /** How far the group is, told by the steps taken so far. */
  ghost predicate History(steps: seq<Step>, p: nat, g: nat, status: Status) {
    match status
    case Eligible => forall st :: !WroteTo(steps, p, g, st) && !ReportedTo(steps, p, g, st)
    case Putting(_, _, healed, _) =>
      forall st :: (WroteTo(steps, p, g, st) <==> st in healed) && !ReportedTo(steps, p, g, st)
    case Reporting(toReport, _) =>
      forall st :: WroteTo(steps, p, g, st) <==> st in toReport || ReportedTo(steps, p, g, st)
    case Kept(_) => forall st :: WroteTo(steps, p, g, st) <==> ReportedTo(steps, p, g, st)
    case Cleared => forall st :: !ReportedTo(steps, p, g, st)
    case Skipped => forall st :: !WroteTo(steps, p, g, st) && !ReportedTo(steps, p, g, st)
  }

  ghost predicate HistoryOk(s: State, steps: seq<Step>, p: nat, g: nat) {
    if p < |s.passes| then g < |s.passes[p].groups| ==> History(steps, p, g, s.passes[p].groups[g].status)
    else forall step | step in steps :: !Touches(step, p, g)
  }

  lemma OneMore(steps: seq<Step>, step: Step, p: nat, g: nat, st: StoreId)
    ensures WroteTo(steps + [step], p, g, st) <==> WroteTo(steps, p, g, st) || step == Put(p, g, st, true, true)
    ensures ReportedTo(steps + [step], p, g, st)
      <==> ReportedTo(steps, p, g, st) || (step.ReportHealed? && step == ReportHealed(p, g, st, step.timestamp))
  {
    if ReportedTo(steps, p, g, st) {
      var timestamp :| ReportHealed(p, g, st, timestamp) in steps;
      assert ReportHealed(p, g, st, timestamp) in steps + [step];
    }
    if step.ReportHealed? && step == ReportHealed(p, g, st, step.timestamp) {
      assert ReportHealed(p, g, st, step.timestamp) in steps + [step];
    }
  }

  lemma NotTouching(steps: seq<Step>, step: Step, p: nat, g: nat, status: Status)
    requires History(steps, p, g, status) && !Touches(step, p, g)
    ensures History(steps + [step], p, g, status)
  {
    forall st
      ensures WroteTo(steps + [step], p, g, st) <==> WroteTo(steps, p, g, st)
      ensures ReportedTo(steps + [step], p, g, st) <==> ReportedTo(steps, p, g, st)
    {
      OneMore(steps, step, p, g, st);
    }
  }

  lemma Touching(s: State, steps: seq<Step>, step: Step, p: nat, g: nat)
    requires Enabled(s, step) && Touches(step, p, g)
    requires p < |s.passes| && g < |s.passes[p].groups| && History(steps, p, g, s.passes[p].groups[g].status)
    ensures p < |Apply(s, step).passes| && g < |Apply(s, step).passes[p].groups|
    ensures History(steps + [step], p, g, Apply(s, step).passes[p].groups[g].status)
  {
    forall st
      ensures WroteTo(steps + [step], p, g, st)
        <==> WroteTo(steps, p, g, st) || step == Put(p, g, st, true, true)
      ensures ReportedTo(steps + [step], p, g, st)
        <==> ReportedTo(steps, p, g, st) || (step.ReportHealed? && step == ReportHealed(p, g, st, step.timestamp))
    {
      OneMore(steps, step, p, g, st);
    }
  }

  lemma Untouched(steps: seq<Step>, p: nat, g: nat, status: Status)
    requires forall step | step in steps :: !Touches(step, p, g)
    requires status == Eligible || status == Skipped || status == Cleared
    ensures History(steps, p, g, status)
  {
    forall st ensures !WroteTo(steps, p, g, st) && !ReportedTo(steps, p, g, st) {
      assert Touches(Put(p, g, st, true, true), p, g);
      assert forall timestamp :: Touches(ReportHealed(p, g, st, timestamp), p, g);
    }
  }

  lemma StepKeepsHistory(s: State, steps: seq<Step>, step: Step, p: nat, g: nat)
    requires Enabled(s, step) && HistoryOk(s, steps, p, g)
    ensures HistoryOk(Apply(s, step), steps + [step], p, g)
  {
    if Touches(step, p, g) {
      TouchedGroup(s, step, p, g);
      Touching(s, steps, step, p, g);
    } else if p < |s.passes| {
      assert |Apply(s, step).passes[p].groups| == |s.passes[p].groups|;
      if g < |s.passes[p].groups| {
        UntouchedGroup(s, step, p, g);
        NotTouching(steps, step, p, g, s.passes[p].groups[g].status);
      }
    } else if p < |Apply(s, step).passes| {
      if g < |step.batches| {
        Untouched(steps + [step], p, g, Apply(s, step).passes[p].groups[g].status);
      }
    }
  }

  lemma {:induction false} RunKeepsHistory(s: State, before: seq<Step>, steps: seq<Step>, s': State, p: nat, g: nat)
    requires Run(s, steps, s') && HistoryOk(s, before, p, g)
    ensures HistoryOk(s', before + steps, p, g)
    decreases |steps|
  {
    if steps == [] {
      assert before + steps == before;
    } else {
      StepKeepsHistory(s, before, steps[0], p, g);
      RunKeepsHistory(Apply(s, steps[0]), before + [steps[0]], steps[1..], s', p, g);
      assert before + steps == before + [steps[0]] + steps[1..];
    }
  }

  // Entries leave the queue only when they are deleted.

  predicate Queued(s: State, id: nat, entry: QueueEntry) {
    id in s.queue && s.queue[id] == entry
  }

  ghost predicate DeletedBy(steps: seq<Step>, id: nat) {
    exists p :: Delete(p, id) in steps
  }

  lemma {:induction false} StaysQueued(s: State, steps: seq<Step>, s': State, id: nat, entry: QueueEntry)
    requires QueueIds(s) && Run(s, steps, s') && Queued(s, id, entry)
    ensures Queued(s', id, entry) || DeletedBy(steps, id)
    decreases |steps|
  {
    if steps != [] {
      KeepsQueueIds(s, steps[0]);
      var s1 := Apply(s, steps[0]);
      if Queued(s1, id, entry) {
        StaysQueued(s1, steps[1..], s', id, entry);
        if DeletedBy(steps[1..], id) {
          var p :| Delete(p, id) in steps[1..];
          assert Delete(p, id) in steps;
        }
      } else {
        assert steps[0] == Delete(steps[0].pass, id);
        assert Delete(steps[0].pass, id) in steps;
      }
    }
  }

  predicate QueueIds(s: State) {
    forall id | id in s.queue :: id < s.nextId
  }

  lemma KeepsQueueIds(s: State, step: Step)
    requires QueueIds(s) && Enabled(s, step)
    ensures QueueIds(Apply(s, step))
  {
  }

  /** Every put that succeeded for a group that is kept back has been reported, and nothing else has: in every
      run, the stores with a reported entry are exactly those that were written. */
  lemma {:induction false} KeptIsReported(s0: State, steps: seq<Step>, s: State, p: nat, g: nat)
    requires Start(s0) && Run(s0, steps, s) && p < |s.passes| && g < |s.passes[p].groups|
    ensures s.passes[p].groups[g].status.Kept? ==>
      forall st :: WroteTo(steps, p, g, st) <==> ReportedTo(steps, p, g, st)
    ensures s.passes[p].groups[g].status == Cleared ==> forall st :: !ReportedTo(steps, p, g, st)
  {
    RunKeepsHistory(s0, [], steps, s, p, g);
    assert [] + steps == steps;
  }

  /** A report puts an entry of that store for the group's key in the queue under a new id, where it stays until
      a pass deletes it. */
  lemma {:induction false} ReportIsQueued(s: State, p: nat, g: nat, st: StoreId, time: int, steps: seq<Step>, s': State)
    requires Inv(s) && Enabled(s, ReportHealed(p, g, st, time))
    requires Run(Apply(s, ReportHealed(p, g, st, time)), steps, s')
    ensures s.nextId !in s.queue
    ensures Queued(s', s.nextId, QueueEntry(s.passes[p].groups[g].key, st, time)) || DeletedBy(steps, s.nextId)
  {
    KeepsQueueIds(s, ReportHealed(p, g, st, time));
    StaysQueued(Apply(s, ReportHealed(p, g, st, time)), steps, s', s.nextId,
                QueueEntry(s.passes[p].groups[g].key, st, time));
  }

  // A pass that was aborted does nothing more.

  predicate IsOf(step: Step, p: nat) {
    match step
    case WriterPut(_, _) => false
    case StartPass(_, _) => false
    case Fetch(pass, _, _) => pass == p
    case Put(pass, _, _, _, _) => pass == p
    case FinishPuts(pass, _) => pass == p
    case ReportHealed(pass, _, _, _) => pass == p
    case FinishReport(pass, _) => pass == p
    case StartDelete(pass) => pass == p
    case Delete(pass, _) => pass == p
    case FinishDelete(pass) => pass == p
    case Abort(pass) => pass == p
  }

  predicate HasEnded(s: State, p: nat) {
    p < |s.passes| && (s.passes[p].progress == Aborted || s.passes[p].progress == Finished)
  }

  lemma EndedStep(s: State, step: Step, p: nat)
    requires Enabled(s, step) && HasEnded(s, p)
    ensures !IsOf(step, p) && p < |Apply(s, step).passes| && Apply(s, step).passes[p] == s.passes[p]
  {
  }

  lemma {:induction false} EndedStays(s: State, steps: seq<Step>, s': State, p: nat)
    requires Run(s, steps, s') && HasEnded(s, p)
    ensures p < |s'.passes| && s'.passes[p] == s.passes[p]
    ensures forall step | step in steps :: !IsOf(step, p)
    decreases |steps|
  {
    if steps != [] {
      EndedStep(s, steps[0], p);
      EndedStays(Apply(s, steps[0]), steps[1..], s', p);
      assert forall step | step in steps :: step == steps[0] || step in steps[1..];
    }
  }

  /** An operation of a pass that has not ended can fail at any time. */
  lemma CanFail(s: State, p: nat)
    requires p < |s.passes|
    ensures Enabled(s, Abort(p)) <==> !HasEnded(s, p)
  {
  }

  /** Once an operation of a pass fails, the pass takes no further step in any run: it deletes nothing more. */
  lemma {:induction false} AbortIsFinal(s: State, p: nat, steps: seq<Step>, s': State)
    requires Enabled(s, Abort(p)) && Run(Apply(s, Abort(p)), steps, s')
    ensures p < |s'.passes| && s'.passes[p] == Pass(s.passes[p].groups, Aborted)
    ensures forall step | step in steps :: !IsOf(step, p)
  {
    EndedStays(Apply(s, Abort(p)), steps, s', p);
  }
}
