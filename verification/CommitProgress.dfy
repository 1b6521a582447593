/** What writing a row does to one commit, what a failure leaves behind, and that commits can always complete
    as long as none has failed. */
module CommitProgress {
  import opened Wrappers
  import opened Changesets
  import opened CommitPipeline

  /** Every parent has a row, and a row that is there already agrees. */
  predicate CanStore(g: Graph, cs: ChangesetId, parents: seq<ChangesetId>) {
    (forall p | p in parents :: p in g) && (cs in g ==> g[cs].parents == parents)
  }

  lemma CanStoreIsAddable(g: Graph, cs: ChangesetId, parents: seq<ChangesetId>)
    ensures CanStore(g, cs, parents) <==> AddResult(g, cs, parents).Ok?
    ensures CanStore(g, cs, parents) ==> Stored(Added(g, cs, parents), cs, parents)
  {
    assert forall p | p in parents :: p !in g ==> p in Missing(g, parents);
  }

  /** Only one task differs, and in no more than its flags and outcome. */
  predicate OnlyTask(s: State, s': State, i: nat) {
    && |s'.tasks| == |s.tasks|
    && (forall j | 0 <= j < |s.tasks| && j != i :: s'.tasks[j] == s.tasks[j])
    && (i < |s.tasks| && s.tasks[i].Creating? ==>
          && s'.tasks[i].Creating? && s'.tasks[i].id == s.tasks[i].id
          && s'.tasks[i].parents == s.tasks[i].parents && s'.tasks[i].bonsaiParents == s.tasks[i].bonsaiParents)
  }

  /** The row is stored and the commit completes exactly if every recorded parent has a row and the id is new or
      stored with the same parents; a lost answer leaves the row behind a failed commit, and any other failure
      leaves nothing. */
  lemma InsertRowEffect(g: Graph, mapping: set<ChangesetId>, steps: seq<Step>, s: State, i: nat, reported: bool)
    requires Reachable(g, mapping, steps, s) && Enabled(s, InsertRow(i, reported))
    ensures var t, s' := s.tasks[i], Apply(s, InsertRow(i, reported));
            && OnlyTask(s, s', i) && s'.mapping == s.mapping
            && Extends(s.graph, s'.graph) && s'.graph.Keys <= s.graph.Keys + {t.id.value}
            && (CanStore(s.graph, t.id.value, t.bonsaiParents) ==>
                  && Stored(s'.graph, t.id.value, t.bonsaiParents) && s'.tasks[i].inserted
                  && s'.tasks[i].outcome == (if reported then Completed else Failed))
            && (!CanStore(s.graph, t.id.value, t.bonsaiParents) ==>
                  && s'.graph == s.graph && s'.tasks[i].outcome == Failed && !s'.tasks[i].inserted)
  {
    CanStoreIsAddable(s.graph, s.tasks[i].id.value, s.tasks[i].bonsaiParents);
  }

  /** The mapping is there afterwards whether or not the writer heard of it; only one that did goes on. */
  lemma InsertMappingEffect(g: Graph, mapping: set<ChangesetId>, steps: seq<Step>, s: State, i: nat, reported: bool)
    requires Reachable(g, mapping, steps, s) && Enabled(s, InsertMapping(i, reported))
    ensures var t, s' := s.tasks[i], Apply(s, InsertMapping(i, reported));
            && OnlyTask(s, s', i) && s'.graph == s.graph && s'.mapping == s.mapping + {t.id.value}
            && (Enabled(s', InsertRow(i, true)) <==> reported)
            && (s'.tasks[i].outcome == Failed <==> !reported)
  {
  }

  /** A commit can be begun on any one or two handles, also of unfinished or failed commits, or on none; it starts
      without an id and with nothing done, and no other commit notices. */
  lemma CanBegin(s: State, handles: seq<nat>)
    requires |handles| <= 2 && forall p | p in handles :: p < |s.tasks|
    ensures Enabled(s, Create(handles))
    ensures var s', i := Apply(s, Create(handles)), |s.tasks|;
            && s'.tasks[..i] == s.tasks && s'.mapping == s.mapping && s'.graph == s.graph
            && |s'.tasks| == i + 1 && s'.tasks[i].Creating? && s'.tasks[i].parents == handles
            && !Enabled(s', InsertMapping(i, true)) && !Enabled(s', InsertRow(i, true)) && !Enabled(s', Save(i))
            && (Enabled(s', ParentsDone(i)) <==> AllCompleted(s, handles))
            && forall id :: Enabled(s', Signal(i, id)) <==> AllSignalled(s, handles)
  {
  }

  /** What other writers of the tables store is there afterwards for every commit to build on. */
  lemma OthersStore(s: State, cs: ChangesetId, parents: seq<ChangesetId>)
    ensures var s' := Apply(s, OtherRow(cs, parents));
            && s'.tasks == s.tasks && s'.mapping == s.mapping && Extends(s.graph, s'.graph)
            && (CanStore(s.graph, cs, parents) ==> Stored(s'.graph, cs, parents))
            && (!CanStore(s.graph, cs, parents) ==> s'.graph == s.graph)
    ensures var s' := Apply(s, OtherMapping(cs));
            s'.tasks == s.tasks && s'.graph == s.graph && s'.mapping == s.mapping + {cs}
  {
    CanStoreIsAddable(s.graph, cs, parents);
  }

  // A commit that has finished stays as it is.

  lemma {:induction false} FinishedStays(s: State, steps: seq<Step>, s': State, i: nat)
    requires Inv(s) && Run(s, steps, s') && i < |s.tasks| && s.tasks[i].outcome != Pending
    ensures i < |s'.tasks| && s'.tasks[i] == s.tasks[i]
    decreases |steps|
  {
    if steps != [] {
      StepKeepsInv(s, steps[0]);
      assert i < |Apply(s, steps[0]).tasks| && Apply(s, steps[0]).tasks[i] == s.tasks[i];
      FinishedStays(Apply(s, steps[0]), steps[1..], s', i);
    }
  }

  /** Whatever happens after a commit fails, it stays failed and no commit above it writes a row or completes. */
  lemma {:induction false} FailureIsFinal(s: State, i: nat, steps: seq<Step>, s': State, b: nat)
    requires Inv(s) && Enabled(s, Fail(i)) && Run(Apply(s, Fail(i)), steps, s') && Descends(s', b, i)
    ensures s'.graph.Keys >= s.graph.Keys && i < |s'.tasks| && s'.tasks[i].outcome == Failed
    ensures s'.tasks[b].outcome != Completed && !s'.tasks[b].inserted
  {
    StepKeepsInv(s, Fail(i));
    FinishedStays(Apply(s, Fail(i)), steps, s', i);
    RunKeepsInv(Apply(s, Fail(i)), steps, s');
    RunExtends(Apply(s, Fail(i)), steps, s');
    assert TaskOk(s', b);
    if s'.tasks[b].inserted {
      InsertedAncestorsCompleted(s', b, i);
    }
  }

  lemma {:induction false} RunExtends(s: State, steps: seq<Step>, s': State)
    requires Inv(s) && Run(s, steps, s')
    ensures Extends(s.graph, s'.graph) && s.mapping <= s'.mapping
    decreases |steps|
  {
    if steps != [] {
      StepKeepsInv(s, steps[0]);
      StepGrows(s, steps[0]);
      RunExtends(Apply(s, steps[0]), steps[1..], s');
    }
  }

  // Progress.

  /** The ids of the commits behind some handles. */
  function Named(ids: seq<ChangesetId>, handles: seq<nat>): (parents: seq<ChangesetId>)
    requires forall p | p in handles :: p < |ids|
    ensures |parents| == |handles|
    ensures forall k | 0 <= k < |handles| :: handles[k] in handles && parents[k] == ids[handles[k]]
  {
    seq(|handles|, k requires 0 <= k < |handles| => assert handles[k] in handles; ids[handles[k]])
  }

  /** The `i`-th commit has or will have the id `ids[i]`: one that was looked up has a row and a mapping, and
      one that is created agrees with the row of that id, if there is one. */
  predicate Fits(s: State, ids: seq<ChangesetId>, i: nat)
    requires i < |s.tasks| == |ids|
  {
    var t := s.tasks[i];
    && t.outcome != Failed
    && (t.id.Some? ==> t.id.value == ids[i])
    && (t.Existing? ==> t.cs == ids[i] && t.cs in s.mapping && t.cs in s.graph)
    && (t.Creating? ==>
          && (forall p | p in t.parents :: p < |ids|)
          && (ids[i] in s.graph ==> Stored(s.graph, ids[i], Named(ids, t.parents))))
  }

  predicate SameParents(s: State, ids: seq<ChangesetId>, i: nat, j: nat)
    requires i < |s.tasks| == |ids| && j < |s.tasks|
    requires Fits(s, ids, i) && Fits(s, ids, j)
  {
    s.tasks[i].Creating? && s.tasks[j].Creating? && ids[i] == ids[j] ==>
      Named(ids, s.tasks[i].parents) == Named(ids, s.tasks[j].parents)
  }

  /** Nothing has failed, every commit that was looked up has a row, and equal ids have equal parents, as
      hashes of the commits do. */
  predicate OnTrack(s: State, ids: seq<ChangesetId>) {
    && |ids| == |s.tasks|
    && (forall i | 0 <= i < |s.tasks| :: Fits(s, ids, i))
    && forall i, j | 0 <= i < |s.tasks| && 0 <= j < |s.tasks| :: SameParents(s, ids, i, j)
  }

  lemma RecordedIsNamed(s: State, ids: seq<ChangesetId>, i: nat)
    requires Inv(s) && OnTrack(s, ids) && i < |s.tasks| && s.tasks[i].Creating? && s.tasks[i].id.Some?
    ensures Fits(s, ids, i) && s.tasks[i].bonsaiParents == Named(ids, s.tasks[i].parents)
  {
    assert TaskOk(s, i) && Fits(s, ids, i);
    var t := s.tasks[i];
    forall k | 0 <= k < |t.parents| ensures Ids(s, t.parents)[k] == Named(ids, t.parents)[k] {
      assert t.parents[k] in t.parents && Fits(s, ids, t.parents[k]);
    }
  }

  predicate Quiet(step: Step, i: nat, id: ChangesetId) {
    step == Opened(i) || step == Signal(i, id) || step == Save(i) || step == ParentsDone(i) ||
    step == InsertMapping(i, true)
  }

  lemma QuietStaysOnTrack(s: State, ids: seq<ChangesetId>, i: nat, step: Step)
    requires Inv(s) && OnTrack(s, ids) && i < |s.tasks| && Enabled(s, step) && Quiet(step, i, ids[i])
    ensures OnTrack(Apply(s, step), ids)
  {
    var s' := Apply(s, step);
    forall j | 0 <= j < |s'.tasks| ensures Fits(s', ids, j) {
      assert Fits(s, ids, j);
    }
    forall j, k | 0 <= j < |s'.tasks| && 0 <= k < |s'.tasks| ensures SameParents(s', ids, j, k) {
      assert SameParents(s, ids, j, k);
    }
  }

  lemma RowStaysOnTrack(s: State, ids: seq<ChangesetId>, i: nat)
    requires Inv(s) && OnTrack(s, ids) && Enabled(s, InsertRow(i, true))
    ensures var s' := Apply(s, InsertRow(i, true)); OnTrack(s', ids) && s'.tasks[i].outcome == Completed
  {
    var s', t := Apply(s, InsertRow(i, true)), s.tasks[i];
    RecordedIsNamed(s, ids, i);
    forall p | p in t.bonsaiParents ensures p in s.graph {
      var k :| 0 <= k < |t.bonsaiParents| && t.bonsaiParents[k] == p;
      assert TaskOk(s, i);
      ParentOf(s, i, k);
      assert Fits(s, ids, t.parents[k]);
    }
    CanStoreIsAddable(s.graph, t.id.value, t.bonsaiParents);
    forall j | 0 <= j < |s'.tasks| ensures Fits(s', ids, j) {
      assert Fits(s, ids, j) && SameParents(s, ids, i, j);
    }
    forall j, k | 0 <= j < |s'.tasks| && 0 <= k < |s'.tasks| ensures SameParents(s', ids, j, k) {
      assert SameParents(s, ids, j, k);
    }
  }

  lemma {:induction false} RunJoin(s: State, a: seq<Step>, mid: State, b: seq<Step>, s': State)
    requires Run(s, a, mid) && Run(mid, b, s')
    ensures Run(s, a + b, s')
    decreases |a|
  {
    if a == [] {
      assert a + b == b;
    } else {
      assert (a + b)[1..] == a[1..] + b;
      RunJoin(Apply(s, a[0]), a[1..], mid, b, s');
    }
  }

  /** One more step of a run that stays on track. */
  lemma Quietly(s: State, ids: seq<ChangesetId>, i: nat, steps: seq<Step>, mid: State, step: Step)
      returns (steps': seq<Step>, s': State)
    requires Run(s, steps, mid) && Inv(mid) && OnTrack(mid, ids)
    requires i < |mid.tasks| && Enabled(mid, step) && Quiet(step, i, ids[i])
    ensures s' == Apply(mid, step) && Run(s, steps', s') && Inv(s') && OnTrack(s', ids)
  {
    RunMore(s, steps, mid, step);
    StepKeepsInv(mid, step);
    QuietStaysOnTrack(mid, ids, i, step);
    steps', s' := steps + [step], Apply(mid, step);
  }

  /** The commits before the `i`-th have completed, and it is on its way in. */
  predicate Turn(s: State, ids: seq<ChangesetId>, i: nat) {
    && Inv(s) && OnTrack(s, ids) && IsCreating(s, i)
    && forall j | 0 <= j < i :: s.tasks[j].outcome == Completed
  }

  lemma ParentsReady(s: State, ids: seq<ChangesetId>, i: nat)
    requires Turn(s, ids, i)
    ensures AllCompleted(s, s.tasks[i].parents) && AllSignalled(s, s.tasks[i].parents)
  {
    assert TaskOk(s, i);
    forall p | p in s.tasks[i].parents ensures p < |s.tasks| && s.tasks[p].outcome == Completed && s.tasks[p].id.Some? {
      assert p < i && TaskOk(s, p);
    }
  }

  lemma Signalled(s: State, ids: seq<ChangesetId>, i: nat) returns (steps: seq<Step>, s': State)
    requires Turn(s, ids, i)
    ensures Run(s, steps, s') && Turn(s', ids, i) && s'.tasks[i].id.Some?
  {
    steps, s' := [], s;
    if s.tasks[i].id.None? {
      ParentsReady(s, ids, i);
      steps, s' := Quietly(s, ids, i, steps, s', Signal(i, ids[i]));
    }
  }

  lemma Mapped(s: State, ids: seq<ChangesetId>, i: nat) returns (steps: seq<Step>, s': State)
    requires Turn(s, ids, i) && s.tasks[i].id.Some?
    ensures Run(s, steps, s') && Turn(s', ids, i) && Enabled(s', InsertRow(i, true))
  {
    ParentsReady(s, ids, i);
    steps, s' := Quietly(s, ids, i, [], s, ParentsDone(i));
    steps, s' := Quietly(s, ids, i, steps, s', Save(i));
    steps, s' := Quietly(s, ids, i, steps, s', InsertMapping(i, true));
  }

  lemma Inserted(s: State, ids: seq<ChangesetId>, i: nat) returns (steps: seq<Step>, s': State)
    requires Turn(s, ids, i) && Enabled(s, InsertRow(i, true))
    ensures Run(s, steps, s') && Inv(s') && OnTrack(s', ids)
    ensures forall j | 0 <= j <= i :: s'.tasks[j].outcome == Completed
  {
    RunMore(s, [], s, InsertRow(i, true));
    StepKeepsInv(s, InsertRow(i, true));
    RowStaysOnTrack(s, ids, i);
    steps, s' := [] + [InsertRow(i, true)], Apply(s, InsertRow(i, true));
  }

  /** Once the commits before it have completed, the next one can. */
  lemma CompleteOne(s: State, ids: seq<ChangesetId>, i: nat) returns (steps: seq<Step>, s': State)
    requires Inv(s) && OnTrack(s, ids) && i < |s.tasks|
    requires forall j | 0 <= j < i :: s.tasks[j].outcome == Completed
    ensures Run(s, steps, s') && Inv(s') && OnTrack(s', ids)
    ensures forall j | 0 <= j <= i :: s'.tasks[j].outcome == Completed
  {
    steps, s' := [], s;
    assert Fits(s, ids, i);
    if s.tasks[i].outcome == Pending && s.tasks[i].Existing? {
      steps, s' := Quietly(s, ids, i, [], s, Opened(i));
    } else if s.tasks[i].outcome == Pending {
      var a, first := Signalled(s, ids, i);
      var b, second := Mapped(first, ids, i);
      var c, third := Inserted(second, ids, i);
      RunJoin(s, a, first, b, second);
      RunJoin(s, a + b, second, c, third);
      steps, s' := a + b + c, third;
    }
  }

  lemma {:induction false} CompleteFrom(s: State, ids: seq<ChangesetId>, i: nat) returns (steps: seq<Step>, s': State)
    requires Inv(s) && OnTrack(s, ids) && i <= |s.tasks|
    requires forall j | 0 <= j < i :: s.tasks[j].outcome == Completed
    ensures Run(s, steps, s') && Inv(s') && OnTrack(s', ids)
    ensures forall j | 0 <= j < |s'.tasks| :: s'.tasks[j].outcome == Completed
    decreases |s.tasks| - i
  {
    steps, s' := [], s;
    if i < |s.tasks| {
      var a, mid := CompleteOne(s, ids, i);
      var b, end := CompleteFrom(mid, ids, i + 1);
      RunJoin(s, a, mid, b, end);
      steps, s' := a + b, end;
    }
  }

  /** In every reachable state in which nothing has failed and every commit that was looked up has a row: for any
      ids that give equal ids equal parents, some continuation completes every commit under its id, with a row
      that names its parents in order and a mapping. */
  lemma CanComplete(g: Graph, mapping: set<ChangesetId>, steps: seq<Step>, s: State, ids: seq<ChangesetId>)
      returns (more: seq<Step>, s': State)
    requires Reachable(g, mapping, steps, s) && OnTrack(s, ids)
    ensures Reachable(g, mapping, steps + more, s') && |s'.tasks| == |ids|
    ensures forall i | 0 <= i < |ids| ::
      && s'.tasks[i].outcome == Completed && s'.tasks[i].id == Some(ids[i])
      && ids[i] in s'.graph && ids[i] in s'.mapping
      && (s'.tasks[i].Creating? ==>
            && (forall p | p in s'.tasks[i].parents :: p < |ids|)
            && s'.graph[ids[i]].parents == Named(ids, s'.tasks[i].parents))
  {
    RunKeepsInv(State([], mapping, g), steps, s);
    more, s' := CompleteFrom(s, ids, 0);
    RunJoin(State([], mapping, g), steps, s, more, s');
    forall i | 0 <= i < |ids|
      ensures s'.tasks[i].id == Some(ids[i]) && ids[i] in s'.graph && ids[i] in s'.mapping
      ensures Fits(s', ids, i)
    {
      assert Fits(s', ids, i) && TaskOk(s', i);
    }
  }
}
