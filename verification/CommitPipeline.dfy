/** Concurrent creation of changesets: every interleaving of the steps of many commits, any of which may
    fail, over one commit graph and one table of bonsai-to-Mercurial mappings. */
module CommitPipeline {
  import opened Wrappers
  import opened Changesets

  datatype Outcome = Pending | Completed | Failed

  /** A handle to a commit that may not be complete. `Creating` is a commit on its way in; `Existing`
      looks up a commit that the repository is said to have.

      `id` is sent to the children as soon as it is known; `bonsaiParents` are the ids that the parents
      had sent by then. `saved` and `parentsDone` are the two futures that the rest waits for. */
  datatype Task =
    | Creating(parents: seq<nat>, id: Option<ChangesetId>, bonsaiParents: seq<ChangesetId>,
               saved: bool, parentsDone: bool, mapped: bool, inserted: bool, outcome: Outcome)
    | Existing(cs: ChangesetId, id: Option<ChangesetId>, outcome: Outcome)

  datatype State = State(tasks: seq<Task>, mapping: set<ChangesetId>, graph: Graph)

  datatype Step =
    | Create(handles: seq<nat>)
    | Open(cs: ChangesetId)
    | Opened(task: nat)
    | Signal(task: nat, id: ChangesetId)
    | Save(task: nat)
    | ParentsDone(task: nat)
    | InsertMapping(task: nat, reported: bool) // not `reported`: written, but the caller saw an error
    | InsertRow(task: nat, reported: bool)
    | Fail(task: nat)
    | OtherRow(cs: ChangesetId, parents: seq<ChangesetId>) // some other writer of the tables
    | OtherMapping(cs: ChangesetId)

  predicate IsPending(s: State, i: nat) {
    i < |s.tasks| && s.tasks[i].outcome == Pending
  }

  predicate IsCreating(s: State, i: nat) {
    IsPending(s, i) && s.tasks[i].Creating?
  }

  function Ids(s: State, tasks: seq<nat>): seq<ChangesetId>
    requires forall p | p in tasks :: p < |s.tasks| && s.tasks[p].id.Some?
  {
    seq(|tasks|, i requires 0 <= i < |tasks| => assert tasks[i] in tasks; s.tasks[tasks[i]].id.value)
  }

  predicate AllSignalled(s: State, tasks: seq<nat>) {
    forall p | p in tasks :: p < |s.tasks| && s.tasks[p].id.Some?
  }

  predicate AllCompleted(s: State, tasks: seq<nat>) {
    forall p | p in tasks :: p < |s.tasks| && s.tasks[p].outcome == Completed
  }

  predicate Enabled(s: State, step: Step) {
    match step
    case Create(parents) => |parents| <= 2 && forall p | p in parents :: p < |s.tasks|
    case Open(_) => true
    case Opened(i) => IsPending(s, i) && s.tasks[i].Existing? && s.tasks[i].cs in s.mapping
    case Signal(i, _) => IsCreating(s, i) && s.tasks[i].id.None? && AllSignalled(s, s.tasks[i].parents)
    case Save(i) => IsCreating(s, i) && s.tasks[i].id.Some?
    case ParentsDone(i) => IsCreating(s, i) && AllCompleted(s, s.tasks[i].parents)
    case InsertMapping(i, _) => IsCreating(s, i) && s.tasks[i].id.Some? && s.tasks[i].saved && s.tasks[i].parentsDone
    case InsertRow(i, _) => IsCreating(s, i) && s.tasks[i].id.Some? && s.tasks[i].mapped
    case Fail(i) => IsPending(s, i)
    case OtherRow(_, _) => true
    case OtherMapping(_) => true
  }

  function End(t: Task, outcome: Outcome): Task {
    match t
    case Creating(parents, id, bonsaiParents, saved, parentsDone, mapped, inserted, _) =>
      Creating(parents, id, bonsaiParents, saved, parentsDone, mapped, inserted, outcome)
    case Existing(cs, id, _) => Existing(cs, id, outcome)
  }

  function Set(s: State, i: nat, t: Task): State
    requires i < |s.tasks|
  {
    s.(tasks := s.tasks[i := t])
  }

  function Apply(s: State, step: Step): State
    requires Enabled(s, step)
  {
    match step
    case Create(parents) => s.(tasks := s.tasks + [Creating(parents, None, [], false, false, false, false, Pending)])
    case Open(cs) => s.(tasks := s.tasks + [Existing(cs, None, Pending)])
    case Opened(i) => Set(s, i, Existing(s.tasks[i].cs, Some(s.tasks[i].cs), Completed))
    case Signal(i, id) => Set(s, i, s.tasks[i].(id := Some(id), bonsaiParents := Ids(s, s.tasks[i].parents)))
    case Save(i) => Set(s, i, s.tasks[i].(saved := true))
    case ParentsDone(i) => Set(s, i, s.tasks[i].(parentsDone := true))
    case InsertMapping(i, reported) =>
      var t := s.tasks[i];
      Set(s.(mapping := s.mapping + {t.id.value}), i, if reported then t.(mapped := true) else End(t, Failed))
    case InsertRow(i, reported) =>
      var t := s.tasks[i];
      var result := AddResult(s.graph, t.id.value, t.bonsaiParents);
      Set(s.(graph := Added(s.graph, t.id.value, t.bonsaiParents)), i,
          End(t.(inserted := result.Ok?), if result.Ok? && reported then Completed else Failed))
    case Fail(i) => Set(s, i, End(s.tasks[i], Failed))
    case OtherRow(cs, parents) => s.(graph := Added(s.graph, cs, parents))
    case OtherMapping(cs) => s.(mapping := s.mapping + {cs})
  }

  predicate Run(s: State, steps: seq<Step>, s': State)
    decreases |steps|
  {
    if steps == [] then s == s'
    else Enabled(s, steps[0]) && Run(Apply(s, steps[0]), steps[1..], s')
  }

  // What holds in every reachable state.

  predicate Stored(g: Graph, cs: ChangesetId, parents: seq<ChangesetId>) {
    cs in g && g[cs].parents == parents
  }

  predicate TaskOk(s: State, i: nat)
    requires i < |s.tasks|
  {
    match s.tasks[i]
    case Existing(cs, id, outcome) => (id.Some? ==> id.value == cs) && (outcome == Completed ==> id.Some?)
    case Creating(parents, id, bonsaiParents, saved, parentsDone, mapped, inserted, outcome) =>
      && (forall p | p in parents :: p < i)
      && (saved ==> id.Some?)
      && (id.Some? ==> AllSignalled(s, parents) && bonsaiParents == Ids(s, parents))
      && (parentsDone ==> AllCompleted(s, parents))
      && (mapped ==> id.Some? && saved && parentsDone && id.value in s.mapping)
      && (inserted ==> mapped && Stored(s.graph, id.value, bonsaiParents))
      && (outcome == Completed ==> inserted)
  }

  predicate Inv(s: State) {
    GraphOk(s.graph) && forall i | 0 <= i < |s.tasks| :: TaskOk(s, i)
  }

  /** The new state keeps everything that another task may rely on. */
  predicate Grows(s: State, s': State) {
    && |s.tasks| <= |s'.tasks|
    && s.mapping <= s'.mapping
    && Extends(s.graph, s'.graph)
    && forall i | 0 <= i < |s.tasks| ::
         && (s.tasks[i].id.Some? ==> s'.tasks[i].id == s.tasks[i].id)
         && (s.tasks[i].outcome == Completed ==> s'.tasks[i].outcome == Completed)
  }

  lemma StepGrows(s: State, step: Step)
    requires Inv(s) && Enabled(s, step)
    ensures Grows(s, Apply(s, step))
  {
    if step.Opened? {
      assert TaskOk(s, step.task);
    }
  }

  lemma TaskOkFrame(s: State, s': State, i: nat)
    requires i < |s.tasks| && TaskOk(s, i) && Grows(s, s') && s'.tasks[i] == s.tasks[i]
    ensures TaskOk(s', i)
  {
  }

  lemma StepKeepsOwnTask(s: State, step: Step, i: nat)
    requires Inv(s) && Enabled(s, step) && i < |Apply(s, step).tasks|
    requires i >= |s.tasks| || Apply(s, step).tasks[i] != s.tasks[i]
    ensures TaskOk(Apply(s, step), i)
  {
    var s' := Apply(s, step);
    StepGrows(s, step);
    if i < |s.tasks| {
      assert TaskOk(s, i);
      var t := s.tasks[i];
      if t.Creating? && (t.id.Some? || step.Signal?) {
        assert Ids(s', t.parents) == Ids(s, t.parents);
      }
    }
  }

  lemma StepKeepsInv(s: State, step: Step)
    requires Inv(s) && Enabled(s, step)
    ensures Inv(Apply(s, step))
  {
    var s' := Apply(s, step);
    StepGrows(s, step);
    match step {
      case InsertRow(i, _) => AddKeepsGraphOk(s.graph, s.tasks[i].id.value, s.tasks[i].bonsaiParents);
      case OtherRow(cs, parents) => AddKeepsGraphOk(s.graph, cs, parents);
      case _ =>
    }
    forall i | 0 <= i < |s'.tasks| ensures TaskOk(s', i) {
      if i < |s.tasks| && s'.tasks[i] == s.tasks[i] {
        TaskOkFrame(s, s', i);
      } else {
        StepKeepsOwnTask(s, step, i);
      }
    }
  }

  lemma {:induction false} RunKeepsInv(s: State, steps: seq<Step>, s': State)
    requires Inv(s) && Run(s, steps, s')
    ensures Inv(s')
    decreases |steps|
  {
    if steps != [] {
      StepKeepsInv(s, steps[0]);
      RunKeepsInv(Apply(s, steps[0]), steps[1..], s');
    }
  }

  /** A run from a repository with no commits in flight. */
  predicate Reachable(g: Graph, mapping: set<ChangesetId>, steps: seq<Step>, s: State) {
    GraphOk(g) && Run(State([], mapping, g), steps, s)
  }

  /** `a` is reached from `b` through handles to parents. */
  ghost predicate Descends(s: State, b: nat, a: nat)
    decreases b
  {
    && b < |s.tasks| && s.tasks[b].Creating?
    && exists p :: p in s.tasks[b].parents && p < b && (p == a || Descends(s, p, a))
  }

  lemma {:induction false} InsertedAncestorsCompleted(s: State, b: nat, a: nat)
    requires Inv(s) && Descends(s, b, a) && s.tasks[b].inserted
    ensures a < |s.tasks| && s.tasks[a].outcome == Completed
    decreases b
  {
    assert TaskOk(s, b);
    var p :| p in s.tasks[b].parents && p < b && (p == a || Descends(s, p, a));
    assert s.tasks[p].outcome == Completed;
    if p != a {
      assert TaskOk(s, p);
      InsertedAncestorsCompleted(s, p, a);
    }
  }

  /** In every interleaving: the graph stays closed under parents; a commit writes its row only after its
      mapping and after all its parents have completed; and a commit that failed has no descendant in
      flight that wrote a row. */
  lemma {:induction false} PipelineIsSafe(g: Graph, mapping: set<ChangesetId>, steps: seq<Step>, s: State, b: nat,
                                          a: nat)
    requires Reachable(g, mapping, steps, s)
    requires b < |s.tasks| && s.tasks[b].Creating?
    ensures GraphOk(s.graph)
    ensures s.tasks[b].inserted ==>
      && s.tasks[b].id.Some? && s.tasks[b].id.value in s.mapping
      && AllCompleted(s, s.tasks[b].parents) && AllSignalled(s, s.tasks[b].parents)
      && Stored(s.graph, s.tasks[b].id.value, Ids(s, s.tasks[b].parents))
    ensures Descends(s, b, a) && a < |s.tasks| && s.tasks[a].outcome == Failed ==>
      !s.tasks[b].inserted && s.tasks[b].outcome != Completed
  {
    RunKeepsInv(State([], mapping, g), steps, s);
    assert TaskOk(s, b);
    if Descends(s, b, a) && s.tasks[b].inserted {
      InsertedAncestorsCompleted(s, b, a);
    }
  }

  /** The `k`-th recorded parent is the id of the `k`-th handle; only an existing commit can lack a row. */
  lemma ParentOf(s: State, i: nat, k: nat)
    requires Inv(s) && i < |s.tasks| && s.tasks[i].Creating? && s.tasks[i].id.Some? && s.tasks[i].parentsDone
    requires k < |s.tasks[i].parents|
    ensures var t, p := s.tasks[i], s.tasks[i].parents[k];
            && |t.bonsaiParents| == |t.parents| && p < |s.tasks|
            && (s.tasks[p].Existing? ==> s.tasks[p].cs == t.bonsaiParents[k])
            && (s.tasks[p].Creating? ==> t.bonsaiParents[k] in s.graph)
  {
    assert TaskOk(s, i);
    assert s.tasks[i].parents[k] in s.tasks[i].parents;
    assert TaskOk(s, s.tasks[i].parents[k]);
  }

  ghost predicate HasUnstoredParent(s: State, t: Task)
    requires t.Creating?
  {
    exists p :: p in t.parents && p < |s.tasks| && s.tasks[p].Existing? && s.tasks[p].cs !in s.graph
  }

  /** Writing the row fails for want of parents exactly when a parent was looked up by its mapping and has
      no row: mappings are written before rows. Parents created by this pipeline are never missing. */
  lemma MissingOnlyExisting(g: Graph, mapping: set<ChangesetId>, steps: seq<Step>, s: State, i: nat)
    requires Reachable(g, mapping, steps, s) && Enabled(s, InsertRow(i, true))
    ensures var t := s.tasks[i];
            var r := AddResult(s.graph, t.id.value, t.bonsaiParents);
            r.Err? && r.error.MissingParents? <==> HasUnstoredParent(s, t)
  {
    RunKeepsInv(State([], mapping, g), steps, s);
    var t := s.tasks[i];
    assert TaskOk(s, i);
    var missing := Missing(s.graph, t.bonsaiParents);
    if missing != {} {
      var cs :| cs in missing;
      var k :| 0 <= k < |t.bonsaiParents| && t.bonsaiParents[k] == cs;
      ParentOf(s, i, k);
      assert t.parents[k] in t.parents;
    }
    if HasUnstoredParent(s, t) {
      var p :| p in t.parents && p < |s.tasks| && s.tasks[p].Existing? && s.tasks[p].cs !in s.graph;
      var k :| 0 <= k < |t.parents| && t.parents[k] == p;
      ParentOf(s, i, k);
      assert t.bonsaiParents[k] in missing;
    }
  }

  lemma {:induction false} RunMore(s: State, steps: seq<Step>, mid: State, step: Step)
    requires Run(s, steps, mid) && Enabled(mid, step)
    ensures Run(s, steps + [step], Apply(mid, step))
    decreases |steps|
  {
    if steps == [] {
      assert (steps + [step])[1..] == [];
    } else {
      assert (steps + [step])[1..] == steps[1..] + [step];
      RunMore(Apply(s, steps[0]), steps[1..], mid, step);
    }
  }

  lemma RunNext(steps: seq<Step>, mid: State, step: Step) returns (steps': seq<Step>, s: State)
    requires Reachable(map[], {}, steps, mid) && Enabled(mid, step)
    ensures Reachable(map[], {}, steps', s) && s == Apply(mid, step)
  {
    RunMore(State([], {}, map[]), steps, mid, step);
    steps', s := steps + [step], Apply(mid, step);
  }

  /** A commit that fails after its mapping was written and before its row. */
  lemma MappedWithoutRow(c: ChangesetId) returns (steps: seq<Step>, s: State)
    ensures Reachable(map[], {}, steps, s) && s.graph == map[] && c in s.mapping
    ensures |s.tasks| == 1 && s.tasks[0].Creating? && s.tasks[0].outcome == Failed
  {
    steps, s := [], State([], {}, map[]);
    steps, s := RunNext(steps, s, Create([]));
    steps, s := RunNext(steps, s, Signal(0, c));
    steps, s := RunNext(steps, s, Save(0));
    steps, s := RunNext(steps, s, ParentsDone(0));
    steps, s := RunNext(steps, s, InsertMapping(0, true));
    steps, s := RunNext(steps, s, Fail(0));
  }

  lemma OpenedWithoutRow(c: ChangesetId) returns (steps: seq<Step>, s: State)
    ensures Reachable(map[], {}, steps, s) && s.graph == map[]
    ensures |s.tasks| == 2 && s.tasks[1] == Existing(c, Some(c), Completed)
  {
    steps, s := MappedWithoutRow(c);
    steps, s := RunNext(steps, s, Open(c));
    steps, s := RunNext(steps, s, Opened(1));
  }

  /** From an empty repository: a commit fails between its mapping and its row, is then looked up by its mapping,
      and the child made on top of it has an unstored parent when it comes to write its own row. */
  lemma UnstoredParentHappens(c: ChangesetId, d: ChangesetId) returns (steps: seq<Step>, s: State)
    ensures Reachable(map[], {}, steps, s) && Enabled(s, InsertRow(2, true)) && HasUnstoredParent(s, s.tasks[2])
  {
    steps, s := OpenedWithoutRow(c);
    steps, s := RunNext(steps, s, Create([1]));
    steps, s := RunNext(steps, s, Signal(2, d));
    steps, s := RunNext(steps, s, Save(2));
    steps, s := RunNext(steps, s, ParentsDone(2));
    steps, s := RunNext(steps, s, InsertMapping(2, true));
    assert 1 in s.tasks[2].parents;
  }
}
