/** The blobstore healer: a repair protocol over several stores and one queue of entries, each entry
    saying that a store holds a blob. Every interleaving of writers and healing passes, with any store
    or queue operation allowed to fail. */
module Healer {
  import opened Wrappers

  type StoreId = nat
  type Key = nat
  type Blob = nat

  datatype QueueEntry = QueueEntry(key: Key, store: StoreId, timestamp: int)

  type Stores = map<StoreId, map<Key, Blob>>

  // The decisions of one healing.

  function SeenStores(stores: set<StoreId>, entries: set<QueueEntry>): set<StoreId> {
    set e | e in entries && e.store in stores :: e.store
  }

  function MissingStores(stores: set<StoreId>, entries: set<QueueEntry>): set<StoreId> {
    stores - SeenStores(stores, entries)
  }

  datatype Answer = Failed | NotFound | Found(blob: Blob)

  datatype FetchError = NoneResponded | ReturnedNone

  /** Asks the stores from the last to the first, past those that fail; a store that answers without the
      blob is an error. */
  method FetchBlob(toFetch: seq<StoreId>, answers: map<StoreId, Answer>) returns (r: Result<Blob, FetchError>)
    requires forall s | s in toFetch :: s in answers
    ensures (r == Err(NoneResponded)) <==> forall s | s in toFetch :: answers[s] == Failed
    ensures r != Err(NoneResponded) ==> exists i ::
      && 0 <= i < |toFetch|
      && (forall j | i < j < |toFetch| :: answers[toFetch[j]] == Failed)
      && answers[toFetch[i]] == (if r.Ok? then Found(r.value) else NotFound)
  {
    var n := |toFetch|;
    while n > 0
      invariant 0 <= n <= |toFetch|
      invariant forall j | n <= j < |toFetch| :: answers[toFetch[j]] == Failed
    {
      n := n - 1;
      match answers[toFetch[n]] {
        case Failed =>
        case NotFound => return Err(ReturnedNone);
        case Found(blob) => return Ok(blob);
      }
    }
    r := Err(NoneResponded);
  }

  /** If every asked store holds the blob and a store answers with what it holds or fails, the fetch finds
      the blob unless all of them fail. */
  lemma TruthfulFetch(toFetch: seq<StoreId>, answers: map<StoreId, Answer>, blob: Blob, r: Result<Blob, FetchError>)
    requires forall s | s in toFetch :: s in answers && (answers[s] == Failed || answers[s] == Found(blob))
    requires (r == Err(NoneResponded)) <==> forall s | s in toFetch :: answers[s] == Failed
    requires r != Err(NoneResponded) ==> exists i ::
      && 0 <= i < |toFetch|
      && answers[toFetch[i]] == (if r.Ok? then Found(r.value) else NotFound)
    ensures r == Ok(blob) <==> exists s :: s in toFetch && answers[s] != Failed
  {
  }

  // The protocol.

  /** The entries of one key that a pass read together. */
  datatype Group = Group(key: Key, entries: map<nat, QueueEntry>, status: Status)

  datatype Status =
    | Eligible
    | Skipped
    | Putting(blob: Blob, todo: set<StoreId>, healed: set<StoreId>, unhealed: set<StoreId>)
    | Reporting(toReport: set<StoreId>, unhealed: set<StoreId>)
    | Kept(unhealed: set<StoreId>)
    | Cleared

  datatype Progress = Healing | Deleting(ids: set<nat>) | Finished | Aborted

  datatype Pass = Pass(groups: seq<Group>, progress: Progress)

  datatype State = State(stores: Stores, content: map<Key, Blob>, queue: map<nat, QueueEntry>, nextId: nat,
                         passes: seq<Pass>)

  datatype Step =
    | WriterPut(entry: QueueEntry, blob: Blob) // a writer stores a blob in one store and queues an entry
    | StartPass(batches: seq<map<nat, QueueEntry>>, deadline: int)
    | Fetch(pass: nat, group: nat, source: StoreId)
    | Put(pass: nat, group: nat, target: StoreId, written: bool, reported: bool)
    | FinishPuts(pass: nat, group: nat)
    | ReportHealed(pass: nat, group: nat, target: StoreId, timestamp: int)
    | FinishReport(pass: nat, group: nat)
    | StartDelete(pass: nat)
    | Delete(pass: nat, id: nat)
    | FinishDelete(pass: nat)
    | Abort(pass: nat) // any operation that is not a put failed, which ends the pass

  function Configured(s: State): set<StoreId> {
    s.stores.Keys
  }

  function GroupOf(stores: set<StoreId>, entries: map<nat, QueueEntry>, deadline: int, key: Key): Group {
    Group(key, entries,
          if MissingStores(stores, entries.Values) == {} then Cleared
          else if exists id :: id in entries && entries[id].timestamp < deadline then Eligible
          else Skipped)
  }

  predicate OneKey(entries: map<nat, QueueEntry>) {
    entries != map[] && forall a, b | a in entries && b in entries :: entries[a].key == entries[b].key
  }

  predicate ReadsQueue(s: State, entries: map<nat, QueueEntry>) {
    OneKey(entries) && forall id | id in entries :: id in s.queue && s.queue[id] == entries[id]
  }

  ghost function KeyOf(entries: map<nat, QueueEntry>): Key
    requires OneKey(entries)
  {
    var id :| id in entries; entries[id].key
  }

  predicate InPass(s: State, pass: nat, group: nat) {
    pass < |s.passes| && s.passes[pass].progress == Healing && group < |s.passes[pass].groups|
  }

  predicate Settled(status: Status) {
    status == Skipped || status.Kept? || status == Cleared
  }

  function ClearedIds(groups: seq<Group>): set<nat> {
    set i, id | 0 <= i < |groups| && groups[i].status == Cleared && id in groups[i].entries :: id
  }

  predicate Holds(stores: Stores, store: StoreId, key: Key) {
    store in stores && key in stores[store]
  }

  predicate Enabled(s: State, step: Step) {
    match step
    case WriterPut(e, blob) => e.store in s.stores && (e.key in s.content ==> s.content[e.key] == blob)
    case StartPass(batches, _) => forall b | b in batches :: ReadsQueue(s, b)
    case Fetch(p, g, source) =>
      && InPass(s, p, g) && s.passes[p].groups[g].status == Eligible
      && source in SeenStores(Configured(s), s.passes[p].groups[g].entries.Values)
      && Holds(s.stores, source, s.passes[p].groups[g].key)
    case Put(p, g, target, written, reported) =>
      && InPass(s, p, g) && s.passes[p].groups[g].status.Putting?
      && target in s.passes[p].groups[g].status.todo && target in s.stores && (reported ==> written)
    case FinishPuts(p, g) =>
      InPass(s, p, g) && s.passes[p].groups[g].status.Putting? && s.passes[p].groups[g].status.todo == {}
    case ReportHealed(p, g, target, _) =>
      && InPass(s, p, g) && s.passes[p].groups[g].status.Reporting?
      && target in s.passes[p].groups[g].status.toReport
    case FinishReport(p, g) =>
      && InPass(s, p, g) && s.passes[p].groups[g].status.Reporting?
      && s.passes[p].groups[g].status.toReport == {}
    case StartDelete(p) =>
      && p < |s.passes| && s.passes[p].progress == Healing
      && forall g | 0 <= g < |s.passes[p].groups| :: Settled(s.passes[p].groups[g].status)
    case Delete(p, id) => p < |s.passes| && s.passes[p].progress.Deleting? && id in s.passes[p].progress.ids
    case FinishDelete(p) => p < |s.passes| && s.passes[p].progress == Deleting({})
    case Abort(p) => p < |s.passes| && (s.passes[p].progress == Healing || s.passes[p].progress.Deleting?)
  }

  function SetStatus(s: State, p: nat, g: nat, status: Status): State
    requires InPass(s, p, g)
  {
    var pass := s.passes[p];
    s.(passes := s.passes[p := pass.(groups := pass.groups[g := pass.groups[g].(status := status)])])
  }

  function SetProgress(s: State, p: nat, progress: Progress): State
    requires p < |s.passes|
  {
    s.(passes := s.passes[p := s.passes[p].(progress := progress)])
  }

  function Write(stores: Stores, store: StoreId, key: Key, blob: Blob): Stores
    requires store in stores
  {
    var blobs: map<Key, Blob> := stores[store][key := blob];
    stores[store := blobs]
  }

  function Enqueue(s: State, e: QueueEntry): State {
    s.(queue := s.queue[s.nextId := e], nextId := s.nextId + 1)
  }

  ghost function Apply(s: State, step: Step): State
    requires Enabled(s, step)
  {
    match step
    case WriterPut(e, blob) =>
      Enqueue(s.(stores := Write(s.stores, e.store, e.key, blob), content := s.content[e.key := blob]), e)
    case StartPass(batches, deadline) =>
      var groups := seq(|batches|, i requires 0 <= i < |batches| =>
        assert batches[i] in batches; GroupOf(Configured(s), batches[i], deadline, KeyOf(batches[i])));
      s.(passes := s.passes + [Pass(groups, Healing)])
    case Fetch(p, g, source) =>
      var group := s.passes[p].groups[g];
      SetStatus(s, p, g,
                Putting(s.stores[source][group.key], MissingStores(Configured(s), group.entries.Values), {}, {}))
    case Put(p, g, target, written, reported) =>
      var group := s.passes[p].groups[g];
      var Putting(blob, todo, healed, unhealed) := group.status;
      var s' := if written then s.(stores := Write(s.stores, target, group.key, blob)) else s;
      SetStatus(s', p, g,
                if reported then Putting(blob, todo - {target}, healed + {target}, unhealed)
                else Putting(blob, todo - {target}, healed, unhealed + {target}))
    case FinishPuts(p, g) =>
      var status := s.passes[p].groups[g].status;
      SetStatus(s, p, g, if status.unhealed == {} then Cleared else Reporting(status.healed, status.unhealed))
    case ReportHealed(p, g, target, timestamp) =>
      var group := s.passes[p].groups[g];
      Enqueue(SetStatus(s, p, g, Reporting(group.status.toReport - {target}, group.status.unhealed)),
              QueueEntry(group.key, target, timestamp))
    case FinishReport(p, g) => SetStatus(s, p, g, Kept(s.passes[p].groups[g].status.unhealed))
    case StartDelete(p) => SetProgress(s, p, Deleting(ClearedIds(s.passes[p].groups)))
    case Delete(p, id) => SetProgress(s.(queue := s.queue - {id}), p, Deleting(s.passes[p].progress.ids - {id}))
    case FinishDelete(p) => SetProgress(s, p, Finished)
    case Abort(p) => SetProgress(s, p, Aborted)
  }

  ghost predicate Run(s: State, steps: seq<Step>, s': State)
    decreases |steps|
  {
    if steps == [] then s == s' else Enabled(s, steps[0]) && Run(Apply(s, steps[0]), steps[1..], s')
  }

  // What holds in every reachable state.

  predicate AllHold(stores: Stores, key: Key) {
    forall st | st in stores :: key in stores[st]
  }

  predicate StoresOk(s: State) {
    forall st, key | st in s.stores && key in s.stores[st] :: key in s.content && s.stores[st][key] == s.content[key]
  }

  predicate EntryOk(s: State, e: QueueEntry) {
    e.key in s.content && (e.store in s.stores ==> e.key in s.stores[e.store])
  }

  predicate QueueOk(s: State) {
    forall id | id in s.queue :: id < s.nextId && EntryOk(s, s.queue[id])
  }

  /** The entries that a group read are sound and are still what the queue has under their ids. */
  predicate EntriesOk(s: State, group: Group) {
    group.key in s.content &&
    forall id | id in group.entries ::
      && id < s.nextId
      && group.entries[id].key == group.key
      && EntryOk(s, group.entries[id])
      && (id in s.queue ==> s.queue[id] == group.entries[id])
  }

  predicate HoldAll(stores: Stores, which: set<StoreId>, key: Key) {
    forall st | st in which :: Holds(stores, st, key)
  }

  predicate StatusOk(s: State, group: Group) {
    match group.status
    case Putting(blob, todo, healed, unhealed) =>
      && group.key in s.content && blob == s.content[group.key]
      && HoldAll(s.stores, healed, group.key)
      && Configured(s) == SeenStores(Configured(s), group.entries.Values) + todo + healed + unhealed
    case Reporting(toReport, unhealed) => unhealed != {} && HoldAll(s.stores, toReport, group.key)
    case Kept(unhealed) => unhealed != {}
    case Cleared => AllHold(s.stores, group.key)
    case _ => true
  }

  predicate ProgressOk(s: State, pass: Pass) {
    match pass.progress
    case Deleting(ids) => ids <= ClearedIds(pass.groups) && ClearedIds(pass.groups) * s.queue.Keys <= ids
    case Finished => ClearedIds(pass.groups) * s.queue.Keys == {}
    case _ => true
  }

  predicate PassOk(s: State, pass: Pass) {
    && ProgressOk(s, pass)
    && (!pass.progress.Healing? && !pass.progress.Aborted? ==>
          forall g | 0 <= g < |pass.groups| :: Settled(pass.groups[g].status))
    && forall g | 0 <= g < |pass.groups| :: EntriesOk(s, pass.groups[g]) && StatusOk(s, pass.groups[g])
  }

  /** A blob that some store lacks still has an entry in the queue. */
  ghost predicate RepairPending(s: State) {
    forall key | key in s.content :: AllHold(s.stores, key) || exists id :: id in s.queue && s.queue[id].key == key
  }

  ghost predicate Inv(s: State) {
    && StoresOk(s)
    && QueueOk(s)
    && RepairPending(s)
    && forall p | 0 <= p < |s.passes| :: PassOk(s, s.passes[p])
  }

  /** Stores only gain blobs, contents never change and ids are never used again. */
  predicate Grows(s: State, s': State) {
    && s'.stores.Keys == s.stores.Keys
    && (forall st, key | st in s.stores && key in s.stores[st] :: key in s'.stores[st])
    && (forall key | key in s.content :: key in s'.content && s'.content[key] == s.content[key])
    && s.nextId <= s'.nextId
    && (forall id | id in s'.queue && id < s.nextId :: id in s.queue && s'.queue[id] == s.queue[id])
  }

  lemma StepGrows(s: State, step: Step)
    requires Inv(s) && Enabled(s, step)
    ensures Grows(s, Apply(s, step))
  {
    var s' := Apply(s, step);
    match step
    case WriterPut(_, _) =>
    case Put(_, _, _, _, _) =>
    case ReportHealed(_, _, _, _) =>
    case Delete(_, _) =>
    case _ => assert s'.stores == s.stores && s'.content == s.content && s'.queue == s.queue && s'.nextId == s.nextId;
  }

  lemma PassFrame(s: State, s': State, pass: Pass)
    requires Grows(s, s') && PassOk(s, pass)
    ensures PassOk(s', pass)
  {
  }

  lemma KeepsStores(s: State, step: Step)
    requires Inv(s) && Enabled(s, step)
    ensures StoresOk(Apply(s, step))
  {
  }

  lemma KeepsQueue(s: State, step: Step)
    requires Inv(s) && Enabled(s, step)
    ensures QueueOk(Apply(s, step))
  {
  }

  /** An entry is deleted only when all configured stores hold its blob. */
  lemma DeletesOnlyHealed(s: State, p: nat, id: nat)
    requires Inv(s) && Enabled(s, Delete(p, id)) && id in s.queue
    ensures s.queue[id].key in s.content
    ensures forall st | st in s.stores ::
      s.queue[id].key in s.stores[st] && s.stores[st][s.queue[id].key] == s.content[s.queue[id].key]
  {
  }

  lemma KeepsRepair(s: State, step: Step)
    requires Inv(s) && Enabled(s, step)
    ensures RepairPending(Apply(s, step))
  {
    var s' := Apply(s, step);
    StepGrows(s, step);
    if step.Delete? && step.id in s.queue {
      DeletesOnlyHealed(s, step.pass, step.id);
      assert AllHold(s.stores, s.queue[step.id].key);
    }
    forall key | key in s'.content && !AllHold(s'.stores, key)
      ensures exists id :: id in s'.queue && s'.queue[id].key == key
    {
      if step.WriterPut? && step.entry.key == key {
        assert s'.queue[s.nextId].key == key;
      } else {
        assert !AllHold(s.stores, key);
        var id :| id in s.queue && s.queue[id].key == key;
        assert id in s'.queue && s'.queue[id] == s.queue[id];
      }
    }
  }

  /** A group that changes status in a pass that is still healing. */
  lemma StatusStep(s: State, s': State, p: nat, g: nat, status: Status)
    requires Inv(s) && Grows(s, s') && InPass(s, p, g)
    requires s'.passes == SetStatus(s, p, g, status).passes
    requires EntriesOk(s', s.passes[p].groups[g]) ==> StatusOk(s', s.passes[p].groups[g].(status := status))
    ensures PassOk(s', s'.passes[p])
  {
  }

  lemma AllSeenHold(s: State, group: Group)
    requires EntriesOk(s, group) && MissingStores(Configured(s), group.entries.Values) == {}
    ensures AllHold(s.stores, group.key)
  {
    forall st | st in s.stores ensures group.key in s.stores[st] {
      assert st !in MissingStores(Configured(s), group.entries.Values);
      SeenHold(s, group, st);
    }
  }

  lemma SeenHold(s: State, group: Group, st: StoreId)
    requires EntriesOk(s, group) && st in SeenStores(Configured(s), group.entries.Values)
    ensures Holds(s.stores, st, group.key)
  {
  }

  lemma FetchStep(s: State, p: nat, g: nat, source: StoreId)
    requires Inv(s) && Enabled(s, Fetch(p, g, source))
    ensures PassOk(Apply(s, Fetch(p, g, source)), Apply(s, Fetch(p, g, source)).passes[p])
  {
  }

  lemma PutStep(s: State, p: nat, g: nat, target: StoreId, written: bool, reported: bool)
    requires Inv(s) && Enabled(s, Put(p, g, target, written, reported))
    ensures var s' := Apply(s, Put(p, g, target, written, reported)); PassOk(s', s'.passes[p])
  {
    var step := Put(p, g, target, written, reported);
    var s' := Apply(s, step);
    var group := s.passes[p].groups[g];
    StepGrows(s, step);
    assert PassOk(s, s.passes[p]) && StatusOk(s, group);
    var Putting(blob, todo, healed, unhealed) := group.status;
    var status := if reported then Putting(blob, todo - {target}, healed + {target}, unhealed)
                  else Putting(blob, todo - {target}, healed, unhealed + {target});
    assert todo == (todo - {target}) + {target};
    StatusStep(s, s', p, g, status);
  }

  lemma FinishPutsStep(s: State, p: nat, g: nat)
    requires Inv(s) && Enabled(s, FinishPuts(p, g))
    ensures var s' := Apply(s, FinishPuts(p, g)); PassOk(s', s'.passes[p])
  {
  }

  lemma StartPassStep(s: State, batches: seq<map<nat, QueueEntry>>, deadline: int)
    requires Inv(s) && Enabled(s, StartPass(batches, deadline))
    ensures var s' := Apply(s, StartPass(batches, deadline)); PassOk(s', s'.passes[|s.passes|])
  {
    var s' := Apply(s, StartPass(batches, deadline));
    var groups := s'.passes[|s.passes|].groups;
    forall g | 0 <= g < |groups| ensures EntriesOk(s', groups[g]) && StatusOk(s', groups[g]) {
      assert batches[g] in batches;
      assert groups[g].entries == batches[g] && groups[g].key == KeyOf(batches[g]);
      var id :| id in batches[g] && batches[g][id].key == groups[g].key;
      assert EntryOk(s, s.queue[id]);
      if groups[g].status == Cleared {
        AllSeenHold(s', groups[g]);
      }
    }
  }

  lemma DeleteStep(s: State, p: nat, id: nat)
    requires Inv(s) && Enabled(s, Delete(p, id))
    ensures var s' := Apply(s, Delete(p, id)); PassOk(s', s'.passes[p])
  {
  }

  lemma OwnPass(s: State, step: Step, p: nat)
    requires Inv(s) && Enabled(s, step) && p < |Apply(s, step).passes|
    requires p >= |s.passes| || Apply(s, step).passes[p] != s.passes[p]
    ensures PassOk(Apply(s, step), Apply(s, step).passes[p])
  {
    StepGrows(s, step);
    if p < |s.passes| {
      assert PassOk(s, s.passes[p]);
    }
    match step {
      case StartPass(batches, deadline) => StartPassStep(s, batches, deadline);
      case Fetch(_, g, source) => FetchStep(s, p, g, source);
      case Put(_, g, target, written, reported) => PutStep(s, p, g, target, written, reported);
      case FinishPuts(_, g) => FinishPutsStep(s, p, g);
      case ReportHealed(_, g, target, _) =>
        var status := s.passes[p].groups[g].status;
        assert StatusOk(s, s.passes[p].groups[g]);
        StatusStep(s, Apply(s, step), p, g, Reporting(status.toReport - {target}, status.unhealed));
      case FinishReport(_, g) =>
        assert StatusOk(s, s.passes[p].groups[g]);
        StatusStep(s, Apply(s, step), p, g, Kept(s.passes[p].groups[g].status.unhealed));
      case Delete(_, id) => DeleteStep(s, p, id);
      case StartDelete(_) => PassFrame(s, Apply(s, step), s.passes[p]);
      case FinishDelete(_) => PassFrame(s, Apply(s, step), s.passes[p]);
      case Abort(_) => PassFrame(s, Apply(s, step), s.passes[p]);
      case WriterPut(_, _) =>
    }
  }

  lemma StepKeepsInv(s: State, step: Step)
    requires Inv(s) && Enabled(s, step)
    ensures Inv(Apply(s, step))
  {
    var s' := Apply(s, step);
    StepGrows(s, step);
    KeepsStores(s, step);
    KeepsQueue(s, step);
    KeepsRepair(s, step);
    forall p | 0 <= p < |s'.passes| ensures PassOk(s', s'.passes[p]) {
      if p < |s.passes| && s'.passes[p] == s.passes[p] {
        PassFrame(s, s', s.passes[p]);
      } else {
        OwnPass(s, step, p);
      }
    }
  }

  lemma {:induction false} RunKeepsInv(s: State, steps: seq<Step>, s': State)
    requires Inv(s) && Run(s, steps, s')
    ensures Inv(s') && Grows(s, s')
    decreases |steps|
  {
    if steps != [] {
      StepKeepsInv(s, steps[0]);
      StepGrows(s, steps[0]);
      RunKeepsInv(Apply(s, steps[0]), steps[1..], s');
    }
  }

  /** Each entry's store holds its blob, each blob that a store lacks has an entry, and no pass runs. */
  ghost predicate Start(s: State) {
    StoresOk(s) && QueueOk(s) && RepairPending(s) && s.passes == []
  }

  /** In every run: an entry is deleted only when all configured stores hold the same blob under its key;
      a blob that some store lacks always has an entry left; and no store loses a blob. */
  lemma {:induction false} HealerIsSafe(s0: State, steps: seq<Step>, s: State, p: nat, id: nat)
    requires Start(s0) && Run(s0, steps, s)
    ensures Enabled(s, Delete(p, id)) && id in s.queue ==>
      var key := s.queue[id].key;
      key in s.content && forall st | st in s.stores :: key in s.stores[st] && s.stores[st][key] == s.content[key]
    ensures RepairPending(s)
    ensures forall st, key | st in s0.stores && key in s0.stores[st] :: st in s.stores && key in s.stores[st]
  {
    RunKeepsInv(s0, steps, s);
    if Enabled(s, Delete(p, id)) && id in s.queue {
      DeletesOnlyHealed(s, p, id);
    }
  }

  lemma FinishedGroup(s: State, pass: Pass, g: nat)
    requires PassOk(s, pass) && pass.progress == Finished && g < |pass.groups|
    ensures Settled(pass.groups[g].status) && StatusOk(s, pass.groups[g])
    ensures pass.groups[g].status == Cleared ==> forall id | id in pass.groups[g].entries :: id !in s.queue
  {
    if pass.groups[g].status == Cleared {
      forall id | id in pass.groups[g].entries ensures id !in s.queue {
        assert id in ClearedIds(pass.groups);
        assert id !in ClearedIds(pass.groups) * s.queue.Keys;
      }
    }
  }
}
