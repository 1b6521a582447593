/** Bookmark pushes: a check against the commit graph, then a transaction that compares and sets. */
module Bookmarks {
  import opened Wrappers
  import opened Changesets

  type Bookmark = nat

  predicate IsParent(g: Parents, p: ChangesetId, cs: ChangesetId) {
    cs in g && p in g[cs]
  }

  /** A walk from a commit up to one of its descendants. */
  predicate Ascent(g: Parents, w: seq<ChangesetId>) {
    forall i | 0 < i < |w| :: IsParent(g, w[i - 1], w[i])
  }

  ghost predicate IsAncestor(g: Parents, a: ChangesetId, d: ChangesetId) {
    exists w :: w != [] && w[0] == a && w[|w| - 1] == d && Ascent(g, w)
  }

  lemma AncestorOfItself(g: Parents, a: ChangesetId)
    ensures IsAncestor(g, a, a)
  {
    assert Ascent(g, [a]);
  }

  lemma AncestorTransitive(g: Parents, a: ChangesetId, b: ChangesetId, c: ChangesetId)
    requires IsAncestor(g, a, b) && IsAncestor(g, b, c)
    ensures IsAncestor(g, a, c)
  {
    var v :| v != [] && v[0] == a && v[|v| - 1] == b && Ascent(g, v);
    var w :| w != [] && w[0] == b && w[|w| - 1] == c && Ascent(g, w);
    var u := v + w[1..];
    forall i | 0 < i < |u| ensures IsParent(g, u[i - 1], u[i]) {
      if i >= |v| {
        assert u[i] == w[i - |v| + 1];
        assert u[i - 1] == w[i - |v|];
      }
    }
    assert Ascent(g, u);
  }

  datatype Push = Push(name: Bookmark, before: Option<ChangesetId>, after: Option<ChangesetId>,
                       allowNonFastForward: bool)

  ghost predicate PushAllowed(g: Parents, fastForwardOnly: set<Bookmark>, push: Push) {
    var blockNonFastForward := push.name in fastForwardOnly || !push.allowNonFastForward;
    match (push.before, push.after)
    case (Some(before), Some(after)) => !blockNonFastForward || before == after || IsAncestor(g, before, after)
    case (Some(_), None) => push.name !in fastForwardOnly
    case _ => true
  }

  // Transactions.

  datatype Txn = Txn(forceSets: map<Bookmark, ChangesetId>,
                     creates: map<Bookmark, ChangesetId>,
                     sets: map<Bookmark, (ChangesetId, ChangesetId)>, // old and new
                     forceDeletes: set<Bookmark>,
                     deletes: map<Bookmark, ChangesetId>)

  const EMPTY := Txn(map[], map[], map[], {}, map[])

  predicate Uses(txn: Txn, name: Bookmark) {
    || name in txn.forceSets || name in txn.creates || name in txn.sets
    || name in txn.forceDeletes || name in txn.deletes
  }

  predicate TxnOk(txn: Txn) {
    txn.forceSets.Keys !! txn.creates.Keys !! txn.sets.Keys !! txn.forceDeletes !! txn.deletes.Keys
  }

  /** Adds the compare-and-set of a push; a bookmark can be used once per transaction. */
  function AddPush(txn: Txn, push: Push): Option<Txn> {
    match (push.after, push.before)
    case (None, None) => Some(txn)
    case _ =>
      if Uses(txn, push.name) then None
      else match (push.after, push.before)
        case (Some(after), Some(before)) => Some(txn.(sets := txn.sets[push.name := (before, after)]))
        case (Some(after), None) => Some(txn.(creates := txn.creates[push.name := after]))
        case (None, Some(before)) => Some(txn.(deletes := txn.deletes[push.name := before]))
        case (None, None) => Some(txn)
  }

  type Table = map<Bookmark, ChangesetId>

  predicate CanCreate(table: Table, creates: map<Bookmark, ChangesetId>) {
    forall name | name in creates :: name !in table
  }

  predicate CanUpdate(table: Table, sets: map<Bookmark, (ChangesetId, ChangesetId)>) {
    forall name | name in sets :: name in table && table[name] == sets[name].0
  }

  predicate CanDelete(table: Table, deletes: map<Bookmark, ChangesetId>) {
    forall name | name in deletes :: name in table && table[name] == deletes[name]
  }

  /** Every bookmark is where the transaction expects it. */
  predicate CanCommit(table: Table, txn: Txn) {
    CanCreate(table, txn.creates) && CanUpdate(table, txn.sets) && CanDelete(table, txn.deletes)
  }

  function Committed(table: Table, txn: Txn): Table {
    map name | name in table.Keys + txn.forceSets.Keys + txn.creates.Keys
               && name !in txn.forceDeletes && name !in txn.deletes ::
      if name in txn.forceSets then txn.forceSets[name]
      else if name in txn.creates then txn.creates[name]
      else if name in txn.sets then txn.sets[name].1
      else table[name]
  }

  /** Runs a transaction, all or nothing: forced sets, inserts, updates one by one, forced deletes, deletes one
      by one. */
  method Commit(table: Table, txn: Txn) returns (ok: bool, after: Table)
    requires TxnOk(txn)
    ensures ok == CanCommit(table, txn)
    ensures after == if ok then Committed(table, txn) else table
  {
    PhasesSeeTable(table, txn);
    var forced := table + txn.forceSets;
    if !CanCreate(forced, txn.creates) {
      return false, table;
    }
    var updatesOk, updated := RunUpdates(forced + txn.creates, txn.sets);
    if !updatesOk {
      return false, table;
    }
    var deletesOk, deleted := RunDeletes(updated - txn.forceDeletes, txn.deletes);
    if !deletesOk {
      return false, table;
    }
    PhasesAddUp(table, txn);
    return true, deleted;
  }

  function Updated(table: Table, sets: map<Bookmark, (ChangesetId, ChangesetId)>): Table {
    map name | name in table :: if name in sets then sets[name].1 else table[name]
  }

  /** No phase of a transaction disturbs what a later phase compares. */
  lemma PhasesSeeTable(table: Table, txn: Txn)
    requires TxnOk(txn)
    ensures var forced := table + txn.forceSets;
            var inserted := forced + txn.creates;
            && (CanCreate(forced, txn.creates) <==> CanCreate(table, txn.creates))
            && (CanUpdate(inserted, txn.sets) <==> CanUpdate(table, txn.sets))
            && (CanDelete(Updated(inserted, txn.sets) - txn.forceDeletes, txn.deletes)
                <==> CanDelete(table, txn.deletes))
  {
  }

  lemma PhasesAddUp(table: Table, txn: Txn)
    requires TxnOk(txn)
    ensures Updated(table + txn.forceSets + txn.creates, txn.sets) - txn.forceDeletes - txn.deletes.Keys
         == Committed(table, txn)
  {
  }

  method RunUpdates(table: Table, sets: map<Bookmark, (ChangesetId, ChangesetId)>) returns (ok: bool, t: Table)
    ensures ok <==> CanUpdate(table, sets)
    ensures ok ==> t == Updated(table, sets)
  {
    t := table;
    var todo := sets.Keys;
    while todo != {}
      invariant todo <= sets.Keys
      invariant forall name | name in sets.Keys - todo :: name in table && table[name] == sets[name].0
      invariant t == map name | name in table :: if name in sets.Keys - todo then sets[name].1 else table[name]
    {
      var name :| name in todo;
      if name !in t || t[name] != sets[name].0 {
        return false, t;
      }
      t := t[name := sets[name].1];
      todo := todo - {name};
    }
    ok := true;
  }

  method RunDeletes(table: Table, deletes: map<Bookmark, ChangesetId>) returns (ok: bool, t: Table)
    ensures ok <==> CanDelete(table, deletes)
    ensures ok ==> t == table - deletes.Keys
  {
    t := table;
    var todo := deletes.Keys;
    while todo != {}
      invariant todo <= deletes.Keys
      invariant forall name | name in deletes.Keys - todo :: name in table && table[name] == deletes[name]
      invariant t == table - (deletes.Keys - todo)
    {
      var name :| name in todo;
      if name !in t || t[name] != deletes[name] {
        return false, t;
      }
      t := t - {name};
      todo := todo - {name};
    }
    assert deletes.Keys - todo == deletes.Keys;
    ok := true;
  }

  // Interleavings of checks and commits.

  /** Pushes that passed the check, and their transaction. */
  datatype Checked = Checked(pushes: seq<Push>, txn: Txn)

  datatype State = State(table: Table, pending: seq<Checked>)

  datatype Step =
    | CheckPushes(pushes: seq<Push>)
    | CommitPending(i: nat)
    | OtherWrite(name: Bookmark, value: Option<ChangesetId>) // any change to a bookmark that is not fast-forward only

  ghost function AddAll(txn: Txn, pushes: seq<Push>): Option<Txn>
    decreases |pushes|
  {
    if pushes == [] then Some(txn)
    else
      var added := AddPush(txn, pushes[0]);
      if added.None? then None else AddAll(added.value, pushes[1..])
  }

  ghost predicate Enabled(g: Parents, ff: set<Bookmark>, s: State, step: Step) {
    match step
    case CheckPushes(pushes) => (forall p | p in pushes :: PushAllowed(g, ff, p)) && AddAll(EMPTY, pushes).Some?
    case CommitPending(i) => i < |s.pending|
    case OtherWrite(name, _) => name !in ff
  }

  ghost function Apply(g: Parents, ff: set<Bookmark>, s: State, step: Step): State
    requires Enabled(g, ff, s, step)
  {
    match step
    case CheckPushes(pushes) => s.(pending := s.pending + [Checked(pushes, AddAll(EMPTY, pushes).value)])
    case CommitPending(i) =>
      var txn := s.pending[i].txn;
      State(if CanCommit(s.table, txn) then Committed(s.table, txn) else s.table,
            s.pending[..i] + s.pending[i + 1..])
    case OtherWrite(name, value) =>
      s.(table := if value.Some? then s.table[name := value.value] else s.table - {name})
  }

  ghost predicate Run(g: Parents, ff: set<Bookmark>, s: State, steps: seq<Step>, s': State)
    decreases |steps|
  {
    if steps == [] then s == s'
    else Enabled(g, ff, s, steps[0]) && Run(g, ff, Apply(g, ff, s, steps[0]), steps[1..], s')
  }

  /** On the fast-forward-only bookmarks the transaction never deletes, and moves only to descendants. */
  ghost predicate Forward(g: Parents, ff: set<Bookmark>, txn: Txn) {
    && TxnOk(txn) && txn.forceSets.Keys !! ff && txn.forceDeletes !! ff && txn.deletes.Keys !! ff
    && (forall name | name in txn.sets && name in ff :: IsAncestor(g, txn.sets[name].0, txn.sets[name].1))
  }

  lemma {:induction false} AllowedIsForward(g: Parents, ff: set<Bookmark>, txn: Txn, pushes: seq<Push>)
    requires Forward(g, ff, txn) && AddAll(txn, pushes).Some?
    requires forall p | p in pushes :: PushAllowed(g, ff, p)
    ensures Forward(g, ff, AddAll(txn, pushes).value)
    decreases |pushes|
  {
    if pushes != [] {
      var p := pushes[0];
      assert PushAllowed(g, ff, p);
      if p.before.Some? && p.before == p.after {
        AncestorOfItself(g, p.before.value);
      }
      AllowedIsForward(g, ff, AddPush(txn, p).value, pushes[1..]);
    }
  }

  ghost predicate Inv(g: Parents, ff: set<Bookmark>, s: State) {
    forall checked | checked in s.pending ::
      && Forward(g, ff, checked.txn)
      && AddAll(EMPTY, checked.pushes) == Some(checked.txn)
      && forall p | p in checked.pushes :: PushAllowed(g, ff, p)
  }

  ghost predicate MovedForward(g: Parents, ff: set<Bookmark>, before: Table, after: Table) {
    forall name | name in ff && name in before :: name in after && IsAncestor(g, before[name], after[name])
  }

  lemma StepMovesForward(g: Parents, ff: set<Bookmark>, s: State, step: Step)
    requires Inv(g, ff, s) && Enabled(g, ff, s, step)
    ensures Inv(g, ff, Apply(g, ff, s, step))
    ensures MovedForward(g, ff, s.table, Apply(g, ff, s, step).table)
  {
    var s' := Apply(g, ff, s, step);
    match step {
      case CheckPushes(pushes) => AllowedIsForward(g, ff, EMPTY, pushes);
      case CommitPending(i) => assert s.pending[i] in s.pending && Forward(g, ff, s.pending[i].txn);
      case OtherWrite(_, _) =>
    }
    forall name | name in ff && name in s.table
      ensures name in s'.table && IsAncestor(g, s.table[name], s'.table[name])
    {
      AncestorOfItself(g, s.table[name]);
    }
  }

  /** In every interleaving of checks and commits, a fast-forward-only bookmark that exists is never deleted
      and every later position descends from every earlier one. */
  lemma {:induction false} FastForwardOnly(g: Parents, ff: set<Bookmark>, s: State, steps: seq<Step>, s': State)
    requires Inv(g, ff, s) && Run(g, ff, s, steps, s')
    ensures Inv(g, ff, s') && MovedForward(g, ff, s.table, s'.table)
    decreases |steps|
  {
    if steps == [] {
      forall name | name in s.table ensures IsAncestor(g, s.table[name], s.table[name]) {
        AncestorOfItself(g, s.table[name]);
      }
    } else {
      var mid := Apply(g, ff, s, steps[0]);
      StepMovesForward(g, ff, s, steps[0]);
      FastForwardOnly(g, ff, mid, steps[1..], s');
      forall name | name in ff && name in s.table
        ensures name in s'.table && IsAncestor(g, s.table[name], s'.table[name])
      {
        AncestorTransitive(g, s.table[name], mid.table[name], s'.table[name]);
      }
    }
  }

  /** The compare-and-set of every push is in the transaction. */
  lemma {:induction false} AddAllKeeps(txn: Txn, pushes: seq<Push>, push: Push)
    requires AddAll(txn, pushes).Some? && push.before.Some? && push.after.Some?
    requires push in pushes || (push.name in txn.sets && txn.sets[push.name] == (push.before.value, push.after.value))
    ensures var r := AddAll(txn, pushes).value;
            push.name in r.sets && r.sets[push.name] == (push.before.value, push.after.value)
    decreases |pushes|
  {
    if pushes != [] {
      AddAllKeeps(AddPush(txn, pushes[0]).value, pushes[1..], push);
    }
  }

  /** If one of the checked pushes would not be a fast-forward from the position its bookmark has by now,
      the transaction cannot be committed. */
  lemma {:induction false} StalePushCannotCommit(g: Parents, ff: set<Bookmark>, pushes: seq<Push>, push: Push,
                                                 table: Table)
    requires AddAll(EMPTY, pushes).Some? && (forall p | p in pushes :: PushAllowed(g, ff, p))
    requires push in pushes && push.name in ff && push.before.Some? && push.after.Some?
    requires push.name in table && !IsAncestor(g, table[push.name], push.after.value)
    ensures !CanCommit(table, AddAll(EMPTY, pushes).value)
  {
    AddAllKeeps(EMPTY, pushes, push);
    AncestorOfItself(g, table[push.name]);
  }
}
