/** What a push does to the bookmarks, told by the pushes and the table alone. */
module BookmarkPushes {
  import opened Wrappers
  import opened Changesets
  import opened Bookmarks

  function At(table: Table, name: Bookmark): Option<ChangesetId> {
    if name in table then Some(table[name]) else None
  }

  /** The push does something: it does not say that an absent bookmark stays absent. */
  predicate Works(push: Push) {
    push.before.Some? || push.after.Some?
  }

  /** The push creates, moves to a descendant or stays, deletes a bookmark that is not fast-forward only, or moves
      such a bookmark elsewhere with leave to do so. */
  ghost predicate Harmless(g: Parents, ff: set<Bookmark>, push: Push) {
    || push.before.None?
    || (push.after.Some? && IsAncestor(g, push.before.value, push.after.value))
    || (push.after.None? && push.name !in ff)
    || (push.after.Some? && push.name !in ff && push.allowNonFastForward)
  }

  /** The check passes exactly the harmless pushes. */
  lemma AllowedExactly(g: Parents, ff: set<Bookmark>, push: Push)
    ensures PushAllowed(g, ff, push) <==> Harmless(g, ff, push)
  {
    if push.before.Some? && push.after == push.before {
      AncestorOfItself(g, push.before.value);
    }
  }

  // The transaction of some pushes.

  /** What a transaction demands of a bookmark and what it makes of it. */
  function Demand(txn: Txn, name: Bookmark): Option<(Option<ChangesetId>, Option<ChangesetId>)> {
    if name in txn.creates then Some((None, Some(txn.creates[name])))
    else if name in txn.sets then Some((Some(txn.sets[name].0), Some(txn.sets[name].1)))
    else if name in txn.deletes then Some((Some(txn.deletes[name]), None))
    else None
  }

  predicate Plain(txn: Txn) {
    TxnOk(txn) && txn.forceSets == map[] && txn.forceDeletes == {}
  }

  lemma AddPushDemands(txn: Txn, push: Push)
    requires Plain(txn)
    ensures AddPush(txn, push).Some? <==> (Works(push) ==> Demand(txn, push.name).None?)
    ensures AddPush(txn, push).Some? ==>
      var txn' := AddPush(txn, push).value;
      && Plain(txn')
      && (Works(push) ==> Demand(txn', push.name) == Some((push.before, push.after)))
      && (!Works(push) ==> txn' == txn)
      && forall name | name != push.name :: Demand(txn', name) == Demand(txn, name)
  {
  }

  /** No two pushes that do something have the same bookmark. */
  predicate OncePerBookmark(pushes: seq<Push>) {
    forall i, j | 0 <= i < j < |pushes| && Works(pushes[i]) && Works(pushes[j]) :: pushes[i].name != pushes[j].name
  }

  predicate Unused(txn: Txn, pushes: seq<Push>) {
    forall p | p in pushes && Works(p) :: Demand(txn, p.name).None?
  }

  lemma OnceRest(pushes: seq<Push>)
    requires pushes != []
    ensures OncePerBookmark(pushes) <==>
      OncePerBookmark(pushes[1..]) &&
      (Works(pushes[0]) ==> forall p | p in pushes[1..] && Works(p) :: p.name != pushes[0].name)
  {
    if OncePerBookmark(pushes) {
      forall p | p in pushes[1..] && Works(p) && Works(pushes[0]) ensures p.name != pushes[0].name {
        var j :| 0 < j < |pushes| && pushes[j] == p;
      }
    }
    if OncePerBookmark(pushes[1..]) &&
       (Works(pushes[0]) ==> forall p | p in pushes[1..] && Works(p) :: p.name != pushes[0].name) {
      forall i, j | 0 <= i < j < |pushes| && Works(pushes[i]) && Works(pushes[j])
        ensures pushes[i].name != pushes[j].name
      {
        assert pushes[j] == pushes[1..][j - 1];
        if i > 0 {
          assert pushes[i] == pushes[1..][i - 1];
        }
      }
    }
  }

  /** Pushes can share a transaction exactly if no two use the same bookmark. */
  lemma {:induction false} AddsExactly(txn: Txn, pushes: seq<Push>)
    requires Plain(txn)
    ensures AddAll(txn, pushes).Some? <==> OncePerBookmark(pushes) && Unused(txn, pushes)
    decreases |pushes|
  {
    if pushes != [] {
      var push, rest := pushes[0], pushes[1..];
      AddPushDemands(txn, push);
      OnceRest(pushes);
      assert forall p | p in pushes :: p == push || p in rest;
      if AddPush(txn, push).Some? {
        var txn' := AddPush(txn, push).value;
        AddsExactly(txn', rest);
        assert Works(push) ==> (Unused(txn', rest) <==>
          Unused(txn, rest) && forall p | p in rest && Works(p) :: p.name != push.name);
      }
    }
  }

  ghost predicate IsPushed(pushes: seq<Push>, name: Bookmark) {
    exists p :: p in pushes && Works(p) && p.name == name
  }

  /** The transaction demands of each bookmark what its push says, and nothing of the others. */
  lemma {:induction false} AddsDemands(txn: Txn, pushes: seq<Push>)
    requires Plain(txn) && AddAll(txn, pushes).Some?
    ensures var txn' := AddAll(txn, pushes).value;
            && Plain(txn')
            && (forall p | p in pushes && Works(p) :: Demand(txn', p.name) == Some((p.before, p.after)))
            && (forall name | !IsPushed(pushes, name) :: Demand(txn', name) == Demand(txn, name))
    decreases |pushes|
  {
    if pushes != [] {
      var push, rest := pushes[0], pushes[1..];
      AddPushDemands(txn, push);
      AddsDemands(AddPush(txn, push).value, rest);
      AddsExactly(txn, pushes);
      OnceRest(pushes);
      assert forall p | p in pushes :: p == push || p in rest;
      assert forall p | p in rest :: p in pushes;
    }
  }

  // Committing.

  /** Every bookmark is where its push says. */
  predicate AllAsSaid(table: Table, pushes: seq<Push>) {
    forall p | p in pushes && Works(p) :: At(table, p.name) == p.before
  }

  /** Every bookmark is where its push takes it, and no other has moved. */
  ghost predicate AllMoved(table: Table, pushes: seq<Push>, table': Table) {
    && (forall p | p in pushes && Works(p) :: At(table', p.name) == p.after)
    && (forall name | !IsPushed(pushes, name) :: At(table', name) == At(table, name))
  }

  lemma CommitMeetsDemands(table: Table, txn: Txn)
    requires Plain(txn)
    ensures CanCommit(table, txn) <==>
      forall name | Demand(txn, name).Some? :: At(table, name) == Demand(txn, name).value.0
  {
    if forall name | Demand(txn, name).Some? :: At(table, name) == Demand(txn, name).value.0 {
      forall name | name in txn.creates ensures name !in table {
        assert Demand(txn, name).Some?;
      }
      forall name | name in txn.sets ensures name in table && table[name] == txn.sets[name].0 {
        assert Demand(txn, name).Some?;
      }
      forall name | name in txn.deletes ensures name in table && table[name] == txn.deletes[name] {
        assert Demand(txn, name).Some?;
      }
    }
  }

  lemma CommittedAt(table: Table, txn: Txn, name: Bookmark)
    requires Plain(txn) && CanCommit(table, txn)
    ensures At(Committed(table, txn), name) ==
      if Demand(txn, name).Some? then Demand(txn, name).value.1 else At(table, name)
  {
  }

  /** The transaction of some pushes commits exactly if every bookmark is where its push says, and then takes every
      bookmark where its push says and moves no other. */
  lemma {:induction false} CommitsExactly(table: Table, pushes: seq<Push>)
    requires AddAll(EMPTY, pushes).Some?
    ensures CanCommit(table, AddAll(EMPTY, pushes).value) <==> AllAsSaid(table, pushes)
    ensures AllAsSaid(table, pushes) ==> AllMoved(table, pushes, Committed(table, AddAll(EMPTY, pushes).value))
  {
    var txn := AddAll(EMPTY, pushes).value;
    AddsDemands(EMPTY, pushes);
    CommitMeetsDemands(table, txn);
    forall name | Demand(txn, name).Some? ensures IsPushed(pushes, name) {
      assert Demand(EMPTY, name).None?;
    }
    forall name | CanCommit(table, txn)
      ensures At(Committed(table, txn), name) ==
        if Demand(txn, name).Some? then Demand(txn, name).value.1 else At(table, name)
    {
      CommittedAt(table, txn, name);
    }
  }

  // Whole runs.

  lemma {:induction false} RunKeepsInv(g: Parents, ff: set<Bookmark>, s: State, steps: seq<Step>, s': State)
    requires Inv(g, ff, s) && Run(g, ff, s, steps, s')
    ensures Inv(g, ff, s')
    decreases |steps|
  {
    if steps != [] {
      StepMovesForward(g, ff, s, steps[0]);
      RunKeepsInv(g, ff, Apply(g, ff, s, steps[0]), steps[1..], s');
    }
  }

  /** In every run a commit moves each bookmark as its push says or, if one is not where its push says, moves none.
      A push without leave moves its bookmark only to a descendant of where it is, whatever the bookmark; a
      fast-forward-only bookmark moves only to a descendant and is not deleted, whatever the leave. */
  lemma {:induction false} CommitMovesForward(g: Parents, ff: set<Bookmark>, table: Table, steps: seq<Step>, s: State,
                                              i: nat)
    requires Run(g, ff, State(table, []), steps, s) && i < |s.pending|
    ensures var pushes, s' := s.pending[i].pushes, Apply(g, ff, s, CommitPending(i));
            && s'.pending == s.pending[..i] + s.pending[i + 1..]
            && (AllAsSaid(s.table, pushes) ==> AllMoved(s.table, pushes, s'.table))
            && (!AllAsSaid(s.table, pushes) ==> s'.table == s.table)
            && forall p | p in pushes && Works(p) && p.name in s.table && (p.name in ff || !p.allowNonFastForward) ::
                 && (p.name in s'.table ==> IsAncestor(g, s.table[p.name], s'.table[p.name]))
                 && (p.name !in s'.table ==> p.name !in ff)
  {
    RunKeepsInv(g, ff, State(table, []), steps, s);
    var pushes, s' := s.pending[i].pushes, Apply(g, ff, s, CommitPending(i));
    assert s.pending[i] in s.pending;
    CommitsExactly(s.table, pushes);
    forall p | p in pushes && Works(p) && p.name in s.table && (p.name in ff || !p.allowNonFastForward)
      ensures p.name in s'.table ==> IsAncestor(g, s.table[p.name], s'.table[p.name])
      ensures p.name !in s'.table ==> p.name !in ff
    {
      AllowedExactly(g, ff, p);
      AncestorOfItself(g, s.table[p.name]);
    }
  }

  /** Harmless pushes of different bookmarks pass the check in every state; committed at once, they move every
      bookmark if each is where its push says. */
  lemma HarmlessPushesGoThrough(g: Parents, ff: set<Bookmark>, s: State, pushes: seq<Push>)
    requires OncePerBookmark(pushes) && forall p | p in pushes :: Harmless(g, ff, p)
    ensures Enabled(g, ff, s, CheckPushes(pushes))
    ensures var s1 := Apply(g, ff, s, CheckPushes(pushes));
            && s1.table == s.table && Enabled(g, ff, s1, CommitPending(|s.pending|))
            && var s2 := Apply(g, ff, s1, CommitPending(|s.pending|));
               s2.pending == s.pending &&
               if AllAsSaid(s.table, pushes) then AllMoved(s.table, pushes, s2.table) else s2.table == s.table
  {
    forall p | p in pushes ensures PushAllowed(g, ff, p) {
      AllowedExactly(g, ff, p);
    }
    AddsExactly(EMPTY, pushes);
    assert Unused(EMPTY, pushes);
    CommitsExactly(s.table, pushes);
  }
}
