/** Reading the commit graph back from the rows of a join, in whatever order rows of equal position
    arrive, and from a replica that may lag behind. */
module ChangesetsReads {
  import opened Wrappers
  import opened Changesets
  import T = ChangesetsTable

  /** One row of the join; `pos` is the position among the parents, and both optional columns are null
      for a commit without parents. */
  datatype JoinRow = JoinRow(cs: ChangesetId, gen: nat, parent: Option<ChangesetId>, pos: Option<nat>)

  predicate NoLater(a: Option<nat>, b: Option<nat>) {
    a.None? || (b.Some? && a.value <= b.value)
  }

  function ParentRow(g: Graph, cs: ChangesetId, s: nat): JoinRow
    requires cs in g && s < |g[cs].parents|
  {
    JoinRow(cs, g[cs].gen, Some(g[cs].parents[s]), Some(s))
  }

  predicate IsRow(g: Graph, r: JoinRow) {
    && r.cs in g
    && if g[r.cs].parents == [] then r == JoinRow(r.cs, g[r.cs].gen, None, None)
       else r.pos.Some? && r.pos.value < |g[r.cs].parents| && r == ParentRow(g, r.cs, r.pos.value)
  }

  /** The rows of the requested commits, each once, ordered by position. */
  predicate IsJoin(g: Graph, ids: set<ChangesetId>, fetched: seq<JoinRow>) {
    && (forall r | r in fetched :: r.cs in ids && IsRow(g, r))
    && (forall i, j | 0 <= i < j < |fetched| :: fetched[i] != fetched[j] && NoLater(fetched[i].pos, fetched[j].pos))
    && (forall cs | cs in ids && cs in g ::
          if g[cs].parents == [] then JoinRow(cs, g[cs].gen, None, None) in fetched
          else forall s: nat | s < |g[cs].parents| :: ParentRow(g, cs, s) in fetched)
  }

  function Restrict(g: Graph, ids: set<ChangesetId>): Graph {
    map cs | cs in ids && cs in g :: g[cs]
  }

  /** Of the parents of `cs`, exactly the first `n` have been seen. */
  predicate Seen(g: Graph, done: seq<JoinRow>, cs: ChangesetId, n: nat)
    requires cs in g
  {
    n <= |g[cs].parents| && forall s: nat | s < |g[cs].parents| :: ParentRow(g, cs, s) in done <==> s < n
  }

  /** The next row of a commit carries the next parent: rows of lower position cannot still be to come. */
  lemma NextInOrder(g: Graph, ids: set<ChangesetId>, fetched: seq<JoinRow>, k: nat, n: nat)
    requires IsJoin(g, ids, fetched) && k < |fetched|
    requires IsRow(g, fetched[k]) && fetched[k].cs in ids && g[fetched[k].cs].parents != []
    requires Seen(g, fetched[..k], fetched[k].cs, n)
    ensures fetched[k].pos == Some(n)
    ensures Seen(g, fetched[..k + 1], fetched[k].cs, n + 1)
  {
    var r := fetched[k];
    var cs, s := r.cs, r.pos.value;
    assert r !in fetched[..k];
    assert n <= s;
    var low := ParentRow(g, cs, n);
    assert low in fetched && low !in fetched[..k];
    var j :| 0 <= j < |fetched| && fetched[j] == low;
    assert k <= j by {
      assert forall i | 0 <= i < k :: fetched[i] == fetched[..k][i];
    }
    assert s <= n;
    assert fetched[..k + 1] == fetched[..k] + [r];
  }

  lemma OthersUnaffected(g: Graph, fetched: seq<JoinRow>, k: nat, cs: ChangesetId, n: nat)
    requires k < |fetched| && cs in g && Seen(g, fetched[..k], cs, n)
    requires fetched[k].cs != cs || g[cs].parents == []
    ensures Seen(g, fetched[..k + 1], cs, n)
  {
  }

  /** How far the rows seen so far have filled in one commit. */
  ghost predicate GroupedAt(g: Graph, done: seq<JoinRow>, entries: map<ChangesetId, Entry>, cs: ChangesetId) {
    && (cs in entries <==> exists r :: r in done && r.cs == cs)
    && (cs in entries ==> cs in g && entries[cs].gen == g[cs].gen && entries[cs].parents <= g[cs].parents)
    && (cs in g ==> Seen(g, done, cs, if cs in entries then |entries[cs].parents| else 0))
  }

  ghost predicate Grouped(g: Graph, done: seq<JoinRow>, entries: map<ChangesetId, Entry>) {
    forall cs :: GroupedAt(g, done, entries, cs)
  }

  lemma GroupedAll(g: Graph, ids: set<ChangesetId>, fetched: seq<JoinRow>, entries: map<ChangesetId, Entry>)
    requires IsJoin(g, ids, fetched) && Grouped(g, fetched, entries)
    ensures entries == Restrict(g, ids)
  {
    forall cs | cs in ids && cs in g ensures cs in entries {
      assert GroupedAt(g, fetched, entries, cs);
      if g[cs].parents == [] {
        assert JoinRow(cs, g[cs].gen, None, None) in fetched;
      } else {
        assert ParentRow(g, cs, 0) in fetched;
      }
    }
    forall cs | cs in entries ensures cs in ids && cs in g && entries[cs] == g[cs] {
      assert GroupedAt(g, fetched, entries, cs);
      var r :| r in fetched && r.cs == cs;
      if g[cs].parents != [] {
        assert ParentRow(g, cs, |g[cs].parents| - 1) in fetched;
      }
    }
  }

  function WithParent(entries: map<ChangesetId, Entry>, r: JoinRow): Entry {
    var sofar := if r.cs in entries then entries[r.cs] else Entry([], r.gen);
    Entry(sofar.parents + (if r.parent.Some? then [r.parent.value] else []), sofar.gen)
  }

  lemma GroupRowHere(g: Graph, ids: set<ChangesetId>, fetched: seq<JoinRow>, k: nat, entries: map<ChangesetId, Entry>)
    requires IsJoin(g, ids, fetched) && k < |fetched| && GroupedAt(g, fetched[..k], entries, fetched[k].cs)
    ensures var r := fetched[k]; GroupedAt(g, fetched[..k + 1], entries[r.cs := WithParent(entries, r)], r.cs)
  {
    var r := fetched[k];
    assert r in fetched && fetched[..k + 1][k] == r;
    var n := if r.cs in entries then |entries[r.cs].parents| else 0;
    if g[r.cs].parents != [] {
      NextInOrder(g, ids, fetched, k, n);
      assert g[r.cs].parents[..n + 1] == g[r.cs].parents[..n] + [r.parent.value];
    } else {
      OthersUnaffected(g, fetched, k, r.cs, n);
    }
  }

  lemma GroupRowElsewhere(g: Graph, fetched: seq<JoinRow>, k: nat, entries: map<ChangesetId, Entry>, e: Entry,
                          cs: ChangesetId)
    requires k < |fetched| && fetched[k].cs != cs && GroupedAt(g, fetched[..k], entries, cs)
    ensures GroupedAt(g, fetched[..k + 1], entries[fetched[k].cs := e], cs)
  {
  }

  lemma GroupRow(g: Graph, ids: set<ChangesetId>, fetched: seq<JoinRow>, k: nat, entries: map<ChangesetId, Entry>)
    requires IsJoin(g, ids, fetched) && k < |fetched| && Grouped(g, fetched[..k], entries)
    ensures Grouped(g, fetched[..k + 1], entries[fetched[k].cs := WithParent(entries, fetched[k])])
  {
    var r := fetched[k];
    var e := WithParent(entries, r);
    var done, entries' := fetched[..k + 1], entries[r.cs := e];
    forall cs ensures GroupedAt(g, done, entries', cs) {
      assert GroupedAt(g, fetched[..k], entries, cs);
      if cs == r.cs {
        GroupRowHere(g, ids, fetched, k, entries);
      } else {
        GroupRowElsewhere(g, fetched, k, entries, e, cs);
      }
    }
  }

  // The rows as the tables give them.

  datatype Tables = Tables(rows: map<ChangesetId, T.Row>, csparents: T.CsParents, nextId: nat)

  ghost predicate Represents(t: Tables, g: Graph) {
    T.Represents(t.rows, t.csparents, t.nextId, g)
  }

  /** `parent` has the row that the row of `cs` refers to at position `pos`. */
  predicate Matches(t: Tables, cs: ChangesetId, pos: nat, parent: ChangesetId) {
    && cs in t.rows && parent in t.rows
    && (t.rows[cs].id, pos) in t.csparents && t.csparents[(t.rows[cs].id, pos)] == t.rows[parent].id
  }

  /** A row of the left join: a match, or nulls for a commit without one. */
  ghost predicate IsJoined(t: Tables, r: JoinRow) {
    && r.cs in t.rows && r.gen == t.rows[r.cs].gen
    && match (r.pos, r.parent)
       case (Some(pos), Some(parent)) => Matches(t, r.cs, pos, parent)
       case (None, None) => forall pos: nat, parent :: !Matches(t, r.cs, pos, parent)
       case _ => false
  }

  /** The answer to the query: each row of the left join that belongs to a requested commit once, ordered by
      position. */
  ghost predicate IsLeftJoin(t: Tables, ids: set<ChangesetId>, fetched: seq<JoinRow>) {
    && (forall r :: r in fetched <==> r.cs in ids && IsJoined(t, r))
    && forall i, j | 0 <= i < j < |fetched| :: fetched[i] != fetched[j] && NoLater(fetched[i].pos, fetched[j].pos)
  }

  lemma MatchesIsParent(t: Tables, g: Graph, cs: ChangesetId, pos: nat, parent: ChangesetId)
    requires Represents(t, g) && cs in g
    ensures Matches(t, cs, pos, parent) <==> pos < |g[cs].parents| && g[cs].parents[pos] == parent
  {
  }

  lemma JoinedIsRow(t: Tables, g: Graph, r: JoinRow)
    requires Represents(t, g)
    ensures IsJoined(t, r) <==> IsRow(g, r)
  {
    if r.cs in g {
      forall pos: nat, parent ensures
          Matches(t, r.cs, pos, parent) <==> pos < |g[r.cs].parents| && g[r.cs].parents[pos] == parent {
        MatchesIsParent(t, g, r.cs, pos, parent);
      }
      if g[r.cs].parents != [] {
        assert Matches(t, r.cs, 0, g[r.cs].parents[0]);
      }
    }
  }

  /** The left join of the tables is the join of the graph that they hold. */
  lemma LeftJoinIsJoin(t: Tables, g: Graph, ids: set<ChangesetId>, fetched: seq<JoinRow>)
    requires Represents(t, g) && IsLeftJoin(t, ids, fetched)
    ensures IsJoin(g, ids, fetched)
  {
    forall r ensures r in fetched <==> r.cs in ids && IsRow(g, r) {
      JoinedIsRow(t, g, r);
    }
    forall cs, s: nat | cs in ids && cs in g && s < |g[cs].parents| ensures ParentRow(g, cs, s) in fetched {
      assert IsRow(g, ParentRow(g, cs, s));
    }
  }

  /** Groups the rows by commit: each stored commit comes out once, with its parents in inserted order. */
  method SelectMany(ghost t: Tables, ghost g: Graph, ghost ids: set<ChangesetId>, fetched: seq<JoinRow>)
    returns (entries: Graph)
    requires Represents(t, g) && IsLeftJoin(t, ids, fetched)
    ensures entries == Restrict(g, ids)
  {
    LeftJoinIsJoin(t, g, ids, fetched);
    entries := map[];
    for k := 0 to |fetched|
      invariant Grouped(g, fetched[..k], entries)
    {
      var r := fetched[k];
      GroupRow(g, ids, fetched, k, entries);
      entries := entries[r.cs := WithParent(entries, r)];
    }
    assert fetched[..|fetched|] == fetched;
    GroupedAll(g, ids, fetched, entries);
  }

  /** Asks the replica first and the master for what the replica did not have. The replica holds an
      earlier state of the table; the answer is the master's. */
  method GetMany(ghost lagging: Tables, ghost replica: Graph, ghost current: Tables, ghost master: Graph,
                 ids: set<ChangesetId>, fetched: seq<JoinRow>, fetchedFromMaster: seq<JoinRow>)
    returns (entries: Graph)
    requires Represents(lagging, replica) && Represents(current, master) && Extends(replica, master)
    requires IsLeftJoin(lagging, ids, fetched) && IsLeftJoin(current, ids - replica.Keys, fetchedFromMaster)
    ensures entries == Restrict(master, ids)
  {
    entries := SelectMany(lagging, replica, ids, fetched);
    var notFetched := ids - entries.Keys;
    assert notFetched == ids - replica.Keys;
    if notFetched != {} {
      var rest := SelectMany(current, master, ids - replica.Keys, fetchedFromMaster);
      entries := rest + entries;
    }
    TogetherIsMaster(replica, master, ids);
  }

  lemma TogetherIsMaster(replica: Graph, master: Graph, ids: set<ChangesetId>)
    requires Extends(replica, master)
    ensures Restrict(master, ids - replica.Keys) + Restrict(replica, ids) == Restrict(master, ids)
    ensures ids <= replica.Keys ==> Restrict(replica, ids) == Restrict(master, ids)
  {
  }
}
