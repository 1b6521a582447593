/** Inserting a batch of commits, parents first. */
module BatchInsert {
  import opened Wrappers
  import opened Changesets
  import opened ChangesetsTable
  import opened TopologicalSort

  type Batch = map<ChangesetId, seq<ChangesetId>>

  /** No commit of the batch descends from itself, the parents outside the batch are stored, and commits
      of the batch that are stored have the same parents. */
  ghost predicate Insertable(g: Graph, batch: Batch) {
    && !Cyclic(batch)
    && (forall cs, p | cs in batch && p in batch[cs] :: p in batch || p in g)
    && (forall cs | cs in batch && cs in g :: g[cs].parents == batch[cs])
  }

  predicate Inserted(g: Graph, batch: Batch, cs: ChangesetId) {
    cs in batch && cs in g && g[cs].parents == batch[cs]
  }

  /** Old rows are unchanged and every new row is one of the batch. */
  ghost predicate Between(before: Graph, batch: Batch, g: Graph) {
    GraphOk(g) && Extends(before, g) && forall cs | cs in g && cs !in before :: Inserted(g, batch, cs)
  }

  /** `order` lists every commit that the batch mentions, each after all its parents. */
  ghost predicate ParentsFirst(batch: Batch, order: seq<ChangesetId>) {
    && (forall cs | cs in batch :: cs in order)
    && forall j, p | 0 <= j < |order| && Edge(batch, order[j], p) :: p in order[..j]
  }

  lemma ReversedIsParentsFirst(batch: Batch, out: seq<ChangesetId>, order: seq<ChangesetId>)
    requires Sorted(batch, out)
    requires |order| == |out| && forall i | 0 <= i < |out| :: order[i] == out[|out| - 1 - i]
    ensures ParentsFirst(batch, order)
  {
    forall v | v in Nodes(batch) ensures v in order {
      assert v in (set x | x in out);
      var i :| 0 <= i < |out| && out[i] == v;
      assert order[|out| - 1 - i] == v;
    }
    forall j, p | 0 <= j < |order| && Edge(batch, order[j], p) ensures p in order[..j] {
      assert p in Nodes(batch);
      assert p in (set x | x in out);
      var i :| 0 <= i < |out| && out[i] == p;
      assert Edge(batch, out[|out| - 1 - j], out[i]);
      assert order[..j][|out| - 1 - i] == p;
    }
  }

  /** An insertion that fails shows that the batch could not be inserted. */
  lemma FailureIsDeserved(before: Graph, batch: Batch, g: Graph, order: seq<ChangesetId>, k: nat)
    requires Between(before, batch, g) && ParentsFirst(batch, order) && k < |order| && order[k] in batch
    requires forall j | 0 <= j < k && order[j] in batch :: Inserted(g, batch, order[j])
    requires AddResult(g, order[k], batch[order[k]]).Err?
    ensures !Insertable(before, batch)
  {
    var cs := order[k];
    if Missing(g, batch[cs]) != {} {
      var p :| p in Missing(g, batch[cs]);
      assert Edge(batch, cs, p);
      assert p in order[..k];
      var j :| 0 <= j < k && order[j] == p;
      assert p !in batch && p !in before;
    }
  }

  lemma AddKeepsBetween(before: Graph, batch: Batch, g: Graph, cs: ChangesetId)
    requires Between(before, batch, g) && cs in batch
    ensures Between(before, batch, Added(g, cs, batch[cs]))
    ensures AddResult(g, cs, batch[cs]).Ok? ==> Inserted(Added(g, cs, batch[cs]), batch, cs)
    ensures forall c | Inserted(g, batch, c) :: Inserted(Added(g, cs, batch[cs]), batch, c)
  {
    AddKeepsGraphOk(g, cs, batch[cs]);
  }

  lemma SuccessIsDeserved(before: Graph, batch: Batch, g: Graph)
    requires Between(before, batch, g) && !Cyclic(batch)
    requires forall cs | cs in batch :: Inserted(g, batch, cs)
    ensures Insertable(before, batch)
  {
    forall cs, p | cs in batch && p in batch[cs] ensures p in batch || p in before {
      assert Inserted(g, batch, cs);
      ParentIsStored(g, p, cs);
    }
    forall cs | cs in batch && cs in before ensures before[cs].parents == batch[cs] {
      assert Inserted(g, batch, cs);
    }
  }

  /** Succeeds exactly when the batch is insertable; then the table is the old one plus the batch. A cycle
      is refused before anything is written. */
  method SaveBonsaiChangesets(table: SqlChangesets, batch: Batch) returns (r: Result<(), Error>)
    requires table.Valid() && GraphOk(table.graph)
    modifies table
    ensures table.Valid() && Between(old(table.graph), batch, table.graph)
    ensures r.Ok? <==> Insertable(old(table.graph), batch)
    ensures r.Ok? ==> forall cs | cs in batch :: Inserted(table.graph, batch, cs)
  {
    var sorted := SortTopological(batch);
    if sorted.None? {
      return Err(LoopInCommitChain);
    }
    var out := sorted.value;
    var order := seq(|out|, i requires 0 <= i < |out| => out[|out| - 1 - i]);
    ReversedIsParentsFirst(batch, out, order);
    r := AddInOrder(table, batch, order);
  }

  method AddInOrder(table: SqlChangesets, batch: Batch, order: seq<ChangesetId>) returns (r: Result<(), Error>)
    requires table.Valid() && GraphOk(table.graph)
    requires ParentsFirst(batch, order) && !Cyclic(batch)
    modifies table
    ensures table.Valid() && Between(old(table.graph), batch, table.graph)
    ensures r.Ok? <==> Insertable(old(table.graph), batch)
    ensures r.Ok? ==> forall cs | cs in batch :: Inserted(table.graph, batch, cs)
  {
    ghost var before := table.graph;
    for k := 0 to |order|
      invariant table.Valid() && Between(before, batch, table.graph)
      invariant forall j | 0 <= j < k && order[j] in batch :: Inserted(table.graph, batch, order[j])
    {
      var cs := order[k];
      if cs in batch {
        AddKeepsBetween(before, batch, table.graph, cs);
        ghost var g := table.graph;
        var added := table.Add(cs, batch[cs]);
        if added.Err? {
          FailureIsDeserved(before, batch, g, order, k);
          return Err(added.error);
        }
      }
    }
    forall cs | cs in batch ensures Inserted(table.graph, batch, cs) {
      var j :| 0 <= j < |order| && order[j] == cs;
    }
    SuccessIsDeserved(before, batch, table.graph);
    r := Ok(());
  }
}
