/** The two tables behind the commit graph, the insertion that writes them and the queries that read
    them back. */
module ChangesetsTable {
  import opened Wrappers
  import opened Changesets

  datatype Row = Row(id: nat, gen: nat)

  datatype ParentRow = ParentRow(id: nat, cs: ChangesetId, gen: nat)

  /** Keys are a row id and a position in the list of parents; values are row ids of parents. */
  type CsParents = map<(nat, nat), nat>

  /** The tables hold `g`: row ids are unique, and the parents of a commit are its positions in order. */
  ghost predicate Represents(rows: map<ChangesetId, Row>, csparents: CsParents, nextId: nat, g: Graph) {
    && rows.Keys == g.Keys
    && (forall cs | cs in rows :: rows[cs].gen == g[cs].gen && rows[cs].id < nextId)
    && (forall a, b | a in rows && b in rows && rows[a].id == rows[b].id :: a == b)
    && (forall k | k in csparents :: k.0 < nextId)
    && (forall cs | cs in rows :: HoldsParents(rows, csparents, rows[cs].id, g[cs].parents))
  }

  ghost predicate HoldsParents(rows: map<ChangesetId, Row>, csparents: CsParents, id: nat, parents: seq<ChangesetId>) {
    && (forall s: nat :: (id, s) in csparents <==> s < |parents|)
    && (forall s: nat | s < |parents| :: parents[s] in rows && csparents[(id, s)] == rows[parents[s]].id)
  }

  /** The rows of exactly those commits of `ids` that are stored. */
  ghost predicate Selected(rows: map<ChangesetId, Row>, ids: seq<ChangesetId>, found: seq<ParentRow>) {
    && (forall r | r in found :: r.cs in ids && r.cs in rows && Row(r.id, r.gen) == rows[r.cs])
    && (forall cs | cs in ids && cs in rows :: ParentRow(rows[cs].id, cs, rows[cs].gen) in found)
  }

  class SqlChangesets {
    var rows: map<ChangesetId, Row>
    var csparents: CsParents
    var nextId: nat
    ghost var graph: Graph

    ghost predicate Valid()
      reads this
    {
      Represents(rows, csparents, nextId, graph)
    }

    constructor ()
      ensures Valid() && graph == map[]
    {
      rows, csparents, nextId, graph := map[], map[], 0, map[];
    }

    /** The rows of the given commits, in no particular order. */
    method SelectChangesets(ids: seq<ChangesetId>) returns (found: seq<ParentRow>)
      ensures Selected(rows, ids, found)
    {
      found := [];
      var todo := set cs | cs in ids && cs in rows;
      ghost var all := todo;
      while todo != {}
        invariant todo <= all
        invariant forall r | r in found :: r.cs in all && Row(r.id, r.gen) == rows[r.cs]
        invariant forall cs | cs in all - todo :: ParentRow(rows[cs].id, cs, rows[cs].gen) in found
      {
        var cs :| cs in todo;
        found := found + [ParentRow(rows[cs].id, cs, rows[cs].gen)];
        todo := todo - {cs};
      }
    }

    /** The parents of a stored commit: the join of the two tables, ordered by position. */
    method SelectParents(cs: ChangesetId) returns (parents: seq<ChangesetId>)
      requires Valid() && cs in rows
      ensures parents == graph[cs].parents
    {
      parents := [];
      var id := rows[cs].id;
      assert HoldsParents(rows, csparents, id, graph[cs].parents);
      while (id, |parents|) in csparents
        invariant parents <= graph[cs].parents
        decreases |graph[cs].parents| - |parents|
      {
        ghost var p := graph[cs].parents[|parents|];
        assert p in rows && rows[p].id == csparents[(id, |parents|)];
        var parent :| parent in rows && rows[parent].id == csparents[(id, |parents|)];
        parents := parents + [parent];
      }
    }

    /** The parent rows, the parents that have none, and the largest generation among them. */
    method FindParents(parents: seq<ChangesetId>) returns (found: seq<ParentRow>, missing: set<ChangesetId>, gen: nat)
      requires Valid()
      ensures Selected(rows, parents, found)
      ensures missing == Missing(graph, parents)
      ensures missing == {} ==> gen == MaxGen(graph, parents)
    {
      found := SelectChangesets(parents);
      gen := 0;
      missing := MissingRows(parents, found);
      MissingRowsAreMissing(rows, graph, parents, found);
      if missing == {} {
        gen := LargestGen(rows, graph, parents, found);
      }
    }

    /** A commit that is stored already must have the same parents. */
    method CheckMatches(cs: ChangesetId, parents: seq<ChangesetId>) returns (r: Result<bool, Error>)
      requires Valid() && cs in rows
      ensures cs in graph
      ensures r == if graph[cs].parents == parents then Ok(false)
                   else Err(DuplicateInsertionInconsistency(cs, graph[cs].parents, parents))
    {
      var stored := SelectParents(cs);
      r := if stored == parents then Ok(false) else Err(DuplicateInsertionInconsistency(cs, stored, parents));
    }

    /** The transaction that writes a new row and the positions of its parents. */
    method InsertRow(cs: ChangesetId, parents: seq<ChangesetId>, gen: nat, parentRows: seq<ParentRow>)
      requires Valid() && cs !in rows
      requires Selected(rows, parents, parentRows) && forall p | p in parents :: p in rows
      modifies this
      ensures Valid() && graph == old(graph)[cs := Entry(parents, gen)]
    {
      var inserts := ParentInserts(rows, nextId, parents, parentRows);
      InsertRepresents(rows, csparents, nextId, graph, cs, parents, gen, inserts);
      rows := rows[cs := Row(nextId, gen)];
      csparents := csparents + inserts;
      nextId := nextId + 1;
      graph := graph[cs := Entry(parents, gen)];
    }

    /** Inserts a commit below parents that must be stored already. */
    method Add(cs: ChangesetId, parents: seq<ChangesetId>) returns (r: Result<bool, Error>)
      requires Valid()
      modifies this
      ensures Valid()
      ensures graph == Added(old(graph), cs, parents)
      ensures r == AddResult(old(graph), cs, parents)
    {
      var parentRows, missing, gen := FindParents(parents);
      if missing != {} {
        return Err(MissingParents(missing));
      }
      if cs in rows {
        r := CheckMatches(cs, parents);
      } else {
        NoneMissing(rows, graph, parents);
        InsertRow(cs, parents, gen + 1, parentRows);
        r := Ok(true);
      }
    }
  }

  function MissingRows(expected: seq<ChangesetId>, actual: seq<ParentRow>): set<ChangesetId> {
    (set cs | cs in expected) - (set r | r in actual :: r.cs)
  }

  lemma MissingRowsAreMissing(rows: map<ChangesetId, Row>, g: Graph, parents: seq<ChangesetId>, found: seq<ParentRow>)
    requires rows.Keys == g.Keys && Selected(rows, parents, found)
    ensures MissingRows(parents, found) == Missing(g, parents)
  {
  }

  lemma NoneMissing(rows: map<ChangesetId, Row>, g: Graph, parents: seq<ChangesetId>)
    requires rows.Keys == g.Keys && Missing(g, parents) == {}
    ensures forall p | p in parents :: p in rows
  {
    assert forall p | p in parents :: p in g || p in Missing(g, parents);
  }

  /** The largest generation among the parent rows, or zero. */
  method LargestGen(ghost rows: map<ChangesetId, Row>, ghost g: Graph, ghost parents: seq<ChangesetId>,
                    found: seq<ParentRow>)
    returns (gen: nat)
    requires rows.Keys == g.Keys && forall cs | cs in rows :: rows[cs].gen == g[cs].gen
    requires Selected(rows, parents, found) && Missing(g, parents) == {}
    ensures gen == MaxGen(g, parents)
  {
    gen := 0;
    for i := 0 to |found|
      invariant forall k | 0 <= k < i :: found[k].gen <= gen
      invariant gen <= MaxGen(g, parents)
    {
      assert found[i] in found;
      MaxGenBounds(g, parents, found[i].cs);
      if gen < found[i].gen {
        gen := found[i].gen;
      }
    }
    if parents != [] {
      ghost var p := MaxGenAttained(g, parents);
      assert ParentRow(rows[p].id, p, rows[p].gen) in found;
    }
  }

  /** The positions of the parents, looked up by commit so that the order of the rows does not matter. */
  method ParentInserts(ghost rows: map<ChangesetId, Row>, newId: nat, parents: seq<ChangesetId>, found: seq<ParentRow>)
    returns (inserts: CsParents)
    requires Selected(rows, parents, found) && forall p | p in parents :: p in rows
    ensures Positions(rows, newId, parents, inserts)
  {
    var parentMap := map r | r in found :: r.cs := r.id;
    forall p | p in parents ensures p in parentMap && parentMap[p] == rows[p].id {
      assert ParentRow(rows[p].id, p, rows[p].gen) in found;
    }
    inserts := map[];
    for s := 0 to |parents|
      invariant Positions(rows, newId, parents[..s], inserts)
    {
      inserts := inserts[(newId, s) := parentMap[parents[s]]];
    }
    assert parents[..|parents|] == parents;
  }

  /** `inserts` holds the parents under `id` and nothing else. */
  ghost predicate Positions(rows: map<ChangesetId, Row>, id: nat, parents: seq<ChangesetId>, inserts: CsParents) {
    HoldsParents(rows, inserts, id, parents) && forall k | k in inserts :: k.0 == id
  }

  lemma InsertRepresents(rows: map<ChangesetId, Row>, csparents: CsParents, nextId: nat, g: Graph,
                         cs: ChangesetId, parents: seq<ChangesetId>, gen: nat, inserts: CsParents)
    requires Represents(rows, csparents, nextId, g) && cs !in rows
    requires Positions(rows, nextId, parents, inserts)
    ensures Represents(rows[cs := Row(nextId, gen)], csparents + inserts, nextId + 1, g[cs := Entry(parents, gen)])
  {
  }
}
