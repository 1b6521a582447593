/** The commit graph as the changesets table stores it, with generation numbers. */
module Changesets {
  import opened Wrappers

  datatype ChangesetId = ChangesetId(hash: nat)

  /** The parents of every commit, without generations. */
  type Parents = map<ChangesetId, seq<ChangesetId>>

  datatype Entry = Entry(parents: seq<ChangesetId>, gen: nat)

  /** The graph of one repository: every query of the source filters on the repository id. */
  type Graph = map<ChangesetId, Entry>

  datatype Error =
    | MissingParents(missing: set<ChangesetId>)
    | DuplicateInsertionInconsistency(cs: ChangesetId, stored: seq<ChangesetId>, given: seq<ChangesetId>)
    | LoopInCommitChain

  // What one insertion does to the graph.

  function MaxGen(g: Graph, parents: seq<ChangesetId>): nat {
    if parents == [] then 0
    else
      var rest := MaxGen(g, parents[1..]);
      if parents[0] in g && rest < g[parents[0]].gen then g[parents[0]].gen else rest
  }

  function Missing(g: Graph, parents: seq<ChangesetId>): set<ChangesetId> {
    set p | p in parents && p !in g
  }

  function AddResult(g: Graph, cs: ChangesetId, parents: seq<ChangesetId>): Result<bool, Error> {
    if Missing(g, parents) != {} then Err(MissingParents(Missing(g, parents)))
    else if cs !in g then Ok(true)
    else if g[cs].parents == parents then Ok(false)
    else Err(DuplicateInsertionInconsistency(cs, g[cs].parents, parents))
  }

  function Added(g: Graph, cs: ChangesetId, parents: seq<ChangesetId>): Graph {
    if AddResult(g, cs, parents) == Ok(true) then g[cs := Entry(parents, MaxGen(g, parents) + 1)] else g
  }

  // What every sequence of insertions keeps.

  predicate IsParent(g: Graph, p: ChangesetId, cs: ChangesetId) {
    cs in g && p in g[cs].parents
  }

  /** Closed under parents, with every generation one above the largest parent generation. */
  predicate GraphOk(g: Graph) {
    forall cs | cs in g :: Missing(g, g[cs].parents) == {} && g[cs].gen == MaxGen(g, g[cs].parents) + 1
  }

  lemma {:induction false} MaxGenBounds(g: Graph, parents: seq<ChangesetId>, p: ChangesetId)
    requires p in parents && p in g
    ensures g[p].gen <= MaxGen(g, parents)
    decreases |parents|
  {
    if p != parents[0] {
      MaxGenBounds(g, parents[1..], p);
    }
  }

  lemma MaxGenAttained(g: Graph, parents: seq<ChangesetId>) returns (p: ChangesetId)
    requires parents != [] && Missing(g, parents) == {}
    ensures p in parents && p in g && g[p].gen == MaxGen(g, parents)
  {
    assert forall x | x in parents :: x !in g ==> x in Missing(g, parents);
    p := parents[0];
    if |parents| > 1 && MaxGen(g, parents) != g[p].gen {
      assert Missing(g, parents[1..]) == {};
      p := MaxGenAttained(g, parents[1..]);
    } else {
      assert |parents| == 1 ==> parents[1..] == [];
    }
  }

  lemma {:induction false} MaxGenFrame(g: Graph, h: Graph, parents: seq<ChangesetId>)
    requires forall p | p in parents :: p in g && p in h && g[p] == h[p]
    ensures MaxGen(g, parents) == MaxGen(h, parents)
    decreases |parents|
  {
    if parents != [] {
      MaxGenFrame(g, h, parents[1..]);
    }
  }

  lemma {:induction false} AddKeepsGraphOk(g: Graph, cs: ChangesetId, parents: seq<ChangesetId>)
    requires GraphOk(g)
    ensures GraphOk(Added(g, cs, parents))
  {
    var h := Added(g, cs, parents);
    if AddResult(g, cs, parents) == Ok(true) {
      forall x | x in h ensures Missing(h, h[x].parents) == {} && h[x].gen == MaxGen(h, h[x].parents) + 1 {
        var ps := h[x].parents;
        assert Missing(g, ps) == {};
        forall p | p in ps ensures p in g && p in h && g[p] == h[p] {
          assert p !in g ==> p in Missing(g, ps);
        }
        MaxGenFrame(g, h, ps);
      }
    }
  }

  datatype Insert = Insert(cs: ChangesetId, parents: seq<ChangesetId>)

  function RunAdds(g: Graph, adds: seq<Insert>): Graph
    decreases |adds|
  {
    if adds == [] then g else RunAdds(Added(g, adds[0].cs, adds[0].parents), adds[1..])
  }

  lemma {:induction false} RunsKeepGraphOk(g: Graph, adds: seq<Insert>)
    requires GraphOk(g)
    ensures GraphOk(RunAdds(g, adds))
    decreases |adds|
  {
    if adds != [] {
      AddKeepsGraphOk(g, adds[0].cs, adds[0].parents);
      RunsKeepGraphOk(Added(g, adds[0].cs, adds[0].parents), adds[1..]);
    }
  }

  /** A chain of commits, each followed by one of its parents. */
  predicate Chain(g: Graph, s: seq<ChangesetId>) {
    && s != []
    && s[0] in g
    && forall i | 0 < i < |s| :: IsParent(g, s[i], s[i - 1])
  }

  lemma {:induction false} ChainsAreShort(g: Graph, s: seq<ChangesetId>)
    requires GraphOk(g) && Chain(g, s)
    ensures |s| <= g[s[0]].gen
    decreases |s|
  {
    if |s| > 1 {
      var rest := s[1..];
      ParentIsStored(g, s[1], s[0]);
      assert forall i | 0 < i < |rest| :: rest[i] == s[i + 1] && rest[i - 1] == s[i];
      ChainsAreShort(g, rest);
      MaxGenBounds(g, g[s[0]].parents, s[1]);
    }
  }

  lemma ParentIsStored(g: Graph, p: ChangesetId, cs: ChangesetId)
    requires GraphOk(g) && IsParent(g, p, cs)
    ensures p in g && g[p].gen < g[cs].gen
  {
    var parents := g[cs].parents;
    assert p in Missing(g, parents) || p in g;
    MaxGenBounds(g, parents, p);
  }

  lemma {:induction false} LongestChain(g: Graph, cs: ChangesetId) returns (s: seq<ChangesetId>)
    requires GraphOk(g) && cs in g
    ensures Chain(g, s) && s[0] == cs && |s| == g[cs].gen
    decreases g[cs].gen
  {
    if g[cs].parents == [] {
      s := [cs];
    } else {
      var p := MaxGenAttained(g, g[cs].parents);
      var rest := LongestChain(g, p);
      s := [cs] + rest;
      forall i | 0 < i < |s| ensures IsParent(g, s[i], s[i - 1]) {
        if i > 1 {
          assert s[i] == rest[i - 1] && s[i - 1] == rest[i - 2];
        }
      }
    }
  }

  /** After any insertions into an empty table: the generation of a commit is the number of commits on
      its longest chain of ancestors, and no commit is its own ancestor. */
  lemma {:induction false} GenerationIsLongestChain(adds: seq<Insert>, cs: ChangesetId)
    requires cs in RunAdds(map[], adds)
    ensures var g := RunAdds(map[], adds);
            && (exists s :: Chain(g, s) && s[0] == cs && |s| == g[cs].gen)
            && (forall s | Chain(g, s) && s[0] == cs :: |s| <= g[cs].gen)
            && (forall s | Chain(g, s) && s[0] == cs && |s| > 1 :: s[|s| - 1] != cs)
  {
    var g := RunAdds(map[], adds);
    RunsKeepGraphOk(map[], adds);
    var s := LongestChain(g, cs);
    forall s | Chain(g, s) && s[0] == cs ensures |s| <= g[cs].gen && (|s| > 1 ==> s[|s| - 1] != cs) {
      ChainsAreShort(g, s);
      if |s| > 1 {
        ChainDescends(g, s);
      }
    }
  }

  lemma {:induction false} ChainDescends(g: Graph, s: seq<ChangesetId>)
    requires GraphOk(g) && Chain(g, s) && |s| > 1
    ensures s[|s| - 1] in g && g[s[|s| - 1]].gen < g[s[0]].gen
    decreases |s|
  {
    ParentIsStored(g, s[1], s[0]);
    if |s| > 2 {
      var rest := s[1..];
      assert forall i | 0 < i < |rest| :: rest[i] == s[i + 1] && rest[i - 1] == s[i];
      ChainDescends(g, rest);
    }
  }

  /** Rows are never changed or removed. */
  predicate Extends(g: Graph, h: Graph) {
    g.Keys <= h.Keys && forall cs | cs in g :: h[cs] == g[cs]
  }

  lemma {:induction false} RunsExtend(g: Graph, adds: seq<Insert>)
    ensures Extends(g, RunAdds(g, adds))
    decreases |adds|
  {
    if adds != [] {
      RunsExtend(Added(g, adds[0].cs, adds[0].parents), adds[1..]);
    }
  }
}
