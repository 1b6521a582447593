/** The public commits on which a set of draft commits is based. */
module PublicRoots {
  import opened Changesets

  /** The commit graph, the public commits and the drafts to start from. */
  datatype Query = Query(parents: Parents, public: set<ChangesetId>, starts: set<ChangesetId>)

  predicate Valid(q: Query) {
    && q.starts <= q.parents.Keys
    && forall cs, p | cs in q.parents && p in q.parents[cs] :: p in q.parents
  }

  predicate DraftStep(q: Query, cs: ChangesetId, p: ChangesetId) {
    cs in q.parents && p in q.parents[cs] && p !in q.public
  }

  /** `cs` is the last of at most `n` commits, from a start on, each followed by one of its draft parents. */
  ghost predicate ReachedWithin(q: Query, n: nat, cs: ChangesetId) {
    n > 0 && (cs in q.starts || exists d :: DraftStep(q, d, cs) && ReachedWithin(q, n - 1, d))
  }

  ghost predicate Reached(q: Query, cs: ChangesetId) {
    exists n :: ReachedWithin(q, n, cs)
  }

  /** A public parent of a draft that the starts reach through drafts only. */
  ghost predicate IsRoot(q: Query, cs: ChangesetId) {
    cs in q.public && exists d :: d in q.parents && cs in q.parents[d] && Reached(q, d)
  }

  /** A root whose draft is at most the `n`-th commit of a walk. */
  ghost predicate IsRootWithin(q: Query, n: nat, cs: ChangesetId) {
    cs in q.public && exists d :: d in q.parents && cs in q.parents[d] && ReachedWithin(q, n, d)
  }

  function ParentsOf(q: Query, drafts: set<ChangesetId>): set<ChangesetId> {
    set d, p | d in drafts && d in q.parents && p in q.parents[d] :: p
  }

  /** A set that holds the starts and the draft parents of its members holds everything reached. */
  lemma {:induction false} ReachedIsInside(q: Query, done: set<ChangesetId>, n: nat, cs: ChangesetId)
    requires q.starts <= done && ParentsOf(q, done) - q.public <= done && ReachedWithin(q, n, cs)
    ensures cs in done
    decreases n
  {
    if cs !in q.starts {
      var d :| DraftStep(q, d, cs) && ReachedWithin(q, n - 1, d);
      ReachedIsInside(q, done, n - 1, d);
      assert cs in ParentsOf(q, done);
    }
  }

  lemma {:induction false} ReachedLater(q: Query, n: nat, cs: ChangesetId)
    requires ReachedWithin(q, n, cs)
    ensures ReachedWithin(q, n + 1, cs)
  {
    if cs !in q.starts {
      var d :| DraftStep(q, d, cs) && ReachedWithin(q, n - 1, d);
      ReachedLater(q, n - 1, d);
    }
  }

  datatype Progress = Progress(drafts: set<ChangesetId>, found: set<ChangesetId>, visited: set<ChangesetId>)

  ghost predicate IsReachedWithin(q: Query, n: nat, cs: set<ChangesetId>) {
    forall d :: d in cs <==> ReachedWithin(q, n, d)
  }

  ghost predicate OnlyReachedWithin(q: Query, n: nat, cs: set<ChangesetId>) {
    forall d | d in cs :: ReachedWithin(q, n, d)
  }

  ghost predicate AreRoots(q: Query, found: set<ChangesetId>) {
    forall cs :: cs in found <==> IsRoot(q, cs)
  }

  ghost predicate AreRootsWithin(q: Query, n: nat, found: set<ChangesetId>) {
    forall cs :: cs in found <==> IsRootWithin(q, n, cs)
  }

  /** After `round` rounds, `done` are the drafts expanded: those within that many commits. */
  ghost predicate SearchOk(q: Query, round: nat, done: set<ChangesetId>, s: Progress) {
    && s.visited <= q.parents.Keys && s.drafts <= q.parents.Keys
    && IsReachedWithin(q, round, done)
    && OnlyReachedWithin(q, round + 1, s.drafts)
    && q.starts <= done + s.drafts
    && ParentsOf(q, done) == s.visited
    && s.visited - q.public <= done + s.drafts
    && s.found == s.visited * q.public
  }

  function Expand(q: Query, s: Progress): Progress {
    var unseen := ParentsOf(q, s.drafts) - s.visited;
    Progress(unseen - q.public, s.found + unseen * q.public, s.visited + unseen)
  }

  /** Either something new is visited, or no draft is left. */
  lemma ExpandShrinks(q: Query, s: Progress)
    requires Expand(q, s).visited <= q.parents.Keys
    ensures q.parents.Keys - Expand(q, s).visited <= q.parents.Keys - s.visited
    ensures q.parents.Keys - Expand(q, s).visited == q.parents.Keys - s.visited ==> Expand(q, s).drafts == {}
  {
  }

  lemma {:induction false} ExpandReaches(q: Query, round: nat, done: set<ChangesetId>, s: Progress, d: ChangesetId)
    requires SearchOk(q, round, done, s)
    ensures d in done + s.drafts <==> ReachedWithin(q, round + 1, d)
    ensures d in Expand(q, s).drafts ==> ReachedWithin(q, round + 2, d)
  {
    if ReachedWithin(q, round + 1, d) && d !in q.starts {
      assert d in ParentsOf(q, done);
    }
    if d in done {
      ReachedLater(q, round, d);
    }
    if d in Expand(q, s).drafts {
      var e :| e in s.drafts && e in q.parents && d in q.parents[e];
      assert DraftStep(q, e, d) && ReachedWithin(q, round + 1, e);
    }
  }

  lemma ExpandKeeps(q: Query, round: nat, done: set<ChangesetId>, s: Progress)
    requires Valid(q) && SearchOk(q, round, done, s)
    ensures SearchOk(q, round + 1, done + s.drafts, Expand(q, s))
  {
    assert ParentsOf(q, done + s.drafts) == Expand(q, s).visited;
    assert IsReachedWithin(q, round + 1, done + s.drafts) && OnlyReachedWithin(q, round + 2, Expand(q, s).drafts) by {
      forall d
        ensures d in done + s.drafts <==> ReachedWithin(q, round + 1, d)
        ensures d in Expand(q, s).drafts ==> ReachedWithin(q, round + 2, d)
      {
        ExpandReaches(q, round, done, s, d);
      }
    }
  }

  lemma FoundSoFar(q: Query, round: nat, done: set<ChangesetId>, s: Progress)
    requires SearchOk(q, round, done, s)
    ensures AreRootsWithin(q, round, s.found)
  {
  }

  /** With no draft left, everything reached was reached in the rounds so far. */
  lemma AllFound(q: Query, round: nat, done: set<ChangesetId>, s: Progress, n: nat)
    requires SearchOk(q, round, done, s) && s.drafts == {} && round <= n
    ensures AreRoots(q, s.found) && AreRootsWithin(q, n, s.found)
  {
    FoundSoFar(q, round, done, s);
    forall m: nat, d | ReachedWithin(q, m, d) ensures d in done {
      assert done + s.drafts == done;
      ReachedIsInside(q, done, m, d);
    }
    forall d | d in done ensures ReachedWithin(q, n, d) {
      ReachedMuchLater(q, round, n, d);
    }
  }

  lemma {:induction false} ReachedMuchLater(q: Query, m: nat, n: nat, cs: ChangesetId)
    requires m <= n && ReachedWithin(q, m, cs)
    ensures ReachedWithin(q, n, cs)
    decreases n - m
  {
    if m < n {
      ReachedLater(q, m, cs);
      ReachedMuchLater(q, m + 1, n, cs);
    }
  }

  /** What is left to visit; with something left it also counts whether there are drafts. */
  ghost function Left(q: Query, s: Progress): nat {
    2 * |q.parents.Keys - s.visited| + (if s.drafts == {} then 0 else 1)
  }

  lemma LeftShrinks(q: Query, s: Progress)
    requires Expand(q, s).visited <= q.parents.Keys && s.drafts != {}
    ensures Left(q, Expand(q, s)) < Left(q, s)
  {
    ExpandShrinks(q, s);
    var before, after := q.parents.Keys - s.visited, q.parents.Keys - Expand(q, s).visited;
    assert before == after + (before - after);
  }

  lemma RoundOk(q: Query, round: nat, done: set<ChangesetId>, s: Progress)
    requires Valid(q) && SearchOk(q, round, done, s) && s.drafts != {}
    ensures SearchOk(q, round + 1, done + s.drafts, Expand(q, s)) && Left(q, Expand(q, s)) < Left(q, s)
  {
    ExpandKeeps(q, round, done, s);
    LeftShrinks(q, s);
  }

  lemma StartOk(q: Query)
    requires Valid(q)
    ensures SearchOk(q, 0, {}, Progress(q.starts, {}, {}))
  {
    assert ParentsOf(q, {}) == {};
  }

  /** Terminates on every finite graph, cyclic or not. If the repository has public heads, the result is
      exactly the roots. The public heads are known from round `learnAt` on; with none, the search stops there,
      and the result is exactly the roots found so far. */
  method CalculatePublicRoots(parents: Parents, public: set<ChangesetId>, heads: set<ChangesetId>, learnAt: nat,
                              starts: set<ChangesetId>)
    returns (found: set<ChangesetId>)
    requires Valid(Query(parents, public, starts))
    ensures var q := Query(parents, public, starts);
            if heads != {} then AreRoots(q, found) else AreRootsWithin(q, learnAt, found)
  {
    var q := Query(parents, public, starts);
    var s := Progress(starts, {}, {});
    var round: nat := 0;
    ghost var done: set<ChangesetId> := {};
    StartOk(q);
    while s.drafts != {}
      invariant SearchOk(q, round, done, s)
      invariant heads == {} ==> round <= learnAt
      decreases Left(q, s)
    {
      if learnAt <= round && heads == {} {
        FoundSoFar(q, learnAt, done, s);
        return s.found;
      }
      RoundOk(q, round, done, s);
      done, s, round := done + s.drafts, Expand(q, s), round + 1;
    }
    AllFound(q, round, done, s, if heads == {} then learnAt else round);
    found := s.found;
  }

  /** A public commit, its draft child to start from, and a search that learns at once that there are no public
      heads: the public commit is a root, and no result that meets the contract of that search holds it. */
  lemma EarlyStopMissesRoot(root: ChangesetId, draft: ChangesetId)
    requires root != draft
    ensures var q := Query(map[draft := [root], root := []], {root}, {draft});
            Valid(q) && IsRoot(q, root) && forall found | AreRootsWithin(q, 0, found) :: root !in found
  {
    var q := Query(map[draft := [root], root := []], {root}, {draft});
    assert ReachedWithin(q, 1, draft);
    assert Reached(q, draft);
    assert q.parents[draft] == [root] && root in q.parents[draft];
    assert forall n: ChangesetId :: !ReachedWithin(q, 0, n);
  }
}
