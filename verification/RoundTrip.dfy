/** Applying the bonsai diff of a working tree to its merged parents: when it gives the working tree back. */
module RoundTrip {
  import opened Wrappers
  import opened Trees
  import opened PathOrders
  import opened SortedLists
  import opened BonsaiDiff
  import opened MemoryManifest
  import opened Overlay
  import opened ChangeOrder
  import opened Merging
  import opened AnyOrder
  import opened Reordering

  /** The file changes of a bonsai changeset made from `diff`: one for each result and none else. */
  ghost predicate Listed(changes: seq<FileChange>, diff: multiset<BonsaiDiffResult>) {
    && Once(changes)
    && (forall x | x in changes :: x.path != [] && RecordsSome(diff, x))
    && (forall r | r in diff :: HasPath(changes, r.path))
  }

  ghost predicate RecordsSome(diff: multiset<BonsaiDiffResult>, x: FileChange) {
    exists r :: r in diff && r.path == x.path && Records(r.change, x.entry)
  }

  lemma ListedRealises(changes: seq<FileChange>, root: Manifest, p1: Option<Manifest>, p2: Option<Manifest>)
    requires Listed(changes, RootDiff(root, p1, p2))
    ensures Realises(changes, Some(root), ParentSet(p1, p2))
  {
    var c := ParentSet(p1, p2);
    forall x | x in changes
      ensures Expected(Some(root), c, x.path).Some? && Records(Expected(Some(root), c, x.path).value, x.entry)
    {
      assert RecordsSome(RootDiff(root, p1, p2), x);
      var r :| r in RootDiff(root, p1, p2) && r.path == x.path && Records(r.change, x.entry);
      RootDiffIsExact(root, p1, p2, r);
    }
    assert !HasFile(c);
    forall p | Expected(Some(root), c, p).Some? ensures HasPath(changes, p) {
      RootDiffIsExact(root, p1, p2, BonsaiDiffResult(p, Expected(Some(root), c, p).value));
    }
  }

  lemma {:induction false} NothingToResolve(e: MemEntry)
    requires Settled(e)
    ensures ResolveTrivial(e) == e
  {
    if e.MemTree? {
      forall name | name in e.changes && e.changes[name].Some?
        ensures ResolveTrivial(e.changes[name].value) == e.changes[name].value
      {
        NothingToResolve(e.changes[name].value);
      }
      assert ResolveTrivial(e).changes == e.changes;
    }
  }

  lemma {:induction false} AppliedLeaves(root: Manifest, p1: Option<Manifest>, p2: Option<Manifest>,
                                         changes: seq<FileChange>)
    requires Listed(changes, RootDiff(root, p1, p2))
    ensures NewRoot(p1, p2).Ok?
    ensures var r := ApplyAll(NewRoot(p1, p2).value, changes);
            if r.error.None? then Shows(Some(r.root), changes, Some(root)) && !Stuck(changes, p1, p2)
            else LosesFile(changes, Some(root)) && Stuck(changes, p1, p2)
  {
    NewRootIsMerge(p1, p2);
    ListedRealises(changes, root, p1, p2);
    forall name ensures ChildLeaves(Some(root), p1, p2, changes, name) {
      TailsRealise(changes, Some(root), p1, p2, name);
      SlotLeaves(ChildOf(Some(root), name), ChildOf(p1, name), ChildOf(p2, name), Tails(changes, name));
    }
    TreeFromSlots(Some(root), p1, p2, changes);
  }

  /** In whatever order the changes of a diff are applied: building fails exactly if a change comes below the
      parents' only file before that file is deleted, with no deletion further up that late, and otherwise yields
      the working tree's files that are not lost. */
  lemma BuiltInAnyOrder(root: Manifest, p1: Option<Manifest>, p2: Option<Manifest>, changes: seq<FileChange>, q: Path)
    requires Listed(changes, RootDiff(root, p1, p2))
    ensures var built := ManifestFromBonsai(p1, p2, changes);
            && (built.Err? <==> Stuck(changes, p1, p2))
            && (built.Ok? ==> SameFile(FileAt(Some(built.value), q), Left(changes, Some(root), q)))
  {
    AppliedLeaves(root, p1, p2, changes);
    var r := ApplyAll(NewRoot(p1, p2).value, changes);
    if r.error.None? {
      NothingToResolve(r.root);
      SaveWritesVisible(r.root, q);
      assert SameFile(VisibleSlot(Some(r.root), q), Left(changes, Some(root), q));
    }
  }

  /** Whenever the deletion of `p` comes after a change below `p`, every file below `p` is set after it. */
  ghost predicate KeepsFiles(changes: seq<FileChange>, root: Node) {
    forall p, q | Overtaken(changes, p) && p < q && FileAt(Some(root), q).Some? :: Before(changes, p, q)
  }

  /** The orders of the changes that give the working tree's files back are exactly those that keep them. */
  lemma RestoresExactly(root: Manifest, p1: Option<Manifest>, p2: Option<Manifest>, changes: seq<FileChange>)
    requires Listed(changes, RootDiff(root, p1, p2))
    ensures var built := ManifestFromBonsai(p1, p2, changes);
            built.Ok? && SameFiles(built.value, root) <==> KeepsFiles(changes, root)
  {
    var built := ManifestFromBonsai(p1, p2, changes);
    assert KeepsFiles(changes, root) <==> !LosesFile(changes, Some(root));
    AppliedLeaves(root, p1, p2, changes);
    BuiltInAnyOrder(root, p1, p2, changes, []);
    if built.Ok? {
      forall q ensures SameFile(FileAt(Some(built.value), q), Left(changes, Some(root), q)) {
        BuiltInAnyOrder(root, p1, p2, changes, q);
      }
      if LosesFile(changes, Some(root)) {
        var q :| FileAt(Some(root), q).Some? && Lost(changes, q);
        assert !SameFile(FileAt(Some(built.value), q), FileAt(Some(root), q));
      }
    }
  }

  /** Applying the diff with paths before their extensions meets no error and leaves no conflict. */
  lemma {:induction false} DiffLeavesNoConflict(root: Manifest, p1: Option<Manifest>, p2: Option<Manifest>,
                                                changes: seq<FileChange>)
    requires Listed(changes, RootDiff(root, p1, p2)) && PrefixFirst(changes)
    ensures NewRoot(p1, p2).Ok?
    ensures var r := ApplyAll(NewRoot(p1, p2).value, changes);
            && r.error.None? && Settled(r.root)
            && forall q :: SameFile(VisibleAt(r.root, q), FileAt(Some(root), q))
  {
    PrefixFirstLosesNothing(changes);
    AppliedLeaves(root, p1, p2, changes);
    var r := ApplyAll(NewRoot(p1, p2).value, changes).root;
    forall q ensures SameFile(VisibleAt(r, q), FileAt(Some(root), q)) {
      assert SameFile(VisibleSlot(Some(r), q), Left(changes, Some(root), q));
    }
  }

  /** The diff of a working tree, applied to its merged parents with paths before their extensions and saved,
      has the working tree's files. */
  lemma RoundTrip(root: Manifest, p1: Option<Manifest>, p2: Option<Manifest>, changes: seq<FileChange>)
    requires Listed(changes, RootDiff(root, p1, p2)) && PrefixFirst(changes)
    ensures var built := ManifestFromBonsai(p1, p2, changes); built.Ok? && SameFiles(built.value, root)
  {
    PrefixFirstLosesNothing(changes);
    RestoresExactly(root, p1, p2, changes);
  }

  lemma {:induction false} MergeIsTidy(x: Node, y: Node)
    requires NoEmptyDirs(x) && NoEmptyDirs(y)
    requires x.File? || y.File? ==> TidySlot(Some(Convert(x))) && TidySlot(Some(Convert(y)))
    ensures TidyBelow(MergeNodes(x, y))
    ensures x.File? || y.File? ==> NotEmptyStored(MergeNodes(x, y))
    decreases x
  {
    if x.Dir? && y.Dir? && x != y {
      var merged := MergeNodes(x, y);
      assert merged == MergeTrees(x, y, Some(x), Some(y));
      forall name | name in merged.changes ensures TidySlot(merged.changes[name]) {
        if name in x.children && name in y.children {
          MergeIsTidy(x.children[name], y.children[name]);
          MergedNotEmpty(x.children[name], y.children[name]);
        }
      }
    }
  }

  lemma {:induction false} MergedNotEmpty(x: Node, y: Node)
    requires NotEmptyStored(Convert(x))
    ensures NotEmptyStored(MergeNodes(x, y))
  {
  }

  lemma {:induction false} ApplyAllKeepsTidy(e: MemEntry, changes: seq<FileChange>)
    requires TidyBelow(e)
    requires forall c | c in changes :: c.path != [] && (c.entry.Some? ==> c.entry.value.File?)
    ensures TidyBelow(ApplyAll(e, changes).root)
    decreases |changes|
  {
    if changes != [] {
      var x := changes[0];
      ChangeEntryDescends(e, x.path, x.entry);
      ApplyAtKeepsTidy(e, x.path, x.entry);
      ApplyAllKeepsTidy(ChangeEntry(e, x.path, x.entry).root, changes[1..]);
    }
  }

  /** Rebuilding from parents without empty directories makes no empty directory. */
  lemma RoundTripIsTidy(root: Manifest, p1: Option<Manifest>, p2: Option<Manifest>, changes: seq<FileChange>)
    requires Listed(changes, RootDiff(root, p1, p2)) && PrefixFirst(changes)
    requires (p1.Some? ==> NoEmptyDirs(p1.value)) && (p2.Some? ==> NoEmptyDirs(p2.value))
    ensures var built := ManifestFromBonsai(p1, p2, changes); built.Ok? && NoEmptyDirs(built.value)
  {
    DiffLeavesNoConflict(root, p1, p2, changes);
    NewRootIsMerge(p1, p2);
    if p1.Some? && p2.Some? {
      MergeIsTidy(p1.value, p2.value);
      MergedSlots(p1, p2, Name([]));
    }
    var start := NewRoot(p1, p2).value;
    forall c | c in changes ensures c.path != [] && (c.entry.Some? ==> c.entry.value.File?) {
      assert RecordsSome(RootDiff(root, p1, p2), c);
    }
    ApplyAllKeepsTidy(start, changes);
    var e := ApplyAll(start, changes).root;
    NothingToResolve(e);
    SaveWritesNoEmptyDirs(e);
  }

  // All orders with paths before their extensions build the same manifest.

  function TryChange(e: MemEntry, x: FileChange): Option<MemEntry> {
    if x.path == [] then None
    else
      var r := ChangeEntry(e, x.path, x.entry);
      if r.error.None? then Some(r.root) else None
  }

  lemma {:induction false} ApplyAllIsFold(e: MemEntry, changes: seq<FileChange>)
    requires forall c | c in changes :: c.path != []
    ensures var r := ApplyAll(e, changes);
            Fold(TryChange, e, changes) == if r.error.None? then Some(r.root) else None
    decreases |changes|
  {
    if changes != [] && TryChange(e, changes[0]).Some? {
      ApplyAllIsFold(TryChange(e, changes[0]).value, changes[1..]);
    }
  }

  lemma IncomparableSwap(x: FileChange, y: FileChange)
    requires x.path != [] && y.path != [] && !(x.path <= y.path) && !(y.path <= x.path)
    ensures Swappable(TryChange, x, y)
  {
    forall e ensures Two(TryChange, e, x, y) == Two(TryChange, e, y, x) {
      ChangesCommute(e, x.path, x.entry, y.path, y.entry);
    }
  }

  lemma PrefixFirstReorders(one: seq<FileChange>, two: seq<FileChange>)
    requires PrefixFirst(one) && PrefixFirst(two) && (forall c :: c in one <==> c in two)
    requires forall c | c in one :: c.path != []
    ensures SameElements(one, two) && Reorders(TryChange, one, two)
  {
    forall i, j, k, l | 0 <= i < j < |one| && 0 <= k < l < |two| && one[i] == two[l] && one[j] == two[k]
      ensures Swappable(TryChange, one[i], one[j])
    {
      assert one[i] in one && one[j] in one;
      IncomparableSwap(one[i], one[j]);
    }
  }

  /** Two orders of the same changes, both with paths before their extensions, build the same manifest, down to
      the history of every directory, or both build none. */
  lemma SameChangesSameManifest(p1: Option<Manifest>, p2: Option<Manifest>, one: seq<FileChange>, two: seq<FileChange>)
    requires PrefixFirst(one) && PrefixFirst(two) && (forall c :: c in one <==> c in two)
    requires forall c | c in one :: c.path != []
    ensures var first, second := ManifestFromBonsai(p1, p2, one), ManifestFromBonsai(p1, p2, two);
            first == second || (first.Err? && second.Err?)
  {
    NewRootIsMerge(p1, p2);
    var e := NewRoot(p1, p2).value;
    PrefixFirstReorders(one, two);
    SameEnd(TryChange, e, one, two);
    ApplyAllIsFold(e, one);
    ApplyAllIsFold(e, two);
  }

  // The list that the bonsai changeset holds.

  function ChangeOf(r: BonsaiDiffResult): FileChange {
    FileChange(r.path, if r.change.Deleted? then None else Some(File(r.change.ft, r.change.id)))
  }

  lemma {:induction false} PlacedListed(diff: multiset<BonsaiDiffResult>, r: BonsaiDiffResult, rest: seq<FileChange>)
    requires r in diff && r.path != [] && forall s | s in diff - multiset{r} :: s.path != r.path
    requires Ascending(rest) && Listed(rest, diff - multiset{r})
    ensures Ascending(Placed(rest, ChangeOf(r), ByPath)) && Listed(Placed(rest, ChangeOf(r), ByPath), diff)
  {
    var x := ChangeOf(r);
    forall c | c in rest ensures RecordsSome(diff, c) && (ByPath(x, c) || ByPath(c, x)) {
      assert RecordsSome(diff - multiset{r}, c);
      PathOrder(x.path, c.path, []);
    }
    ByPathIsOrder();
    PlacedAscends(rest, x, ByPath);
    var changes := Placed(rest, x, ByPath);
    AscendingIsPrefixFirst(changes);
    PrefixFirstOnce(changes);
    assert RecordsSome(diff, x);
    forall s | s in diff ensures HasPath(changes, s.path) {
      if s == r {
        assert x in changes;
      } else {
        assert s in diff - multiset{r};
        var c :| c in rest && c.path == s.path;
        assert c in changes;
      }
    }
  }

  /** Every diff has its ascending list of changes. */
  lemma {:induction false} AscendingList(root: Manifest, p1: Option<Manifest>, p2: Option<Manifest>,
                                         diff: multiset<BonsaiDiffResult>)
    returns (changes: seq<FileChange>)
    requires diff <= RootDiff(root, p1, p2)
    ensures Ascending(changes) && Listed(changes, diff)
    decreases |diff|
  {
    changes := [];
    if diff != multiset{} {
      var r :| r in diff;
      var rest := AscendingList(root, p1, p2, diff - multiset{r});
      OthersDiffer(root, p1, p2, diff, r);
      PlacedListed(diff, r, rest);
      changes := Placed(rest, ChangeOf(r), ByPath);
    }
  }

  lemma OthersDiffer(root: Manifest, p1: Option<Manifest>, p2: Option<Manifest>,
                     diff: multiset<BonsaiDiffResult>, r: BonsaiDiffResult)
    requires diff <= RootDiff(root, p1, p2) && r in diff
    ensures r.path != [] && forall s | s in diff - multiset{r} :: s.path != r.path
  {
    RootDiffIsExact(root, p1, p2, r);
    forall s | s in diff - multiset{r} ensures s.path != r.path {
      assert s in diff;
      DiffIsPathConflictFree(root, p1, p2, r, s);
    }
  }

  /** From the three trees alone: the ascending list of the diff rebuilds the working tree. */
  lemma RoundTripOfTrees(root: Manifest, p1: Option<Manifest>, p2: Option<Manifest>) returns (changes: seq<FileChange>)
    ensures Ascending(changes) && Listed(changes, RootDiff(root, p1, p2))
    ensures var built := ManifestFromBonsai(p1, p2, changes); built.Ok? && SameFiles(built.value, root)
  {
    changes := AscendingList(root, p1, p2, RootDiff(root, p1, p2));
    AscendingIsPrefixFirst(changes);
    RoundTrip(root, p1, p2, changes);
  }

  /** The order matters: a change below a conflict between a file and a tree, made before the conflict is
      settled, drops every other file of the tree. */
  lemma {:induction false} DescendantFirstDropsTree(e: MemEntry, name: Name, rest: Path, change: Option<Node>, q: Path)
    requires e.MemTree? && rest != []
    requires Slot(e, name).Some? && Slot(e, name).value.Conflict?
    ensures var r := ChangeEntry(e, [name] + rest, change);
            && r.error.None?
            && VisibleAt(r.root, [name] + q) == (if rest <= q then FileAt(change, q[|rest|..]) else None)
  {
    var path := [name] + rest;
    ChangeEntryDescends(e, path, change);
    var child := Descend(Slot(e, name));
    assert path[1..] == rest && ([name] + q)[1..] == q;
    ApplyAtOverwrites(child, rest, change, q);
    assert VisibleAt(child, q).None?;
    NotBlocked(child, rest);
  }

  lemma {:induction false} NotBlocked(e: MemEntry, path: Path)
    requires e.MemTree? && e.base.None? && e.changes == map[]
    ensures !Blocked(e, path)
  {
  }

  // Where the diff reports the conflicts of the merge.

  lemma {:induction false} CoveredFrom(w: Option<Node>, a: Option<Node>, b: Option<Node>, p: Path) returns (k: nat)
    requires Clash(NodeAt(a, p), NodeAt(b, p))
    ensures k <= |p|
    ensures var d := Expected(w, ParentSet(a, b), p[..k]); d.Some? && (k < |p| ==> !d.value.Deleted?)
    decreases |p|
  {
    if p == [] {
      k := 0;
      ClashIsReported(w, a, b);
    } else if IsFile(w) {
      k := 0;
      assert a.Some? && b.Some? && a.value.Dir? && b.value.Dir? by {
        NothingInside(p[1..]);
      }
      assert a.value in ParentSet(a, b);
    } else {
      var k' := CoveredFrom(ChildOf(w, p[0]), ChildOf(a, p[0]), ChildOf(b, p[0]), p[1..]);
      k := k' + 1;
      assert p[..k] == [p[0]] + p[1..][..k'];
      ExpectedBelow(w, a, b, p[0], p[1..][..k']);
    }
  }

  lemma ClashIsReported(w: Option<Node>, a: Option<Node>, b: Option<Node>)
    requires Clash(a, b)
    ensures Expected(w, ParentSet(a, b), []).Some?
  {
  }

  /** Every conflict of the merge lies at a path that the diff reports, or below one that it reports as
      changed. */
  lemma {:induction false} ConflictsAreCovered(root: Manifest, p1: Option<Manifest>, p2: Option<Manifest>, p: Path)
    requires var e := EntryAt(MergeSlot(p1, p2), p); e.Some? && e.value.Conflict?
    ensures exists r :: r in RootDiff(root, p1, p2) && (r.path == p || (r.path < p && !r.change.Deleted?))
  {
    ConflictsExactly(p1, p2, p);
    var k := CoveredFrom(Some(root), p1, p2, p);
    var r := BonsaiDiffResult(p[..k], Expected(Some(root), ParentSet(p1, p2), p[..k]).value);
    assert !HasFile(ParentSet(p1, p2));
    RootDiffIsExact(root, p1, p2, r);
    assert k == |p| ==> r.path == p;
  }

  // The history that the saved manifest records.

  lemma ChangeKeepsParents(e: MemEntry, path: Path, change: Option<Node>)
    requires path != [] && e.MemTree? && ChangeEntry(e, path, change).error.None?
    ensures var r := ChangeEntry(e, path, change).root;
            r.MemTree? && r.base == e.base && r.p1 == e.p1 && r.p2 == e.p2 && r.changes != map[]
  {
    ChangeEntryDescends(e, path, change);
    ApplyAtIsSlot(e, path, change);
    assert path[0] in ApplyAt(e, path, change).root.changes;
  }

  lemma {:induction false} ChangesKeepParents(e: MemEntry, changes: seq<FileChange>)
    requires e.MemTree? && (forall c | c in changes :: c.path != []) && ApplyAll(e, changes).error.None?
    ensures var r := ApplyAll(e, changes).root;
            && r.MemTree? && r.base == e.base && r.p1 == e.p1 && r.p2 == e.p2
            && (changes == [] ==> r == e) && (changes != [] ==> r.changes != map[])
    decreases |changes|
  {
    if changes != [] {
      ChangeKeepsParents(e, changes[0].path, changes[0].entry);
      ChangesKeepParents(ChangeEntry(e, changes[0].path, changes[0].entry).root, changes[1..]);
    }
  }

  lemma {:induction false} SavedHistory(e: MemEntry)
    requires e.MemTree? && Save(e).Ok?
    ensures if IsModified(e) then Save(e).value.Dir? && Save(e).value.history == History(e.p1, e.p2)
            else e.base == Some(Save(e).value)
  {
  }

  /** Whatever the changes, a manifest that is built records its parents' manifests, each once; only a commit
      without changes on top of a single manifest shares that manifest. */
  lemma BuiltRecordsParents(p1: Option<Manifest>, p2: Option<Manifest>, changes: seq<FileChange>)
    requires (forall c | c in changes :: c.path != []) && ManifestFromBonsai(p1, p2, changes).Ok?
    ensures var built := ManifestFromBonsai(p1, p2, changes).value;
            var parents := ParentSet(p1, p2);
            if changes == [] && |parents| == 1 then parents == {built}
            else built.Dir? && built.history == multiset(parents)
  {
    NewRootIsMerge(p1, p2);
    MergedSlots(p1, p2, Name([]));
    var root := NewRoot(p1, p2).value;
    ChangesKeepParents(root, changes);
    var applied := ApplyAll(root, changes).root;
    var resolved := ResolveTrivial(applied);
    assert resolved.changes.Keys == applied.changes.Keys;
    assert IsModified(resolved) <==> IsModified(applied) by {
      assert resolved.changes == map[] <==> resolved.changes.Keys == {};
    }
    SavedHistory(resolved);
    MergedParents(p1, p2);
  }

  lemma MergedParents(p1: Option<Manifest>, p2: Option<Manifest>)
    ensures var t := Descend(MergeSlot(p1, p2));
            && t.MemTree? && History(t.p1, t.p2) == multiset(ParentSet(p1, p2))
            && (t.base.Some? <==> |ParentSet(p1, p2)| == 1)
            && (t.base.Some? ==> t.changes == map[] && ParentSet(p1, p2) == {t.base.value})
  {
    match (p1, p2)
    case (None, None) =>
      assert ParentSet(p1, p2) == {};
    case (Some(x), None) =>
      assert ParentSet(p1, p2) == {x};
    case (None, Some(y)) =>
      assert ParentSet(p1, p2) == {y};
    case (Some(x), Some(y)) =>
      if x == y {
        assert MergeNodes(x, y) == Convert(x);
        assert ParentSet(p1, p2) == {x};
      } else {
        assert MergeNodes(x, y) == MergeTrees(x, y, Some(x), Some(y));
        assert ParentSet(p1, p2) == {x, y} == {x} + {y};
        assert multiset({x, y}) == multiset{x} + multiset{y};
      }
  }
}
