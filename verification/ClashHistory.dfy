/** What a merge makes of entries that were changed before, and of a clash that is written into. */
module ClashHistory {
  import opened Wrappers
  import opened Trees
  import opened MemoryManifest
  import opened Merging

  /** The sides of a clash that are directories. */
  function DirectorySides(x: Node, y: Node): multiset<Node> {
    (if x.Dir? then multiset{x} else multiset{}) + (if y.Dir? then multiset{y} else multiset{})
  }

  lemma {:induction false} ClashDescends(x: Node, y: Node)
    requires Clash(Some(x), Some(y))
    ensures var e := Descend(Some(MergeNodes(x, y)));
            && e == MemTree(None, e.p1, e.p2, map[]) && History(e.p1, e.p2) == DirectorySides(x, y)
  {
    assert MergeNodes(x, y) == Conflict([Convert(x), Convert(y)]);
    assert [Convert(x), Convert(y)][1..] == [Convert(y)];
    assert [Convert(y)][1..] == [];
    assert ConflictParents([Convert(y)]) == if y.Dir? then [y] else [];
  }

  lemma {:induction false} SavesOneFile(p1: Option<Manifest>, p2: Option<Manifest>, name: Name, file: Node)
    ensures Save(MemTree(None, p1, p2, map[name := Some(Blob(file))])) == Ok(Dir(History(p1, p2), map[name := file]))
  {
    var root := MemTree(None, p1, p2, map[name := Some(Blob(file))]);
    var children := NewChildren(root);
    assert name in children && children[name] == Blob(file) && forall k | k in children :: k == name;
    var saved := map k | k in NewChildren(root) && !IsEmpty(NewChildren(root)[k]) ::
      (ChildHeight(root, k); Save(NewChildren(root)[k]));
    assert name in saved && saved[name] == Ok(file) && forall k | k in saved :: k == name;
    assert (map k | k in saved :: saved[k].value) == map[name := file];
  }

  /** A file written below the path of a clash ends up alone in a new directory, and the history of that directory
      is the side that was one, if any. */
  lemma {:induction false} DirectoryOverClash(x: Node, y: Node, name: Name, file: Node)
    requires Clash(Some(x), Some(y))
    ensures var changed := Change(Descend(Some(MergeNodes(x, y))), name, Some(file));
            changed.error.None? && Save(changed.root) == Ok(Dir(DirectorySides(x, y), map[name := file]))
  {
    var e := Descend(Some(MergeNodes(x, y)));
    ClashDescends(x, y);
    assert Change(e, name, Some(file)).root == MemTree(None, e.p1, e.p2, map[name := Some(Blob(file))]);
    SavesOneFile(e.p1, e.p2, name, file);
  }

  /** The entry stands for a stored node: it was read from it, or is saved as it. */
  predicate StandsFor(e: MemEntry, n: Node) {
    e == Convert(n) || (IsModified(e) && Save(e) == Ok(n))
  }

  /** Merging two entries, changed or not, merges the nodes they stand for. */
  lemma {:induction false} MergesSavedNodes(mine: MemEntry, other: MemEntry, x: Node, y: Node)
    requires StandsFor(mine, x) && StandsFor(other, y)
    ensures MergeWithConflicts(mine, other) == Ok(MergeNodes(x, y))
  {
    assert IsModified(mine) ==> x.Dir?;
    assert IsModified(other) ==> y.Dir?;
    assert MergeWithConflicts(Convert(x), Convert(y)) == Ok(MergeNodes(x, y));
    if IsModified(mine) && IsModified(other) {
      assert MergeWithConflicts(Convert(x), other) == MergeWithConflicts(Convert(x), Convert(y));
    }
  }

  predicate HasTwoParents(e: MemEntry) {
    e.MemTree? && e.p1.Some? && e.p2.Some?
  }

  /** Unchanged entries cannot be merged exactly if one is a clash, or both are trees and one has two parents. */
  lemma {:induction false} MergeFailures(mine: MemEntry, other: MemEntry)
    requires !IsModified(mine) && !IsModified(other)
    ensures var r := MergeWithConflicts(mine, other);
            && (r.Err? && r.error == UnresolvedConflicts <==> mine.Conflict? || other.Conflict?)
            && (r.Err? && r.error == ManifestAlreadyAMerge <==>
                  mine.MemTree? && other.MemTree? && (HasTwoParents(mine) || HasTwoParents(other)))
            && (r.Err? ==> r.error == UnresolvedConflicts || r.error == ManifestAlreadyAMerge)
  {
  }
}
