/** The mutable root of an in-memory manifest, and the loops around it. */
module MemoryRoot {
  import opened Wrappers
  import opened Trees
  import BonsaiDiff
  import Merging
  import Overlay
  import RoundTrip
  import opened M = MemoryManifest

  /** The source shares one map of changes between all clones of an entry; here the root object holds the
      whole entry and each operation replaces it. */
  class MemoryRootManifest {
    var rootEntry: MemEntry

    constructor (mp1: Option<Manifest>, mp2: Option<Manifest>)
      ensures NewRoot(mp1, mp2) == Ok(rootEntry)
      ensures rootEntry == Descend(Merging.MergeSlot(mp1, mp2))
    {
      Merging.NewRootIsMerge(mp1, mp2);
      rootEntry := NewRoot(mp1, mp2).value;
    }

    method ChangeEntry(path: Path, entry: Option<Node>) returns (error: Option<Error>)
      requires path != []
      modifies this
      ensures Outcome(rootEntry, error) == M.ChangeEntry(old(rootEntry), path, entry)
      ensures Overlay.Settled(old(rootEntry)) ==>
        forall q :: Overlay.Overwrites(old(rootEntry), path, entry, q, Outcome(rootEntry, error))
    {
      if Overlay.Settled(rootEntry) {
        forall q { Overlay.ChangeAltersOnlyItsPath(rootEntry, path, entry, q); }
      }
      var dir, filename := path[..|path| - 1], path[|path| - 1];
      var found := FindMut(rootEntry, dir);
      rootEntry := found.root;
      if found.target.None? {
        return Some(PathNotFound);
      }
      var changed := Change(found.target.value, filename, entry);
      rootEntry := Graft(rootEntry, dir, changed.root);
      return changed.error;
    }

    method ResolveTrivialConflicts()
      modifies this
      ensures rootEntry == ResolveTrivial(old(rootEntry))
      ensures Overlay.Settled(old(rootEntry)) ==> rootEntry == old(rootEntry)
    {
      if Overlay.Settled(rootEntry) {
        RoundTrip.NothingToResolve(rootEntry);
      }
      rootEntry := ResolveTrivial(rootEntry);
    }

    method Save() returns (saved: Result<Node, Error>)
      ensures saved == M.Save(rootEntry)
      ensures Overlay.Settled(rootEntry) ==>
        saved.Ok? && forall p :: FileAt(Some(saved.value), p) == Overlay.VisibleAt(rootEntry, p)
    {
      if Overlay.Settled(rootEntry) {
        Overlay.SaveSucceeds(rootEntry);
        forall p { Overlay.SaveWritesVisible(rootEntry, p); }
      }
      saved := M.Save(rootEntry);
    }
  }

  /** Applies the file changes in the order given, each to completion before the next. */
  method GetManifestFromBonsai(p1: Option<Manifest>, p2: Option<Manifest>, changes: seq<FileChange>)
    returns (built: Result<Node, Error>)
    requires forall c | c in changes :: c.path != []
    ensures built == ManifestFromBonsai(p1, p2, changes)
    ensures forall root: Manifest | RoundTrip.Listed(changes, BonsaiDiff.RootDiff(root, p1, p2)) ::
      built.Ok? && SameFiles(built.value, root) <==> RoundTrip.KeepsFiles(changes, root)
  {
    forall root: Manifest | RoundTrip.Listed(changes, BonsaiDiff.RootDiff(root, p1, p2))
      ensures var r := ManifestFromBonsai(p1, p2, changes);
              r.Ok? && SameFiles(r.value, root) <==> RoundTrip.KeepsFiles(changes, root)
    {
      RoundTrip.RestoresExactly(root, p1, p2, changes);
    }
    var manifest := new MemoryRootManifest(p1, p2);
    ghost var start := manifest.rootEntry;
    for i := 0 to |changes|
      invariant ApplyAll(manifest.rootEntry, changes[i..]) == ApplyAll(start, changes)
    {
      assert changes[i..][0] == changes[i] && changes[i..][1..] == changes[i + 1..];
      var error := manifest.ChangeEntry(changes[i].path, changes[i].entry);
      if error.Some? {
        return Err(error.value);
      }
    }
    manifest.ResolveTrivialConflicts();
    built := manifest.Save();
  }

  /** The loop that lays the changes of a tree over the children of its base. */
  method ApplyChangesLoop(changes: map<Name, Option<MemEntry>>, children: map<Name, MemEntry>)
    returns (result: map<Name, MemEntry>)
    ensures result == ApplyChanges(changes, children)
  {
    result := children;
    var todo := changes.Keys;
    while todo != {}
      invariant todo <= changes.Keys
      invariant forall name | name in result :: LaidOver(changes, children, todo, name, result[name])
      invariant forall name | name in changes.Keys - todo && changes[name].Some? :: name in result
      invariant forall name | name in children && (name in changes ==> name in todo) :: name in result
    {
      var name :| name in todo;
      match changes[name] {
        case None => result := result - {name};
        case Some(entry) => result := result[name := entry];
      }
      todo := todo - {name};
    }
  }

  predicate LaidOver(changes: map<Name, Option<MemEntry>>, children: map<Name, MemEntry>, todo: set<Name>,
                     name: Name, entry: MemEntry)
  {
    if name in changes && name !in todo then changes[name] == Some(entry)
    else name in children && entry == children[name]
  }

  /** The loop that merges the entries of one stored tree into those of another. */
  method MergeTreesLoop(x: Manifest, y: Manifest, p1: Option<Manifest>, p2: Option<Manifest>)
    returns (merged: MemEntry)
    ensures merged == MergeTrees(x, y, p1, p2)
  {
    var children := map name | name in x.children :: Convert(x.children[name]);
    var conflicts: map<Name, MemEntry> := map[];
    var todo := y.children.Keys;
    while todo != {}
      invariant todo <= y.children.Keys
      invariant conflicts.Keys !! children.Keys
      invariant conflicts.Keys + children.Keys == x.children.Keys + (y.children.Keys - todo)
      invariant forall name | name in conflicts :: MergedAs(x, y, name, conflicts[name])
      invariant forall name | name in children ::
        if name in todo then children[name] == Convert(x.children[name]) else MergedAs(x, y, name, children[name])
      invariant forall name | name in todo && name in x.children :: name in children
    {
      var name :| name in todo;
      if name in children {
        conflicts := conflicts[name := MergeNodes(x.children[name], y.children[name])];
        children := children - {name};
      } else {
        children := children[name := Convert(y.children[name])];
      }
      todo := todo - {name};
    }
    children := children + conflicts;
    AllMerged(x, y, children, p1, p2);
    merged := MemTree(None, p1, p2, map name | name in children :: Some(children[name]));
  }

  lemma {:induction false} AllMerged(x: Manifest, y: Manifest, children: map<Name, MemEntry>, p1: Option<Manifest>,
                                     p2: Option<Manifest>)
    requires children.Keys == x.children.Keys + y.children.Keys
    requires forall name | name in children :: MergedAs(x, y, name, children[name])
    ensures MemTree(None, p1, p2, map name | name in children :: Some(children[name])) == MergeTrees(x, y, p1, p2)
  {
  }

  predicate MergedAs(x: Manifest, y: Manifest, name: Name, entry: MemEntry) {
    if name in x.children && name in y.children then entry == MergeNodes(x.children[name], y.children[name])
    else if name in x.children then entry == Convert(x.children[name])
    else name in y.children && entry == Convert(y.children[name])
  }
}
