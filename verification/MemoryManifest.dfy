/** In-memory manifests: an overlay of changes over stored manifests, with explicit conflicts. */
module MemoryManifest {
  import opened Wrappers
  import opened Trees

  datatype MemEntry =
    | Blob(entry: Node)
    | Conflict(entries: seq<MemEntry>)
    | MemTree(base: Option<Manifest>, p1: Option<Manifest>, p2: Option<Manifest>, changes: map<Name, Option<MemEntry>>)

  datatype Error =
    | PathNotFound
    | NotADirectory
    | SingleEntryConflict
    | TooManyConflicts // an assertion of the source: only two manifests can conflict
    | UnresolvedConflicts
    | UnchangedManifest
    | ManifestAlreadyAMerge

  const EMPTY_TREE := MemTree(None, None, None, map[])

  /** How a stored entry is first represented: a tree is not read until it is needed. */
  function Convert(n: Node): MemEntry {
    if n.Dir? then MemTree(Some(n), Some(n), None, map[]) else Blob(n)
  }

  predicate IsModified(e: MemEntry) {
    e.MemTree? && (e.base.None? || e.changes != map[])
  }

  function BaseChildren(e: MemEntry): map<Name, MemEntry>
    requires e.MemTree?
  {
    if e.base.None? then map[]
    else map name | name in e.base.value.children :: Convert(e.base.value.children[name])
  }

  function ApplyChanges(changes: map<Name, Option<MemEntry>>, children: map<Name, MemEntry>): map<Name, MemEntry> {
    map name | name in children.Keys + changes.Keys && (name in changes ==> changes[name].Some?) ::
      if name in changes then changes[name].value else children[name]
  }

  function NewChildren(e: MemEntry): map<Name, MemEntry>
    requires e.MemTree?
  {
    ApplyChanges(e.changes, BaseChildren(e))
  }

  /** What a tree shows under one name: its own change if it has one, else its base. */
  function Slot(e: MemEntry, name: Name): Option<MemEntry>
    requires e.MemTree?
  {
    if name in e.changes then e.changes[name]
    else if e.base.Some? && name in e.base.value.children then Some(Convert(e.base.value.children[name]))
    else None
  }

  ghost function EntryHeight(e: MemEntry): nat {
    if e.MemTree? then
      var below := MaxOf((map k | k in e.changes :: SlotHeight(e.changes[k])).Values);
      if e.base.Some? && below < Height(e.base.value) then Height(e.base.value) else below
    else 0
  }

  ghost function SlotHeight(slot: Option<MemEntry>): nat {
    if slot.Some? then 1 + EntryHeight(slot.value) else 0
  }

  lemma {:induction false} ChildHeight(e: MemEntry, name: Name)
    requires e.MemTree? && name in NewChildren(e)
    ensures EntryHeight(NewChildren(e)[name]) < EntryHeight(e)
  {
    if name in e.changes {
      var heights := map k | k in e.changes :: SlotHeight(e.changes[k]);
      assert heights[name] in heights.Values;
    } else {
      var none: map<Name, nat> := map[];
      assert MaxOf(none.Values) == 0;
    }
  }

  function IsEmpty(e: MemEntry): bool
    decreases EntryHeight(e)
  {
    e.MemTree? &&
    if e.changes == map[] then e.base.None?
    else forall name | name in NewChildren(e) :: (ChildHeight(e, name); IsEmpty(NewChildren(e)[name]))
  }

  function History(p1: Option<Manifest>, p2: Option<Manifest>): multiset<Node> {
    (if p1.Some? then multiset{p1.value} else multiset{}) + (if p2.Some? then multiset{p2.value} else multiset{})
  }

  /** When several children fail, the source reports the first in name order; this model prefers
      `UnresolvedConflicts`. */
  function Save(e: MemEntry): Result<Node, Error>
    decreases EntryHeight(e)
  {
    match e
    case Blob(entry) => Ok(entry)
    case Conflict(_) => Err(UnresolvedConflicts)
    case MemTree(base, p1, p2, _) =>
      if IsModified(e) then
        var saved := map name | name in NewChildren(e) && !IsEmpty(NewChildren(e)[name]) ::
          (ChildHeight(e, name); Save(NewChildren(e)[name]));
        if exists name :: name in saved && saved[name] == Err(UnresolvedConflicts) then Err(UnresolvedConflicts)
        else if exists name :: name in saved && saved[name].Err? then Err(UnchangedManifest)
        else Ok(Dir(History(p1, p2), map name | name in saved :: saved[name].value))
      else if p2.Some? then Err(UnchangedManifest)
      else Ok(base.value)
  }

  // Merging the two parents.

  /** Merging two stored entries, neither of them modified. */
  function MergeNodes(x: Node, y: Node): MemEntry
    decreases x, 1
  {
    if x.Dir? && y.Dir? then
      if x == y then Convert(x) else MergeTrees(x, y, Some(x), Some(y))
    else if x == y then Blob(x)
    else Conflict([Convert(x), Convert(y)])
  }

  function MergeTrees(x: Manifest, y: Manifest, p1: Option<Manifest>, p2: Option<Manifest>): MemEntry
    decreases x, 0
  {
    MemTree(None, p1, p2,
            map name | name in x.children.Keys + y.children.Keys ::
              Some(if name !in y.children then Convert(x.children[name])
                   else if name !in x.children then Convert(y.children[name])
                   else MergeNodes(x.children[name], y.children[name])))
  }

  /** A modified side is saved first; what is left is a merge of two unmodified entries. */
  function MergeWithConflicts(mine: MemEntry, other: MemEntry): Result<MemEntry, Error>
    decreases (if IsModified(mine) then 1 else 0) + (if IsModified(other) then 1 else 0)
  {
    if IsModified(mine) then
      var saved := Save(mine);
      if saved.Err? then Err(saved.error) else MergeWithConflicts(Convert(saved.value), other)
    else if IsModified(other) then
      var saved := Save(other);
      if saved.Err? then Err(saved.error) else MergeWithConflicts(mine, Convert(saved.value))
    else if mine.Conflict? || other.Conflict? then Err(UnresolvedConflicts)
    else if mine.Blob? && mine == other then Ok(mine)
    else if mine.Blob? || other.Blob? then Ok(Conflict([mine, other]))
    else if (mine.p1.Some? && mine.p2.Some?) || (other.p1.Some? && other.p2.Some?) then Err(ManifestAlreadyAMerge)
    else if mine.base == other.base then Ok(mine)
    else Ok(MergeTrees(mine.base.value, other.base.value, mine.p1, other.p1))
  }

  function NewRoot(mp1: Option<Manifest>, mp2: Option<Manifest>): Result<MemEntry, Error> {
    match (mp1, mp2)
    case (None, None) => Ok(EMPTY_TREE)
    case (Some(p), None) => Ok(Convert(p))
    case (None, Some(p)) => Ok(Convert(p))
    case (Some(p), Some(q)) => MergeWithConflicts(Convert(p), Convert(q))
  }

  // Changing one path.

  function ConflictParents(entries: seq<MemEntry>): seq<Manifest> {
    if entries == [] then []
    else
      var rest := ConflictParents(entries[1..]);
      match entries[0]
      case MemTree(Some(base), _, _, changes) => if changes == map[] then [base] + rest else rest
      case Blob(entry) => if entry.Dir? then [entry] + rest else rest
      case _ => rest
  }

  /** Going below a conflict drops what both sides held and keeps only the tree parents. */
  function ConflictToMemtree(e: MemEntry): MemEntry {
    if e.Conflict? then
      var parents := ConflictParents(e.entries);
      MemTree(None,
              if |parents| > 0 then Some(parents[0]) else None,
              if |parents| > 1 then Some(parents[1]) else None,
              map[])
    else e
  }

  /** The entry that a lookup continues from: the slot, or a fresh empty tree. */
  function Descend(slot: Option<MemEntry>): MemEntry {
    if slot.None? then EMPTY_TREE else ConflictToMemtree(slot.value)
  }

  datatype Found = Found(root: MemEntry, target: Option<MemEntry>)

  /** Finds the entry at `dir`, creating directories on the way. The updates to shared change maps
      show up as the new root. */
  function FindMut(e: MemEntry, dir: Path): Found
    decreases |dir|
  {
    if dir == [] then Found(e, Some(e))
    else if e.MemTree? then
      var below := FindMut(Descend(Slot(e, dir[0])), dir[1..]);
      Found(e.(changes := e.changes[dir[0] := Some(below.root)]), below.target)
    else Found(e, None)
  }

  function ChangeSlot(slot: Option<MemEntry>, change: Option<Node>): Result<Option<MemEntry>, Error> {
    var blob := if change.Some? then Some(Blob(change.value)) else None;
    match slot
    case Some(Conflict(entries)) =>
      if |entries| < 2 then Err(SingleEntryConflict)
      else if |entries| > 2 then Err(TooManyConflicts)
      else if entries[0].Blob? && entries[1].MemTree? then Ok(if change.None? then Some(entries[1]) else blob)
      else if entries[0].MemTree? && entries[1].Blob? then Ok(if change.None? then Some(entries[0]) else blob)
      else Ok(blob)
    case _ => Ok(blob)
  }

  datatype Outcome = Outcome(root: MemEntry, error: Option<Error>)

  function Change(e: MemEntry, name: Name, change: Option<Node>): Outcome {
    if !e.MemTree? then Outcome(e, Some(NotADirectory))
    else
      var known := if name in e.changes then e.changes[name] else None;
      match ChangeSlot(known, change)
      case Ok(slot) => Outcome(e.(changes := e.changes[name := slot]), None)
      case Err(error) => Outcome(e, Some(error))
  }

  /** Writing back an entry that `FindMut` handed out: the source shares it instead. */
  function Graft(e: MemEntry, dir: Path, target: MemEntry): MemEntry
    decreases |dir|
  {
    if dir == [] then target
    else if e.MemTree? && dir[0] in e.changes && e.changes[dir[0]].Some? then
      e.(changes := e.changes[dir[0] := Some(Graft(e.changes[dir[0]].value, dir[1..], target))])
    else e
  }

  function ChangeEntry(root: MemEntry, path: Path, change: Option<Node>): Outcome
    requires path != []
  {
    var dir, filename := path[..|path| - 1], path[|path| - 1];
    var found := FindMut(root, dir);
    if found.target.None? then Outcome(found.root, Some(PathNotFound))
    else
      var changed := Change(found.target.value, filename, change);
      Outcome(Graft(found.root, dir, changed.root), changed.error)
  }

  // Conflicts between files that differ only in their parents.

  /** Two conflicting files of one type and one content become one file whose parents are both. */
  function ResolveConflict(e: MemEntry): MemEntry {
    if e.Conflict? && |e.entries| == 2 && e.entries[0].Blob? && e.entries[1].Blob? then
      match (e.entries[0].entry, e.entries[1].entry)
      case (File(t, i), File(u, j)) =>
        if t == u && i.content == j.content then Blob(File(t, FileId(i.content, multiset{i, j}))) else e
      case _ => e
    else e
  }

  function ResolveTrivial(e: MemEntry): MemEntry {
    match e
    case MemTree(base, p1, p2, changes) =>
      MemTree(base, p1, p2,
              map name | name in changes ::
                if changes[name].Some? then Some(ResolveTrivial(changes[name].value)) else None)
    case _ => ResolveConflict(e)
  }

  datatype FileChange = FileChange(path: Path, entry: Option<Node>)

  function ApplyAll(root: MemEntry, changes: seq<FileChange>): Outcome
    requires forall c | c in changes :: c.path != []
    decreases |changes|
  {
    if changes == [] then Outcome(root, None)
    else
      var first := ChangeEntry(root, changes[0].path, changes[0].entry);
      if first.error.Some? then first else ApplyAll(first.root, changes[1..])
  }

  /** Building the manifest of a bonsai changeset from the manifests of its parents. */
  function ManifestFromBonsai(p1: Option<Manifest>, p2: Option<Manifest>, changes: seq<FileChange>): Result<Node, Error>
    requires forall c | c in changes :: c.path != []
  {
    var root := NewRoot(p1, p2);
    if root.Err? then Err(root.error)
    else
      var applied := ApplyAll(root.value, changes);
      if applied.error.Some? then Err(applied.error.value)
      else Save(ResolveTrivial(applied.root))
  }
}
