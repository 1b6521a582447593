/** The in-memory merge of two stored trees. */
module Merging {
  import opened Wrappers
  import opened Trees
  import opened MemoryManifest

  /** What the merge puts under one name. */
  function MergeSlot(a: Option<Node>, b: Option<Node>): Option<MemEntry> {
    match (a, b)
    case (None, None) => None
    case (Some(x), None) => Some(Convert(x))
    case (None, Some(y)) => Some(Convert(y))
    case (Some(x), Some(y)) => Some(MergeNodes(x, y))
  }

  predicate IsFile(n: Option<Node>) {
    n.Some? && n.value.File?
  }

  function DirPart(n: Option<Node>): Option<Node> {
    if IsFile(n) then None else n
  }

  lemma MergedSlots(a: Option<Node>, b: Option<Node>, name: Name)
    requires !IsFile(a) && !IsFile(b)
    ensures var t := Descend(MergeSlot(a, b));
            && t.MemTree? && (t.base.Some? ==> t.p2.None?)
            && (MergeSlot(a, b).Some? ==> MergeSlot(a, b) == Some(t))
            && Slot(t, name) == MergeSlot(ChildOf(a, name), ChildOf(b, name))
  {
    match (a, b)
    case (None, None) =>
    case (Some(x), None) =>
    case (None, Some(y)) =>
    case (Some(x), Some(y)) =>
      assert MergeNodes(x, y) == if x == y then Convert(x) else MergeTrees(x, y, Some(x), Some(y));
      if x == y && name in x.children {
        var n := x.children[name];
        assert MergeNodes(n, n) == Convert(n);
      }
  }

  lemma NewRootIsMerge(p1: Option<Manifest>, p2: Option<Manifest>)
    ensures NewRoot(p1, p2) == Ok(Descend(MergeSlot(p1, p2)))
  {
  }

  // Where the merge has conflicts.

  function EntryAt(slot: Option<MemEntry>, p: Path): Option<MemEntry>
    decreases |p|
  {
    if p == [] then slot
    else if slot.Some? && slot.value.MemTree? then EntryAt(Slot(slot.value, p[0]), p[1..])
    else None
  }

  predicate Clash(a: Option<Node>, b: Option<Node>) {
    a.Some? && b.Some? && a != b && (a.value.File? || b.value.File?)
  }

  /** The merge has a conflict exactly where both parents have an entry, the entries differ and at least
      one of them is a file. */
  lemma {:induction false} ConflictsExactly(a: Option<Node>, b: Option<Node>, p: Path)
    ensures var e := EntryAt(MergeSlot(a, b), p);
            e.Some? && e.value.Conflict? <==> Clash(NodeAt(a, p), NodeAt(b, p))
    decreases |p|
  {
    if p == [] {
      if a.Some? && b.Some? && a.value.Dir? && b.value.Dir? {
        MergedSlots(a, b, Name([]));
      }
    } else if IsFile(a) || IsFile(b) {
      NothingUnderFile(a, b, p);
    } else {
      MergedSlots(a, b, p[0]);
      if MergeSlot(a, b).Some? {
        ConflictsExactly(ChildOf(a, p[0]), ChildOf(b, p[0]), p[1..]);
      } else {
        NothingInside(p[1..]);
      }
    }
  }

  lemma {:induction false} NothingUnderFile(a: Option<Node>, b: Option<Node>, p: Path)
    requires (IsFile(a) || IsFile(b)) && p != []
    ensures NodeAt(a, p).None? || NodeAt(b, p).None?
    ensures var e := EntryAt(MergeSlot(a, b), p); e.Some? ==> !e.value.Conflict?
  {
    if IsFile(a) { NothingBelow(a, p); } else { NothingBelow(b, p); }
    assert MergeSlot(a, b).Some? && !MergeSlot(a, b).value.MemTree?;
  }
}
