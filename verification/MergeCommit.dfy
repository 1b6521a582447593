/** A merge commit that records no change: when its manifest can be built, and what it then holds. */
module MergeCommit {
  import opened Wrappers
  import opened Trees
  import opened MemoryManifest
  import opened Overlay
  import opened Merging
  import RoundTrip

  /** Wherever the parents clash, both have a file of the same type and content. */
  ghost predicate Resolvable(a: Option<Node>, b: Option<Node>) {
    forall p :: Clash(NodeAt(a, p), NodeAt(b, p)) ==> SameFile(NodeAt(a, p), NodeAt(b, p))
  }

  /** One parent's file, or for two of equal content a new file with both as its parents. */
  function MergedFile(f: Option<Node>, g: Option<Node>): Option<Node> {
    match (f, g)
    case (Some(File(t, i)), Some(File(_, j))) =>
      if f == g then f else Some(File(t, FileId(i.content, multiset{i, j})))
    case _ => if f.Some? then f else g
  }

  function ResolvedSlot(slot: Option<MemEntry>): Option<MemEntry> {
    if slot.Some? then Some(ResolveTrivial(slot.value)) else None
  }

  lemma {:induction false} ResolveSlot(e: MemEntry, name: Name)
    requires e.MemTree?
    ensures ResolveTrivial(e).MemTree? && Slot(ResolveTrivial(e), name) == ResolvedSlot(Slot(e, name))
  {
  }

  /** Resolving acts on each entry by itself. */
  lemma {:induction false} ResolveAt(slot: Option<MemEntry>, p: Path)
    ensures EntryAt(ResolvedSlot(slot), p) == ResolvedSlot(EntryAt(slot, p))
    decreases |p|
  {
    if p != [] && slot.Some? && slot.value.MemTree? {
      ResolveSlot(slot.value, p[0]);
      ResolveAt(Slot(slot.value, p[0]), p[1..]);
    }
  }

  /** Where both parents have an entry, the merge has the merge of the two. */
  lemma {:induction false} MergeAt(a: Option<Node>, b: Option<Node>, p: Path)
    requires NodeAt(a, p).Some? && NodeAt(b, p).Some?
    ensures EntryAt(MergeSlot(a, b), p) == MergeSlot(NodeAt(a, p), NodeAt(b, p))
    decreases |p|
  {
    if p != [] {
      assert !IsFile(a) && !IsFile(b) && a.Some? && b.Some? by {
        NothingInside(p[1..]);
      }
      MergedSlots(a, b, p[0]);
      MergeAt(ChildOf(a, p[0]), ChildOf(b, p[0]), p[1..]);
    }
  }

  /** After resolving, a conflict is left exactly where the parents clash with different files. */
  lemma {:induction false} ConflictsLeft(a: Option<Node>, b: Option<Node>, p: Path)
    ensures var e := EntryAt(ResolvedSlot(MergeSlot(a, b)), p);
            e.Some? && e.value.Conflict?
            <==> Clash(NodeAt(a, p), NodeAt(b, p)) && !SameFile(NodeAt(a, p), NodeAt(b, p))
  {
    ResolveAt(MergeSlot(a, b), p);
    ConflictsExactly(a, b, p);
    if Clash(NodeAt(a, p), NodeAt(b, p)) {
      MergeAt(a, b, p);
    }
  }

  predicate HasConflict(e: MemEntry) {
    match e
    case Blob(_) => false
    case Conflict(_) => true
    case MemTree(_, _, _, changes) =>
      exists name :: name in changes && changes[name].Some? && HasConflict(changes[name].value)
  }

  lemma {:induction false} FindConflict(e: MemEntry) returns (p: Path)
    requires HasConflict(e)
    ensures EntryAt(Some(e), p).Some? && EntryAt(Some(e), p).value.Conflict?
    decreases e
  {
    p := [];
    if e.MemTree? {
      var name :| name in e.changes && e.changes[name].Some? && HasConflict(e.changes[name].value);
      var q := FindConflict(e.changes[name].value);
      p := [name] + q;
      assert p[1..] == q;
    }
  }

  lemma {:induction false} SettledHasNone(slot: Option<MemEntry>, p: Path)
    requires SettledSlot(slot)
    ensures EntryAt(slot, p).Some? ==> !EntryAt(slot, p).value.Conflict?
    decreases |p|
  {
    if p != [] && slot.Some? && slot.value.MemTree? {
      SlotsSettled(slot.value, p[0]);
      SettledHasNone(Slot(slot.value, p[0]), p[1..]);
    }
  }

  lemma {:induction false} ChildFailsSave(e: MemEntry, name: Name)
    requires IsModified(e) && name in NewChildren(e)
    requires !IsEmpty(NewChildren(e)[name]) && Save(NewChildren(e)[name]) == Err(UnresolvedConflicts)
    ensures Save(e) == Err(UnresolvedConflicts)
  {
    var saved := map k | k in NewChildren(e) && !IsEmpty(NewChildren(e)[k]) ::
      (ChildHeight(e, k); Save(NewChildren(e)[k]));
    assert name in saved && saved[name] == Err(UnresolvedConflicts);
  }

  lemma {:induction false} ConflictFailsSave(e: MemEntry)
    requires HasConflict(e)
    ensures !IsEmpty(e) && Save(e) == Err(UnresolvedConflicts)
    decreases e
  {
    if e.MemTree? {
      var name :| name in e.changes && e.changes[name].Some? && HasConflict(e.changes[name].value);
      ConflictFailsSave(e.changes[name].value);
      assert name in NewChildren(e) && NewChildren(e)[name] == e.changes[name].value;
      ChildFailsSave(e, name);
    }
  }

  /** The merge of two stored entries is without conflicts once resolved, or a conflict is left in it. */
  lemma {:induction false} SettledOrConflict(x: Node, y: Node)
    ensures var e := ResolveTrivial(MergeNodes(x, y)); !HasConflict(e) ==> Settled(e)
    decreases x
  {
    if x.Dir? && y.Dir? && x != y {
      var m := MergeNodes(x, y);
      assert m == MergeTrees(x, y, Some(x), Some(y));
      var e := ResolveTrivial(m);
      forall name | name in e.changes && !HasConflict(e)
        ensures e.changes[name].Some? && Settled(e.changes[name].value)
      {
        assert !HasConflict(e.changes[name].value);
        if name in x.children && name in y.children {
          SettledOrConflict(x.children[name], y.children[name]);
        } else {
          var n := if name in x.children then x.children[name] else y.children[name];
          ConvertSettled(n);
          RoundTrip.NothingToResolve(Convert(n));
        }
      }
    } else if x == y {
      ConvertSettled(x);
      RoundTrip.NothingToResolve(Convert(x));
    }
  }

  lemma ResolvableBelow(a: Option<Node>, b: Option<Node>, name: Name)
    requires Resolvable(a, b)
    ensures Resolvable(ChildOf(a, name), ChildOf(b, name))
  {
    forall p | Clash(NodeAt(ChildOf(a, name), p), NodeAt(ChildOf(b, name), p))
      ensures SameFile(NodeAt(ChildOf(a, name), p), NodeAt(ChildOf(b, name), p))
    {
      assert NodeAt(a, [name] + p) == NodeAt(ChildOf(a, name), p);
      assert NodeAt(b, [name] + p) == NodeAt(ChildOf(b, name), p);
    }
  }

  lemma {:induction false} MergeShows(a: Option<Node>, b: Option<Node>, p: Path)
    requires Resolvable(a, b)
    ensures VisibleSlot(ResolvedSlot(MergeSlot(a, b)), p) == MergedFile(FileAt(a, p), FileAt(b, p))
    decreases |p|
  {
    if IsFile(a) || IsFile(b) {
      FileShows(a, b, p);
    } else if p != [] {
      MergedSlots(a, b, p[0]);
      if MergeSlot(a, b).Some? {
        ResolveSlot(MergeSlot(a, b).value, p[0]);
      }
      ResolvableBelow(a, b, p[0]);
      MergeShows(ChildOf(a, p[0]), ChildOf(b, p[0]), p[1..]);
    } else {
      MergedSlots(a, b, Name([]));
    }
  }

  lemma {:induction false} FileShows(a: Option<Node>, b: Option<Node>, p: Path)
    requires Resolvable(a, b) && (IsFile(a) || IsFile(b))
    ensures VisibleSlot(ResolvedSlot(MergeSlot(a, b)), p) == MergedFile(FileAt(a, p), FileAt(b, p))
  {
    NothingInside(p);
    assert NodeAt(a, []) == a && NodeAt(b, []) == b;
    if IsFile(a) && p != [] {
      NothingBelow(a, p);
    }
    if IsFile(b) && p != [] {
      NothingBelow(b, p);
    }
    if a.Some? && b.Some? {
      assert IsFile(a) && IsFile(b);
      if p != [] {
        NothingBelow(Some(ResolveTrivial(MergeNodes(a.value, b.value)).entry), p);
      }
    }
  }

  /** Without recorded changes the manifest of a merge can be built if and only if all clashing files have
      equal type and content; it then holds the files of both parents. */
  lemma MergeWithoutChanges(x: Manifest, y: Manifest, p: Path)
    ensures var built := ManifestFromBonsai(Some(x), Some(y), []);
            && (built.Ok? <==> Resolvable(Some(x), Some(y)))
            && (built.Err? ==> built.error == UnresolvedConflicts)
            && (built.Ok? ==> FileAt(Some(built.value), p) == MergedFile(FileAt(Some(x), p), FileAt(Some(y), p)))
  {
    NewRootIsMerge(Some(x), Some(y));
    var merged := MergeNodes(x, y);
    MergedSlots(Some(x), Some(y), Name([]));
    var e := ResolveTrivial(merged);
    if HasConflict(e) {
      var q := FindConflict(e);
      ConflictsLeft(Some(x), Some(y), q);
      ConflictFailsSave(e);
    } else {
      SettledOrConflict(x, y);
      forall q | Clash(NodeAt(Some(x), q), NodeAt(Some(y), q))
        ensures SameFile(NodeAt(Some(x), q), NodeAt(Some(y), q))
      {
        ConflictsLeft(Some(x), Some(y), q);
        SettledHasNone(Some(e), q);
      }
      MergeShows(Some(x), Some(y), p);
      SaveWritesVisible(e, p);
    }
  }
}
