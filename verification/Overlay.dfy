/** What an in-memory manifest shows, and how its operations act on that view. */
module Overlay {
  import opened Wrappers
  import opened Trees
  import opened MemoryManifest

  /** The visible file map, as a lookup. */
  function VisibleAt(e: MemEntry, p: Path): Option<Node>
    decreases |p|, 0
  {
    match e
    case Blob(entry) => FileAt(Some(entry), p)
    case Conflict(_) => None
    case MemTree(_, _, _, _) => if p == [] then None else VisibleSlot(Slot(e, p[0]), p[1..])
  }

  function VisibleSlot(slot: Option<MemEntry>, p: Path): Option<Node>
    decreases |p|, 1
  {
    if slot.None? then None else VisibleAt(slot.value, p)
  }

  /** No conflict anywhere, and no tree claims to be both unread and a merge. */
  predicate Settled(e: MemEntry) {
    match e
    case Blob(_) => true
    case Conflict(_) => false
    case MemTree(base, _, p2, changes) =>
      (base.Some? ==> p2.None?) &&
      forall name | name in changes :: changes[name].Some? ==> Settled(changes[name].value)
  }

  predicate SettledSlot(slot: Option<MemEntry>) {
    slot.Some? ==> Settled(slot.value)
  }

  lemma {:induction false} ConvertShows(n: Node, p: Path)
    ensures VisibleAt(Convert(n), p) == FileAt(Some(n), p)
    decreases |p|
  {
    if n.Dir? && p != [] {
      if p[0] in n.children {
        ConvertShows(n.children[p[0]], p[1..]);
      } else {
        NothingInside(p[1..]);
      }
    }
  }

  lemma {:induction false} SlotsSettled(e: MemEntry, name: Name)
    requires e.MemTree? && Settled(e)
    ensures SettledSlot(Slot(e, name))
  {
  }

  // Saving.

  lemma {:induction false} EmptyShowsNothing(e: MemEntry, p: Path)
    requires IsEmpty(e)
    ensures VisibleAt(e, p).None?
    decreases |p|
  {
    if p != [] && Slot(e, p[0]).Some? {
      assert NewChildren(e)[p[0]] == Slot(e, p[0]).value;
      EmptyShowsNothing(Slot(e, p[0]).value, p[1..]);
    }
  }

  lemma {:induction false} SaveSucceeds(e: MemEntry)
    requires Settled(e)
    ensures Save(e).Ok?
    ensures e.MemTree? ==> Save(e).value.Dir?
    decreases EntryHeight(e)
  {
    if IsModified(e) {
      forall name | name in NewChildren(e) ensures Save(NewChildren(e)[name]).Ok? {
        ChildHeight(e, name);
        assert Slot(e, name) == Some(NewChildren(e)[name]);
        SaveSucceeds(NewChildren(e)[name]);
      }
    }
  }

  lemma {:induction false} SavedChild(e: MemEntry, name: Name)
    requires Settled(e) && IsModified(e)
    ensures Save(e).Ok? && Save(e).value.Dir?
    ensures name in Save(e).value.children <==> name in NewChildren(e) && !IsEmpty(NewChildren(e)[name])
    ensures name in Save(e).value.children ==>
      Settled(NewChildren(e)[name]) && Save(NewChildren(e)[name]) == Ok(Save(e).value.children[name])
  {
    SaveSucceeds(e);
    if name in NewChildren(e) {
      assert Slot(e, name) == Some(NewChildren(e)[name]);
      SaveSucceeds(NewChildren(e)[name]);
    }
  }

  /** Saving a manifest without conflicts writes exactly the files it shows. */
  lemma {:induction false} SaveWritesVisible(e: MemEntry, p: Path)
    requires Settled(e)
    ensures Save(e).Ok? && FileAt(Some(Save(e).value), p) == VisibleAt(e, p)
    decreases |p|
  {
    SaveSucceeds(e);
    if e.MemTree? && !IsModified(e) {
      ConvertShows(e.base.value, p);
      if p != [] {
        assert Slot(e, p[0]) == Slot(Convert(e.base.value), p[0]);
      }
    } else if e.MemTree? && p != [] {
      SavedChild(e, p[0]);
      if p[0] in NewChildren(e) {
        var child := NewChildren(e)[p[0]];
        assert Slot(e, p[0]) == Some(child);
        if IsEmpty(child) {
          EmptyShowsNothing(child, p[1..]);
          NothingInside(p[1..]);
        } else {
          SaveWritesVisible(child, p[1..]);
        }
      } else {
        assert Slot(e, p[0]).None?;
        NothingInside(p[1..]);
      }
    }
  }

  /** The stored manifests that an entry refers to hold no empty directories. */
  predicate TidyBelow(e: MemEntry) {
    match e
    case Blob(entry) => NoEmptyDirs(entry)
    case Conflict(entries) => forall e | e in entries :: TidyBelow(e) && NotEmptyStored(e)
    case MemTree(base, _, _, changes) =>
      (base.Some? ==> NoEmptyDirs(base.value)) &&
      forall name | name in changes :: changes[name].Some? ==>
        TidyBelow(changes[name].value) && NotEmptyStored(changes[name].value)
  }

  predicate TidySlot(slot: Option<MemEntry>) {
    slot.Some? ==> TidyBelow(slot.value) && NotEmptyStored(slot.value)
  }

  predicate NotEmptyStored(e: MemEntry) {
    match e
    case Blob(entry) => entry.Dir? ==> entry.children != map[]
    case Conflict(_) => true
    case MemTree(base, _, _, _) => base.Some? ==> base.value.children != map[]
  }

  /** If the stored manifests have no empty directory below their root, neither has the saved one. */
  lemma {:induction false} SaveWritesNoEmptyDirs(e: MemEntry)
    requires Settled(e) && TidyBelow(e)
    ensures Save(e).Ok? && NoEmptyDirs(Save(e).value)
    ensures NotEmptyStored(e) && !IsEmpty(e) && Save(e).value.Dir? ==> Save(e).value.children != map[]
    decreases EntryHeight(e)
  {
    SaveSucceeds(e);
    if IsModified(e) {
      forall name | name in NewChildren(e) && !IsEmpty(NewChildren(e)[name])
        ensures name in Save(e).value.children
        ensures NoEmptyDirs(Save(e).value.children[name])
        ensures Save(e).value.children[name].Dir? ==> Save(e).value.children[name].children != map[]
      {
        SavedChild(e, name);
        ChildHeight(e, name);
        SaveWritesNoEmptyDirs(NewChildren(e)[name]);
      }
      forall name | name in Save(e).value.children
        ensures name in NewChildren(e) && !IsEmpty(NewChildren(e)[name])
      {
        SavedChild(e, name);
      }
    }
  }

  // Changing one path, read recursively.

  function ApplyAt(e: MemEntry, path: Path, change: Option<Node>): Outcome
    requires path != []
    decreases |path|
  {
    if |path| == 1 then Change(e, path[0], change)
    else if !e.MemTree? then Outcome(e, Some(PathNotFound))
    else
      var below := ApplyAt(Descend(Slot(e, path[0])), path[1..], change);
      Outcome(e.(changes := e.changes[path[0] := Some(below.root)]), below.error)
  }

  /** Finding the directory, changing the entry and writing it back is one recursive descent. */
  lemma {:induction false} ChangeEntryDescends(e: MemEntry, path: Path, change: Option<Node>)
    requires path != []
    ensures ChangeEntry(e, path, change) == ApplyAt(e, path, change)
    decreases |path|
  {
    var dir := path[..|path| - 1];
    if |path| > 1 && e.MemTree? {
      var child := Descend(Slot(e, path[0]));
      var rest := path[1..];
      assert rest[..|rest| - 1] == dir[1..];
      assert rest[|rest| - 1] == path[|path| - 1];
      ChangeEntryDescends(child, rest, change);
      var below := FindMut(child, dir[1..]);
      if below.target.Some? {
        var changed := Change(below.target.value, path[|path| - 1], change);
        var grafted := Graft(below.root, dir[1..], changed.root);
        assert e.changes[path[0] := Some(below.root)][path[0] := Some(grafted)] == e.changes[path[0] := Some(grafted)];
      }
    }
  }

  /** Some entry on the way to `path` is a stored entry that cannot be descended into. */
  predicate Blocked(e: MemEntry, path: Path)
    decreases |path|
  {
    path != [] && (e.Blob? || (e.MemTree? && Slot(e, path[0]).Some? && Blocked(Slot(e, path[0]).value, path[1..])))
  }

  /** What is visible after setting `path` to `change`. */
  function Overwritten(e: MemEntry, path: Path, change: Option<Node>, q: Path): Option<Node> {
    if path <= q then FileAt(change, q[|path|..]) else VisibleAt(e, q)
  }

  lemma ConvertSettled(n: Node)
    ensures Settled(Convert(n))
  {
  }

  predicate Overwrites(e: MemEntry, path: Path, change: Option<Node>, q: Path, r: Outcome) {
    && Settled(r.root)
    && (r.error.Some? <==> Blocked(e, path))
    && VisibleAt(r.root, q) == (if r.error.Some? then VisibleAt(e, q) else Overwritten(e, path, change, q))
  }

  lemma {:induction false} ChangeOverwrites(e: MemEntry, name: Name, change: Option<Node>, q: Path)
    requires e.MemTree? && Settled(e)
    ensures Overwrites(e, [name], change, q, Change(e, name, change))
  {
    var r := Change(e, name, change);
    assert !Blocked(e, [name]);
    if q != [] && q[0] == name {
      assert [name] <= q;
      NothingInside(q[1..]);
      assert VisibleAt(r.root, q) == VisibleSlot(Slot(r.root, name), q[1..]) == FileAt(change, q[1..]);
    } else {
      assert !([name] <= q);
    }
  }

  lemma {:induction false} DescendOverwrites(e: MemEntry, path: Path, change: Option<Node>, q: Path, below: Outcome)
    requires e.MemTree? && Settled(e) && |path| > 1
    requires Overwrites(Descend(Slot(e, path[0])), path[1..], change, if q != [] then q[1..] else [], below)
    ensures Overwrites(e, path, change, q, Outcome(e.(changes := e.changes[path[0] := Some(below.root)]), below.error))
  {
    var name := path[0];
    var slot := Slot(e, name);
    var child := Descend(slot);
    SlotsSettled(e, name);
    assert Blocked(e, path) <==> Blocked(child, path[1..]);
    if q != [] && q[0] == name {
      assert path <= q <==> path[1..] <= q[1..];
      assert path <= q ==> q[|path|..] == q[1..][|path[1..]|..];
      assert VisibleAt(child, q[1..]) == VisibleSlot(slot, q[1..]);
    } else {
      assert !(path <= q);
    }
  }

  lemma {:induction false} ApplyAtOverwrites(e: MemEntry, path: Path, change: Option<Node>, q: Path)
    requires path != [] && Settled(e)
    ensures Overwrites(e, path, change, q, ApplyAt(e, path, change))
    decreases |path|
  {
    if e.MemTree? {
      if |path| == 1 {
        assert path == [path[0]];
        ChangeOverwrites(e, path[0], change, q);
      } else {
        SlotsSettled(e, path[0]);
        var child := Descend(Slot(e, path[0]));
        ApplyAtOverwrites(child, path[1..], change, if q != [] then q[1..] else []);
        DescendOverwrites(e, path, change, q, ApplyAt(child, path[1..], change));
      }
    }
  }

  /** On a manifest without conflicts, a change alters its own path and what lay beneath it and nothing
      else; it fails exactly when a stored entry blocks the way, and then shows the same files. */
  lemma {:induction false} ChangeAltersOnlyItsPath(e: MemEntry, path: Path, change: Option<Node>, q: Path)
    requires path != [] && Settled(e)
    ensures var r := ChangeEntry(e, path, change);
            && Settled(r.root)
            && (r.error.Some? <==> Blocked(e, path))
            && VisibleAt(r.root, q) == (if r.error.Some? then VisibleAt(e, q) else Overwritten(e, path, change, q))
  {
    ChangeEntryDescends(e, path, change);
    ApplyAtOverwrites(e, path, change, q);
  }

  /** Looking a directory up for writing creates and reads directories but shows the same files. */
  lemma {:induction false} FindMutShowsSame(e: MemEntry, dir: Path, q: Path)
    requires Settled(e)
    ensures var found := FindMut(e, dir);
            && Settled(found.root)
            && VisibleAt(found.root, q) == VisibleAt(e, q)
            && (found.target.None? <==> Blocked(e, dir))
    decreases |dir|
  {
    if dir != [] && e.MemTree? {
      var slot := Slot(e, dir[0]);
      SlotsSettled(e, dir[0]);
      var child := Descend(slot);
      var tail := if q != [] then q[1..] else [];
      FindMutShowsSame(child, dir[1..], tail);
      if q != [] && q[0] == dir[0] {
        assert VisibleAt(child, tail) == VisibleSlot(slot, tail);
      }
    }
  }

  // A change acts on one slot of a tree.

  datatype SlotOutcome = SlotOutcome(slot: Option<MemEntry>, error: Option<Error>)

  function ApplySlot(slot: Option<MemEntry>, path: Path, change: Option<Node>): SlotOutcome {
    if path == [] then
      match ChangeSlot(slot, change)
      case Ok(changed) => SlotOutcome(changed, None)
      case Err(error) => SlotOutcome(slot, Some(error))
    else
      var r := ApplyAt(Descend(slot), path, change);
      SlotOutcome(Some(r.root), r.error)
  }

  lemma {:induction false} ApplyAtIsSlot(e: MemEntry, path: Path, change: Option<Node>)
    requires e.MemTree? && path != []
    ensures var s := ApplySlot(Slot(e, path[0]), path[1..], change);
            ApplyAt(e, path, change) == Outcome(e.(changes := e.changes[path[0] := s.slot]), s.error)
  {
  }

  lemma {:induction false} ApplyAtKeepsKind(e: MemEntry, path: Path, change: Option<Node>)
    requires path != []
    ensures var r := ApplyAt(e, path, change).root;
            && (e.MemTree? <==> r.MemTree?)
            && (!e.MemTree? ==> r == e)
            && (e.MemTree? ==> r.base == e.base && r.p1 == e.p1 && r.p2 == e.p2)
  {
  }

  lemma ChangeSlotKeepsTidy(slot: Option<MemEntry>, change: Option<Node>)
    requires TidySlot(slot) && (change.Some? ==> change.value.File?)
    ensures ChangeSlot(slot, change).Ok? ==> TidySlot(ChangeSlot(slot, change).value)
  {
  }

  lemma {:induction false} ApplyAtKeepsTidy(e: MemEntry, path: Path, change: Option<Node>)
    requires path != [] && TidyBelow(e) && (change.Some? ==> change.value.File?)
    ensures TidyBelow(ApplyAt(e, path, change).root)
    decreases |path|
  {
    if e.MemTree? {
      assert TidySlot(Slot(e, path[0]));
      if |path| == 1 {
        ChangeSlotKeepsTidy(if path[0] in e.changes then e.changes[path[0]] else None, change);
      } else {
        ApplyAtKeepsTidy(Descend(Slot(e, path[0])), path[1..], change);
        ApplyAtKeepsKind(Descend(Slot(e, path[0])), path[1..], change);
      }
    }
  }

  /** Two changes below one name act on that child one after the other. */
  lemma {:induction false} SameHead(e: MemEntry, p: Path, c: Option<Node>, q: Path, d: Option<Node>)
    requires e.MemTree? && |p| > 1 && |q| > 1 && p[0] == q[0]
    ensures var first := ApplyAt(Descend(Slot(e, p[0])), p[1..], c);
            var second := ApplyAt(first.root, q[1..], d);
            && ApplyAt(e, p, c).error == first.error
            && ApplyAt(ApplyAt(e, p, c).root, q, d)
               == Outcome(e.(changes := e.changes[p[0] := Some(second.root)]), second.error)
  {
    var first := ApplyAt(Descend(Slot(e, p[0])), p[1..], c);
    ApplyAtKeepsKind(Descend(Slot(e, p[0])), p[1..], c);
    assert Slot(ApplyAt(e, p, c).root, p[0]) == Some(first.root);
    assert Descend(Some(first.root)) == first.root;
    var second := ApplyAt(first.root, q[1..], d);
    assert e.changes[p[0] := Some(first.root)][p[0] := Some(second.root)] == e.changes[p[0] := Some(second.root)];
  }

  function Put(e: MemEntry, name: Name, slot: Option<MemEntry>): (r: MemEntry)
    requires e.MemTree?
    ensures r.MemTree?
  {
    e.(changes := e.changes[name := slot])
  }

  lemma PutCommutes(e: MemEntry, n: Name, a: Option<MemEntry>, m: Name, b: Option<MemEntry>)
    requires e.MemTree? && n != m
    ensures Put(Put(e, n, a), m, b) == Put(Put(e, m, b), n, a)
    ensures Slot(Put(e, n, a), m) == Slot(e, m)
  {
  }

  lemma {:induction false} OtherHead(e: MemEntry, p: Path, c: Option<Node>, q: Path, d: Option<Node>, sp: SlotOutcome,
                                     sq: SlotOutcome)
    requires e.MemTree? && p != [] && q != [] && p[0] != q[0]
    requires sp == ApplySlot(Slot(e, p[0]), p[1..], c)
    requires sq == ApplySlot(Slot(e, q[0]), q[1..], d)
    ensures ApplyAt(e, p, c).error == sp.error
    ensures ApplyAt(ApplyAt(e, p, c).root, q, d) == Outcome(Put(Put(e, p[0], sp.slot), q[0], sq.slot), sq.error)
  {
    ApplyAtIsSlot(e, p, c);
    PutCommutes(e, p[0], sp.slot, q[0], sq.slot);
    ApplyAtIsSlot(Put(e, p[0], sp.slot), q, d);
  }

  predicate Commute(e: MemEntry, p: Path, c: Option<Node>, q: Path, d: Option<Node>)
    requires p != [] && q != []
  {
    var first, second := ApplyAt(e, p, c), ApplyAt(e, q, d);
    && ApplyAt(first.root, q, d) == Outcome(ApplyAt(second.root, p, c).root, second.error)
    && ApplyAt(second.root, p, c).error == first.error
  }

  lemma OtherHeadCommutes(e: MemEntry, p: Path, c: Option<Node>, q: Path, d: Option<Node>)
    requires e.MemTree? && p != [] && q != [] && p[0] != q[0]
    ensures Commute(e, p, c, q, d)
  {
    var sp, sq := ApplySlot(Slot(e, p[0]), p[1..], c), ApplySlot(Slot(e, q[0]), q[1..], d);
    OtherHead(e, p, c, q, d, sp, sq);
    OtherHead(e, q, d, p, c, sq, sp);
    PutCommutes(e, p[0], sp.slot, q[0], sq.slot);
  }

  lemma SameHeadCommutes(e: MemEntry, p: Path, c: Option<Node>, q: Path, d: Option<Node>)
    requires e.MemTree? && |p| > 1 && |q| > 1 && p[0] == q[0]
    requires Commute(Descend(Slot(e, p[0])), p[1..], c, q[1..], d)
    ensures Commute(e, p, c, q, d)
  {
    SameHead(e, p, c, q, d);
    SameHead(e, q, d, p, c);
  }

  lemma {:induction false} ApplyAtCommutes(e: MemEntry, p: Path, c: Option<Node>, q: Path, d: Option<Node>)
    requires p != [] && q != [] && !(p <= q) && !(q <= p)
    ensures Commute(e, p, c, q, d)
    decreases |p|
  {
    if !e.MemTree? {
      ApplyAtKeepsKind(e, p, c);
      ApplyAtKeepsKind(e, q, d);
    } else if p[0] != q[0] {
      OtherHeadCommutes(e, p, c, q, d);
    } else {
      assert !(p[1..] <= q[1..]) && !(q[1..] <= p[1..]) by {
        assert p == [p[0]] + p[1..] && q == [q[0]] + q[1..];
      }
      ApplyAtCommutes(Descend(Slot(e, p[0])), p[1..], c, q[1..], d);
      SameHeadCommutes(e, p, c, q, d);
    }
  }

  /** Two changes of which neither path is a prefix of the other can be made in either order: the same
      manifest results and each change fails or succeeds as it would in the other order, even if they
      meet in directories that are missing, unread or in conflict. */
  lemma ChangesCommute(e: MemEntry, p: Path, c: Option<Node>, q: Path, d: Option<Node>)
    requires p != [] && q != [] && !(p <= q) && !(q <= p)
    ensures var first, second := ChangeEntry(e, p, c), ChangeEntry(e, q, d);
            && ChangeEntry(first.root, q, d) == Outcome(ChangeEntry(second.root, p, c).root, second.error)
            && ChangeEntry(second.root, p, c).error == first.error
  {
    var first, second := ChangeEntry(e, p, c), ChangeEntry(e, q, d);
    ChangeEntryDescends(e, p, c);
    ChangeEntryDescends(e, q, d);
    ChangeEntryDescends(first.root, q, d);
    ChangeEntryDescends(second.root, p, c);
    ApplyAtCommutes(e, p, c, q, d);
  }
}
