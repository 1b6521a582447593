/** What applying the changes of a diff leaves behind, for every order of the changes. */
module AnyOrder {
  import opened Wrappers
  import opened Trees
  import opened BonsaiDiff
  import opened MemoryManifest
  import opened Overlay
  import opened ChangeOrder
  import opened Merging

  // Trees that hold nothing but changes.

  predicate Fresh(e: MemEntry) {
    match e
    case Blob(entry) => entry.File?
    case Conflict(_) => false
    case MemTree(base, _, _, changes) =>
      base.None? && forall name | name in changes :: changes[name].Some? ==> Fresh(changes[name].value)
  }

  lemma {:induction false} FreshIsSettled(e: MemEntry)
    requires Fresh(e)
    ensures Settled(e)
    decreases e
  {
    if e.MemTree? {
      forall name | name in e.changes && e.changes[name].Some? ensures Settled(e.changes[name].value) {
        FreshIsSettled(e.changes[name].value);
      }
    }
  }

  lemma {:induction false} ApplyAtKeepsFresh(e: MemEntry, path: Path, change: Option<Node>)
    requires Fresh(e) && path != [] && (change.Some? ==> change.value.File?)
    ensures Fresh(ApplyAt(e, path, change).root)
    decreases |path|
  {
    if |path| > 1 && e.MemTree? {
      ApplyAtKeepsFresh(Descend(Slot(e, path[0])), path[1..], change);
    }
  }

  lemma {:induction false} BlockedByFile(e: MemEntry, path: Path) returns (r: Path)
    requires Fresh(e) && Blocked(e, path)
    ensures r < path && VisibleAt(e, r).Some?
    decreases |path|
  {
    r := [];
    if e.MemTree? {
      var below := BlockedByFile(Slot(e, path[0]).value, path[1..]);
      r := [path[0]] + below;
      assert r[1..] == below;
      assert path == [path[0]] + path[1..];
    }
  }

  /** No file is put above another change. */
  ghost predicate NoBlocks(changes: seq<FileChange>) {
    forall x, y | x in changes && y in changes && x.entry.Some? :: x.entry.value.File? && !(x.path < y.path)
  }

  ghost predicate NothingAbove(e: MemEntry, changes: seq<FileChange>) {
    forall x, r | x in changes && r < x.path :: VisibleAt(e, r).None?
  }

  /** What is visible at `q` after the changes, each overwriting its path and what lies beneath it. */
  function FinalAt(changes: seq<FileChange>, q: Path, visible: Option<Node>): Option<Node>
    decreases |changes|
  {
    if changes == [] then visible
    else
      var x := changes[0];
      FinalAt(changes[1..], q, if x.path <= q then FileAt(x.entry, q[|x.path|..]) else visible)
  }

  lemma {:induction false} FreshStep(e: MemEntry, changes: seq<FileChange>)
    requires e.MemTree? && Fresh(e) && changes != [] && changes[0].path != []
    requires NoBlocks(changes) && NothingAbove(e, changes)
    ensures var r := ChangeEntry(e, changes[0].path, changes[0].entry);
            && r.error.None? && r.root.MemTree? && Fresh(r.root)
            && (forall q :: VisibleAt(r.root, q) == Overwritten(e, changes[0].path, changes[0].entry, q))
            && NothingAbove(r.root, changes[1..])
  {
    var x := changes[0];
    FreshIsSettled(e);
    ChangeEntryDescends(e, x.path, x.entry);
    ApplyAtKeepsFresh(e, x.path, x.entry);
    ApplyAtKeepsKind(e, x.path, x.entry);
    assert x in changes;
    if Blocked(e, x.path) {
      var r := BlockedByFile(e, x.path);
    }
    assert !Blocked(e, x.path);
    ApplyAtOverwrites(e, x.path, x.entry, []);
    var e' := ChangeEntry(e, x.path, x.entry).root;
    forall q ensures VisibleAt(e', q) == Overwritten(e, x.path, x.entry, q) {
      ApplyAtOverwrites(e, x.path, x.entry, q);
    }
    forall y, r | y in changes[1..] && r < y.path ensures VisibleAt(e', r).None? {
      assert VisibleAt(e', r) == Overwritten(e, x.path, x.entry, r);
      if x.path <= r {
        assert x.path < y.path;
        NothingInside(r[|x.path|..]);
      }
    }
  }

  lemma {:induction false} FreshRun(e: MemEntry, changes: seq<FileChange>)
    requires e.MemTree? && Fresh(e) && (forall x | x in changes :: x.path != [])
    requires NoBlocks(changes) && NothingAbove(e, changes)
    ensures var r := ApplyAll(e, changes);
            && r.error.None? && r.root.MemTree? && Fresh(r.root)
            && forall q :: VisibleAt(r.root, q) == FinalAt(changes, q, VisibleAt(e, q))
    decreases |changes|
  {
    if changes != [] {
      FreshStep(e, changes);
      FreshRun(ChangeEntry(e, changes[0].path, changes[0].entry).root, changes[1..]);
    }
  }

  /** The last change that touches a path decides. */
  lemma {:induction false} FinalIs(changes: seq<FileChange>, q: Path, visible: Option<Node>)
    requires Once(changes) && forall x | x in changes :: x.entry.Some? ==> x.entry.value.File?
    ensures !HasPath(changes, q) && (forall p | p < q :: !HasPath(changes, p)) ==>
      FinalAt(changes, q, visible) == visible
    ensures !HasPath(changes, q) && (exists p :: p < q && HasPath(changes, p)) ==> FinalAt(changes, q, visible).None?
    ensures HasPath(changes, q) && Wiped(changes, q) ==> FinalAt(changes, q, visible).None?
    ensures HasPath(changes, q) && !Wiped(changes, q) ==>
      exists x :: x in changes && x.path == q && FinalAt(changes, q, visible) == FileAt(x.entry, [])
    decreases |changes|
  {
    if changes != [] {
      var x, rest := changes[0], changes[1..];
      var visible' := if x.path <= q then FileAt(x.entry, q[|x.path|..]) else visible;
      assert x.path < q ==> visible'.None? by {
        if x.path < q && x.entry.Some? { NothingBelow(x.entry, q[|x.path|..]); }
        if x.path < q && x.entry.None? { NothingInside(q[|x.path|..]); }
      }
      FinalIs(rest, q, visible');
      forall p ensures HasPath(changes, p) <==> x.path == p || HasPath(rest, p) {
        HasPathStep(changes, p);
      }
      forall p ensures Before(changes, q, p) <==> (x.path == q && HasPath(rest, p)) || Before(rest, q, p) {
        BeforeStep(changes, q, p);
      }
      if x.path == q {
        forall p ensures !Before(rest, q, p) {
          if Before(rest, q, p) { BeforeHas(rest, q, p); }
        }
        assert q[|x.path|..] == [];
      }
    }
  }

  // The changes of a diff, one name at a time.

  /** The stored file change keeps the type and the content of the diff result. */
  predicate Records(d: FileDiff, entry: Option<Node>) {
    match d
    case Deleted => entry.None?
    case Changed(ft, id) => entry.Some? && SameFile(entry, Some(File(ft, id)))
    case ChangedReusedId(ft, id) => entry.Some? && SameFile(entry, Some(File(ft, id)))
  }

  ghost predicate Realises(changes: seq<FileChange>, w: Option<Node>, c: CompositeEntry) {
    && Once(changes)
    && (forall x | x in changes :: Expected(w, c, x.path).Some? && Records(Expected(w, c, x.path).value, x.entry))
    && (forall p :: Expected(w, c, p).Some? ==> HasPath(changes, p))
  }

  lemma RealisesNoBlocks(changes: seq<FileChange>, w: Option<Node>, c: CompositeEntry)
    requires Realises(changes, w, c)
    ensures NoBlocks(changes)
  {
    forall x, y | x in changes && y in changes && x.entry.Some? ensures x.entry.value.File? && !(x.path < y.path) {
      if x.path < y.path {
        FileShadows(w, x.path, y.path);
      }
    }
  }

  lemma RecordedFile(changes: seq<FileChange>, w: Option<Node>, c: CompositeEntry, x: FileChange)
    requires Realises(changes, w, c) && x in changes
    ensures SameFile(FileAt(x.entry, []), FileAt(w, x.path))
  {
  }

  lemma CompositeChildOfPair(a: Option<Node>, b: Option<Node>, name: Name)
    ensures CompositeChild(ParentSet(a, b), name) == ParentSet(ChildOf(a, name), ChildOf(b, name))
  {
  }

  lemma ExpectedBelow(w: Option<Node>, a: Option<Node>, b: Option<Node>, name: Name, p: Path)
    requires !IsFile(w)
    ensures Expected(w, ParentSet(a, b), [name] + p)
      == Expected(ChildOf(w, name), ParentSet(ChildOf(a, name), ChildOf(b, name)), p)
  {
    ExpectedStep(w, ParentSet(a, b), [name] + p);
    CompositeChildOfPair(a, b, name);
    assert ([name] + p)[1..] == p;
  }

  lemma {:induction false} TailsRealise(changes: seq<FileChange>, w: Option<Node>, a: Option<Node>, b: Option<Node>,
                                        name: Name)
    requires Realises(changes, w, ParentSet(a, b)) && !IsFile(w)
    ensures Realises(Tails(changes, name), ChildOf(w, name), ParentSet(ChildOf(a, name), ChildOf(b, name)))
  {
    var v, c := ChildOf(w, name), ParentSet(ChildOf(a, name), ChildOf(b, name));
    TailsOnce(changes, name);
    forall x | x in Tails(changes, name)
      ensures Expected(v, c, x.path).Some? && Records(Expected(v, c, x.path).value, x.entry)
    {
      TailsMember(changes, name, x);
      ExpectedBelow(w, a, b, name, x.path);
    }
    forall p | Expected(v, c, p).Some? ensures HasPath(Tails(changes, name), p) {
      ExpectedBelow(w, a, b, name, p);
      TailsHasPath(changes, name, p);
    }
  }

  function ApplySlotAll(slot: Option<MemEntry>, changes: seq<FileChange>): SlotOutcome
    decreases |changes|
  {
    if changes == [] then SlotOutcome(slot, None)
    else
      var first := ApplySlot(slot, changes[0].path, changes[0].entry);
      if first.error.Some? then first else ApplySlotAll(first.slot, changes[1..])
  }

  lemma {:induction false} ApplySlotParts(slot: Option<MemEntry>, front: seq<FileChange>, back: seq<FileChange>)
    requires ApplySlotAll(slot, front).error.None?
    ensures ApplySlotAll(slot, front + back) == ApplySlotAll(ApplySlotAll(slot, front).slot, back)
    decreases |front|
  {
    if front == [] {
      assert front + back == back;
    } else {
      assert (front + back)[1..] == front[1..] + back;
      ApplySlotParts(ApplySlot(slot, front[0].path, front[0].entry).slot, front[1..], back);
    }
  }

  ghost predicate SlotsApplied(t: MemEntry, changes: seq<FileChange>, r: MemEntry)
    requires t.MemTree?
  {
    && r.MemTree? && r.base == t.base && r.p1 == t.p1 && r.p2 == t.p2
    && forall name :: ApplySlotAll(Slot(t, name), Tails(changes, name)) == SlotOutcome(Slot(r, name), None)
  }

  /** The changes to a tree are the changes to its slots, and fail if those to some slot fail. */
  lemma {:induction false} ApplyAllBySlots(t: MemEntry, changes: seq<FileChange>)
    requires t.MemTree? && forall c | c in changes :: c.path != []
    ensures var r := ApplyAll(t, changes);
            if r.error.None? then SlotsApplied(t, changes, r.root)
            else exists name :: ApplySlotAll(Slot(t, name), Tails(changes, name)).error.Some?
    decreases |changes|
  {
    if changes != [] {
      var x, rest := changes[0], changes[1..];
      var name := x.path[0];
      var first := ApplySlot(Slot(t, name), x.path[1..], x.entry);
      ChangeEntryDescends(t, x.path, x.entry);
      ApplyAtIsSlot(t, x.path, x.entry);
      TailsHead(changes, name);
      if first.error.Some? {
        assert ApplySlotAll(Slot(t, name), Tails(changes, name)).error.Some?;
      } else {
        var t' := Put(t, name, first.slot);
        forall n ensures ApplySlotAll(Slot(t, n), Tails(changes, n)) == ApplySlotAll(Slot(t', n), Tails(rest, n)) {
          TailsHead(changes, n);
          assert Slot(t', n) == if n == name then first.slot else Slot(t, n);
        }
        ApplyAllBySlots(t', rest);
      }
    }
  }

  /** Changes strictly below a slot are changes to the tree in it. */
  lemma {:induction false} SlotAllIsApplyAll(slot: Option<MemEntry>, changes: seq<FileChange>)
    requires Descend(slot).MemTree? && forall c | c in changes :: c.path != []
    ensures var r := ApplyAll(Descend(slot), changes);
            ApplySlotAll(slot, changes) == SlotOutcome(if changes == [] then slot else Some(r.root), r.error)
    decreases |changes|
  {
    if changes != [] {
      var x := changes[0];
      ChangeEntryDescends(Descend(slot), x.path, x.entry);
      ApplyAtKeepsKind(Descend(slot), x.path, x.entry);
      var first := ApplySlot(slot, x.path, x.entry);
      if first.error.None? {
        assert Descend(first.slot) == first.slot.value;
        SlotAllIsApplyAll(first.slot, changes[1..]);
      }
    }
  }

  // What is left, by induction over the three trees at once.

  ghost function Left(changes: seq<FileChange>, w: Option<Node>, q: Path): Option<Node> {
    if Lost(changes, q) then None else FileAt(w, q)
  }

  /** The parents have one file here and nothing else. */
  predicate SoleFile(a: Option<Node>, b: Option<Node>) {
    (IsFile(a) || IsFile(b)) && (a.None? || b.None? || a == b)
  }

  /** The change at `p` removes the parents' only file too late, and no change above it was late. */
  ghost predicate StuckAt(changes: seq<FileChange>, a: Option<Node>, b: Option<Node>, p: Path) {
    Overtaken(changes, p) && SoleFile(NodeAt(a, p), NodeAt(b, p)) && NoneOvertakenAbove(changes, p)
  }

  ghost predicate NoneOvertakenAbove(changes: seq<FileChange>, p: Path) {
    forall r | r < p :: !Overtaken(changes, r)
  }

  ghost predicate Stuck(changes: seq<FileChange>, a: Option<Node>, b: Option<Node>) {
    exists p :: StuckAt(changes, a, b, p)
  }

  ghost predicate LosesFile(changes: seq<FileChange>, w: Option<Node>) {
    exists q :: FileAt(w, q).Some? && Lost(changes, q)
  }

  /** The slot has no conflicts and shows the files of `w` that are not lost. */
  ghost predicate Shows(slot: Option<MemEntry>, changes: seq<FileChange>, w: Option<Node>) {
    SettledSlot(slot) && forall q :: SameFile(VisibleSlot(slot, q), Left(changes, w, q))
  }

  ghost predicate Leaves(w: Option<Node>, a: Option<Node>, b: Option<Node>, changes: seq<FileChange>) {
    var r := ApplySlotAll(MergeSlot(a, b), changes);
    if r.error.None? then Shows(r.slot, changes, w) && !Stuck(changes, a, b)
    else LosesFile(changes, w) && Stuck(changes, a, b)
  }

  ghost function Depth3(w: Option<Node>, a: Option<Node>, b: Option<Node>): nat {
    MaxOf({Depth(w), Depth(a), Depth(b)})
  }

  lemma DescendsTogether(w: Option<Node>, a: Option<Node>, b: Option<Node>, name: Name)
    requires w.Some? || a.Some? || b.Some?
    ensures Depth3(ChildOf(w, name), ChildOf(a, name), ChildOf(b, name)) < Depth3(w, a, b)
  {
  }

  lemma DirPartDepth(w: Option<Node>, a: Option<Node>, b: Option<Node>)
    ensures Depth3(w, DirPart(a), DirPart(b)) <= Depth3(w, a, b)
  {
  }

  lemma {:induction false} TailsStuck(changes: seq<FileChange>, a: Option<Node>, b: Option<Node>, name: Name, p: Path)
    requires !HasPath(changes, [])
    ensures StuckAt(Tails(changes, name), ChildOf(a, name), ChildOf(b, name), p) <==> StuckAt(changes, a, b, [name] + p)
    ensures !StuckAt(changes, a, b, [])
  {
    assert ([name] + p)[1..] == p;
    TailsOvertaken(changes, name, p);
    NothingOvertaken(changes, []);
    TailsNoneAbove(changes, name, p);
  }

  lemma {:induction false} TailsNoneAbove(changes: seq<FileChange>, name: Name, p: Path)
    requires !HasPath(changes, [])
    ensures NoneOvertakenAbove(Tails(changes, name), p) <==> NoneOvertakenAbove(changes, [name] + p)
  {
    if NoneOvertakenAbove(Tails(changes, name), p) {
      forall r | r < [name] + p ensures !Overtaken(changes, r) {
        if r == [] {
          NothingOvertaken(changes, []);
        } else {
          SameName(name, p, r);
          Prepended(name, r[1..], p);
          TailsOvertaken(changes, name, r[1..]);
        }
      }
    }
    if NoneOvertakenAbove(changes, [name] + p) {
      forall r | r < p ensures !Overtaken(Tails(changes, name), r) {
        Prepended(name, r, p);
        TailsOvertaken(changes, name, r);
      }
    }
  }

  lemma NothingOvertaken(changes: seq<FileChange>, p: Path)
    requires !HasPath(changes, p)
    ensures !Overtaken(changes, p)
  {
  }

  ghost predicate ChildLeaves(w: Option<Node>, a: Option<Node>, b: Option<Node>, changes: seq<FileChange>, name: Name) {
    Leaves(ChildOf(w, name), ChildOf(a, name), ChildOf(b, name), Tails(changes, name))
  }

  /** If each slot of a tree shows what is left of a child of `w`, the tree shows what is left of `w`. */
  lemma {:induction false} TreeShows(t: MemEntry, changes: seq<FileChange>, w: Option<Node>)
    requires t.MemTree? && (t.base.Some? ==> t.p2.None?) && !IsFile(w) && !HasPath(changes, [])
    requires forall name :: Shows(Slot(t, name), Tails(changes, name), ChildOf(w, name))
    ensures Shows(Some(t), changes, w)
  {
    forall name | name in t.changes ensures t.changes[name].Some? ==> Settled(t.changes[name].value) {
      assert Shows(Slot(t, name), Tails(changes, name), ChildOf(w, name));
    }
    forall q ensures SameFile(VisibleAt(t, q), Left(changes, w, q)) {
      if q != [] {
        assert q == [q[0]] + q[1..];
        TailsLost(changes, q[0], q[1..]);
        assert Shows(Slot(t, q[0]), Tails(changes, q[0]), ChildOf(w, q[0]));
        assert SameFile(VisibleSlot(Slot(t, q[0]), q[1..]), Left(Tails(changes, q[0]), ChildOf(w, q[0]), q[1..]));
      }
    }
  }

  lemma {:induction false} StuckBelow(w: Option<Node>, a: Option<Node>, b: Option<Node>, changes: seq<FileChange>,
                                      name: Name)
    requires !IsFile(w) && !HasPath(changes, [])
    requires LosesFile(Tails(changes, name), ChildOf(w, name))
    requires Stuck(Tails(changes, name), ChildOf(a, name), ChildOf(b, name))
    ensures LosesFile(changes, w) && Stuck(changes, a, b)
  {
    LostBelow(w, changes, name);
    var p :| StuckAt(Tails(changes, name), ChildOf(a, name), ChildOf(b, name), p);
    TailsStuck(changes, a, b, name, p);
  }

  lemma {:induction false} LostBelow(w: Option<Node>, changes: seq<FileChange>, name: Name)
    requires !HasPath(changes, []) && LosesFile(Tails(changes, name), ChildOf(w, name))
    ensures LosesFile(changes, w)
  {
    var q :| FileAt(ChildOf(w, name), q).Some? && Lost(Tails(changes, name), q);
    TailsLost(changes, name, q);
    assert ([name] + q)[1..] == q;
    assert FileAt(w, [name] + q).Some?;
  }

  lemma {:induction false} NotStuck(a: Option<Node>, b: Option<Node>, changes: seq<FileChange>)
    requires !HasPath(changes, [])
    requires forall name :: !Stuck(Tails(changes, name), ChildOf(a, name), ChildOf(b, name))
    ensures !Stuck(changes, a, b)
  {
    forall p ensures !StuckAt(changes, a, b, p) {
      if p == [] {
        TailsStuck(changes, a, b, Name([]), []);
      } else {
        assert p == [p[0]] + p[1..];
        TailsStuck(changes, a, b, p[0], p[1..]);
        assert !Stuck(Tails(changes, p[0]), ChildOf(a, p[0]), ChildOf(b, p[0]));
      }
    }
  }

  /** From the slots of the merged tree to the tree. */
  lemma {:induction false} TreeFromSlots(w: Option<Node>, a: Option<Node>, b: Option<Node>, changes: seq<FileChange>)
    requires !IsFile(w) && !IsFile(a) && !IsFile(b) && (forall c | c in changes :: c.path != [])
    requires forall name :: ChildLeaves(w, a, b, changes, name)
    ensures var r := ApplyAll(Descend(MergeSlot(a, b)), changes);
            if r.error.None? then Shows(Some(r.root), changes, w) && !Stuck(changes, a, b)
            else LosesFile(changes, w) && Stuck(changes, a, b)
  {
    var t := Descend(MergeSlot(a, b));
    forall name ensures t.MemTree? && (t.base.Some? ==> t.p2.None?)
                     && Slot(t, name) == MergeSlot(ChildOf(a, name), ChildOf(b, name)) {
      MergedSlots(a, b, name);
    }
    MergedSlots(a, b, Name([]));
    ApplyAllBySlots(t, changes);
    var r := ApplyAll(t, changes);
    if r.error.None? {
      forall name
        ensures Shows(Slot(r.root, name), Tails(changes, name), ChildOf(w, name))
        ensures !Stuck(Tails(changes, name), ChildOf(a, name), ChildOf(b, name))
      {
        assert ChildLeaves(w, a, b, changes, name);
        assert ApplySlotAll(Slot(t, name), Tails(changes, name)) == SlotOutcome(Slot(r.root, name), None);
      }
      TreeShows(r.root, changes, w);
      NotStuck(a, b, changes);
    } else {
      var name :| ApplySlotAll(Slot(t, name), Tails(changes, name)).error.Some?;
      assert ChildLeaves(w, a, b, changes, name);
      StuckBelow(w, a, b, changes, name);
    }
  }

  lemma {:induction false} TreeLeaves(w: Option<Node>, a: Option<Node>, b: Option<Node>, changes: seq<FileChange>)
    requires !IsFile(w) && !IsFile(a) && !IsFile(b)
    requires Realises(changes, w, ParentSet(a, b)) && forall c | c in changes :: c.path != []
    ensures Leaves(w, a, b, changes)
    decreases Depth3(w, a, b), 0
  {
    if w.None? && a.None? && b.None? {
      NothingLeaves(changes);
    } else {
      forall name ensures ChildLeaves(w, a, b, changes, name) {
        DescendsTogether(w, a, b, name);
        TailsRealise(changes, w, a, b, name);
        SlotLeaves(ChildOf(w, name), ChildOf(a, name), ChildOf(b, name), Tails(changes, name));
      }
      TreeFromSlots(w, a, b, changes);
      MergedSlots(a, b, Name([]));
      SlotAllIsApplyAll(MergeSlot(a, b), changes);
      if changes == [] && MergeSlot(a, b).None? {
        EmptyTreeShows(w, changes);
      }
    }
  }

  lemma EmptyTreeShows(w: Option<Node>, changes: seq<FileChange>)
    requires Shows(Some(EMPTY_TREE), changes, w)
    ensures Shows(None, changes, w)
  {
    forall q ensures SameFile(VisibleSlot(None, q), Left(changes, w, q)) {
      assert SameFile(VisibleSlot(Some(EMPTY_TREE), q), Left(changes, w, q));
      assert VisibleAt(EMPTY_TREE, q).None?;
    }
  }

  lemma NothingLeaves(changes: seq<FileChange>)
    requires Realises(changes, None, ParentSet(None, None))
    ensures Leaves(None, None, None, changes)
  {
    assert ParentSet(None, None) == {};
    if changes != [] {
      NothingBelowAbsent(changes[0].path);
    }
    forall q: Path ensures FileAt(None, q).None? {
      NothingInside(q);
    }
  }

  lemma {:induction false} SlotLeaves(w: Option<Node>, a: Option<Node>, b: Option<Node>, changes: seq<FileChange>)
    requires Realises(changes, w, ParentSet(a, b))
    ensures Leaves(w, a, b, changes)
    decreases Depth3(w, a, b), 1
  {
    if IsFile(w) {
      FileLeaves(w, a, b, changes);
    } else if HasFile(ParentSet(a, b)) {
      var front, back := SplitAtRoot(w, a, b, changes);
      if front == [] {
        DirPartDepth(w, a, b);
        DeletedFirst(w, a, b, changes);
        TreeLeaves(w, DirPart(a), DirPart(b), changes[1..]);
        DeletedFirstLeaves(w, a, b, changes);
      } else {
        DeletedLate(w, a, b, front, back);
      }
    } else {
      assert !IsFile(a) && !IsFile(b);
      TreeLeaves(w, a, b, changes);
    }
  }

  /** A working file: the merge already holds it, or one change puts it there. */
  lemma FileLeaves(w: Option<Node>, a: Option<Node>, b: Option<Node>, changes: seq<FileChange>)
    requires IsFile(w) && Realises(changes, w, ParentSet(a, b))
    ensures Leaves(w, a, b, changes)
  {
    var c := ParentSet(a, b);
    forall x | x in changes ensures x.path == [] {
      if x.path != [] {
        NothingExpectedBelow(w, c, x.path);
      }
    }
    AllAtRoot(changes);
    FileShows(w.value, w.value, changes);
    if changes == [] {
      assert !HasPath(changes, []);
      assert MergeSlot(a, b) == Some(Blob(w.value));
    } else {
      var x := changes[0];
      assert changes == [x];
      FileShows(x.entry.value, w.value, changes);
      OverwritesMerge(a, b, x.entry.value);
    }
  }

  lemma {:induction false} AllAtRoot(changes: seq<FileChange>)
    requires Once(changes) && forall x | x in changes :: x.path == []
    ensures |changes| <= 1
  {
  }

  lemma OverwritesMerge(a: Option<Node>, b: Option<Node>, f: Node)
    ensures ChangeSlot(MergeSlot(a, b), Some(f)) == Ok(Some(Blob(f)))
  {
    match (a, b)
    case (Some(x), Some(y)) => assert MergeNodes(x, y).Conflict? ==> |MergeNodes(x, y).entries| == 2;
    case _ =>
  }

  lemma FileShows(f: Node, w: Node, changes: seq<FileChange>)
    requires f.File? && w.File? && SameFile(Some(f), Some(w)) && |changes| <= 1
    ensures Shows(Some(Blob(f)), changes, Some(w))
  {
  }

  // A parent file where the working tree has none: its deletion is one of the changes.

  lemma SplitAtRoot(w: Option<Node>, a: Option<Node>, b: Option<Node>, changes: seq<FileChange>)
    returns (front: seq<FileChange>, back: seq<FileChange>)
    requires !IsFile(w) && HasFile(ParentSet(a, b)) && Realises(changes, w, ParentSet(a, b))
    ensures changes == front + [FileChange([], None)] + back
    ensures forall c | c in front + back :: c.path != []
  {
    assert Expected(w, ParentSet(a, b), []) == Some(Deleted);
    assert HasPath(changes, []);
    var k :| 0 <= k < |changes| && changes[k].path == [];
    front, back := changes[..k], changes[k + 1..];
    assert changes == front + [changes[k]] + back;
    assert changes[k] == FileChange([], None);
    OnceAround(front, changes[k], back);
  }

  lemma ExpectedIgnoresFiles(w: Option<Node>, a: Option<Node>, b: Option<Node>, p: Path)
    requires !IsFile(w) && p != []
    ensures Expected(w, ParentSet(a, b), p) == Expected(w, ParentSet(DirPart(a), DirPart(b)), p)
  {
    assert p == [p[0]] + p[1..];
    ExpectedBelow(w, a, b, p[0], p[1..]);
    ExpectedBelow(w, DirPart(a), DirPart(b), p[0], p[1..]);
  }

  lemma DeletedFirst(w: Option<Node>, a: Option<Node>, b: Option<Node>, changes: seq<FileChange>)
    requires !IsFile(w) && Realises(changes, w, ParentSet(a, b))
    requires changes != [] && changes[0].path == []
    ensures Realises(changes[1..], w, ParentSet(DirPart(a), DirPart(b)))
    ensures forall c | c in changes[1..] :: c.path != []
  {
    var c := ParentSet(DirPart(a), DirPart(b));
    forall x | x in changes[1..]
      ensures x.path != [] && Expected(w, c, x.path).Some? && Records(Expected(w, c, x.path).value, x.entry)
    {
      assert x in changes;
      ExpectedIgnoresFiles(w, a, b, x.path);
    }
    forall p | Expected(w, c, p).Some? ensures HasPath(changes[1..], p) {
      assert !HasFile(c);
      ExpectedIgnoresFiles(w, a, b, p);
      HasPathStep(changes, p);
    }
  }

  lemma {:induction false} DeletedFirstLeaves(w: Option<Node>, a: Option<Node>, b: Option<Node>,
                                              changes: seq<FileChange>)
    requires !IsFile(w) && (IsFile(a) || IsFile(b)) && Once(changes)
    requires changes != [] && changes[0] == FileChange([], None)
    requires Leaves(w, DirPart(a), DirPart(b), changes[1..])
    ensures Leaves(w, a, b, changes)
  {
    var rest := changes[1..];
    DeletionDropsFiles(a, b, changes);
    var r := ApplySlotAll(MergeSlot(a, b), changes);
    if r.error.None? {
      RootFirstShows(w, changes, r.slot);
    } else {
      RootFirstLoses(w, changes);
    }
    RootFirstAnyStuck(changes, a, b);
  }

  lemma {:induction false} DeletionDropsFiles(a: Option<Node>, b: Option<Node>, changes: seq<FileChange>)
    requires IsFile(a) || IsFile(b)
    requires changes != [] && changes[0] == FileChange([], None)
    ensures ApplySlotAll(MergeSlot(a, b), changes) == ApplySlotAll(MergeSlot(DirPart(a), DirPart(b)), changes[1..])
  {
  }

  lemma {:induction false} RootFirstLoses(w: Option<Node>, changes: seq<FileChange>)
    requires Once(changes) && changes != [] && changes[0].path == [] && LosesFile(changes[1..], w)
    ensures LosesFile(changes, w)
  {
    var q :| FileAt(w, q).Some? && Lost(changes[1..], q);
    RootFirstLost(changes, q);
  }

  lemma {:induction false} RootFirstAnyStuck(changes: seq<FileChange>, a: Option<Node>, b: Option<Node>)
    requires Once(changes) && changes != [] && changes[0].path == []
    ensures Stuck(changes, a, b) <==> Stuck(changes[1..], DirPart(a), DirPart(b))
  {
    forall p ensures StuckAt(changes, a, b, p) <==> StuckAt(changes[1..], DirPart(a), DirPart(b), p) {
      RootFirstStuck(changes, a, b, p);
    }
  }

  lemma {:induction false} RootFirstShows(w: Option<Node>, changes: seq<FileChange>, slot: Option<MemEntry>)
    requires Once(changes) && changes != [] && changes[0].path == [] && Shows(slot, changes[1..], w)
    ensures Shows(slot, changes, w)
  {
    forall q ensures SameFile(VisibleSlot(slot, q), Left(changes, w, q)) {
      RootFirstLost(changes, q);
      assert SameFile(VisibleSlot(slot, q), Left(changes[1..], w, q));
    }
  }

  lemma {:induction false} RootFirstStuck(changes: seq<FileChange>, a: Option<Node>, b: Option<Node>, p: Path)
    requires Once(changes) && changes != [] && changes[0].path == []
    ensures StuckAt(changes, a, b, p) <==> StuckAt(changes[1..], DirPart(a), DirPart(b), p)
  {
    NothingOvertaken(changes[1..], []);
    forall r ensures Overtaken(changes, r) <==> Overtaken(changes[1..], r) {
      RootFirst(changes, r, r);
    }
    if p != [] {
      NodeAtDirPart(a, p);
      NodeAtDirPart(b, p);
    }
  }

  lemma {:induction false} NodeAtDirPart(a: Option<Node>, p: Path)
    requires p != []
    ensures NodeAt(DirPart(a), p) == NodeAt(a, p)
  {
  }

  /** The deletion comes after a change below it: the parents' only file is in the way, or the change below
      starts from an empty directory, which the deletion drops. */
  lemma DeletedLate(w: Option<Node>, a: Option<Node>, b: Option<Node>, front: seq<FileChange>, back: seq<FileChange>)
    requires !IsFile(w) && (IsFile(a) || IsFile(b)) && front != []
    requires Realises(front + [FileChange([], None)] + back, w, ParentSet(a, b))
    requires forall c | c in front + back :: c.path != []
    ensures Leaves(w, a, b, front + [FileChange([], None)] + back)
  {
    if SoleFile(a, b) {
      DeletedTooLate(w, a, b, front, back);
    } else {
      var changes := front + [FileChange([], None)] + back;
      RootOvertaken(front, FileChange([], None), back, [Name([])]);
      forall p ensures !StuckAt(changes, a, b, p) {
        assert p != [] ==> [] < p;
      }
      LateRun(w, a, b, front, back);
      LateShows(w, ParentSet(a, b), front, back);
    }
  }

  lemma DeletedTooLate(w: Option<Node>, a: Option<Node>, b: Option<Node>, front: seq<FileChange>, back: seq<FileChange>)
    requires !IsFile(w) && SoleFile(a, b) && front != []
    requires Realises(front + [FileChange([], None)] + back, w, ParentSet(a, b))
    requires forall c | c in front + back :: c.path != []
    ensures Leaves(w, a, b, front + [FileChange([], None)] + back)
  {
    var x := FileChange([], None);
    var changes := front + [x] + back;
    var q := front[0].path;
    assert front[0] == changes[0] && front[0] in front + back;
    assert MergeSlot(a, b).value.Blob?;
    assert ApplySlotAll(MergeSlot(a, b), changes).error.Some?;
    OnceAround(front, x, back);
    assert front[0] in front && HasPath(front, q);
    RootOvertaken(front, x, back, q);
    assert StuckAt(changes, a, b, []);
    SoleFileLosesFile(w, a, b, changes);
  }

  /** Below the parents' only file, a change is a new file. */
  lemma SoleFileLosesFile(w: Option<Node>, a: Option<Node>, b: Option<Node>, changes: seq<FileChange>)
    requires !IsFile(w) && SoleFile(a, b) && Realises(changes, w, ParentSet(a, b))
    requires changes != [] && changes[0].path != []
    ensures FileAt(w, changes[0].path).Some?
  {
    var p := changes[0].path;
    ExpectedIgnoresFiles(w, a, b, p);
    assert ParentSet(DirPart(a), DirPart(b)) == {};
    NothingBelowAbsent(p);
  }

  lemma {:induction false} LateRun(w: Option<Node>, a: Option<Node>, b: Option<Node>, front: seq<FileChange>,
                                   back: seq<FileChange>)
    requires (IsFile(a) || IsFile(b)) && !SoleFile(a, b) && front != []
    requires Realises(front + [FileChange([], None)] + back, w, ParentSet(a, b))
    requires forall c | c in front + back :: c.path != []
    ensures var r := ApplySlotAll(MergeSlot(a, b), front + [FileChange([], None)] + back);
            && r.error.None? && SettledSlot(r.slot)
            && forall q :: VisibleSlot(r.slot, q) == FinalAt(back, q, None)
  {
    var x := FileChange([], None);
    var changes := front + [x] + back;
    RealisesNoBlocks(changes, w, ParentSet(a, b));
    assert forall c | c in front :: c in changes && c in front + back;
    assert forall c | c in back :: c in changes && c in front + back;
    LateFront(a, b, front);
    ApplySlotParts(MergeSlot(a, b), front + [x], back);
    assert forall q :: VisibleAt(EMPTY_TREE, q).None?;
    FreshRun(EMPTY_TREE, back);
    SlotAllIsApplyAll(None, back);
    FreshIsSettled(ApplyAll(EMPTY_TREE, back).root);
  }

  /** Changes below a conflict and then the deletion leave nothing of either side. */
  lemma {:induction false} LateFront(a: Option<Node>, b: Option<Node>, front: seq<FileChange>)
    requires (IsFile(a) || IsFile(b)) && !SoleFile(a, b) && front != []
    requires NoBlocks(front) && forall c | c in front :: c.path != []
    ensures ApplySlotAll(MergeSlot(a, b), front + [FileChange([], None)]) == SlotOutcome(None, None)
  {
    var slot := MergeSlot(a, b);
    var start := Descend(slot);
    assert slot.Some? && slot.value.Conflict?;
    assert forall q :: VisibleAt(start, q).None?;
    FreshRun(start, front);
    SlotAllIsApplyAll(slot, front);
    ApplySlotParts(slot, front, [FileChange([], None)]);
  }

  lemma {:induction false} LateShows(w: Option<Node>, c: CompositeEntry, front: seq<FileChange>, back: seq<FileChange>)
    requires !IsFile(w) && front != []
    requires Realises(front + [FileChange([], None)] + back, w, c)
    requires forall c | c in front + back :: c.path != []
    ensures forall q :: SameFile(FinalAt(back, q, None), Left(front + [FileChange([], None)] + back, w, q))
  {
    var x := FileChange([], None);
    var changes := front + [x] + back;
    OnceParts(front + [x], back);
    RealisesNoBlocks(changes, w, c);
    assert forall y | y in back :: y in changes && y in front + back;
    forall q ensures SameFile(FinalAt(back, q, None), Left(changes, w, q)) {
      FinalIs(back, q, None);
      if q != [] {
        RootOvertaken(front, x, back, q);
        if HasPath(back, q) && !Wiped(back, q) {
          var y :| y in back && y.path == q && FinalAt(back, q, None) == FileAt(y.entry, []);
          RecordedFile(changes, w, c, y);
        }
      }
    }
  }
}
