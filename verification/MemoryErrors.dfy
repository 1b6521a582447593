/** Which error a change to an in-memory manifest reports. */
module MemoryErrors {
  import opened Wrappers
  import opened Trees
  import opened MemoryManifest
  import opened Merging

  predicate FileIn(e: MemEntry, p: Path) {
    EntryAt(Some(e), p).Some? && EntryAt(Some(e), p).value.Blob?
  }

  /** A file or stored entry lies strictly above `dir`. */
  predicate FileAbove(e: MemEntry, dir: Path) {
    exists k | 0 <= k < |dir| :: FileIn(e, dir[..k])
  }

  lemma {:induction false} NothingInAbsent(p: Path)
    ensures EntryAt(None, p).None?
    decreases |p|
  {
  }

  /** Going down one name looks past the same files, since a clash is gone below like an absent entry. */
  lemma {:induction false} FileBelow(e: MemEntry, name: Name, p: Path)
    requires e.MemTree?
    ensures FileIn(e, [name] + p) <==> FileIn(Descend(Slot(e, name)), p)
  {
    assert ([name] + p)[1..] == p;
    var slot, child := Slot(e, name), Descend(Slot(e, name));
    assert EntryAt(Some(e), [name] + p) == EntryAt(slot, p);
    if slot.None? || slot.value.Conflict? {
      NothingInAbsent(p);
      if p != [] {
        assert child.MemTree? && Slot(child, p[0]).None?;
        assert EntryAt(Some(child), p) == EntryAt(None, p[1..]);
        NothingInAbsent(p[1..]);
      }
    }
  }

  lemma {:induction false} FindsTarget(e: MemEntry, dir: Path)
    requires !e.Conflict?
    ensures FindMut(e, dir).target.None? <==> FileAbove(e, dir)
    ensures FindMut(e, dir).target.Some? ==>
      !FindMut(e, dir).target.value.Conflict? && (FindMut(e, dir).target.value.Blob? <==> FileIn(e, dir))
    decreases |dir|
  {
    if dir != [] {
      assert dir[..0] == [];
      if e.MemTree? {
        var name, rest := dir[0], dir[1..];
        var child := Descend(Slot(e, name));
        FindsTarget(child, rest);
        assert dir == [name] + rest;
        FileBelow(e, name, rest);
        forall k | 0 <= k < |rest| ensures FileIn(e, dir[..k + 1]) <==> FileIn(child, rest[..k]) {
          assert dir[..k + 1] == [name] + rest[..k];
          FileBelow(e, name, rest[..k]);
        }
        if FileAbove(e, dir) {
          var k :| 0 <= k < |dir| && FileIn(e, dir[..k]);
          assert k > 0;
          var j := k - 1;
          assert FileIn(e, dir[..j + 1]) && FileIn(child, rest[..j]);
        }
        if FileAbove(child, rest) {
          var k :| 0 <= k < |rest| && FileIn(child, rest[..k]);
          assert FileIn(e, dir[..k + 1]);
        }
      } else {
        assert FileIn(e, dir[..0]);
      }
    }
  }

  /** A change fails with `PathNotFound` exactly if a file lies above the directory of its path, with `NotADirectory`
      exactly if the directory itself is a file, and otherwise only on a clash that does not have two sides. */
  lemma ChangeErrors(e: MemEntry, path: Path, change: Option<Node>)
    requires path != [] && e.MemTree?
    ensures var dir, error := path[..|path| - 1], ChangeEntry(e, path, change).error;
            && (error == Some(PathNotFound) <==> FileAbove(e, dir))
            && (error == Some(NotADirectory) <==> !FileAbove(e, dir) && FileIn(e, dir))
            && (error.None? || error == Some(PathNotFound) || error == Some(NotADirectory)
                || error == Some(SingleEntryConflict) || error == Some(TooManyConflicts))
  {
    FindsTarget(e, path[..|path| - 1]);
  }
}
