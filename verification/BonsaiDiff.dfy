/** The bonsai diff: how a working tree differs from the trees of its parents. */
module BonsaiDiff {
  import opened Wrappers
  import opened Trees

  datatype FileDiff =
    | Changed(ft: FileType, id: FileId)
    | ChangedReusedId(ft: FileType, id: FileId)
    | Deleted

  datatype BonsaiDiffResult = BonsaiDiffResult(path: Path, change: FileDiff)

  /** The distinct entries that the parents have at one path. */
  type CompositeEntry = set<Node>

  function Files(c: CompositeEntry): set<Node> {
    set n | n in c && n.File?
  }

  function SubTrees(c: CompositeEntry): set<Node> {
    set n | n in c && n.Dir?
  }

  predicate ContainsFile(c: CompositeEntry, ft: FileType, id: FileId) {
    File(ft, id) in c
  }

  predicate ContainsFileOtherType(c: CompositeEntry, ft: FileType, id: FileId) {
    match ft
    case Regular => ContainsFile(c, Executable, id) || ContainsFile(c, Symlink, id)
    case Executable => ContainsFile(c, Regular, id) || ContainsFile(c, Symlink, id)
    case Symlink => ContainsFile(c, Regular, id) || ContainsFile(c, Executable, id)
  }

  predicate ContainsFileAnyType(c: CompositeEntry, id: FileId) {
    ContainsFile(c, Regular, id) || ContainsFile(c, Executable, id) || ContainsFile(c, Symlink, id)
  }

  // The composite manifest: every name that some parent tree lists, with the entries found there.

  function CompositeNames(c: CompositeEntry): set<Name> {
    set t, name | t in c && t.Dir? && name in t.children :: name
  }

  function CompositeChild(c: CompositeEntry, name: Name): CompositeEntry {
    set t | t in c && t.Dir? && name in t.children :: t.children[name]
  }

  function WorkingNames(w: Option<Node>): set<Name> {
    if w.Some? && w.value.Dir? then w.value.children.Keys else {}
  }

  // The recursion of the source. A working entry that is absent is `None`.

  function DiffFile(w: Option<Node>, c: CompositeEntry): Option<FileDiff> {
    if w.Some? && w.value.File? then
      var File(ft, id) := w.value;
      if |SubTrees(c)| == 0 && |Files(c)| == 1 then
        if ContainsFile(c, ft, id) then None
        else if ContainsFileOtherType(c, ft, id) then Some(ChangedReusedId(ft, id))
        else Some(Changed(ft, id))
      else if ContainsFileAnyType(c, id) then Some(ChangedReusedId(ft, id))
      else Some(Changed(ft, id))
    else if |Files(c)| != 0 then Some(Deleted)
    else None
  }

  ghost function Measure(w: Option<Node>, c: CompositeEntry): nat {
    var depths := set n | n in c :: Depth(Some(n));
    if Depth(w) < MaxOf(depths) then MaxOf(depths) else Depth(w)
  }

  /** The results that the stream yields, in no particular order. `prune` is true in the code: a working tree
      whose id is the only tree id among the parents is not read. With `prune` false every tree is read. */
  ghost function Diff(w: Option<Node>, path: Path, c: CompositeEntry, prune: bool): multiset<BonsaiDiffResult>
    decreases Measure(w, c), 2
  {
    var file := DiffFile(w, c);
    var here := if file.Some? then multiset{BonsaiDiffResult(path, file.value)} else multiset{};
    if file.Some? && !file.value.Deleted? then here
    else here + DiffTree(w, path, c, prune)
  }

  ghost function DiffTree(w: Option<Node>, path: Path, c: CompositeEntry, prune: bool): multiset<BonsaiDiffResult>
    decreases Measure(w, c), 1
  {
    if prune && w.Some? && w.value.Dir? && |SubTrees(c)| == 1 && w.value in SubTrees(c) then multiset{}
    else
      var below := DiffChildren(w, path, c, prune);
      Merged(below, below.Keys)
  }

  ghost function DiffChildren(w: Option<Node>, path: Path, c: CompositeEntry, prune: bool)
    : map<Name, multiset<BonsaiDiffResult>>
    decreases Measure(w, c), 0
  {
    map name | name in WorkingNames(w) + CompositeNames(c) ::
      MeasureDescends(w, c, name);
      Diff(ChildOf(w, name), path + [name], CompositeChild(c, name), prune)
  }

  /** All results of the children's streams. */
  ghost function Merged(m: map<Name, multiset<BonsaiDiffResult>>, names: set<Name>): multiset<BonsaiDiffResult>
    requires names <= m.Keys
  {
    if names == {} then multiset{}
    else
      var name :| name in names;
      m[name] + Merged(m, names - {name})
  }

  /** The distinct entries of two parents, either of which may be missing. */
  function ParentSet(a: Option<Node>, b: Option<Node>): CompositeEntry {
    (if a.Some? then {a.value} else {}) + (if b.Some? then {b.value} else {})
  }

  ghost function RootDiff(root: Manifest, p1: Option<Manifest>, p2: Option<Manifest>): multiset<BonsaiDiffResult> {
    DiffTree(Some(root), [], ParentSet(p1, p2), true)
  }

  lemma MeasureBounds(w: Option<Node>, c: CompositeEntry)
    ensures Depth(w) <= Measure(w, c)
    ensures forall n | n in c :: Depth(Some(n)) <= Measure(w, c)
  {
    var depths := set n | n in c :: Depth(Some(n));
    assert forall n | n in c :: Depth(Some(n)) in depths;
  }

  lemma MeasureBelow(w: Option<Node>, c: CompositeEntry, bound: nat)
    requires Depth(w) < bound && forall n | n in c :: Depth(Some(n)) < bound
    ensures Measure(w, c) < bound
  {
  }

  lemma MeasureDescends(w: Option<Node>, c: CompositeEntry, name: Name)
    requires name in WorkingNames(w) + CompositeNames(c)
    ensures Measure(ChildOf(w, name), CompositeChild(c, name)) < Measure(w, c)
  {
    MeasureBounds(w, c);
    forall n | n in CompositeChild(c, name) ensures Depth(Some(n)) < Measure(w, c) {
      var t :| t in c && t.Dir? && name in t.children && t.children[name] == n;
      assert Depth(Some(n)) < Depth(Some(t));
    }
    if name in CompositeNames(c) {
      var t :| t in c && t.Dir? && name in t.children;
      assert 0 < Depth(Some(t));
    }
    MeasureBelow(ChildOf(w, name), CompositeChild(c, name), Measure(w, c));
  }

  // An independent reading: what happens at one path, told only from the nodes at that path.

  function CompositeAt(c: CompositeEntry, p: Path): CompositeEntry
    decreases |p|
  {
    if p == [] then c else CompositeAt(CompositeChild(c, p[0]), p[1..])
  }

  ghost predicate HasFile(c: CompositeEntry) {
    exists n :: n in c && n.File?
  }

  /** The working tree has a file at a proper prefix of `p`. */
  predicate Shadowed(w: Option<Node>, p: Path)
    decreases |p|
  {
    p != [] && ((w.Some? && w.value.File?) || Shadowed(ChildOf(w, p[0]), p[1..]))
  }

  ghost predicate HasFileId(c: CompositeEntry, id: FileId) {
    exists n :: n in c && n.File? && n.id == id
  }

  /** A working file is reported unless it is the one entry that all parents agree on; a parent file is
      reported deleted when the working tree has no file there. */
  ghost function ExpectedHere(there: Option<Node>, parents: CompositeEntry): Option<FileDiff> {
    if there.Some? && there.value.File? then
      var File(ft, id) := there.value;
      if parents == {there.value} then None
      else if HasFileId(parents, id) then Some(ChangedReusedId(ft, id))
      else Some(Changed(ft, id))
    else if HasFile(parents) then Some(Deleted)
    else None
  }

  ghost function Expected(w: Option<Node>, c: CompositeEntry, p: Path): Option<FileDiff> {
    if Shadowed(w, p) then None else ExpectedHere(NodeAt(w, p), CompositeAt(c, p))
  }

  lemma SingletonIs<T>(s: set<T>, x: T)
    requires |s| == 1 && x in s
    ensures s == {x}
  {
    assert |s - {x}| == 0;
  }

  lemma NoFilesIffEmpty(c: CompositeEntry)
    ensures |Files(c)| == 0 <==> !HasFile(c)
  {
    if HasFile(c) {
      var n :| n in c && n.File?;
      assert n in Files(c);
    } else {
      assert Files(c) == {};
    }
  }

  lemma AnyTypeIffHasId(c: CompositeEntry, id: FileId)
    ensures ContainsFileAnyType(c, id) <==> HasFileId(c, id)
  {
    if HasFileId(c, id) {
      var n :| n in c && n.File? && n.id == id;
      match n.ft
      case Regular => assert n == File(Regular, id);
      case Executable => assert n == File(Executable, id);
      case Symlink => assert n == File(Symlink, id);
    }
    if ContainsFileAnyType(c, id) {
      assert File(Regular, id).File? && File(Executable, id).File? && File(Symlink, id).File?;
    }
  }

  lemma SoleFileIffSingleton(c: CompositeEntry, f: Node)
    requires f.File?
    ensures c == {f} <==> |SubTrees(c)| == 0 && |Files(c)| == 1 && f in c
  {
    assert c == Files(c) + SubTrees(c);
    if |SubTrees(c)| == 0 && |Files(c)| == 1 && f in c {
      SingletonIs(Files(c), f);
    }
    if c == {f} {
      assert Files(c) == {f} && SubTrees(c) == {};
    }
  }

  lemma FileDiffIsExpected(w: Option<Node>, c: CompositeEntry)
    ensures DiffFile(w, c) == ExpectedHere(w, c)
  {
    NoFilesIffEmpty(c);
    if w.Some? && w.value.File? {
      SoleFileIffSingleton(c, w.value);
      AnyTypeIffHasId(c, w.value.id);
    }
  }

  lemma {:induction false} NothingBelowAbsent(p: Path)
    ensures NodeAt(None, p).None? && CompositeAt({}, p) == {} && !Shadowed(None, p)
    decreases |p|
  {
    NothingInside(p);
    if p != [] {
      assert CompositeChild({}, p[0]) == {};
      NothingBelowAbsent(p[1..]);
    }
  }

  /** The parents' only entry is the working entry itself. */
  lemma NothingExpectedInSame(n: Node, p: Path)
    ensures Expected(Some(n), {n}, p).None?
    decreases |p|
  {
    if p != [] {
      NothingExpectedBelow(Some(n), {n}, p);
    }
  }

  /** Nothing is expected below a working file, nor below a tree that is the parents' only tree. */
  lemma NothingExpectedBelow(w: Option<Node>, c: CompositeEntry, p: Path)
    requires p != [] && w.Some?
    requires w.value.Dir? ==> SubTrees(c) == {w.value}
    ensures Expected(w, c, p).None?
    decreases |p|, 0
  {
    if w.value.Dir? {
      var v := ChildOf(w, p[0]);
      assert CompositeChild(c, p[0]) == (if v.Some? then {v.value} else {}) by {
        assert w.value in SubTrees(c);
        assert forall t | t in c && t.Dir? :: t in SubTrees(c);
      }
      if v.None? {
        NothingBelowAbsent(p[1..]);
      } else {
        NothingExpectedInSame(v.value, p[1..]);
      }
    }
  }

  /** The diff is exactly the reference, path by path, whether or not it prunes. */
  lemma {:induction false} DiffIsExact(w: Option<Node>, path: Path, c: CompositeEntry, prune: bool, r: BonsaiDiffResult)
    ensures r in Diff(w, path, c, prune)
      <==> path <= r.path && Expected(w, c, r.path[|path|..]) == Some(r.change)
    decreases Measure(w, c), 1
  {
    FileDiffIsExpected(w, c);
    if !(w.Some? && w.value.File?) || c == {w.value} {
      DiffTreeIsExact(w, path, c, prune, r);
    }
    if path < r.path && w.Some? && w.value.File? {
      NothingExpectedBelow(w, c, r.path[|path|..]);
    }
    if path == r.path {
      assert r.path[|path|..] == [];
    }
  }

  lemma {:induction false} DiffTreeIsExact(w: Option<Node>, path: Path, c: CompositeEntry, prune: bool,
                                           r: BonsaiDiffResult)
    requires w.Some? && w.value.File? ==> SubTrees(c) == {}
    ensures r in DiffTree(w, path, c, prune)
      <==> path < r.path && Expected(w, c, r.path[|path|..]) == Some(r.change)
    decreases Measure(w, c), 0, 1
  {
    if prune && w.Some? && w.value.Dir? && |SubTrees(c)| == 1 && w.value in SubTrees(c) {
      SingletonIs(SubTrees(c), w.value);
      if path < r.path {
        NothingExpectedBelow(w, c, r.path[|path|..]);
      }
    } else {
      DiffTreeIsUnion(w, path, c, prune, r);
      forall name ensures InChild(w, path, c, prune, r, name)
          ==> path < r.path && Expected(w, c, r.path[|path|..]) == Some(r.change) {
        InChildIsExact(w, path, c, prune, r, name);
        if path < r.path {
          ExpectedStep(w, c, r.path[|path|..]);
        }
      }
      if path < r.path {
        ExpectedStep(w, c, r.path[|path|..]);
        InChildIsExact(w, path, c, prune, r, r.path[|path|]);
      }
    }
  }

  lemma ExpectedStep(w: Option<Node>, c: CompositeEntry, p: Path)
    requires p != []
    requires w.Some? && w.value.File? ==> SubTrees(c) == {}
    ensures Expected(w, c, p) == Expected(ChildOf(w, p[0]), CompositeChild(c, p[0]), p[1..])
    ensures Expected(w, c, p).Some? ==> p[0] in WorkingNames(w) + CompositeNames(c)
  {
    if p[0] !in WorkingNames(w) + CompositeNames(c) {
      assert CompositeChild(c, p[0]) == {};
      NothingBelowAbsent(p[1..]);
    }
    if w.Some? && w.value.File? {
      NothingExpectedBelow(w, c, p);
      assert CompositeChild(c, p[0]) == {} by {
        assert forall t | t in c && t.Dir? :: t in SubTrees(c);
      }
      NothingBelowAbsent(p[1..]);
    }
  }

  ghost predicate InChild(w: Option<Node>, path: Path, c: CompositeEntry, prune: bool,
                          r: BonsaiDiffResult, name: Name)
  {
    var below := DiffChildren(w, path, c, prune);
    name in below && r in below[name]
  }

  lemma {:induction false} MergedHolds(m: map<Name, multiset<BonsaiDiffResult>>, names: set<Name>, r: BonsaiDiffResult)
    requires names <= m.Keys
    ensures r in Merged(m, names) <==> exists name :: name in names && r in m[name]
  {
    if names != {} {
      var name :| name in names && Merged(m, names) == m[name] + Merged(m, names - {name});
      MergedHolds(m, names - {name}, r);
      assert names == (names - {name}) + {name};
    }
  }

  /** A result that only one child yields occurs as often as that child yields it. */
  lemma {:induction false} MergedCounts(m: map<Name, multiset<BonsaiDiffResult>>, names: set<Name>, r: BonsaiDiffResult,
                                        only: Name)
    requires names <= m.Keys && forall name | name in names && name != only :: r !in m[name]
    ensures Merged(m, names)[r] == if only in names then m[only][r] else 0
  {
    if names != {} {
      var name :| name in names && Merged(m, names) == m[name] + Merged(m, names - {name});
      MergedCounts(m, names - {name}, r, only);
    }
  }

  lemma {:induction false} DiffTreeIsUnion(w: Option<Node>, path: Path, c: CompositeEntry, prune: bool,
                                           r: BonsaiDiffResult)
    requires !(prune && w.Some? && w.value.Dir? && |SubTrees(c)| == 1 && w.value in SubTrees(c))
    ensures r in DiffTree(w, path, c, prune) <==> exists name :: InChild(w, path, c, prune, r, name)
  {
    var below := DiffChildren(w, path, c, prune);
    MergedHolds(below, below.Keys, r);
    if r in Merged(below, below.Keys) {
      var name :| name in below.Keys && r in below[name];
      assert InChild(w, path, c, prune, r, name);
    }
  }

  lemma FirstStep(path: Path, name: Name, p: Path)
    ensures path + [name] <= p <==> path < p && p[|path|] == name
    ensures path < p ==> p[|path|..][1..] == p[|path| + 1..]
  {
  }

  lemma {:induction false} InChildIsExact(w: Option<Node>, path: Path, c: CompositeEntry, prune: bool,
                                          r: BonsaiDiffResult, name: Name)
    ensures InChild(w, path, c, prune, r, name)
      <==> path < r.path && r.path[|path|] == name
           && name in WorkingNames(w) + CompositeNames(c)
           && Expected(ChildOf(w, name), CompositeChild(c, name), r.path[|path|..][1..]) == Some(r.change)
    decreases Measure(w, c), 0, 0
  {
    FirstStep(path, name, r.path);
    if name in WorkingNames(w) + CompositeNames(c) {
      MeasureDescends(w, c, name);
      var v, d := ChildOf(w, name), CompositeChild(c, name);
      DiffIsExact(v, path + [name], d, prune, r);
      assert InChild(w, path, c, prune, r, name) <==> r in Diff(v, path + [name], d, prune);
      assert |path + [name]| == |path| + 1;
    }
  }

  lemma RootDiffIsExact(root: Manifest, p1: Option<Manifest>, p2: Option<Manifest>, r: BonsaiDiffResult)
    ensures r in RootDiff(root, p1, p2)
      <==> r.path != [] && Expected(Some(root), ParentSet(p1, p2), r.path) == Some(r.change)
  {
    DiffTreeIsExact(Some(root), [], ParentSet(p1, p2), true, r);
    assert r.path[0..] == r.path;
  }

  /** Skipping the trees with an unchanged id loses no result and adds none. */
  lemma {:induction false} PruningIsSound(root: Manifest, p1: Option<Manifest>, p2: Option<Manifest>)
    ensures RootDiff(root, p1, p2) == DiffTree(Some(root), [], ParentSet(p1, p2), false)
  {
    forall r ensures RootDiff(root, p1, p2)[r] == DiffTree(Some(root), [], ParentSet(p1, p2), false)[r] {
      DiffTreeIsExact(Some(root), [], ParentSet(p1, p2), true, r);
      DiffTreeIsExact(Some(root), [], ParentSet(p1, p2), false, r);
      DiffYieldsOnce(Some(root), [], ParentSet(p1, p2), true, r);
      DiffYieldsOnce(Some(root), [], ParentSet(p1, p2), false, r);
    }
  }

  lemma {:induction false} FileShadows(w: Option<Node>, p: Path, q: Path)
    requires FileAt(w, p).Some? && p < q
    ensures Shadowed(w, q)
    decreases |p|
  {
    if p != [] {
      assert p[1..] < q[1..];
      FileShadows(ChildOf(w, p[0]), p[1..], q[1..]);
    }
  }

  /** No result is yielded twice, neither by one child nor by two. */
  lemma {:induction false} DiffYieldsOnce(w: Option<Node>, path: Path, c: CompositeEntry, prune: bool,
                                          r: BonsaiDiffResult)
    ensures Diff(w, path, c, prune)[r] <= 1
    ensures DiffTree(w, path, c, prune)[r] <= if path < r.path then 1 else 0
    decreases Measure(w, c), 2
  {
    TreeYieldsOnce(w, path, c, prune, r);
  }

  lemma {:induction false} TreeYieldsOnce(w: Option<Node>, path: Path, c: CompositeEntry, prune: bool,
                                          r: BonsaiDiffResult)
    ensures DiffTree(w, path, c, prune)[r] <= if path < r.path then 1 else 0
    decreases Measure(w, c), 1
  {
    var below := DiffChildren(w, path, c, prune);
    forall name | name in below
      ensures below[name][r] <= if path < r.path && r.path[|path|] == name then 1 else 0
    {
      ChildYieldsOnce(w, path, c, prune, r, name);
    }
    MergedCounts(below, below.Keys, r, if path < r.path then r.path[|path|] else Name([]));
  }

  lemma {:induction false} ChildYieldsOnce(w: Option<Node>, path: Path, c: CompositeEntry, prune: bool,
                                           r: BonsaiDiffResult, name: Name)
    requires name in DiffChildren(w, path, c, prune)
    ensures DiffChildren(w, path, c, prune)[name][r] <= if path < r.path && r.path[|path|] == name then 1 else 0
    decreases Measure(w, c), 0
  {
    InChildIsExact(w, path, c, prune, r, name);
    MeasureDescends(w, c, name);
    DiffYieldsOnce(ChildOf(w, name), path + [name], CompositeChild(c, name), prune, r);
  }

  /** Each path is reported at most once, and no path that is not deleted is a prefix of another. */
  lemma DiffIsPathConflictFree(root: Manifest, p1: Option<Manifest>, p2: Option<Manifest>,
                               a: BonsaiDiffResult, b: BonsaiDiffResult)
    requires a in RootDiff(root, p1, p2) && b in RootDiff(root, p1, p2)
    ensures RootDiff(root, p1, p2)[a] == 1
    ensures a.path == b.path ==> a == b
    ensures !a.change.Deleted? ==> !(a.path < b.path)
  {
    DiffYieldsOnce(Some(root), [], ParentSet(p1, p2), true, a);
    RootDiffIsExact(root, p1, p2, a);
    RootDiffIsExact(root, p1, p2, b);
    if !a.change.Deleted? && a.path < b.path {
      FileShadows(Some(root), a.path, b.path);
    }
  }

  lemma CompositeExtends(trees: set<Node>, t: Manifest)
    ensures CompositeNames(trees + {t}) == CompositeNames(trees) + t.children.Keys
    ensures forall name ::
      CompositeChild(trees + {t}, name)
      == CompositeChild(trees, name) + (if name in t.children then {t.children[name]} else {})
  {
  }

  lemma CompositeOutside(trees: set<Node>)
    ensures forall name | name !in CompositeNames(trees) :: CompositeChild(trees, name) == {}
  {
  }

  /** The fold that builds a composite manifest, one tree and one entry at a time. */
  method CompositeManifest(trees: set<Manifest>) returns (entries: map<Name, CompositeEntry>)
    ensures entries.Keys == CompositeNames(trees)
    ensures forall name | name in entries :: entries[name] == CompositeChild(trees, name)
  {
    entries := map[];
    var todo := trees;
    while todo != {}
      invariant todo <= trees
      invariant entries.Keys == CompositeNames(trees - todo)
      invariant forall name | name in entries :: entries[name] == CompositeChild(trees - todo, name)
    {
      var t :| t in todo;
      CompositeExtends(trees - todo, t);
      CompositeOutside(trees - todo);
      assert trees - (todo - {t}) == (trees - todo) + {t};
      entries := AddEntries(entries, t);
      todo := todo - {t};
    }
    assert trees - todo == trees;
  }

  method AddEntries(before: map<Name, CompositeEntry>, t: Manifest) returns (entries: map<Name, CompositeEntry>)
    ensures entries.Keys == before.Keys + t.children.Keys
    ensures forall name | name in entries ::
      entries[name] == (if name in before then before[name] else {})
                       + (if name in t.children then {t.children[name]} else {})
  {
    entries := before;
    var names := t.children.Keys;
    while names != {}
      invariant names <= t.children.Keys
      invariant entries.Keys == before.Keys + (t.children.Keys - names)
      invariant forall name | name in entries ::
        entries[name] == (if name in before then before[name] else {})
                         + (if name in t.children && name !in names then {t.children[name]} else {})
    {
      var name :| name in names;
      var sofar := if name in entries then entries[name] else {};
      var added := sofar + {t.children[name]};
      entries := entries[name := added];
      names := names - {name};
    }
  }
}
