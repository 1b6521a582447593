/** Stored manifests: the trees that the diff reads and the in-memory manifest rebuilds.

    A Mercurial node id is a hash over the content of an entry and the ids of its parents.
    Hashes are taken as collision-free, so an id is modelled by what it was computed from:
    two entries have equal ids exactly when they are equal values of these types. */
module Trees {
  import opened Wrappers

  newtype byte = x: int | 0 <= x < 256

  /** One element of a path. */
  datatype Name = Name(bytes: seq<byte>)

  type Path = seq<Name>

  datatype FileType = Regular | Executable | Symlink

  /** A file node: the content, and whatever else went into its id. */
  datatype FileId = FileId(content: nat, parents: multiset<FileId>)

  datatype Node =
    | File(ft: FileType, id: FileId)
    | Dir(history: multiset<Node>, children: map<Name, Node>)

  type Manifest = n: Node | n.Dir? witness Dir(multiset{}, map[])

  function ChildOf(n: Option<Node>, name: Name): Option<Node> {
    if n.Some? && n.value.Dir? && name in n.value.children then Some(n.value.children[name]) else None
  }

  function NodeAt(n: Option<Node>, p: Path): Option<Node>
    decreases |p|
  {
    if p == [] then n else NodeAt(ChildOf(n, p[0]), p[1..])
  }

  /** The file map of a tree, as a lookup. */
  function FileAt(n: Option<Node>, p: Path): Option<Node> {
    var found := NodeAt(n, p);
    if found.Some? && found.value.File? then found else None
  }

  /** Two lookups show the same file: same type and same content. The file node ids may differ,
      because a rebuilt file node records other parents. */
  predicate SameFile(a: Option<Node>, b: Option<Node>) {
    match (a, b)
    case (Some(File(t, i)), Some(File(u, j))) => t == u && i.content == j.content
    case (None, None) => true
    case _ => false
  }

  ghost predicate SameFiles(a: Node, b: Node) {
    forall p :: SameFile(FileAt(Some(a), p), FileAt(Some(b), p))
  }

  /** No directory strictly below `n` is without children. */
  predicate NoEmptyDirs(n: Node)
    decreases n
  {
    n.Dir? ==> forall k | k in n.children ::
      NoEmptyDirs(n.children[k]) && (n.children[k].Dir? ==> n.children[k].children != map[])
  }

  lemma {:induction false} NothingInside(p: Path)
    ensures NodeAt(None, p).None?
    decreases |p|
  {
    if p != [] {
      NothingInside(p[1..]);
    }
  }

  lemma {:induction false} NothingBelow(n: Option<Node>, p: Path)
    requires n.None? || n.value.File?
    requires p != []
    ensures NodeAt(n, p).None?
    decreases |p|
  {
    if |p| > 1 {
      NothingBelow(ChildOf(n, p[0]), p[1..]);
    }
  }

  // Heights bound the recursions that follow several trees at once.

  ghost function MaxOf(s: set<nat>): (m: nat)
    ensures forall x | x in s :: x <= m
    ensures s != {} ==> m in s
    ensures s == {} ==> m == 0
  {
    if s == {} then 0 else
      var x :| x in s;
      var r := MaxOf(s - {x});
      assert s == (s - {x}) + {x};
      if x < r then r else x
  }

  ghost function Height(n: Node): (h: nat)
    ensures n.Dir? ==> 0 < h
    ensures n.Dir? ==> forall k | k in n.children :: Height(n.children[k]) < h
    decreases n
  {
    match n
    case File(_, _) => 0
    case Dir(_, children) =>
      var heights := set k | k in children :: Height(children[k]);
      assert forall k | k in children :: Height(children[k]) in heights;
      1 + MaxOf(heights)
  }

  /** Zero for a missing node, so that going from a node to a missing child also descends. */
  ghost function Depth(n: Option<Node>): nat {
    if n.Some? then 1 + Height(n.value) else 0
  }
}
