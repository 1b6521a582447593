/** Walking the manifests of an uploaded bundle, which may be malformed or even cyclic. */
module WalkManifests {
  import opened Wrappers
  import opened Trees

  datatype Details = Details(hash: nat, isTree: bool, flag: nat)

  /** One uploaded manifest: each name is a single path element and is not empty. */
  type Content = map<Name, Details>

  datatype NodeKey = NodeKey(path: Path, hash: nat)

  datatype Uploaded = Uploaded(content: Content, p1: Option<nat>, p2: Option<nat>)

  datatype Bundle = Bundle(manifests: map<NodeKey, Uploaded>, filelogs: set<NodeKey>, contentBlobs: set<NodeKey>)

  /** A manifest and those of its parents that were uploaded too. */
  datatype View = View(content: Content, p1: Option<Content>, p2: Option<Content>)

  datatype Emitted = Emitted(key: NodeKey, isTree: bool)

  datatype Counters = Counters(manifests: nat, filelogs: nat, contentBlobs: nat)

  datatype Walked = Walked(entries: seq<Emitted>, cbinfos: seq<NodeKey>, counters: Counters)

  datatype Error = PathTooLong | ContentBlobMissing

  const MAX_PATH := 4096

  predicate ValidContent(content: Content) {
    forall name | name in content :: name.bytes != []
  }

  predicate ValidBundle(bundle: Bundle) {
    forall key | key in bundle.manifests :: ValidContent(bundle.manifests[key].content)
  }

  /** The length in bytes, with a slash between elements. */
  function PathLen(path: Path): nat {
    if path == [] then 0
    else
      var init := path[..|path| - 1];
      (if init == [] then 0 else PathLen(init) + 1) + |path[|path| - 1].bytes|
  }

  function ParentContent(bundle: Bundle, path: Path, p: Option<nat>): Option<Content> {
    if p.Some? && NodeKey(path, p.value) in bundle.manifests
    then Some(bundle.manifests[NodeKey(path, p.value)].content)
    else None
  }

  predicate PresentInParent(p: Option<Content>, name: Name, details: Details) {
    p.Some? && name in p.value && p.value[name] == details
  }

  predicate IsNew(v: View, name: Name) {
    && name in v.content
    && !PresentInParent(v.p1, name, v.content[name])
    && !PresentInParent(v.p2, name, v.content[name])
  }

  function KeyOf(path: Path, v: View, name: Name): NodeKey
    requires name in v.content
  {
    NodeKey(path + [name], v.content[name].hash)
  }

  /** The entry is a new subtree that was uploaded. */
  predicate Enters(bundle: Bundle, path: Path, v: View, name: Name) {
    IsNew(v, name) && v.content[name].isTree && KeyOf(path, v, name) in bundle.manifests
  }

  /** The entry is a new file that was uploaded. */
  predicate HasFilelog(bundle: Bundle, path: Path, v: View, name: Name) {
    IsNew(v, name) && !v.content[name].isTree && KeyOf(path, v, name) in bundle.filelogs
  }

  function ViewBelow(bundle: Bundle, path: Path, v: View, name: Name): View
    requires Enters(bundle, path, v, name)
  {
    var uploaded := bundle.manifests[KeyOf(path, v, name)];
    View(uploaded.content,
         ParentContent(bundle, path + [name], uploaded.p1),
         ParentContent(bundle, path + [name], uploaded.p2))
  }

  // What the walk should emit, told by following one path at a time.

  /** The view that is reached by following `rel` through new uploaded subtrees. */
  function Follow(bundle: Bundle, path: Path, v: View, rel: Path): Option<View>
    decreases |rel|
  {
    if rel == [] then Some(v)
    else if Enters(bundle, path, v, rel[0]) then
      Follow(bundle, path + [rel[0]], ViewBelow(bundle, path, v, rel[0]), rel[1..])
    else None
  }

  /** `e` is a new uploaded subtree or file at `rel`, in a manifest that is reached. */
  predicate ExpectedAt(bundle: Bundle, path: Path, v: View, rel: Path, e: Emitted)
    decreases |rel|
  {
    && rel != []
    && if |rel| == 1 then
         && (if e.isTree then Enters(bundle, path, v, rel[0]) else HasFilelog(bundle, path, v, rel[0]))
         && e.key == KeyOf(path, v, rel[0])
       else
         && Enters(bundle, path, v, rel[0])
         && ExpectedAt(bundle, path + [rel[0]], ViewBelow(bundle, path, v, rel[0]), rel[1..], e)
  }

  predicate Expected(bundle: Bundle, path: Path, v: View, e: Emitted) {
    path < e.key.path && ExpectedAt(bundle, path, v, e.key.path[|path|..], e)
  }

  /** The manifest at `rel` is reached and lies too deep, or lists an uploaded file without content. */
  ghost predicate Bad(bundle: Bundle, path: Path, v: View, rel: Path, error: Error) {
    var u := Follow(bundle, path, v, rel);
    && u.Some?
    && match error
       case PathTooLong => PathLen(path + rel) > MAX_PATH
       case ContentBlobMissing => exists name :: LacksBlob(bundle, path + rel, u.value, name)
  }

  predicate LacksBlob(bundle: Bundle, path: Path, v: View, name: Name) {
    HasFilelog(bundle, path, v, name) && KeyOf(path, v, name) !in bundle.contentBlobs
  }

  // The shape of a result.

  /** The content blobs are those of the emitted files, each once, and the counters count what is returned. */
  ghost predicate Counted(r: Walked) {
    && (forall key :: key in r.cbinfos <==> Emitted(key, false) in r.entries)
    && Distinct(r.cbinfos) && Distinct(r.entries)
    && r.counters.filelogs == |r.cbinfos| && r.counters.contentBlobs == |r.cbinfos|
    && r.counters.manifests + r.counters.filelogs == |r.entries|
  }

  function Append(a: Walked, b: Walked): Walked {
    Walked(a.entries + b.entries, a.cbinfos + b.cbinfos,
           Counters(a.counters.manifests + b.counters.manifests,
                    a.counters.filelogs + b.counters.filelogs,
                    a.counters.contentBlobs + b.counters.contentBlobs))
  }

  const NOTHING := Walked([], [], Counters(0, 0, 0))

  lemma AppendDistinct<T>(a: seq<T>, b: seq<T>)
    requires Distinct(a) && Distinct(b) && forall e | e in a :: e !in b
    ensures Distinct(a + b)
  {
    forall i, j | 0 <= i < j < |a + b| ensures (a + b)[i] != (a + b)[j] {
      if i < |a| <= j {
        assert (a + b)[i] in a && (a + b)[j] in b;
      }
    }
  }

  lemma AppendCounted(a: Walked, b: Walked)
    requires Counted(a) && Counted(b) && forall e | e in a.entries :: e !in b.entries
    ensures Counted(Append(a, b))
  {
    AppendDistinct(a.entries, b.entries);
    forall key | key in a.cbinfos ensures key !in b.cbinfos {
      assert Emitted(key, false) in a.entries;
    }
    AppendDistinct(a.cbinfos, b.cbinfos);
  }

  /** The result is exactly what is expected, each entry once. */
  ghost predicate Exact(bundle: Bundle, path: Path, v: View, r: Walked) {
    && Counted(r)
    && forall e :: e in r.entries <==> Expected(bundle, path, v, e)
  }

  ghost predicate ExactVia(bundle: Bundle, path: Path, v: View, names: set<Name>, r: Walked) {
    && Counted(r)
    && forall e :: e in r.entries <==> Expected(bundle, path, v, e) && e.key.path[|path|] in names
  }

  /** Going down one name adds that entry itself and what is expected below it. */
  lemma ExpectedBelow(bundle: Bundle, path: Path, v: View, name: Name, e: Emitted)
    requires Enters(bundle, path, v, name)
    ensures Expected(bundle, path, v, e) && e.key.path[|path|] == name
      <==> e == Emitted(KeyOf(path, v, name), true)
           || Expected(bundle, path + [name], ViewBelow(bundle, path, v, name), e)
  {
  }

  lemma ExpectedHere(bundle: Bundle, path: Path, v: View, name: Name, e: Emitted)
    requires !Enters(bundle, path, v, name)
    ensures Expected(bundle, path, v, e) && e.key.path[|path|] == name
      <==> HasFilelog(bundle, path, v, name) && e == Emitted(KeyOf(path, v, name), false)
  {
  }

  /** Something below `name` makes the walk fail. */
  ghost predicate BadName(bundle: Bundle, path: Path, v: View, name: Name, error: Error) {
    || (error == ContentBlobMissing && LacksBlob(bundle, path, v, name))
    || (Enters(bundle, path, v, name) && AnyBad(bundle, path + [name], ViewBelow(bundle, path, v, name), error))
  }

  ghost predicate AnyBad(bundle: Bundle, path: Path, v: View, error: Error) {
    exists rel :: Bad(bundle, path, v, rel, error)
  }

  lemma BadBelow(bundle: Bundle, path: Path, v: View, name: Name, rel: Path, error: Error)
    requires Enters(bundle, path, v, name)
    ensures Bad(bundle, path, v, [name] + rel, error)
      <==> Bad(bundle, path + [name], ViewBelow(bundle, path, v, name), rel, error)
  {
    assert path + ([name] + rel) == (path + [name]) + rel;
    assert ([name] + rel)[1..] == rel;
  }

  lemma {:induction false} TooLongIsBad(bundle: Bundle, path: Path, v: View)
    requires PathLen(path) > MAX_PATH
    ensures AnyBad(bundle, path, v, PathTooLong)
  {
    assert path + [] == path;
    assert Bad(bundle, path, v, [], PathTooLong);
  }

  lemma BadNameIsBad(bundle: Bundle, path: Path, v: View, name: Name, error: Error)
    requires BadName(bundle, path, v, name, error)
    ensures AnyBad(bundle, path, v, error)
  {
    if Enters(bundle, path, v, name) {
      var rel :| Bad(bundle, path + [name], ViewBelow(bundle, path, v, name), rel, error);
      BadBelow(bundle, path, v, name, rel, error);
    } else {
      assert path + [] == path;
      assert Follow(bundle, path, v, []) == Some(v);
      assert Bad(bundle, path, v, [], error);
    }
  }

  lemma {:induction false} NothingBad(bundle: Bundle, path: Path, v: View, error: Error)
    requires PathLen(path) <= MAX_PATH && forall name | name in v.content :: !BadName(bundle, path, v, name, error)
    ensures !AnyBad(bundle, path, v, error)
  {
    forall rel ensures !Bad(bundle, path, v, rel, error) {
      assert path + [] == path;
      if rel != [] && Enters(bundle, path, v, rel[0]) {
        assert rel == [rel[0]] + rel[1..];
        BadBelow(bundle, path, v, rel[0], rel[1..], error);
        assert !BadName(bundle, path, v, rel[0], error);
      } else if rel == [] {
        assert forall name :: !LacksBlob(bundle, path, v, name) || BadName(bundle, path, v, name, ContentBlobMissing);
      }
    }
  }

  ghost function Budget(path: Path): nat {
    if PathLen(path) > MAX_PATH then 0 else MAX_PATH + 1 - PathLen(path)
  }

  lemma {:induction false} BudgetShrinks(path: Path, name: Name)
    requires name.bytes != [] && PathLen(path) <= MAX_PATH
    ensures Budget(path + [name]) < Budget(path)
  {
  }

  /** Terminates on every bundle, because paths grow towards the limit. Fails exactly when a manifest that is
      reached lies too deep or lists an uploaded file without content, with an error that says which, and
      otherwise returns the uploaded subtrees and files that are reached through new entries, each once. */
  method Walk(bundle: Bundle, path: Path, v: View) returns (r: Result<Walked, Error>)
    requires ValidBundle(bundle) && ValidContent(v.content)
    ensures r.Err? ==> AnyBad(bundle, path, v, r.error)
    ensures r.Ok? ==> forall error :: !AnyBad(bundle, path, v, error)
    ensures r.Ok? ==> Exact(bundle, path, v, r.value)
    decreases Budget(path), 1
  {
    if PathLen(path) > MAX_PATH {
      TooLongIsBad(bundle, path, v);
      return Err(PathTooLong);
    }
    NothingExact(bundle, path, v);
    var sofar := NOTHING;
    var todo := v.content.Keys;
    ghost var done: set<Name> := {};
    while todo != {}
      invariant done !! todo && done + todo == v.content.Keys
      invariant ExactVia(bundle, path, v, done, sofar)
      invariant forall name, error | name in done :: !BadName(bundle, path, v, name, error)
    {
      var name :| name in todo;
      var walked := WalkEntry(bundle, path, v, name);
      if walked.Err? {
        BadNameIsBad(bundle, path, v, name, walked.error);
        return Err(walked.error);
      }
      AppendExact(bundle, path, v, done, name, sofar, walked.value);
      sofar := Append(sofar, walked.value);
      todo := todo - {name};
      done := done + {name};
    }
    assert done == v.content.Keys;
    AllNames(bundle, path, v, sofar);
    forall error ensures !AnyBad(bundle, path, v, error) {
      NothingBad(bundle, path, v, error);
    }
    r := Ok(sofar);
  }

  lemma NothingExact(bundle: Bundle, path: Path, v: View)
    ensures ExactVia(bundle, path, v, {}, NOTHING)
  {
  }

  lemma AllNames(bundle: Bundle, path: Path, v: View, r: Walked)
    requires ExactVia(bundle, path, v, v.content.Keys, r)
    ensures Exact(bundle, path, v, r)
  {
  }

  lemma AppendExact(bundle: Bundle, path: Path, v: View, names: set<Name>, name: Name, a: Walked, b: Walked)
    requires ExactVia(bundle, path, v, names, a) && ExactVia(bundle, path, v, {name}, b) && name !in names
    ensures ExactVia(bundle, path, v, names + {name}, Append(a, b))
  {
    AppendCounted(a, b);
  }

  method WalkEntry(bundle: Bundle, path: Path, v: View, name: Name) returns (r: Result<Walked, Error>)
    requires ValidBundle(bundle) && ValidContent(v.content) && name in v.content && PathLen(path) <= MAX_PATH
    ensures r.Err? ==> BadName(bundle, path, v, name, r.error)
    ensures r.Ok? ==> forall error :: !BadName(bundle, path, v, name, error)
    ensures r.Ok? ==> ExactVia(bundle, path, v, {name}, r.value)
    decreases Budget(path), 0
  {
    if Enters(bundle, path, v, name) {
      BudgetShrinks(path, name);
      var below := Walk(bundle, path + [name], ViewBelow(bundle, path, v, name));
      if below.Err? {
        return below;
      }
      SubtreeExact(bundle, path, v, name, below.value);
      return Ok(Append(Subtree(path, v, name), below.value));
    }
    LeafExact(bundle, path, v, name);
    if !HasFilelog(bundle, path, v, name) {
      return Ok(NOTHING);
    }
    if KeyOf(path, v, name) !in bundle.contentBlobs {
      return Err(ContentBlobMissing);
    }
    return Ok(Leaf(path, v, name));
  }

  function Leaf(path: Path, v: View, name: Name): Walked
    requires name in v.content
  {
    var key := KeyOf(path, v, name);
    Walked([Emitted(key, false)], [key], Counters(0, 1, 1))
  }

  lemma LeafExact(bundle: Bundle, path: Path, v: View, name: Name)
    requires name in v.content && !Enters(bundle, path, v, name)
    ensures ExactVia(bundle, path, v, {name},
                     if HasFilelog(bundle, path, v, name) then Leaf(path, v, name) else NOTHING)
  {
  }

  function Subtree(path: Path, v: View, name: Name): Walked
    requires name in v.content
  {
    Walked([Emitted(KeyOf(path, v, name), true)], [], Counters(1, 0, 0))
  }

  lemma SubtreeCounted(path: Path, v: View, name: Name)
    requires name in v.content
    ensures Counted(Subtree(path, v, name))
  {
  }

  lemma SubtreeExact(bundle: Bundle, path: Path, v: View, name: Name, below: Walked)
    requires Enters(bundle, path, v, name)
    requires Exact(bundle, path + [name], ViewBelow(bundle, path, v, name), below)
    ensures ExactVia(bundle, path, v, {name}, Append(Subtree(path, v, name), below))
  {
    var here := Subtree(path, v, name);
    assert Emitted(KeyOf(path, v, name), true) !in below.entries;
    SubtreeCounted(path, v, name);
    AppendCounted(here, below);
    forall e
      ensures e in Append(here, below).entries <==> Expected(bundle, path, v, e) && e.key.path[|path|] in {name}
    {
      ExpectedBelow(bundle, path, v, name, e);
    }
  }
}
