/** What the walk over uploaded manifests returns, told level by level from the uploaded maps alone. */
module WalkOnMaps {
  import opened Wrappers
  import opened Trees
  import opened WalkManifests

  /** The hash of an empty manifest, under which nothing is looked up. */
  const NULL_HASH: nat := 0

  /** The manifest lists `name`, and no uploaded parent lists the same hash, type and flag under it. */
  predicate ListsNew(u: View, name: Name) {
    && name in u.content
    && (u.p1.Some? && name in u.p1.value ==> u.p1.value[name] != u.content[name])
    && (u.p2.Some? && name in u.p2.value ==> u.p2.value[name] != u.content[name])
  }

  /** The content that was uploaded under a path and a hash, if any. */
  predicate IsUploaded(bundle: Bundle, path: Path, hash: Option<nat>, content: Option<Content>) {
    match (hash, content)
    case (None, None) => true
    case (None, Some(_)) => false
    case (Some(h), None) => NodeKey(path, h) !in bundle.manifests
    case (Some(h), Some(c)) => NodeKey(path, h) in bundle.manifests && bundle.manifests[NodeKey(path, h)].content == c
  }

  /** `w` is the uploaded manifest of the new directory `name` in `u`, with its own uploaded parents. */
  predicate LeadsTo(bundle: Bundle, path: Path, u: View, name: Name, w: View) {
    && ListsNew(u, name) && u.content[name].isTree
    && var key := NodeKey(path + [name], u.content[name].hash);
       && key in bundle.manifests && w.content == bundle.manifests[key].content
       && IsUploaded(bundle, path + [name], bundle.manifests[key].p1, w.p1)
       && IsUploaded(bundle, path + [name], bundle.manifests[key].p2, w.p2)
  }

  /** Each level is the manifest of the next name in the level before. */
  predicate Levels(bundle: Bundle, path: Path, rel: Path, levels: seq<View>) {
    && |levels| == |rel| + 1
    && forall i | 0 <= i < |rel| :: LeadsTo(bundle, path + rel[..i], levels[i], rel[i], levels[i + 1])
  }

  ghost predicate Reaches(bundle: Bundle, path: Path, v: View, rel: Path, u: View) {
    exists levels :: Levels(bundle, path, rel, levels) && levels[0] == v && levels[|rel|] == u
  }

  /** `e` is a new directory or file of a manifest that is reached, and was uploaded. */
  predicate ListedAt(bundle: Bundle, dir: Path, u: View, name: Name, e: Emitted) {
    && ListsNew(u, name)
    && e == Emitted(NodeKey(dir + [name], u.content[name].hash), u.content[name].isTree)
    && (if e.isTree then e.key in bundle.manifests else e.key in bundle.filelogs)
  }

  ghost predicate EmittedOnMaps(bundle: Bundle, path: Path, v: View, e: Emitted) {
    exists rel, u, name :: Reaches(bundle, path, v, rel, u) && ListedAt(bundle, path + rel, u, name, e)
  }

  ghost predicate TooDeep(bundle: Bundle, path: Path, v: View) {
    exists rel, u :: Reaches(bundle, path, v, rel, u) && |Joined(path + rel)| > 4096
  }

  ghost predicate LacksContent(bundle: Bundle, path: Path, v: View) {
    exists e :: EmittedOnMaps(bundle, path, v, e) && !e.isTree && e.key !in bundle.contentBlobs
  }

  /** The bytes of a path, with a slash between elements. */
  function Joined(path: Path): seq<byte> {
    if path == [] then []
    else if |path| == 1 then path[0].bytes
    else path[0].bytes + [47] + Joined(path[1..])
  }

  lemma {:induction false} JoinedLast(path: Path, name: Name)
    requires path != []
    ensures Joined(path + [name]) == Joined(path) + [47] + name.bytes
    decreases |path|
  {
    assert (path + [name])[1..] == path[1..] + [name];
    if |path| > 1 {
      JoinedLast(path[1..], name);
    }
  }

  lemma {:induction false} PathLenIsLength(path: Path)
    ensures PathLen(path) == |Joined(path)|
    decreases |path|
  {
    if path != [] {
      var init, name := path[..|path| - 1], path[|path| - 1];
      assert path == init + [name];
      PathLenIsLength(init);
      if init != [] {
        JoinedLast(init, name);
      }
    }
  }

  lemma EntersLeads(bundle: Bundle, path: Path, v: View, name: Name, w: View)
    ensures LeadsTo(bundle, path, v, name, w)
      <==> Enters(bundle, path, v, name) && w == ViewBelow(bundle, path, v, name)
  {
  }

  lemma LevelsStep(bundle: Bundle, path: Path, rel: Path, levels: seq<View>)
    requires rel != [] && levels != []
    ensures Levels(bundle, path, rel, levels)
      <==> |levels| > 1 && LeadsTo(bundle, path, levels[0], rel[0], levels[1])
           && Levels(bundle, path + [rel[0]], rel[1..], levels[1..])
  {
    assert path + rel[..0] == path;
    forall i | 0 < i < |rel| ensures path + rel[..i] == path + [rel[0]] + rel[1..][..i - 1] {
      assert rel[..i] == [rel[0]] + rel[1..][..i - 1];
    }
    if Levels(bundle, path, rel, levels) {
      forall i | 0 <= i < |rel[1..]|
        ensures LeadsTo(bundle, path + [rel[0]] + rel[1..][..i], levels[1..][i], rel[1..][i], levels[1..][i + 1])
      {
        assert LeadsTo(bundle, path + rel[..i + 1], levels[i + 1], rel[i + 1], levels[i + 2]);
      }
    }
    if |levels| > 1 && LeadsTo(bundle, path, levels[0], rel[0], levels[1])
       && Levels(bundle, path + [rel[0]], rel[1..], levels[1..]) {
      forall i | 0 <= i < |rel| ensures LeadsTo(bundle, path + rel[..i], levels[i], rel[i], levels[i + 1]) {
        if i > 0 {
          assert LeadsTo(bundle, path + [rel[0]] + rel[1..][..i - 1],
                         levels[1..][i - 1], rel[1..][i - 1], levels[1..][i]);
        }
      }
    }
  }

  /** Following names through the maps is what the walk does. */
  lemma {:induction false} FollowReaches(bundle: Bundle, path: Path, v: View, rel: Path, u: View)
    ensures Reaches(bundle, path, v, rel, u) <==> Follow(bundle, path, v, rel) == Some(u)
    decreases |rel|
  {
    if rel == [] {
      assert Levels(bundle, path, rel, [v]);
    } else {
      var name, rest := rel[0], rel[1..];
      if Reaches(bundle, path, v, rel, u) {
        var levels :| Levels(bundle, path, rel, levels) && levels[0] == v && levels[|rel|] == u;
        LevelsStep(bundle, path, rel, levels);
        EntersLeads(bundle, path, v, name, levels[1]);
        assert levels[1..][0] == levels[1] && levels[1..][|rest|] == u;
        FollowReaches(bundle, path + [name], levels[1], rest, u);
      }
      if Follow(bundle, path, v, rel) == Some(u) {
        var w := ViewBelow(bundle, path, v, name);
        FollowReaches(bundle, path + [name], w, rest, u);
        var levels :| Levels(bundle, path + [name], rest, levels) && levels[0] == w && levels[|rest|] == u;
        EntersLeads(bundle, path, v, name, w);
        assert ([v] + levels)[1..] == levels;
        LevelsStep(bundle, path, rel, [v] + levels);
      }
    }
  }

  lemma {:induction false} ExpectedAtFollows(bundle: Bundle, path: Path, v: View, rel: Path, name: Name, e: Emitted)
    ensures ExpectedAt(bundle, path, v, rel + [name], e)
      <==> var u := Follow(bundle, path, v, rel); u.Some? && ListedAt(bundle, path + rel, u.value, name, e)
    decreases |rel|
  {
    if rel == [] {
      assert rel + [name] == [name] && path + rel == path;
    } else {
      assert (rel + [name])[0] == rel[0] && (rel + [name])[1..] == rel[1..] + [name];
      assert path + rel == path + [rel[0]] + rel[1..];
      if Enters(bundle, path, v, rel[0]) {
        ExpectedAtFollows(bundle, path + [rel[0]], ViewBelow(bundle, path, v, rel[0]), rel[1..], name, e);
      }
    }
  }

  lemma ExpectedIsOnMaps(bundle: Bundle, path: Path, v: View, e: Emitted)
    ensures Expected(bundle, path, v, e) <==> EmittedOnMaps(bundle, path, v, e)
  {
    if Expected(bundle, path, v, e) {
      var full := e.key.path[|path|..];
      var rel, name := full[..|full| - 1], full[|full| - 1];
      assert full == rel + [name];
      ExpectedAtFollows(bundle, path, v, rel, name, e);
      FollowReaches(bundle, path, v, rel, Follow(bundle, path, v, rel).value);
    }
    if EmittedOnMaps(bundle, path, v, e) {
      var rel, u, name :| Reaches(bundle, path, v, rel, u) && ListedAt(bundle, path + rel, u, name, e);
      FollowReaches(bundle, path, v, rel, u);
      ExpectedAtFollows(bundle, path, v, rel, name, e);
      assert e.key.path == path + (rel + [name]);
      assert e.key.path[|path|..] == rel + [name];
    }
  }

  lemma TooDeepOnMaps(bundle: Bundle, path: Path, v: View)
    ensures AnyBad(bundle, path, v, PathTooLong) <==> TooDeep(bundle, path, v)
  {
    if AnyBad(bundle, path, v, PathTooLong) {
      var rel :| Bad(bundle, path, v, rel, PathTooLong);
      FollowReaches(bundle, path, v, rel, Follow(bundle, path, v, rel).value);
      PathLenIsLength(path + rel);
    }
    if TooDeep(bundle, path, v) {
      var rel, u :| Reaches(bundle, path, v, rel, u) && |Joined(path + rel)| > 4096;
      FollowReaches(bundle, path, v, rel, u);
      PathLenIsLength(path + rel);
      assert Bad(bundle, path, v, rel, PathTooLong);
    }
  }

  lemma LacksContentOnMaps(bundle: Bundle, path: Path, v: View)
    ensures AnyBad(bundle, path, v, ContentBlobMissing) <==> LacksContent(bundle, path, v)
  {
    if AnyBad(bundle, path, v, ContentBlobMissing) {
      var rel :| Bad(bundle, path, v, rel, ContentBlobMissing);
      var u := Follow(bundle, path, v, rel).value;
      FollowReaches(bundle, path, v, rel, u);
      var name :| LacksBlob(bundle, path + rel, u, name);
      var e := Emitted(KeyOf(path + rel, u, name), false);
      assert ListedAt(bundle, path + rel, u, name, e);
      assert EmittedOnMaps(bundle, path, v, e);
    }
    if LacksContent(bundle, path, v) {
      var e :| EmittedOnMaps(bundle, path, v, e) && !e.isTree && e.key !in bundle.contentBlobs;
      var rel, u, name :| Reaches(bundle, path, v, rel, u) && ListedAt(bundle, path + rel, u, name, e);
      FollowReaches(bundle, path, v, rel, u);
      assert LacksBlob(bundle, path + rel, u, name);
      assert Bad(bundle, path, v, rel, ContentBlobMissing);
    }
  }

  /** An entry that an uploaded parent has too is passed over with all that lies below it; any other that was
      uploaded is returned. */
  lemma FirstLevel(bundle: Bundle, path: Path, v: View, r: Walked, name: Name)
    requires Exact(bundle, path, v, r) && name in v.content
    ensures !ListsNew(v, name) ==> forall e | e in r.entries :: e.key.path[..|path| + 1] != path + [name]
    ensures forall e | ListedAt(bundle, path, v, name, e) :: e in r.entries
  {
    forall e | e in r.entries && !ListsNew(v, name) ensures e.key.path[..|path| + 1] != path + [name] {
      assert Expected(bundle, path, v, e);
      assert e.key.path[..|path| + 1][|path|] == e.key.path[|path|..][0] != name;
    }
    forall e | ListedAt(bundle, path, v, name, e) ensures e in r.entries {
      assert e.key.path == path + [name] && e.key.path[|path|..] == [name];
      assert ExpectedAt(bundle, path, v, [name], e);
    }
  }

  /** `v` is the uploaded root manifest with its own uploaded parents. */
  predicate IsRoot(bundle: Bundle, root: nat, v: View) {
    var key := NodeKey([], root);
    && root != NULL_HASH && key in bundle.manifests && v.content == bundle.manifests[key].content
    && IsUploaded(bundle, [], bundle.manifests[key].p1, v.p1)
    && IsUploaded(bundle, [], bundle.manifests[key].p2, v.p2)
  }

  function RootView(bundle: Bundle, root: nat): Option<View> {
    if root == NULL_HASH || NodeKey([], root) !in bundle.manifests then None
    else
      var uploaded := bundle.manifests[NodeKey([], root)];
      Some(View(uploaded.content, ParentContent(bundle, [], uploaded.p1), ParentContent(bundle, [], uploaded.p2)))
  }

  ghost predicate WalkedFrom(bundle: Bundle, v: View, r: Result<Walked, Error>) {
    && (r.Err? <==> TooDeep(bundle, [], v) || LacksContent(bundle, [], v))
    && (r == Err(PathTooLong) ==> TooDeep(bundle, [], v))
    && (r == Err(ContentBlobMissing) ==> LacksContent(bundle, [], v))
    && (r.Ok? ==> Counted(r.value) && forall e :: e in r.value.entries <==> EmittedOnMaps(bundle, [], v, e))
  }

  lemma RootIsUnique(bundle: Bundle, root: nat, v: View)
    ensures IsRoot(bundle, root, v) <==> RootView(bundle, root) == Some(v)
  {
  }

  lemma WalkedOnMaps(bundle: Bundle, v: View, r: Result<Walked, Error>)
    requires r.Err? ==> AnyBad(bundle, [], v, r.error)
    requires r.Ok? ==> (forall error :: !AnyBad(bundle, [], v, error)) && Exact(bundle, [], v, r.value)
    ensures WalkedFrom(bundle, v, r)
  {
    TooDeepOnMaps(bundle, [], v);
    LacksContentOnMaps(bundle, [], v);
    if r.Ok? {
      forall e ensures e in r.value.entries <==> EmittedOnMaps(bundle, [], v, e) {
        ExpectedIsOnMaps(bundle, [], v, e);
      }
    }
  }

  /** Walks from the root: fails exactly if a manifest that is reached lies too deep or a file that would be
      returned has no content, and otherwise returns exactly the uploaded new entries that are reached. */
  method WalkRoot(bundle: Bundle, root: nat) returns (r: Result<Walked, Error>)
    requires ValidBundle(bundle)
    ensures root == NULL_HASH || NodeKey([], root) !in bundle.manifests ==> r == Ok(NOTHING)
    ensures forall v | IsRoot(bundle, root, v) :: WalkedFrom(bundle, v, r)
  {
    forall v ensures IsRoot(bundle, root, v) <==> RootView(bundle, root) == Some(v) {
      RootIsUnique(bundle, root, v);
    }
    var v := RootView(bundle, root);
    if v.None? {
      return Ok(NOTHING);
    }
    r := Walk(bundle, [], v.value);
    WalkedOnMaps(bundle, v.value, r);
  }
}
