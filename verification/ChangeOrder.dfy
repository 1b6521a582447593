/** The order in which the file changes of a commit are applied. */
module ChangeOrder {
  import opened Trees
  import opened PathOrders
  import opened SortedLists
  import opened MemoryManifest

  ghost predicate HasPath(changes: seq<FileChange>, p: Path) {
    exists c :: c in changes && c.path == p
  }

  /** No path is changed twice. */
  ghost predicate Once(changes: seq<FileChange>) {
    changes == [] || (!HasPath(changes[1..], changes[0].path) && Once(changes[1..]))
  }

  /** The change at `p` comes before the change at `q`. */
  ghost predicate Before(changes: seq<FileChange>, p: Path, q: Path) {
    exists i, j :: 0 <= i < j < |changes| && changes[i].path == p && changes[j].path == q
  }

  /** The change at `p` comes after a change strictly below `p`. */
  ghost predicate Overtaken(changes: seq<FileChange>, p: Path) {
    exists e :: p < e && Before(changes, e, p)
  }

  /** Some overtaken change above `q` is not followed by a change at `q`. */
  ghost predicate Lost(changes: seq<FileChange>, q: Path) {
    exists p :: p < q && Overtaken(changes, p) && !Before(changes, p, q)
  }

  // Recursive readings.

  lemma HasPathStep(changes: seq<FileChange>, p: Path)
    requires changes != []
    ensures HasPath(changes, p) <==> changes[0].path == p || HasPath(changes[1..], p)
  {
  }

  lemma BeforeStep(changes: seq<FileChange>, p: Path, q: Path)
    requires changes != []
    ensures Before(changes, p, q) <==>
      (changes[0].path == p && HasPath(changes[1..], q)) || Before(changes[1..], p, q)
  {
  }

  lemma BeforeHas(changes: seq<FileChange>, p: Path, q: Path)
    requires Before(changes, p, q)
    ensures HasPath(changes, p) && HasPath(changes, q)
  {
  }

  /** Two changed paths come in exactly one of the two orders. */
  lemma {:induction false} OneOrder(changes: seq<FileChange>, p: Path, q: Path)
    requires Once(changes) && p != q && HasPath(changes, p) && HasPath(changes, q)
    ensures Before(changes, p, q) <==> !Before(changes, q, p)
  {
    HasPathStep(changes, p);
    HasPathStep(changes, q);
    BeforeStep(changes, p, q);
    BeforeStep(changes, q, p);
    if changes[0].path == p || changes[0].path == q {
      if Before(changes[1..], p, q) {
        BeforeHas(changes[1..], p, q);
      }
      if Before(changes[1..], q, p) {
        BeforeHas(changes[1..], q, p);
      }
    } else {
      OneOrder(changes[1..], p, q);
    }
  }

  lemma {:induction false} BeforeInSuffix(front: seq<FileChange>, back: seq<FileChange>, p: Path, q: Path)
    requires Once(front + back) && HasPath(back, p)
    ensures HasPath(front + back, p) && !HasPath(front, p)
    ensures Before(front + back, p, q) <==> Before(back, p, q)
    decreases |front|
  {
    if front == [] {
      assert front + back == back;
    } else {
      assert (front + back)[1..] == front[1..] + back;
      BeforeInSuffix(front[1..], back, p, q);
      BeforeStep(front + back, p, q);
      HasPathStep(front + back, p);
      HasPathStep(front, p);
    }
  }

  lemma {:induction false} OnceParts(front: seq<FileChange>, back: seq<FileChange>)
    requires Once(front + back)
    ensures Once(front) && Once(back)
    ensures forall p :: !(HasPath(front, p) && HasPath(back, p))
    decreases |front|
  {
    if front == [] {
      assert front + back == back;
    } else {
      assert (front + back)[1..] == front[1..] + back;
      OnceParts(front[1..], back);
      HasPathParts(front[1..], back, front[0].path);
      forall p ensures HasPath(front, p) <==> p == front[0].path || HasPath(front[1..], p) {
        HasPathStep(front, p);
      }
    }
  }

  lemma HasPathParts(front: seq<FileChange>, back: seq<FileChange>, p: Path)
    ensures HasPath(front + back, p) <==> HasPath(front, p) || HasPath(back, p)
  {
  }

  lemma {:induction false} OnceAround(front: seq<FileChange>, x: FileChange, back: seq<FileChange>)
    requires Once(front + [x] + back)
    ensures Once(back) && !HasPath(front, x.path) && !HasPath(back, x.path)
    ensures forall p :: !(HasPath(front, p) && HasPath(back, p))
  {
    assert front + [x] + back == front + ([x] + back);
    OnceParts(front + [x], back);
    OnceParts(front, [x] + back);
    HasPathParts(front, [x], x.path);
    HasPathParts([x], back, x.path);
    assert x in [x];
    forall p ensures HasPath(front + [x], p) <== HasPath(front, p) {
      HasPathParts(front, [x], p);
    }
  }

  // Changes below one name.

  function Tails(changes: seq<FileChange>, name: Name): seq<FileChange> {
    if changes == [] then []
    else
      var rest := Tails(changes[1..], name);
      var x := changes[0];
      if x.path != [] && x.path[0] == name then [FileChange(x.path[1..], x.entry)] + rest else rest
  }

  lemma {:induction false} TailsMember(changes: seq<FileChange>, name: Name, x: FileChange)
    ensures x in Tails(changes, name) <==> FileChange([name] + x.path, x.entry) in changes
  {
    if changes != [] {
      TailsMember(changes[1..], name, x);
      var y := changes[0];
      if y.path != [] && y.path[0] == name {
        assert y.path == [name] + y.path[1..];
        assert x == FileChange(y.path[1..], y.entry) <==> FileChange([name] + x.path, x.entry) == y by {
          assert ([name] + x.path)[1..] == x.path;
        }
      }
    }
  }

  lemma {:induction false} TailsHasPath(changes: seq<FileChange>, name: Name, p: Path)
    ensures HasPath(Tails(changes, name), p) <==> HasPath(changes, [name] + p)
  {
    if HasPath(Tails(changes, name), p) {
      var x :| x in Tails(changes, name) && x.path == p;
      TailsMember(changes, name, x);
    }
    if HasPath(changes, [name] + p) {
      var y :| y in changes && y.path == [name] + p;
      TailsMember(changes, name, FileChange(p, y.entry));
    }
  }

  /** What the first change adds to the changes below one name. */
  lemma {:induction false} TailsHead(changes: seq<FileChange>, name: Name)
    requires changes != []
    ensures var x, rest := changes[0], Tails(changes[1..], name);
            if x.path != [] && x.path[0] == name then
              && x.path == [name] + x.path[1..]
              && Tails(changes, name) == [FileChange(x.path[1..], x.entry)] + rest
              && Tails(changes, name)[1..] == rest
            else Tails(changes, name) == rest && forall p :: x.path != [name] + p
  {
  }

  lemma Prepended(name: Name, p: Path, q: Path)
    ensures [name] + p == [name] + q <==> p == q
    ensures [name] + p < [name] + q <==> p < q
  {
    assert ([name] + p)[1..] == p && ([name] + q)[1..] == q;
    if p < q {
      assert [name] + q == [name] + p + q[|p|..];
    }
    if [name] + p < [name] + q {
      assert ([name] + q)[..|p| + 1][1..] == q[..|p|];
    }
  }

  lemma {:induction false} TailsBefore(changes: seq<FileChange>, name: Name, p: Path, q: Path)
    ensures Before(Tails(changes, name), p, q) <==> Before(changes, [name] + p, [name] + q)
    decreases |changes|
  {
    if changes != [] {
      var x := changes[0];
      TailsHead(changes, name);
      TailsBefore(changes[1..], name, p, q);
      TailsHasPath(changes[1..], name, q);
      BeforeStep(changes, [name] + p, [name] + q);
      if x.path != [] && x.path[0] == name {
        BeforeStep(Tails(changes, name), p, q);
        Prepended(name, x.path[1..], p);
      }
    }
  }

  lemma {:induction false} TailsOnce(changes: seq<FileChange>, name: Name)
    requires Once(changes)
    ensures Once(Tails(changes, name))
    decreases |changes|
  {
    if changes != [] {
      TailsHead(changes, name);
      TailsOnce(changes[1..], name);
      if changes[0].path != [] && changes[0].path[0] == name {
        TailsHasPath(changes[1..], name, changes[0].path[1..]);
      }
    }
  }

  lemma SameName(name: Name, p: Path, e: Path)
    requires ([name] + p <= e) || (e <= [name] + p && e != [])
    ensures e == [name] + e[1..]
  {
  }

  lemma {:induction false} TailsOvertaken(changes: seq<FileChange>, name: Name, p: Path)
    ensures Overtaken(Tails(changes, name), p) <==> Overtaken(changes, [name] + p)
  {
    if Overtaken(Tails(changes, name), p) {
      var e :| p < e && Before(Tails(changes, name), e, p);
      TailsBefore(changes, name, e, p);
      Prepended(name, p, e);
    }
    if Overtaken(changes, [name] + p) {
      var e :| [name] + p < e && Before(changes, e, [name] + p);
      SameName(name, p, e);
      TailsBefore(changes, name, e[1..], p);
      Prepended(name, p, e[1..]);
    }
  }

  lemma {:induction false} TailsLost(changes: seq<FileChange>, name: Name, q: Path)
    requires !HasPath(changes, [])
    ensures Lost(Tails(changes, name), q) <==> Lost(changes, [name] + q)
  {
    if Lost(Tails(changes, name), q) {
      var p :| p < q && Overtaken(Tails(changes, name), p) && !Before(Tails(changes, name), p, q);
      TailsOvertaken(changes, name, p);
      TailsBefore(changes, name, p, q);
      Prepended(name, p, q);
    }
    if Lost(changes, [name] + q) {
      var p :| p < [name] + q && Overtaken(changes, p) && !Before(changes, p, [name] + q);
      var e :| p < e && Before(changes, e, p);
      BeforeHas(changes, e, p);
      SameName(name, q, p);
      TailsOvertaken(changes, name, p[1..]);
      TailsBefore(changes, name, p[1..], q);
      Prepended(name, p[1..], q);
    }
  }

  // A change at the empty path, first or overtaken.

  lemma {:induction false} RootFirst(changes: seq<FileChange>, p: Path, q: Path)
    requires changes != [] && changes[0].path == [] && Once(changes)
    ensures !Overtaken(changes, [])
    ensures p != [] ==> (Overtaken(changes, p) <==> Overtaken(changes[1..], p))
    ensures p != [] ==> (Before(changes, p, q) <==> Before(changes[1..], p, q))
  {
    if Overtaken(changes, []) {
      var e :| [] < e && Before(changes, e, []);
      BeforeStep(changes, e, []);
      BeforeHas(changes[1..], e, []);
    }
    forall e, r | e != [] ensures Before(changes, e, r) <==> Before(changes[1..], e, r) {
      BeforeStep(changes, e, r);
    }
  }

  lemma {:induction false} RootFirstLost(changes: seq<FileChange>, q: Path)
    requires changes != [] && changes[0].path == [] && Once(changes)
    ensures Lost(changes, q) <==> Lost(changes[1..], q)
  {
    if Lost(changes, q) {
      var p :| p < q && Overtaken(changes, p) && !Before(changes, p, q);
      RootFirst(changes, p, q);
    }
    if Lost(changes[1..], q) {
      var p :| p < q && Overtaken(changes[1..], p) && !Before(changes[1..], p, q);
      var e :| p < e && Before(changes[1..], e, p);
      BeforeHas(changes[1..], e, p);
      RootFirst(changes, p, q);
    }
  }

  /** A later change strictly above `q` undoes the change at `q`. */
  ghost predicate Wiped(changes: seq<FileChange>, q: Path) {
    exists p :: p < q && Before(changes, q, p)
  }

  /** An overtaken change at the empty path loses all but what is changed after it for good. */
  lemma {:induction false} RootOvertaken(front: seq<FileChange>, x: FileChange, back: seq<FileChange>, q: Path)
    requires Once(front + [x] + back) && front != [] && x.path == [] && q != []
    ensures Overtaken(front + [x] + back, [])
    ensures Lost(front + [x] + back, q) <==> !HasPath(back, q) || Wiped(back, q)
  {
    var changes := front + [x] + back;
    assert changes == front + ([x] + back);
    OnceAround(front, x, back);
    assert changes[0] == front[0] && changes[|front|] == x;
    assert front[0] in front && front[0].path != [];
    assert HasPath([x] + back, []) by {
      assert x in [x] + back;
    }
    BeforeInSuffix(front, [x] + back, [], q);
    BeforeStep([x] + back, [], q);
    assert ([x] + back)[1..] == back;
    if Before(back, [], q) {
      BeforeHas(back, [], q);
    }
    assert Overtaken(changes, []) by {
      assert Before(changes, front[0].path, []);
    }
    if HasPath(back, q) {
      WipedIsLost(front + [x], back, q);
    } else {
      assert [] < q && !Before(changes, [], q);
    }
  }

  lemma {:induction false} WipedIsLost(front: seq<FileChange>, back: seq<FileChange>, q: Path)
    requires Once(front + back) && HasPath(back, q)
    ensures Lost(front + back, q) <==> Wiped(back, q)
  {
    var changes := front + back;
    BeforeInSuffix(front, back, q, q);
    if Wiped(back, q) {
      var p :| p < q && Before(back, q, p);
      BeforeInSuffix(front, back, q, p);
      BeforeHas(changes, q, p);
      OneOrder(changes, p, q);
    }
    if Lost(changes, q) {
      var p :| p < q && Overtaken(changes, p) && !Before(changes, p, q);
      var e :| p < e && Before(changes, e, p);
      BeforeHas(changes, e, p);
      OneOrder(changes, p, q);
      BeforeInSuffix(front, back, q, p);
    }
  }

  // Orders that lose nothing.

  /** No path comes after a path that it is a prefix of; in particular no path comes twice. */
  predicate PrefixFirst(changes: seq<FileChange>) {
    forall i, j | 0 <= i < j < |changes| :: !(changes[j].path <= changes[i].path)
  }

  lemma {:induction false} PrefixFirstLosesNothing(changes: seq<FileChange>)
    requires PrefixFirst(changes)
    ensures Once(changes) && forall q :: !Lost(changes, q)
  {
    PrefixFirstOnce(changes);
    forall p ensures !Overtaken(changes, p) {
      forall e | p < e ensures !Before(changes, e, p) {
        assert p <= e;
      }
    }
  }

  lemma {:induction false} PrefixFirstOnce(changes: seq<FileChange>)
    requires PrefixFirst(changes)
    ensures Once(changes)
    decreases |changes|
  {
    if changes != [] {
      PrefixFirstOnce(changes[1..]);
      forall c | c in changes[1..] ensures c.path != changes[0].path {
        var k :| 0 <= k < |changes[1..]| && changes[1..][k] == c;
        assert changes[k + 1] == c;
      }
    }
  }

  predicate ByPath(a: FileChange, b: FileChange) {
    PathLess(a.path, b.path)
  }

  ghost predicate Ascending(changes: seq<FileChange>) {
    Ascends(changes, ByPath)
  }

  lemma ByPathIsOrder()
    ensures IsOrder(ByPath)
  {
    forall a: FileChange, b: FileChange, c: FileChange
      ensures !ByPath(a, a) && (ByPath(a, b) && ByPath(b, c) ==> ByPath(a, c))
    {
      PathOrder(a.path, b.path, c.path);
    }
  }

  lemma {:induction false} LessIsNotExtension(a: Path, b: Path)
    requires PathLess(a, b)
    ensures !(b <= a)
    decreases |a|
  {
    if a != [] && b[0] == a[0] {
      BytesOrder(a[0].bytes, [], []);
      LessIsNotExtension(a[1..], b[1..]);
    }
  }

  /** Ascending path order puts every path before its extensions. */
  lemma AscendingIsPrefixFirst(changes: seq<FileChange>)
    requires Ascending(changes)
    ensures PrefixFirst(changes)
  {
    forall i, j | 0 <= i < j < |changes| ensures !(changes[j].path <= changes[i].path) {
      AscendsAt(changes, ByPath, i, j);
      LessIsNotExtension(changes[i].path, changes[j].path);
    }
  }
}
