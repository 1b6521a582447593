/** Orders of changes at which the round trip fails, and one that is not by prefix and works. */
module OrderExamples {
  import opened Wrappers
  import opened Trees
  import opened BonsaiDiff
  import opened MemoryManifest
  import opened ChangeOrder
  import opened Merging
  import opened AnyOrder
  import opened RoundTrip

  function Tree(children: map<Name, Node>): Manifest {
    Dir(multiset{}, children)
  }

  lemma NotUnder(w: Option<Node>, a: Option<Node>, b: Option<Node>, name: Name, p: Path)
    requires !IsFile(w) && ChildOf(w, name).None? && ChildOf(a, name).None? && ChildOf(b, name).None?
    ensures Expected(w, ParentSet(a, b), [name] + p).None?
  {
    ExpectedBelow(w, a, b, name, p);
    assert ParentSet(None, None) == {};
    NothingBelowAbsent(p);
  }

  /** Everything below a name where at most one of the three trees has a file. */
  lemma OneFile(w: Option<Node>, f: Option<Node>, p: Path)
    requires (w.None? && IsFile(f)) || (f.None? && IsFile(w)) || (IsFile(w) && w == f)
    ensures p != [] ==> Expected(w, ParentSet(None, f), p).None?
    ensures Expected(w, ParentSet(None, f), []) == if w == f then None else if w.None? then Some(Deleted)
                                                   else Some(Changed(w.value.ft, w.value.id))
  {
    var c := ParentSet(None, f);
    if p != [] {
      if w.Some? {
        NothingExpectedBelow(w, c, p);
      } else {
        ExpectedStep(w, c, p);
        assert CompositeChild(c, p[0]) == {};
        NothingBelowAbsent(p[1..]);
      }
    }
  }

  /** The trees all consist of one directory `d`; one parent has the file `f` in its place. */
  lemma UnderD(d: Name, f: Node, b: Manifest, w: Manifest, p: Path)
    requires f.File?
    ensures var e := Expected(Some(Tree(map[d := w])), ParentSet(Some(Tree(map[d := f])), Some(Tree(map[d := b]))), p);
            if p == [] || p[0] != d then e.None?
            else if |p| == 1 then e == Some(Deleted)
            else e == Expected(ChildOf(Some(w), p[1]), ParentSet(None, ChildOf(Some(b), p[1])), p[2..])
  {
    var root, p1, p2 := Some(Tree(map[d := w])), Some(Tree(map[d := f])), Some(Tree(map[d := b]));
    if p == [] {
      assert !HasFile(ParentSet(p1, p2));
    } else if p[0] != d {
      NotUnder(root, p1, p2, p[0], p[1..]);
      assert p == [p[0]] + p[1..];
    } else {
      assert p == [d] + p[1..];
      ExpectedBelow(root, p1, p2, d, p[1..]);
      if |p| == 1 {
        assert f in ParentSet(Some(f), Some(b));
      } else {
        assert p[1..] == [p[1]] + p[2..];
        ExpectedBelow(Some(w), Some(f), Some(b), p[1], p[2..]);
      }
    }
  }

  lemma RealisesListed(changes: seq<FileChange>, root: Manifest, p1: Option<Manifest>, p2: Option<Manifest>)
    requires Realises(changes, Some(root), ParentSet(p1, p2)) && forall c | c in changes :: c.path != []
    ensures Listed(changes, RootDiff(root, p1, p2))
  {
    var diff := RootDiff(root, p1, p2);
    forall c | c in changes ensures RecordsSome(diff, c) {
      var r := BonsaiDiffResult(c.path, Expected(Some(root), ParentSet(p1, p2), c.path).value);
      RootDiffIsExact(root, p1, p2, r);
    }
    forall r | r in diff ensures HasPath(changes, r.path) {
      RootDiffIsExact(root, p1, p2, r);
    }
  }

  lemma OnceTwo(a: FileChange, b: FileChange)
    ensures forall p :: HasPath([a, b], p) <==> p == a.path || p == b.path
    ensures a.path != b.path ==> Once([a, b])
  {
  }

  lemma OnceThree(a: FileChange, b: FileChange, c: FileChange)
    ensures forall p :: HasPath([a, b, c], p) <==> p == a.path || p == b.path || p == c.path
    ensures a.path != b.path && a.path != c.path && b.path != c.path ==> Once([a, b, c])
  {
    assert [a, b, c][1..] == [b, c];
    OnceTwo(b, c);
    forall p ensures HasPath([a, b, c], p) <==> p == a.path || p == b.path || p == c.path {
      HasPathStep([a, b, c], p);
    }
  }

  // A file that nobody changed is lost.

  function LossyOrder(d: Name, x: Name): seq<FileChange> {
    [FileChange([d, x], None), FileChange([d], None)]
  }

  /** One parent has the file `f` at `d`, the other a directory with `g` at `x` and `h` at `z`; the working tree
      keeps `d/z`. The deletion of `d` after that of `d/x` loses `d/z` and reports no error. */
  lemma LateDeletionLosesFile(d: Name, x: Name, z: Name, f: Node, g: Node, h: Node)
    requires x != z && f.File? && g.File? && h.File?
    ensures var p1, p2 := Tree(map[d := f]), Tree(map[d := Tree(map[x := g, z := h])]);
            var root := Tree(map[d := Tree(map[z := h])]);
            var built := ManifestFromBonsai(Some(p1), Some(p2), LossyOrder(d, x));
            && Listed(LossyOrder(d, x), RootDiff(root, Some(p1), Some(p2)))
            && built.Ok? && FileAt(Some(built.value), [d, z]).None? && FileAt(Some(root), [d, z]) == Some(h)
  {
    LossyListed(d, x, z, f, g, h);
    LossyOvertakes(d, x, [d, z]);
    LossyNotStuck(d, x, f, Tree(map[x := g, z := h]));
    LosesSilently(Tree(map[d := Tree(map[z := h])]), Some(Tree(map[d := f])),
                  Some(Tree(map[d := Tree(map[x := g, z := h])])), LossyOrder(d, x), [d, z]);
    FileTwoDeep(d, z, h);
  }

  lemma FileTwoDeep(d: Name, z: Name, h: Node)
    requires h.File?
    ensures FileAt(Some(Tree(map[d := Tree(map[z := h])])), [d, z]) == Some(h)
  {
    assert [d, z][1..] == [z] && [z][1..] == [];
    var inner := Some(Tree(map[z := h]));
    assert NodeAt(inner, [z]) == ChildOf(inner, z);
  }

  lemma LosesSilently(root: Manifest, p1: Option<Manifest>, p2: Option<Manifest>, changes: seq<FileChange>, q: Path)
    requires Listed(changes, RootDiff(root, p1, p2)) && !Stuck(changes, p1, p2) && Lost(changes, q)
    ensures var built := ManifestFromBonsai(p1, p2, changes); built.Ok? && FileAt(Some(built.value), q).None?
  {
    BuiltInAnyOrder(root, p1, p2, changes, q);
  }

  lemma LossyNotStuck(d: Name, x: Name, f: Node, b: Manifest)
    requires f.File?
    ensures !Stuck(LossyOrder(d, x), Some(Tree(map[d := f])), Some(Tree(map[d := b])))
  {
    var p1, p2 := Some(Tree(map[d := f])), Some(Tree(map[d := b]));
    forall p ensures !StuckAt(LossyOrder(d, x), p1, p2, p) {
      LossyOvertakes(d, x, p);
      assert NodeAt(p1, [d]) == Some(f) && NodeAt(p2, [d]) == Some(b);
    }
  }

  lemma LossyOvertakes(d: Name, x: Name, q: Path)
    ensures Overtaken(LossyOrder(d, x), q) <==> q == [d]
    ensures !Before(LossyOrder(d, x), [d], q)
    ensures q != [] && q[0] == d && q != [d] ==> Lost(LossyOrder(d, x), q)
  {
    var changes := LossyOrder(d, x);
    assert changes[0].path == [d, x] && changes[1].path == [d];
    assert [d] < [d, x] && Before(changes, [d, x], [d]);
    assert q != [] && q[0] == d && q != [d] ==> [d] < q;
  }

  lemma LossyListed(d: Name, x: Name, z: Name, f: Node, g: Node, h: Node)
    requires x != z && f.File? && g.File? && h.File?
    ensures Listed(LossyOrder(d, x), RootDiff(Tree(map[d := Tree(map[z := h])]), Some(Tree(map[d := f])),
                                              Some(Tree(map[d := Tree(map[x := g, z := h])]))))
  {
    var b, w := Tree(map[x := g, z := h]), Tree(map[z := h]);
    var p1, p2, root := Tree(map[d := f]), Tree(map[d := b]), Tree(map[d := w]);
    forall p ensures Expected(Some(root), ParentSet(Some(p1), Some(p2)), p)
                  == if p == [d] || p == [d, x] then Some(Deleted) else None {
      UnderD(d, f, b, w, p);
      if |p| > 1 && p[0] == d {
        assert p == [d, p[1]] + p[2..];
        if p[1] == x || p[1] == z {
          OneFile(ChildOf(Some(w), p[1]), ChildOf(Some(b), p[1]), p[2..]);
        } else {
          assert ParentSet(None, None) == {};
          NothingBelowAbsent(p[2..]);
        }
      }
    }
    OnceTwo(FileChange([d, x], None), FileChange([d], None));
    RealisesListed(LossyOrder(d, x), root, Some(p1), Some(p2));
  }

  // An order that is not by prefix and works.

  function WorkingOrder(d: Name, x: Name, y: Name, h: Node): seq<FileChange> {
    [FileChange([d, x], None), FileChange([d], None), FileChange([d, y], Some(h))]
  }

  /** The deletion of `d` after that of `d/x` and before the change of `d/y` does no harm. */
  lemma LateDeletionCanWork(d: Name, x: Name, y: Name, f: Node, g: Node, h: Node)
    requires x != y && f.File? && g.File? && h.File?
    ensures var p1, p2 := Tree(map[d := f]), Tree(map[d := Tree(map[x := g])]);
            var root := Tree(map[d := Tree(map[y := h])]);
            var changes := WorkingOrder(d, x, y, h);
            var built := ManifestFromBonsai(Some(p1), Some(p2), changes);
            && Listed(changes, RootDiff(root, Some(p1), Some(p2))) && !PrefixFirst(changes)
            && built.Ok? && SameFiles(built.value, root)
  {
    var p1, p2 := Tree(map[d := f]), Tree(map[d := Tree(map[x := g])]);
    var root := Tree(map[d := Tree(map[y := h])]);
    var changes := WorkingOrder(d, x, y, h);
    WorkingListed(d, x, y, f, g, h);
    assert changes[1].path <= changes[0].path;
    forall p, q | Overtaken(changes, p) && p < q && FileAt(Some(root), q).Some? ensures Before(changes, p, q) {
      WorkingOvertakes(d, x, y, h, p);
      OnlyFile(d, y, h, q);
    }
    RestoresExactly(root, Some(p1), Some(p2), changes);
  }

  lemma WorkingOvertakes(d: Name, x: Name, y: Name, h: Node, p: Path)
    ensures Overtaken(WorkingOrder(d, x, y, h), p) ==> p == [d]
    ensures Before(WorkingOrder(d, x, y, h), [d], [d, y])
  {
    var changes := WorkingOrder(d, x, y, h);
    assert changes[0].path == [d, x] && changes[1].path == [d] && changes[2].path == [d, y];
  }

  lemma OnlyFile(d: Name, y: Name, h: Node, q: Path)
    requires h.File? && [d] < q && FileAt(Some(Tree(map[d := Tree(map[y := h])])), q).Some?
    ensures q == [d, y]
  {
    var inner := Some(Tree(map[y := h]));
    assert q[0] == d && NodeAt(Some(Tree(map[d := Tree(map[y := h])])), q) == NodeAt(inner, q[1..]);
    assert NodeAt(inner, q[1..]) == NodeAt(ChildOf(inner, q[1]), q[2..]) by {
      assert q[1..][0] == q[1] && q[1..][1..] == q[2..];
    }
    if q[1] != y {
      NothingInside(q[2..]);
    } else if q[2..] != [] {
      NothingBelow(Some(h), q[2..]);
    }
    assert q == [d, q[1]] + q[2..];
  }

  lemma WorkingExpected(d: Name, x: Name, y: Name, f: Node, g: Node, h: Node, p: Path)
    requires x != y && f.File? && g.File? && h.File?
    ensures Expected(Some(Tree(map[d := Tree(map[y := h])])),
                     ParentSet(Some(Tree(map[d := f])), Some(Tree(map[d := Tree(map[x := g])]))), p)
         == if p == [d] || p == [d, x] then Some(Deleted)
            else if p == [d, y] then Some(Changed(h.ft, h.id)) else None
  {
    var b, w := Tree(map[x := g]), Tree(map[y := h]);
    UnderD(d, f, b, w, p);
    if |p| > 1 && p[0] == d {
      assert p == [d, p[1]] + p[2..];
      if p[1] == x || p[1] == y {
        OneFile(ChildOf(Some(w), p[1]), ChildOf(Some(b), p[1]), p[2..]);
      } else {
        assert ParentSet(None, None) == {};
        NothingBelowAbsent(p[2..]);
      }
    }
  }

  lemma WorkingListed(d: Name, x: Name, y: Name, f: Node, g: Node, h: Node)
    requires x != y && f.File? && g.File? && h.File?
    ensures Listed(WorkingOrder(d, x, y, h), RootDiff(Tree(map[d := Tree(map[y := h])]), Some(Tree(map[d := f])),
                                                      Some(Tree(map[d := Tree(map[x := g])]))))
  {
    var p1, p2 := Some(Tree(map[d := f])), Some(Tree(map[d := Tree(map[x := g])]));
    var root := Tree(map[d := Tree(map[y := h])]);
    forall p ensures Expected(Some(root), ParentSet(p1, p2), p)
                  == if p == [d] || p == [d, x] then Some(Deleted)
                     else if p == [d, y] then Some(Changed(h.ft, h.id)) else None {
      WorkingExpected(d, x, y, f, g, h, p);
    }
    OnceThree(FileChange([d, x], None), FileChange([d], None), FileChange([d, y], Some(h)));
    assert [d, x][1] == x && [d, y][1] == y;
    RealisesListed(WorkingOrder(d, x, y, h), root, p1, p2);
  }
}
