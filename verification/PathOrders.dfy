/** The order of names and paths, as sorted maps iterate them. */
module PathOrders {
  import opened Trees

  predicate BytesLess(a: seq<byte>, b: seq<byte>) {
    b != [] && (a == [] || a[0] < b[0] || (a[0] == b[0] && BytesLess(a[1..], b[1..])))
  }

  predicate NameLess(a: Name, b: Name) {
    BytesLess(a.bytes, b.bytes)
  }

  /** Element by element. */
  predicate PathLess(a: Path, b: Path) {
    b != [] && (a == [] || NameLess(a[0], b[0]) || (a[0] == b[0] && PathLess(a[1..], b[1..])))
  }

  lemma {:induction false} BytesOrder(a: seq<byte>, b: seq<byte>, c: seq<byte>)
    ensures !BytesLess(a, a)
    ensures BytesLess(a, b) || a == b || BytesLess(b, a)
    ensures BytesLess(a, b) && BytesLess(b, c) ==> BytesLess(a, c)
    decreases |a|
  {
    if a != [] && b != [] {
      assert a == [a[0]] + a[1..] && b == [b[0]] + b[1..];
      BytesOrder(a[1..], b[1..], if c != [] then c[1..] else []);
    } else if a != [] {
      BytesOrder(a[1..], [], []);
    }
  }

  lemma {:induction false} PathOrder(a: Path, b: Path, c: Path)
    ensures !PathLess(a, a)
    ensures PathLess(a, b) || a == b || PathLess(b, a)
    ensures PathLess(a, b) && PathLess(b, c) ==> PathLess(a, c)
    decreases |a|
  {
    if a != [] && b != [] {
      assert a == [a[0]] + a[1..] && b == [b[0]] + b[1..];
      PathOrder(a[1..], b[1..], if c != [] then c[1..] else []);
      BytesOrder(a[0].bytes, b[0].bytes, if c != [] then c[0].bytes else []);
    } else if a != [] {
      PathOrder(a[1..], [], []);
      BytesOrder(a[0].bytes, [], []);
    }
  }
}
