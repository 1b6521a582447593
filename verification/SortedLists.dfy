/** Strictly ascending lists, as sorted maps iterate their entries. */
module SortedLists {
  /** `less` is the strict order of the keys of the entries. */
  ghost predicate IsOrder<T(!new)>(less: (T, T) -> bool) {
    (forall a :: !less(a, a)) && forall a, b, c :: less(a, b) && less(b, c) ==> less(a, c)
  }

  ghost predicate Ascends<T>(s: seq<T>, less: (T, T) -> bool) {
    s == [] || ((forall e | e in s[1..] :: less(s[0], e)) && Ascends(s[1..], less))
  }

  lemma {:induction false} AscendsAt<T>(s: seq<T>, less: (T, T) -> bool, i: nat, j: nat)
    requires Ascends(s, less) && i < j < |s|
    ensures less(s[i], s[j])
    decreases i
  {
    assert s[j] == s[1..][j - 1];
    if i > 0 {
      assert s[i] == s[1..][i - 1];
      AscendsAt(s[1..], less, i - 1, j - 1);
    }
  }

  lemma {:induction false} AscendsFrom<T(!new)>(x: T, s: seq<T>, less: (T, T) -> bool)
    requires IsOrder(less) && Ascends(s, less) && (s != [] ==> less(x, s[0]))
    ensures Ascends([x] + s, less)
  {
    assert ([x] + s)[1..] == s;
    if s != [] {
      assert s == [s[0]] + s[1..];
    }
  }

  /** Puts an entry in its place. */
  function Placed<T>(s: seq<T>, x: T, less: (T, T) -> bool): seq<T> {
    if s == [] || less(x, s[0]) then [x] + s else [s[0]] + Placed(s[1..], x, less)
  }

  lemma {:induction false} PlacedAscends<T(!new)>(s: seq<T>, x: T, less: (T, T) -> bool)
    requires IsOrder(less) && Ascends(s, less) && forall e | e in s :: less(x, e) || less(e, x)
    ensures Ascends(Placed(s, x, less), less)
    ensures forall e :: e in Placed(s, x, less) <==> e == x || e in s
    decreases |s|
  {
    if s != [] {
      var first, rest := s[0], s[1..];
      assert first in s && s == [first] + rest;
      if less(x, first) {
        AscendsFrom(x, s, less);
      } else {
        PlacedAscends(rest, x, less);
        assert ([first] + Placed(rest, x, less))[1..] == Placed(rest, x, less);
      }
    }
  }

  /** Two ascending lists of the same entries are the same list. */
  lemma {:induction false} AscendingIsUnique<T(!new)>(a: seq<T>, b: seq<T>, less: (T, T) -> bool)
    requires IsOrder(less) && Ascends(a, less) && Ascends(b, less) && forall e :: e in a <==> e in b
    ensures a == b
    decreases |a|
  {
    assert b != [] ==> b[0] in b;
    if a != [] {
      assert a[0] in b && b != [] && b[0] in a;
      assert a == [a[0]] + a[1..] && b == [b[0]] + b[1..];
      var before, after := less(a[0], b[0]), less(b[0], a[0]);
      assert !(before && after);
      assert a[0] == b[0];
      forall e ensures e in a[1..] <==> e in b[1..] {
        assert e in a <==> e == a[0] || e in a[1..];
        assert e in b <==> e == b[0] || e in b[1..];
        assert a[0] !in a[1..] && b[0] !in b[1..];
      }
      AscendingIsUnique(a[1..], b[1..], less);
    }
  }
}
