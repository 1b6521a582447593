/** Sequences of steps that may fail, in different orders. */
module Reordering {
  import opened Wrappers

  /** Takes the steps one after another; fails if one of them fails. */
  function Fold<S, C>(step: (S, C) -> Option<S>, s: S, cs: seq<C>): Option<S>
    decreases |cs|
  {
    if cs == [] then Some(s)
    else
      var next := step(s, cs[0]);
      if next.None? then None else Fold(step, next.value, cs[1..])
  }

  function Two<S, C>(step: (S, C) -> Option<S>, s: S, x: C, y: C): Option<S> {
    var next := step(s, x);
    if next.None? then None else step(next.value, y)
  }

  /** Whatever the state, the two steps do the same in either order. */
  ghost predicate Swappable<S(!new), C(!new)>(step: (S, C) -> Option<S>, x: C, y: C) {
    forall s :: Two(step, s, x, y) == Two(step, s, y, x)
  }

  lemma {:induction false} FoldTwo<S, C>(step: (S, C) -> Option<S>, s: S, x: C, y: C, rest: seq<C>)
    ensures Fold(step, s, [x, y] + rest)
         == if Two(step, s, x, y).None? then None else Fold(step, Two(step, s, x, y).value, rest)
  {
    assert ([x, y] + rest)[1..] == [y] + rest && ([y] + rest)[1..] == rest;
  }

  /** A step may be taken before all those that it can be swapped with. */
  lemma {:induction false} MoveFirst<S(!new), C(!new)>(step: (S, C) -> Option<S>, s: S, front: seq<C>, x: C,
                                                       back: seq<C>)
    requires forall c | c in front :: Swappable(step, x, c)
    ensures Fold(step, s, front + [x] + back) == Fold(step, s, [x] + (front + back))
    decreases |front|
  {
    if front == [] {
      assert front + [x] + back == [x] + (front + back);
    } else {
      var y, rest := front[0], front[1..];
      assert (front + [x] + back)[1..] == rest + [x] + back;
      assert ([y, x] + (rest + back))[1..] == [x] + (rest + back);
      var next := step(s, y);
      if next.Some? {
        MoveFirst(step, next.value, rest, x, back);
      }
      assert Fold(step, s, front + [x] + back) == Fold(step, s, [y, x] + (rest + back));
      FoldTwo(step, s, y, x, rest + back);
      FoldTwo(step, s, x, y, rest + back);
      assert Swappable(step, x, y);
      assert [x, y] + (rest + back) == [x] + (front + back);
    }
  }

  /** `one` lists the same as `two`, each once. */
  ghost predicate SameElements<C(!new)>(one: seq<C>, two: seq<C>) {
    Distinct(one) && Distinct(two) && forall c :: c in one <==> c in two
  }

  /** What comes in different orders in the two lists can be swapped. */
  ghost predicate Reorders<S(!new), C(!new)>(step: (S, C) -> Option<S>, one: seq<C>, two: seq<C>) {
    forall i, j, k, l | 0 <= i < j < |one| && 0 <= k < l < |two| && one[i] == two[l] && one[j] == two[k] ::
      Swappable(step, one[i], one[j])
  }

  lemma TakeOut<S(!new), C(!new)>(step: (S, C) -> Option<S>, one: seq<C>, two: seq<C>, k: nat)
    requires SameElements(one, two) && Reorders(step, one, two)
    requires one != [] && k < |two| && two[k] == one[0]
    ensures forall c | c in two[..k] :: Swappable(step, one[0], c)
    ensures SameElements(one[1..], two[..k] + two[k + 1..]) && Reorders(step, one[1..], two[..k] + two[k + 1..])
  {
    var x, rest := one[0], two[..k] + two[k + 1..];
    forall c | c in two[..k] ensures Swappable(step, x, c) {
      var j :| 0 <= j < k && two[j] == c;
      assert c in one && c != x;
      var i :| 0 <= i < |one| && one[i] == c;
      assert one[0] == two[k] && one[i] == two[j];
    }
    assert forall i | 0 <= i < |rest| :: rest[i] == two[if i < k then i else i + 1];
    forall c ensures c in one[1..] <==> c in rest {
      assert one == [x] + one[1..] && two == two[..k] + [x] + two[k + 1..];
      assert c in one <==> c == x || c in one[1..];
      assert c in two <==> c == x || c in rest;
    }
    forall i, j, m, l | 0 <= i < j < |one[1..]| && 0 <= m < l < |rest|
                        && one[1..][i] == rest[l] && one[1..][j] == rest[m]
      ensures Swappable(step, one[1..][i], one[1..][j])
    {
      var m', l' := if m < k then m else m + 1, if l < k then l else l + 1;
      assert one[i + 1] == two[l'] && one[j + 1] == two[m'];
    }
  }

  /** Two orders of the same steps in which only swappable steps change places come to the same end. */
  lemma {:induction false} SameEnd<S(!new), C(!new)>(step: (S, C) -> Option<S>, s: S, one: seq<C>, two: seq<C>)
    requires SameElements(one, two) && Reorders(step, one, two)
    ensures Fold(step, s, one) == Fold(step, s, two)
    decreases |one|
  {
    assert two != [] ==> two[0] in two;
    if one != [] {
      var x := one[0];
      assert x in two;
      var k :| 0 <= k < |two| && two[k] == x;
      var front, back := two[..k], two[k + 1..];
      TakeOut(step, one, two, k);
      assert two == front + [x] + back;
      MoveFirst(step, s, front, x, back);
      assert ([x] + (front + back))[1..] == front + back;
      var next := step(s, x);
      if next.Some? {
        SameEnd(step, next.value, one[1..], front + back);
      }
    }
  }
}
