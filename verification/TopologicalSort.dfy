/** Topological sorting by depth-first search with an explicit stack. */
module TopologicalSort {
  import opened Wrappers

  datatype Mark = Temporary | Marked

  /** `Finish` is the pending action that marks a node once its children are done. */
  datatype Action<T> = Visit(node: T) | Finish(node: T)

  predicate Edge<T(==)>(dag: map<T, seq<T>>, u: T, v: T) {
    u in dag && v in dag[u]
  }

  function Nodes<T>(dag: map<T, seq<T>>): set<T> {
    dag.Keys + set u, v | u in dag && v in dag[u] :: v
  }

  predicate Walk<T(==)>(dag: map<T, seq<T>>, p: seq<T>) {
    forall i | 0 < i < |p| :: Edge(dag, p[i - 1], p[i])
  }

  ghost predicate Reaches<T(!new)>(dag: map<T, seq<T>>, u: T, v: T) {
    exists p: seq<T> :: |p| > 1 && p[0] == u && p[|p| - 1] == v && Walk(dag, p)
  }

  ghost predicate Cyclic<T(!new)>(dag: map<T, seq<T>>) {
    exists u :: Reaches(dag, u, u)
  }

  /** Every mentioned node once, each before all its successors. */
  predicate Sorted<T(==)>(dag: map<T, seq<T>>, out: seq<T>) {
    && Distinct(out)
    && (set v | v in out) == Nodes(dag)
    && forall i, j | 0 <= i < |out| && 0 <= j < |out| && Edge(dag, out[i], out[j]) :: i < j
  }

  lemma ReachesStep<T(!new)>(dag: map<T, seq<T>>, u: T, v: T)
    requires Edge(dag, u, v)
    ensures Reaches(dag, u, v)
  {
    assert Walk(dag, [u, v]);
  }

  lemma ReachesMore<T(!new)>(dag: map<T, seq<T>>, u: T, v: T, w: T)
    requires Reaches(dag, u, v) && Edge(dag, v, w)
    ensures Reaches(dag, u, w)
  {
    var p :| |p| > 1 && p[0] == u && p[|p| - 1] == v && Walk(dag, p);
    var q := p + [w];
    assert Walk(dag, q);
  }

  /** Along a walk the positions in a sorted output only grow. */
  lemma WalkAscends<T>(dag: map<T, seq<T>>, out: seq<T>, p: seq<T>, i: nat, j: nat)
    requires Sorted(dag, out) && Walk(dag, p) && |p| > 1
    requires i < |out| && j < |out| && out[i] == p[0] && out[j] == p[|p| - 1]
    ensures i < j
    decreases |p|
  {
    var init := p[..|p| - 1];
    var v := init[|init| - 1];
    assert Edge(dag, v, p[|p| - 1]);
    assert v in Nodes(dag);
    assert v in (set x | x in out);
    var k :| 0 <= k < |out| && out[k] == v;
    if |init| > 1 {
      WalkAscends(dag, out, init, i, k);
    }
  }

  lemma SortedIsAcyclic<T(!new)>(dag: map<T, seq<T>>, out: seq<T>)
    requires Sorted(dag, out)
    ensures !Cyclic(dag)
  {
    if Cyclic(dag) {
      var u :| Reaches(dag, u, u);
      var p :| |p| > 1 && p[0] == u && p[|p| - 1] == u && Walk(dag, p);
      assert Edge(dag, p[0], p[1]);
      assert u in (set x | x in out);
      var i :| 0 <= i < |out| && out[i] == u;
      WalkAscends(dag, out, p, i, i);
    }
  }

  // What the stack, the marks and the output mean.

  /** The nodes with a pending `Finish` are the temporary ones, each once. */
  predicate MarksMatch<T(==)>(marks: map<T, Mark>, stack: seq<Action<T>>) {
    && (forall v | v in marks && marks[v] == Temporary :: Finish(v) in stack)
    && (forall i | 0 <= i < |stack| && stack[i].Finish? :: stack[i].node in marks && marks[stack[i].node] == Temporary)
    && (forall i, j | 0 <= i < j < |stack| && stack[i].Finish? :: stack[i] != stack[j])
  }

  /** A pending node reaches everything above it. */
  ghost predicate PendingReaches<T(!new)>(dag: map<T, seq<T>>, stack: seq<Action<T>>) {
    forall i, j | 0 <= i < j < |stack| && stack[i].Finish? :: Reaches(dag, stack[i].node, stack[j].node)
  }

  predicate IsMarked<T>(marks: map<T, Mark>, v: T) {
    v in marks && marks[v] == Marked
  }

  /** The children of a pending node are done or still above it. */
  ghost predicate ChildrenAbove<T(!new)>(dag: map<T, seq<T>>, marks: map<T, Mark>, stack: seq<Action<T>>) {
    forall i | 0 <= i < |stack| && stack[i].Finish? ::
      forall v | Edge(dag, stack[i].node, v) :: IsMarked(marks, v) || Above(stack, i, v)
  }

  predicate Above<T(==)>(stack: seq<Action<T>>, i: int, v: T) {
    exists j :: i < j < |stack| && 0 <= j && stack[j].node == v
  }

  /** The output so far, in reverse: marked nodes, each once, after all their children. */
  ghost predicate OutputOk<T(!new)>(dag: map<T, seq<T>>, marks: map<T, Mark>, output: seq<T>) {
    && Distinct(output)
    && (forall v :: v in output <==> IsMarked(marks, v))
    && forall i | 0 <= i < |output| :: forall v | Edge(dag, output[i], v) :: v in output[..i]
  }

  predicate InGraph<T(==)>(dag: map<T, seq<T>>, marks: map<T, Mark>, stack: seq<Action<T>>) {
    && marks.Keys <= Nodes(dag)
    && forall i | 0 <= i < |stack| :: stack[i].node in Nodes(dag)
  }

  ghost predicate Inv<T(!new)>(dag: map<T, seq<T>>, marks: map<T, Mark>, stack: seq<Action<T>>, output: seq<T>) {
    && InGraph(dag, marks, stack)
    && MarksMatch(marks, stack)
    && PendingReaches(dag, stack)
    && ChildrenAbove(dag, marks, stack)
    && OutputOk(dag, marks, output)
  }

  function Visits<T>(nodes: seq<T>): seq<Action<T>> {
    seq(|nodes|, i requires 0 <= i < |nodes| => Visit(nodes[i]))
  }

  function Children<T>(dag: map<T, seq<T>>, v: T): seq<T> {
    if v in dag then dag[v] else []
  }

  // Each way of taking one action keeps the invariant.

  lemma SkipKeeps<T(!new)>(dag: map<T, seq<T>>, marks: map<T, Mark>, stack: seq<Action<T>>, output: seq<T>, v: T)
    requires Inv(dag, marks, stack + [Visit(v)], output) && IsMarked(marks, v)
    ensures Inv(dag, marks, stack, output)
  {
    var before := stack + [Visit(v)];
    assert forall i | 0 <= i < |stack| :: stack[i] == before[i];
    forall u | u in marks && marks[u] == Temporary ensures Finish(u) in stack {
      assert Finish(u) in before;
    }
    forall i, w | 0 <= i < |stack| && stack[i].Finish? && Edge(dag, stack[i].node, w)
      ensures IsMarked(marks, w) || Above(stack, i, w)
    {
      assert before[i].Finish? && Edge(dag, before[i].node, w);
    }
  }

  lemma TemporaryIsCycle<T(!new)>(dag: map<T, seq<T>>, marks: map<T, Mark>, stack: seq<Action<T>>, output: seq<T>, v: T)
    requires Inv(dag, marks, stack + [Visit(v)], output)
    requires v in marks && marks[v] == Temporary
    ensures Cyclic(dag)
  {
    var before := stack + [Visit(v)];
    assert Finish(v) in before;
    var i :| 0 <= i < |before| && before[i] == Finish(v);
    assert before[|stack|] == Visit(v);
    assert Reaches(dag, before[i].node, before[|stack|].node);
  }

  lemma FinishKeeps<T(!new)>(dag: map<T, seq<T>>, marks: map<T, Mark>, stack: seq<Action<T>>, output: seq<T>, v: T)
    requires Inv(dag, marks, stack + [Finish(v)], output)
    ensures Inv(dag, marks[v := Marked], stack, output + [v])
  {
    var before := stack + [Finish(v)];
    assert before[|stack|] == Finish(v);
    assert forall i | 0 <= i < |stack| :: stack[i] == before[i];
    FinishKeepsMarks(marks, stack, v);
    forall i, w | 0 <= i < |stack| && stack[i].Finish? && Edge(dag, stack[i].node, w)
      ensures IsMarked(marks[v := Marked], w) || Above(stack, i, w)
    {
      assert before[i].Finish? && Edge(dag, before[i].node, w);
    }
    forall w | Edge(dag, v, w) ensures w in output {
      assert !Above(before, |stack|, w);
    }
    FinishKeepsOutput(dag, marks, output, v);
  }

  lemma FinishKeepsMarks<T>(marks: map<T, Mark>, stack: seq<Action<T>>, v: T)
    requires MarksMatch(marks, stack + [Finish(v)])
    ensures MarksMatch(marks[v := Marked], stack)
  {
    var before := stack + [Finish(v)];
    assert before[|stack|] == Finish(v);
    assert forall i | 0 <= i < |stack| :: stack[i] == before[i] && before[i] != before[|stack|];
    forall u | u in marks && u != v && marks[u] == Temporary ensures Finish(u) in stack {
      assert Finish(u) in before;
    }
  }

  lemma FinishKeepsOutput<T(!new)>(dag: map<T, seq<T>>, marks: map<T, Mark>, output: seq<T>, v: T)
    requires OutputOk(dag, marks, output) && !IsMarked(marks, v)
    requires forall w | Edge(dag, v, w) :: w in output
    ensures OutputOk(dag, marks[v := Marked], output + [v])
  {
    var after := output + [v];
    forall i, w | 0 <= i < |after| && Edge(dag, after[i], w) ensures w in after[..i] {
      assert after[..i] == output[..i];
    }
    forall u ensures u in after <==> IsMarked(marks[v := Marked], u) {
    }
  }

  lemma VisitKeeps<T(!new)>(dag: map<T, seq<T>>, marks: map<T, Mark>, stack: seq<Action<T>>, output: seq<T>, v: T)
    requires Inv(dag, marks, stack + [Visit(v)], output) && v !in marks
    ensures Inv(dag, marks[v := Temporary], stack + [Finish(v)] + Visits(Children(dag, v)), output)
  {
    var before := stack + [Visit(v)];
    var children := Children(dag, v);
    var after := stack + [Finish(v)] + Visits(children);
    assert before[|stack|] == Visit(v);
    VisitStack(stack, v, children);
    forall i | 0 <= i < |after| ensures after[i].node in Nodes(dag) {
      if i > |stack| {
        assert Edge(dag, v, after[i].node);
      }
    }
    VisitKeepsMarks(marks, stack, v, children);
    VisitKeepsReach(dag, stack, v);
    VisitKeepsChildren(dag, marks, stack, v);
  }

  lemma VisitStack<T>(stack: seq<Action<T>>, v: T, children: seq<T>)
    ensures var before, after := stack + [Visit(v)], stack + [Finish(v)] + Visits(children);
            && |after| == |stack| + 1 + |children|
            && (forall i | 0 <= i < |stack| :: after[i] == before[i] == stack[i])
            && after[|stack|] == Finish(v)
            && (forall i | |stack| < i < |after| :: after[i] == Visit(children[i - |stack| - 1]))
  {
  }

  lemma VisitKeepsMarks<T>(marks: map<T, Mark>, stack: seq<Action<T>>, v: T, children: seq<T>)
    requires MarksMatch(marks, stack + [Visit(v)]) && v !in marks
    ensures MarksMatch(marks[v := Temporary], stack + [Finish(v)] + Visits(children))
  {
    var before, after := stack + [Visit(v)], stack + [Finish(v)] + Visits(children);
    VisitStack(stack, v, children);
    forall u | u in marks && marks[u] == Temporary ensures Finish(u) in after {
      assert Finish(u) in before;
      var i :| 0 <= i < |before| && before[i] == Finish(u);
      assert after[i] == before[i];
    }
    assert after[|stack|] in after;
  }

  lemma VisitKeepsReach<T(!new)>(dag: map<T, seq<T>>, stack: seq<Action<T>>, v: T)
    requires PendingReaches(dag, stack + [Visit(v)])
    ensures PendingReaches(dag, stack + [Finish(v)] + Visits(Children(dag, v)))
  {
    var children := Children(dag, v);
    var before, after := stack + [Visit(v)], stack + [Finish(v)] + Visits(children);
    VisitStack(stack, v, children);
    forall i, j | 0 <= i < j < |after| && after[i].Finish? ensures Reaches(dag, after[i].node, after[j].node) {
      if j <= |stack| {
        assert Reaches(dag, before[i].node, before[j].node);
      } else {
        assert Edge(dag, v, after[j].node);
        if i < |stack| {
          assert Reaches(dag, before[i].node, before[|stack|].node);
          ReachesMore(dag, after[i].node, v, after[j].node);
        } else {
          ReachesStep(dag, v, after[j].node);
        }
      }
    }
  }

  lemma VisitKeepsChildren<T(!new)>(dag: map<T, seq<T>>, marks: map<T, Mark>, stack: seq<Action<T>>, v: T)
    requires ChildrenAbove(dag, marks, stack + [Visit(v)]) && v !in marks
    ensures ChildrenAbove(dag, marks[v := Temporary], stack + [Finish(v)] + Visits(Children(dag, v)))
  {
    var children := Children(dag, v);
    var before, after := stack + [Visit(v)], stack + [Finish(v)] + Visits(children);
    VisitStack(stack, v, children);
    forall i, w | 0 <= i < |after| && after[i].Finish? && Edge(dag, after[i].node, w)
      ensures IsMarked(marks[v := Temporary], w) || Above(after, i, w)
    {
      if i < |stack| {
        assert before[i].Finish? && Edge(dag, before[i].node, w);
        if !IsMarked(marks, w) {
          assert Above(before, i, w);
          var j :| i < j < |before| && 0 <= j && before[j].node == w;
          assert after[j].node == w;
        }
      } else {
        var k :| 0 <= k < |children| && children[k] == w;
        assert after[|stack| + 1 + k].node == w;
      }
    }
  }

  /** A finished search: the reversed output is sorted. */
  lemma FinishedIsSorted<T(!new)>(dag: map<T, seq<T>>, marks: map<T, Mark>, output: seq<T>, reversed: seq<T>)
    requires Inv(dag, marks, [], output) && Nodes(dag) <= marks.Keys
    requires |reversed| == |output| && forall i | 0 <= i < |output| :: reversed[i] == output[|output| - 1 - i]
    ensures Sorted(dag, reversed)
  {
    forall v | v in Nodes(dag) ensures v in reversed {
      assert v in marks && marks[v] != Temporary;
      assert v in output;
      var k :| 0 <= k < |output| && output[k] == v;
      assert reversed[|output| - 1 - k] == v;
    }
    forall v | v in reversed ensures v in Nodes(dag) {
      var k :| 0 <= k < |reversed| && reversed[k] == v;
      assert output[|output| - 1 - k] in output;
    }
    forall i, j | 0 <= i < |reversed| && 0 <= j < |reversed| && Edge(dag, reversed[i], reversed[j]) ensures i < j {
      var i', j' := |output| - 1 - i, |output| - 1 - j;
      assert output[j'] in output[..i'];
      var k :| 0 <= k < i' && output[k] == output[j'];
    }
  }

  lemma StartKeeps<T(!new)>(dag: map<T, seq<T>>, marks: map<T, Mark>, output: seq<T>, v: T)
    requires Inv(dag, marks, [], output) && v in Nodes(dag)
    ensures Inv(dag, marks, [Visit(v)], output)
  {
  }

  /** `None` exactly when the graph has a cycle, else every mentioned node in topological order. */
  method SortTopological<T(==,!new)>(dag: map<T, seq<T>>) returns (r: Option<seq<T>>)
    ensures r.None? <==> Cyclic(dag)
    ensures r.Some? ==> Sorted(dag, r.value)
  {
    var marks: map<T, Mark> := map[];
    var output: seq<T> := [];
    var todo := Nodes(dag);
    while todo != {}
      invariant todo <= Nodes(dag)
      invariant Inv(dag, marks, [], output) && Nodes(dag) - todo <= marks.Keys
    {
      var node :| node in todo;
      var cycle;
      cycle, marks, output := SearchFrom(dag, marks, output, node);
      if cycle {
        return None;
      }
      todo := todo - {node};
    }
    var reversed := seq(|output|, i requires 0 <= i < |output| => output[|output| - 1 - i]);
    FinishedIsSorted(dag, marks, output, reversed);
    SortedIsAcyclic(dag, reversed);
    r := Some(reversed);
  }

  /** The inner loop: runs the stack empty, starting from one node. */
  method SearchFrom<T(==,!new)>(dag: map<T, seq<T>>, marks0: map<T, Mark>, output0: seq<T>, node: T)
    returns (cycle: bool, marks: map<T, Mark>, output: seq<T>)
    requires Inv(dag, marks0, [], output0) && node in Nodes(dag)
    ensures cycle ==> Cyclic(dag)
    ensures !cycle ==> Inv(dag, marks, [], output) && marks0.Keys + {node} <= marks.Keys
  {
    cycle, marks, output := false, marks0, output0;
    StartKeeps(dag, marks, output, node);
    var stack := [Visit(node)];
    while stack != []
      invariant Inv(dag, marks, stack, output) && marks0.Keys <= marks.Keys
      invariant node in marks || Visit(node) in stack
      decreases Nodes(dag) - marks.Keys, |stack|
    {
      var action := stack[|stack| - 1];
      var rest := stack[..|stack| - 1];
      assert stack == rest + [action];
      stack := rest;
      match action {
        case Visit(v) =>
          if v !in marks {
            VisitKeeps(dag, marks, rest, output, v);
            assert v in Nodes(dag);
            marks := marks[v := Temporary];
            stack := PushVisits(rest + [Finish(v)], Children(dag, v));
          } else if marks[v] == Temporary {
            TemporaryIsCycle(dag, marks, rest, output, v);
            cycle := true;
            return;
          } else {
            SkipKeeps(dag, marks, rest, output, v);
          }
        case Finish(v) =>
          FinishKeeps(dag, marks, rest, output, v);
          marks := marks[v := Marked];
          output := output + [v];
      }
    }
  }

  method PushVisits<T>(stack: seq<Action<T>>, children: seq<T>) returns (pushed: seq<Action<T>>)
    ensures pushed == stack + Visits(children)
  {
    pushed := stack;
    for k := 0 to |children|
      invariant pushed == stack + Visits(children[..k])
    {
      assert Visits(children[..k + 1]) == Visits(children[..k]) + [Visit(children[k])];
      pushed := pushed + [Visit(children[k])];
    }
    assert children[..|children|] == children;
  }
}
