/** The ordered part of `computeAlphabet` / `compute_alphabet`: nodes leave a
    priority queue keyed by their current in-degree, each one asserted to
    have in-degree 0 when it leaves, and its successors lose one count. */
module Linearize {
  import opened Outcomes
  import opened Words
  import opened Graphs
  import opened InDegree

  /** `out` and `Q` split the nodes between them, `out` listing each of its
      nodes once. */
  ghost predicate Split(g: Graph, Q: set<char>, out: seq<char>)
  {
    && Q <= g.Keys
    && (forall x :: x in out <==> x in g && x !in Q)
    && NoDup(out)
  }

  /** Every edge among the nodes of `out` goes forwards. */
  ghost predicate Forward(g: Graph, out: seq<char>)
  {
    forall i, j :: 0 <= i < |out| && 0 <= j < |out| && Edge(g, out[i], out[j]) ==> i < j
  }

  /** No edge leads from a node of `Q` back to a node of `out`. */
  ghost predicate NoBackEdge(g: Graph, Q: set<char>, out: seq<char>)
  {
    forall q, j :: q in Q && 0 <= j < |out| ==> !Edge(g, q, out[j])
  }

  /** The state of the extraction loop: `out` holds the nodes emitted so far,
      `Q` the waiting ones, and `counts` is the in-degree index restricted to
      `Q`. */
  ghost predicate Progress(g: Graph, Q: set<char>, out: seq<char>, counts: Counts)
  {
    Split(g, Q, out) && CountsFor(g, Q, counts) && Forward(g, out) && NoBackEdge(g, Q, out)
  }

  /** In a closed graph the freshly built index is the index of all nodes. */
  lemma ProgressStart(g: Graph, counts: Counts)
    requires Closed(g)
    requires counts.Keys == g.Keys + Targets(g)
    requires forall x :: x in counts ==> counts[x] == |PredsIn(g, x, g.Keys)|
    ensures Progress(g, g.Keys, [], counts)
  {
    forall b | b in Targets(g) ensures b in g {
      var a :| a in g && b in g[a];
      assert Edge(g, a, b);
    }
  }

  /** Some waiting node has the least count. */
  lemma {:induction false} MinExists(Q: set<char>, counts: Counts)
    requires Q != {} && Q <= counts.Keys
    ensures exists c :: c in Q && forall q :: q in Q ==> counts[c] <= counts[q]
    decreases |Q|
  {
    var x :| x in Q;
    if Q == {x} {
      assert forall q :: q in Q ==> counts[x] <= counts[q];
    } else {
      MinExists(Q - {x}, counts);
      var m :| m in Q - {x} && forall q :: q in Q - {x} ==> counts[m] <= counts[q];
      if counts[x] <= counts[m] {
        assert forall q :: q in Q ==> counts[x] <= counts[q];
      } else {
        assert forall q :: q in Q ==> counts[m] <= counts[q];
      }
    }
  }

  /** A count of 0 means no waiting predecessor. */
  lemma ZeroCount(g: Graph, Q: set<char>, counts: Counts, c: char)
    requires CountsFor(g, Q, counts) && c in Q && counts[c] == 0
    ensures PredsIn(g, c, Q) == {}
  {
  }

  /** The successors of a node that may be emitted are waiting, differ from
      it, and count it among their predecessors: `removeCharacter`'s asserts
      hold. */
  lemma StepSuccessors(g: Graph, Q: set<char>, out: seq<char>, counts: Counts, c: char)
    requires Closed(g) && Split(g, Q, out) && NoBackEdge(g, Q, out) && CountsFor(g, Q, counts)
    requires c in Q && PredsIn(g, c, Q) == {}
    ensures g[c] <= Q - {c}
    ensures forall s :: s in g[c] ==> s in counts && s != c && counts[s] > 0
  {
    forall s | s in g[c] ensures s in Q - {c} && counts[s] > 0 {
      assert Edge(g, c, s);
      assert c in PredsIn(g, s, Q);
    }
  }

  /** Emitting `c` keeps every edge among emitted nodes going forwards. */
  lemma StepForward(g: Graph, Q: set<char>, out: seq<char>, c: char)
    requires Forward(g, out) && NoBackEdge(g, Q, out)
    requires c in Q && PredsIn(g, c, Q) == {} && c !in out
    requires forall k :: 0 <= k < |out| ==> out[k] !in Q
    ensures Forward(g, out + [c])
  {
    var out' := out + [c];
    assert c !in PredsIn(g, c, Q);
    assert forall j :: 0 <= j < |out| ==> !Edge(g, c, out[j]);
    forall i, j | 0 <= i < |out'| && 0 <= j < |out'| && Edge(g, out'[i], out'[j]) ensures i < j {
      if i < |out| && j < |out| {
        assert Edge(g, out[i], out[j]);
      }
    }
  }

  /** After emitting `c`, no waiting node has an edge back to it. */
  lemma StepNoBackEdge(g: Graph, Q: set<char>, out: seq<char>, c: char)
    requires NoBackEdge(g, Q, out) && PredsIn(g, c, Q) == {}
    ensures NoBackEdge(g, Q - {c}, out + [c])
  {
    var out' := out + [c];
    forall q, j | q in Q - {c} && 0 <= j < |out'| ensures !Edge(g, q, out'[j]) {
      if j == |out| {
        assert q !in PredsIn(g, c, Q);
      } else {
        assert out'[j] == out[j];
      }
    }
  }

  /** Emitting a waiting node whose count is 0: each of its successors is
      still waiting with a positive count, and the loop state carries over. */
  lemma ProgressStep(g: Graph, Q: set<char>, out: seq<char>, counts: Counts, c: char)
    requires Closed(g) && Progress(g, Q, out, counts)
    requires c in Q && counts[c] == 0
    ensures forall s :: s in g[c] ==> s in counts && s != c && counts[s] > 0
    ensures Progress(g, Q - {c}, out + [c], AfterRemoval(counts, c, g[c]))
  {
    ZeroCount(g, Q, counts, c);
    StepSuccessors(g, Q, out, counts, c);
    RemoveKeepsIndex(g, Q, counts, c);
    assert forall k :: 0 <= k < |out| ==> out[k] !in Q;
    StepForward(g, Q, out, c);
    StepNoBackEdge(g, Q, out, c);
  }

  /** If even the least count is positive, every waiting node has a waiting
      predecessor, so the graph has a cycle. */
  lemma ProgressStuck(g: Graph, Q: set<char>, counts: Counts, c: char)
    requires CountsFor(g, Q, counts)
    requires c in Q && counts[c] != 0
    requires forall q :: q in Q ==> counts[c] <= counts[q]
    ensures !Acyclic(g)
  {
    LeastPositive(g, Q, counts, c);
    NoSourceMeansCycle(g, Q);
  }

  /** When the least count is positive, every count is. */
  lemma LeastPositive(g: Graph, Q: set<char>, counts: Counts, c: char)
    requires CountsFor(g, Q, counts)
    requires c in Q && counts[c] != 0
    requires forall q :: q in Q ==> counts[c] <= counts[q]
    ensures NoSourceIn(g, Q)
  {
    assert counts[c] == |PredsIn(g, c, Q)|;
    forall x | x in Q ensures PredsIn(g, x, Q) != {} {
      assert counts[x] > 0;
    }
  }

  /** With nothing left waiting, the emitted nodes form a topological order. */
  lemma ProgressDone(g: Graph, out: seq<char>, counts: Counts)
    requires Closed(g) && Progress(g, {}, out, counts)
    ensures IsTopoOrder(g, out) && Acyclic(g)
  {
    TopoOrderIsAcyclic(g, out);
  }

  /** `computeAlphabet` of solution1: the queue always yields a node of least
      current count, because the successors whose counts drop are taken out
      and put back. It succeeds exactly when the graph has no cycle, and then
      lists every node once with each edge going forwards. */
  method ByLeastCount(g: Graph) returns (r: Result<seq<char>>)
    requires Closed(g)
    ensures r.Ok? <==> Acyclic(g)
    ensures r.Ok? ==> IsTopoOrder(g, r.value)
    ensures r.Fail? ==> r.error == AssertionFailed
  {
    var counts := InEdgeCounts(g);
    ProgressStart(g, counts);
    var Q := g.Keys;
    var out := [];
    while Q != {}
      invariant Progress(g, Q, out, counts)
      decreases |Q|
    {
      MinExists(Q, counts);
      var c :| c in Q && forall q :: q in Q ==> counts[c] <= counts[q];
      if counts[c] != 0 {
        ProgressStuck(g, Q, counts, c);
        return Fail(AssertionFailed);
      }
      ProgressStep(g, Q, out, counts, c);
      var next := RemoveCharacter(g, counts, c);
      counts := next.value;
      out := out + [c];
      Q := Q - {c};
    }
    ProgressDone(g, out, counts);
    return Ok(out);
  }

  /** The next node of the given order is still waiting. */
  lemma NextWaiting(g: Graph, order: seq<char>, i: nat, Q: set<char>, counts: Counts)
    requires NoDup(order) && Elems(order) == g.Keys && i < |order|
    requires Progress(g, Q, order[..i], counts)
    ensures order[i] in Q
    ensures order[..i] + [order[i]] == order[..i + 1]
  {
    assert order[i] in Elems(order);
    assert order[i] !in order[..i];
  }

  /** A waiting node with a positive count has a waiting predecessor, which
      the given order lists no earlier: the order is not topological. */
  lemma NextBlocked(g: Graph, order: seq<char>, i: nat, Q: set<char>, counts: Counts)
    requires NoDup(order) && Elems(order) == g.Keys && i < |order|
    requires Progress(g, Q, order[..i], counts)
    requires order[i] in Q && counts[order[i]] != 0
    ensures !IsTopoOrder(g, order)
  {
    assert |PredsIn(g, order[i], Q)| != 0;
    var q :| q in PredsIn(g, order[i], Q);
    assert q in Elems(order);
    var k :| 0 <= k < |order| && order[k] == q;
    assert Edge(g, order[k], order[i]);
  }

  /** Once the whole given order has been emitted, nothing waits and the
      order is topological. */
  lemma GivenOrderDone(g: Graph, order: seq<char>, Q: set<char>, counts: Counts)
    requires Closed(g) && Elems(order) == g.Keys
    requires Progress(g, Q, order[..|order|], counts)
    ensures IsTopoOrder(g, order)
  {
    assert order[..|order|] == order;
    assert Q == {};
    ProgressDone(g, order, counts);
  }

  /** `computeAlphabet` of solution2 and `compute_alphabet` of the Python port:
      the heap is never told that counts changed, so the order in which it
      yields the nodes is whatever its layout gives; it is the parameter
      `order`. Each yielded node is asserted to have count 0, so the run
      succeeds exactly when that order is topological, and then emits it. */
  method InGivenOrder(g: Graph, order: seq<char>) returns (r: Result<seq<char>>)
    requires Closed(g) && NoDup(order) && Elems(order) == g.Keys
    ensures r.Ok? <==> IsTopoOrder(g, order)
    ensures r.Ok? ==> r.value == order
    ensures r.Fail? ==> r.error == AssertionFailed
  {
    var counts := InEdgeCounts(g);
    ProgressStart(g, counts);
    var Q := g.Keys;
    var i := 0;
    while i < |order|
      invariant i <= |order|
      invariant Progress(g, Q, order[..i], counts)
    {
      var c := order[i];
      NextWaiting(g, order, i, Q, counts);
      if counts[c] != 0 {
        NextBlocked(g, order, i, Q, counts);
        return Fail(AssertionFailed);
      }
      ProgressStep(g, Q, order[..i], counts, c);
      var next := RemoveCharacter(g, counts, c);
      counts := next.value;
      Q := Q - {c};
      i := i + 1;
    }
    GivenOrderDone(g, order, Q, counts);
    return Ok(order);
  }
}
