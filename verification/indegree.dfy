/** The in-degree index that orders the priority queue (`CharacterComparator`
    in both Java solutions, `CustomPriorityQueue` in the Python port). */
module InDegree {
  import opened Outcomes
  import opened Words
  import opened Graphs

  type Counts = map<char, int>

  /** `counts` indexes exactly the nodes of `Q`, each with the number of its
      predecessors inside `Q`. */
  ghost predicate CountsFor(g: Graph, Q: set<char>, counts: Counts)
  {
    && counts.Keys == Q
    && forall x {:trigger PredsIn(g, x, Q)} :: x in Q ==> counts[x] == |PredsIn(g, x, Q)|
  }

  /** The characters listed as a successor by some node of `S`. */
  ghost predicate HasPredIn(g: Graph, x: char, S: set<char>)
  {
    PredsIn(g, x, S) != {}
  }

  /** Adding one node `c` to the set of nodes counted adds `c` to the
      predecessors of each of its successors, and to no other. */
  lemma PredsInAdd(g: Graph, x: char, S: set<char>, c: char)
    requires c !in S
    ensures PredsIn(g, x, S + {c}) == PredsIn(g, x, S) + (if Edge(g, c, x) then {c} else {})
    ensures |PredsIn(g, x, S + {c})| == |PredsIn(g, x, S)| + (if Edge(g, c, x) then 1 else 0)
  {
    assert PredsIn(g, x, S + {c}) == PredsIn(g, x, S) + (if Edge(g, c, x) then {c} else {});
  }

  /** Taking one node `c` out of the set removes it from the predecessors of
      each of its successors, and from no other. */
  lemma PredsInRemove(g: Graph, x: char, S: set<char>, c: char)
    requires c in S
    ensures PredsIn(g, x, S - {c}) == PredsIn(g, x, S) - {c}
    ensures |PredsIn(g, x, S - {c})| == |PredsIn(g, x, S)| - (if Edge(g, c, x) then 1 else 0)
  {
  }

  /** A character has a predecessor among the nodes exactly when it is some
      node's successor. */
  lemma TargetsHavePreds(g: Graph, x: char)
    ensures x in Targets(g) <==> HasPredIn(g, x, g.Keys)
  {
    if x in Targets(g) {
      var a, b :| a in g && b in g[a] && b == x;
      assert a in PredsIn(g, x, g.Keys);
    }
  }

  /** `counts` is the index under construction once the nodes of `done` have
      been walked: an entry for each of them and for each of their
      successors, counting the predecessors seen so far. */
  ghost predicate CountedOver(g: Graph, done: set<char>, counts: Counts)
  {
    && (forall x :: x in counts <==> x in done || HasPredIn(g, x, done))
    && (forall x :: x in counts ==> counts[x] == |PredsIn(g, x, done)|)
  }

  /** `counts` is `counts0` with one more count for each character of
      `succs`, a character without an entry starting from 0. */
  ghost predicate Bumped(counts0: Counts, succs: seq<char>, counts: Counts)
  {
    && (forall x :: x in counts <==> x in counts0 || x in succs)
    && (forall x :: x in counts ==> counts[x] == (if x in counts0 then counts0[x] else 0) + (if x in succs then 1 else 0))
  }

  /** Walking one more node `c`, by giving it an entry and counting one
      predecessor for each of its successors, keeps the index exact. */
  lemma CountedStep(g: Graph, done: set<char>, counts: Counts, c: char, succs: seq<char>, next: Counts)
    requires c in g && c !in done && Elems(succs) == g[c]
    requires CountedOver(g, done, counts)
    requires Bumped(counts[c := if c in counts then counts[c] else 0], succs, next)
    ensures CountedOver(g, done + {c}, next)
  {
    forall x ensures |PredsIn(g, x, done + {c})| == |PredsIn(g, x, done)| + (if x in g[c] then 1 else 0)
                  && (HasPredIn(g, x, done + {c}) <==> HasPredIn(g, x, done) || x in g[c]) {
      PredsInAdd(g, x, done, c);
    }
  }

  /** The comparator's constructor: one entry per node and per successor, each
      counting the nodes that list it as a successor. The hash map's keys and
      successor sets are walked in whatever order `Enumerate` gives. */
  method InEdgeCounts(g: Graph) returns (counts: Counts)
    ensures counts.Keys == g.Keys + Targets(g)
    ensures forall x :: x in counts ==> counts[x] == |PredsIn(g, x, g.Keys)|
  {
    var nodes := Enumerate(g.Keys);
    counts := map[];
    var i := 0;
    while i < |nodes|
      invariant i <= |nodes|
      invariant CountedOver(g, Elems(nodes[..i]), counts)
    {
      var c := nodes[i];
      ghost var done := Elems(nodes[..i]);
      ElemsStep(nodes, i);
      var n := if c in counts then counts[c] else 0;
      var succs := Enumerate(g[c]);
      ghost var before := counts;
      counts := CountSuccessors(counts[c := n], succs);
      CountedStep(g, done, before, c, succs, counts);
      i := i + 1;
    }
    assert nodes[..i] == nodes;
    CountedAll(g, counts);
  }

  /** Once every node has been walked the index is the in-degree map. */
  lemma CountedAll(g: Graph, counts: Counts)
    requires CountedOver(g, g.Keys, counts)
    ensures counts.Keys == g.Keys + Targets(g)
    ensures forall x :: x in counts ==> counts[x] == |PredsIn(g, x, g.Keys)|
  {
    forall x ensures x in Targets(g) <==> HasPredIn(g, x, g.Keys) {
      TargetsHavePreds(g, x);
    }
  }

  /** The constructor's inner loop: every character of `succs` gets an entry
      (starting at 0) and one more count. */
  method CountSuccessors(counts0: Counts, succs: seq<char>) returns (counts: Counts)
    requires NoDup(succs)
    ensures Bumped(counts0, succs, counts)
  {
    counts := counts0;
    var i := 0;
    while i < |succs|
      invariant i <= |succs|
      invariant Bumped(counts0, succs[..i], counts)
    {
      var s := succs[i];
      assert s !in succs[..i];
      var n := if s in counts then counts[s] else 0;
      counts := counts[s := n + 1];
      assert succs[..i + 1] == succs[..i] + [s];
      i := i + 1;
    }
    assert succs[..i] == succs;
  }

  /** The index once `c` is taken out: its entry is gone and each of the
      characters in `succs` counts one predecessor fewer. */
  ghost function AfterRemoval(counts: Counts, c: char, succs: set<char>): (after: Counts)
  {
    map x | x in counts.Keys - {c} :: if x in succs then counts[x] - 1 else counts[x]
  }

  /** `removeCharacter` / `remove`: drops the entry of `c`, then decrements the
      entry of each successor, asserting first that it is present and
      positive. A failed assert aborts the whole computation. */
  method RemoveCharacter(g: Graph, counts: Counts, c: char) returns (r: Result<Counts>)
    requires c in g
    ensures r.Ok? <==> forall s :: s in g[c] ==> s in counts && s != c && counts[s] > 0
    ensures r.Ok? ==> r.value == AfterRemoval(counts, c, g[c])
    ensures r.Fail? ==> r.error == AssertionFailed
  {
    var m := counts - {c};
    var todo := g[c];
    while todo != {}
      invariant todo <= g[c]
      invariant m.Keys == counts.Keys - {c}
      invariant forall s :: s in g[c] && s !in todo ==> s in m && counts[s] > 0
      invariant forall x :: x in m ==> m[x] == if x in g[c] && x !in todo then counts[x] - 1 else counts[x]
      decreases |todo|
    {
      var s :| s in todo;
      if s !in m || m[s] <= 0 {
        return Fail(AssertionFailed);
      }
      m := m[s := m[s] - 1];
      todo := todo - {s};
    }
    return Ok(m);
  }

  /** Removing a node with no predecessor left keeps the index exact for the
      nodes that remain. */
  lemma RemoveKeepsIndex(g: Graph, Q: set<char>, counts: Counts, c: char)
    requires c in g && CountsFor(g, Q, counts) && c in Q
    requires g[c] <= Q - {c}
    ensures CountsFor(g, Q - {c}, AfterRemoval(counts, c, g[c]))
  {
    var m := AfterRemoval(counts, c, g[c]);
    forall x | x in Q - {c} ensures m[x] == |PredsIn(g, x, Q - {c})| {
      PredsInRemove(g, x, Q, c);
    }
  }
}
