/** The precedence graph: each node maps to the set of characters observed to
    come after it. (The sources call this set `antecedents`, but an edge
    `a -> b` is recorded by adding `b` to the set of `a`, so it holds
    successors.) */
module Graphs {
  import opened Words

  type Graph = map<char, set<char>>

  predicate Edge(g: Graph, a: char, b: char)
  {
    a in g && b in g[a]
  }

  /** Every successor is itself a node. */
  ghost predicate Closed(g: Graph)
  {
    forall a, b :: Edge(g, a, b) ==> b in g
  }

  /** Nodes only: no character was ever recorded as a successor. */
  ghost predicate NoEdges(g: Graph)
  {
    forall a, b :: !Edge(g, a, b)
  }

  ghost predicate NoSelfLoops(g: Graph)
  {
    forall a :: !Edge(g, a, a)
  }

  /** `h` extends `g`: no node and no edge of `g` is lost. */
  ghost predicate Grows(g: Graph, h: Graph)
  {
    g.Keys <= h.Keys && forall a :: a in g ==> g[a] <= h[a]
  }

  /** Registers `c` as a node if it is not one yet. */
  function EnsureNode(g: Graph, c: char): (h: Graph)
  {
    if c in g then g else g[c := {}]
  }

  /** Registering a node adds no edge and keeps the graph closed. */
  lemma EnsureNodeEdges(g: Graph, c: char)
    ensures EnsureNode(g, c).Keys == g.Keys + {c}
    ensures Grows(g, EnsureNode(g, c))
    ensures forall a, b :: Edge(EnsureNode(g, c), a, b) <==> Edge(g, a, b)
    ensures Closed(g) ==> Closed(EnsureNode(g, c))
  {
  }

  /** Records the edge `a -> b` in the successor set of the existing node `a`. */
  function AddEdge(g: Graph, a: char, b: char): (h: Graph)
    requires a in g
  {
    g[a := g[a] + {b}]
  }

  /** Recording `a -> b` adds exactly that edge; the graph stays closed when
      `b` is already a node. */
  lemma AddEdgeEdges(g: Graph, a: char, b: char)
    requires a in g
    ensures AddEdge(g, a, b).Keys == g.Keys
    ensures Grows(g, AddEdge(g, a, b))
    ensures forall x, y :: Edge(AddEdge(g, a, b), x, y) <==> Edge(g, x, y) || (x == a && y == b)
    ensures Closed(g) && b in g ==> Closed(AddEdge(g, a, b))
  {
  }

  /** The nodes of `S` that have an edge into `x`. */
  function PredsIn(g: Graph, x: char, S: set<char>): (P: set<char>)
  {
    set p | p in S && Edge(g, p, x)
  }

  /** Characters that occur as some node's successor. */
  function Targets(g: Graph): (T: set<char>)
  {
    set a, b | a in g && b in g[a] :: b
  }

  ghost predicate IsPath(g: Graph, p: seq<char>)
  {
    |p| >= 1 && forall i :: 0 <= i < |p| - 1 ==> Edge(g, p[i], p[i + 1])
  }

  ghost predicate IsCycle(g: Graph, p: seq<char>)
  {
    |p| >= 2 && IsPath(g, p) && p[0] == p[|p| - 1]
  }

  ghost predicate Acyclic(g: Graph)
  {
    forall p :: !IsCycle(g, p)
  }

  /** `o` lists every node exactly once, each edge going forwards. */
  ghost predicate IsTopoOrder(g: Graph, o: seq<char>)
  {
    && NoDup(o)
    && Elems(o) == g.Keys
    && forall i, j :: 0 <= i < |o| && 0 <= j < |o| && Edge(g, o[i], o[j]) ==> i < j
  }

  /** Acyclicity depends on the edge relation only. */
  lemma SameEdgesSameAcyclic(g: Graph, h: Graph)
    requires forall a, b :: Edge(g, a, b) <==> Edge(h, a, b)
    ensures Acyclic(g) <==> Acyclic(h)
  {
    forall p ensures IsCycle(g, p) <==> IsCycle(h, p) {
      if |p| >= 1 {
        assert (forall i :: 0 <= i < |p| - 1 ==> Edge(g, p[i], p[i + 1]))
           <==> (forall i :: 0 <= i < |p| - 1 ==> Edge(h, p[i], p[i + 1]));
      }
    }
  }

  /** Along a path, positions in a topological order strictly increase. */
  lemma {:induction false} PathClimbs(g: Graph, o: seq<char>, p: seq<char>)
    requires Closed(g) && IsTopoOrder(g, o)
    requires IsPath(g, p) && |p| >= 2
    ensures p[0] in o && p[|p| - 1] in o
    ensures IndexOf(o, p[0]) < IndexOf(o, p[|p| - 1])
    decreases |p|
  {
    assert Edge(g, p[0], p[1]);
    assert p[0] in Elems(o) && p[1] in Elems(o);
    var i, j := IndexOf(o, p[0]), IndexOf(o, p[1]);
    assert Edge(g, o[i], o[j]);
    if |p| > 2 {
      var q := p[1..];
      assert forall k :: 0 <= k < |q| - 1 ==> Edge(g, q[k], q[k + 1]) by {
        forall k | 0 <= k < |q| - 1 ensures Edge(g, q[k], q[k + 1]) {
          assert Edge(g, p[k + 1], p[k + 2]);
        }
      }
      PathClimbs(g, o, q);
    }
  }

  /** A graph with a topological order has no cycle. */
  lemma TopoOrderIsAcyclic(g: Graph, o: seq<char>)
    requires Closed(g) && IsTopoOrder(g, o)
    ensures Acyclic(g)
  {
    forall p | IsCycle(g, p) ensures false {
      PathClimbs(g, o, p);
    }
  }

  /** A sequence longer than the set its elements come from repeats one. */
  lemma {:induction false} Pigeonhole(w: seq<char>, R: set<char>)
    requires forall i :: 0 <= i < |w| ==> w[i] in R
    requires |w| > |R|
    ensures exists i, j :: 0 <= i < j < |w| && w[i] == w[j]
    decreases |w|
  {
    if w[0] in w[1..] {
      var k :| 0 <= k < |w[1..]| && w[1..][k] == w[0];
      assert w[0] == w[k + 1];
    } else {
      var R' := R - {w[0]};
      assert |R'| == |R| - 1;
      var w' := w[1..];
      forall i | 0 <= i < |w'| ensures w'[i] in R' {
        assert w'[i] == w[i + 1];
      }
      Pigeonhole(w', R');
      var i, j :| 0 <= i < j < |w'| && w'[i] == w'[j];
      assert w[i + 1] == w[j + 1];
    }
  }

  /** Every node of `R` has a predecessor in `R`. */
  ghost predicate NoSourceIn(g: Graph, R: set<char>)
  {
    forall x {:trigger PredsIn(g, x, R)} :: x in R ==> PredsIn(g, x, R) != {}
  }

  /** If every node of `R` has a predecessor in `R`, one can walk backwards
      through `R` for as long as one likes. */
  lemma {:induction false} BackWalk(g: Graph, R: set<char>, n: nat) returns (w: seq<char>)
    requires R != {}
    requires NoSourceIn(g, R)
    ensures |w| == n + 1 && IsPath(g, w)
    ensures forall i :: 0 <= i < |w| ==> w[i] in R
  {
    if n == 0 {
      var x :| x in R;
      w := [x];
    } else {
      var w' := BackWalk(g, R, n - 1);
      assert w'[0] in R;
      assert PredsIn(g, w'[0], R) != {};
      var p :| p in PredsIn(g, w'[0], R);
      w := [p] + w';
      forall i | 0 <= i < |w| - 1 ensures Edge(g, w[i], w[i + 1]) {
        if i > 0 {
          assert Edge(g, w'[i - 1], w'[i]);
        }
      }
    }
  }

  /** A non-empty set of nodes in which every node has a predecessor contains
      a cycle: this is why Kahn's algorithm always finds a node of in-degree
      zero in an acyclic graph. */
  lemma NoSourceMeansCycle(g: Graph, R: set<char>)
    requires R != {}
    requires NoSourceIn(g, R)
    ensures !Acyclic(g)
  {
    var w := BackWalk(g, R, |R|);
    Pigeonhole(w, R);
    var i, j :| 0 <= i < j < |w| && w[i] == w[j];
    var c := w[i..j + 1];
    forall k | 0 <= k < |c| - 1 ensures Edge(g, c[k], c[k + 1]) {
      assert Edge(g, w[i + k], w[i + k + 1]);
    }
    assert IsCycle(g, c);
  }
}
