/** `computeAlphabet` / `compute_alphabet` as a whole: the ordered nodes of
    the graph followed by the characters of the words that are not nodes. */
module Alphabet {
  import opened Outcomes
  import opened Words
  import opened Graphs
  import opened Linearize
  import opened Assembly

  /** The layout of every alphabet `computeAlphabet` returns: a topological
      order of the graph's nodes, then each character of the words that is
      not a node, once. */
  ghost predicate NodesThenRest(ws: seq<Word>, g: Graph, alphabet: seq<char>)
  {
    && |g.Keys| <= |alphabet|
    && IsTopoOrder(g, alphabet[..|g.Keys|])
    && NoDup(alphabet[|g.Keys|..])
    && Elems(alphabet[|g.Keys|..]) == Chars(ws) - g.Keys
  }

  /** Appending the leftover characters to a topological order of the nodes
      gives that layout. */
  lemma Layout(ws: seq<Word>, g: Graph, ordered: seq<char>, tail: seq<char>)
    requires IsTopoOrder(g, ordered)
    requires NoDup(tail) && Elems(tail) == Chars(ws) - g.Keys
    ensures NodesThenRest(ws, g, ordered + tail)
  {
    NoDupCard(ordered);
    var s := ordered + tail;
    assert s[..|ordered|] == ordered;
    assert s[|ordered|..] == tail;
  }

  /** In that layout every node comes before every character that is not a
      node. */
  lemma NodesBeforeRest(ws: seq<Word>, g: Graph, alphabet: seq<char>, x: char, y: char)
    requires NodesThenRest(ws, g, alphabet)
    requires x in g && y in Chars(ws) && y !in g
    ensures x in alphabet && y in alphabet && IndexOf(alphabet, x) < IndexOf(alphabet, y)
  {
    var n := |g.Keys|;
    var head, tail := alphabet[..n], alphabet[n..];
    assert alphabet == head + tail;
    assert x in Elems(head) && y in Elems(tail);
    IndexOfPrefix(head, tail, x);
    assert y !in head;
  }

  /** solution1: nodes leave in order of least current in-degree. The result
      exists exactly when the graph has no cycle; it then lists the nodes in
      a topological order followed by the other characters of the words. */
  method LeastCountAlphabet(ws: seq<Word>, g: Graph) returns (r: Result<seq<char>>)
    requires Closed(g) && g.Keys <= Chars(ws)
    ensures r.Ok? <==> Acyclic(g)
    ensures r.Ok? ==> NoDup(r.value) && Elems(r.value) == Chars(ws) && Respects(g, r.value)
    ensures r.Ok? ==> NodesThenRest(ws, g, r.value)
    ensures r.Fail? ==> r.error == AssertionFailed
  {
    var ordered := ByLeastCount(g);
    if ordered.Fail? {
      return Fail(ordered.error);
    }
    var u := Unordered(ws, g);
    var tail := Enumerate(u);
    Concatenation(ws, g, ordered.value, tail);
    Layout(ws, g, ordered.value, tail);
    return Ok(ordered.value + tail);
  }

  /** solution2 and the Python port: nodes leave in whatever order the heap
      yields them, which is left open here (`Enumerate`). A result always
      lists every character of the words once and respects every edge; a
      graph with a cycle always fails, and a graph without edges, whose
      every node has count 0, always succeeds. */
  method HeapOrderAlphabet(ws: seq<Word>, g: Graph) returns (r: Result<seq<char>>)
    requires Closed(g) && g.Keys <= Chars(ws)
    ensures r.Ok? ==> NoDup(r.value) && Elems(r.value) == Chars(ws) && Respects(g, r.value)
    ensures r.Ok? ==> NodesThenRest(ws, g, r.value)
    ensures !Acyclic(g) ==> r.Fail?
    ensures NoEdges(g) ==> r.Ok?
    ensures r.Fail? ==> r.error == AssertionFailed
  {
    var order := Enumerate(g.Keys);
    if NoEdges(g) {
      assert IsTopoOrder(g, order);
    }
    var ordered := InGivenOrder(g, order);
    if ordered.Fail? {
      return Fail(ordered.error);
    }
    TopoOrderIsAcyclic(g, order);
    var u := Unordered(ws, g);
    var tail := Enumerate(u);
    Concatenation(ws, g, order, tail);
    Layout(ws, g, order, tail);
    return Ok(order + tail);
  }
}
