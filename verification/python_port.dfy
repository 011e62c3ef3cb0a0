/** The Python port's `AlphabetDiscovery`: the extraction variant whose
    trailing run is one word short, then the unrepositioned heap. */
module PythonPort {
  import opened Outcomes
  import opened Words
  import opened Graphs
  import opened Extraction
  import opened ExtractionFacts
  import opened Evidence
  import opened Assembly
  import opened Alphabet

  /** `get_alphabet`: [] for no words, the single word itself for one, and
      otherwise either an alphabet listing every character once and
      respecting the Python graph, or a failure. A result lists the graph's
      nodes first and the words' other characters after them; a cycle in the
      graph always fails, and a graph without edges always succeeds. */
  method GetAlphabet(ws: seq<Word>) returns (r: Result<seq<char>>)
    ensures |ws| == 0 ==> r == Ok([])
    ensures |ws| == 1 ==> r == Ok(ws[0])
    ensures |ws| >= 2 && r.Ok? ==>
              && Extract(Python, ws).Ok?
              && NoDup(r.value) && Elems(r.value) == Chars(ws)
              && Respects(Extract(Python, ws).value, r.value)
              && NodesThenRest(ws, Extract(Python, ws).value, r.value)
    ensures |ws| >= 2 && Extract(Python, ws).Ok? && !Acyclic(Extract(Python, ws).value) ==> r.Fail?
    ensures |ws| >= 2 && Extract(Python, ws).Ok? && NoEdges(Extract(Python, ws).value) ==> r.Ok?
    ensures |ws| >= 2 && r.Fail? ==> (r.error == IndexOutOfBounds <==> Extract(Python, ws).Fail?)
    ensures |ws| >= 2 && WellFormed(ws) && r.Fail? ==> r.error == AssertionFailed
  {
    if |ws| == 0 {
      return Ok([]);
    }
    if |ws| == 1 {
      return Ok(ws[0]);
    }
    if WellFormed(ws) {
      ExtractSucceeds(Python, ws);
    }
    var extracted := Extract(Python, ws);
    if extracted.Fail? {
      return Fail(extracted.error);
    }
    ExtractSound(Python, ws);
    r := HeapOrderAlphabet(ws, extracted.value);
  }

  /** Every edge of the Python graph is evidence, so consistent evidence
      gives an acyclic Python graph. */
  lemma PythonGraphAcyclic(ws: seq<Word>)
    requires Extract(Python, ws).Ok? && Consistent(ws)
    ensures Acyclic(Extract(Python, ws).value)
  {
    var g := Extract(Python, ws).value;
    ExtractSound(Python, ws);
    forall p | IsCycle(g, p) ensures EvidenceCycle(ws, p) {
      forall i | 0 <= i < |p| - 1 ensures Precedes(ws, p[i], p[i + 1]) {
        assert Edge(g, p[i], p[i + 1]);
      }
    }
  }

  /** The Python graph of ["ba", "bc", "ca", "cb"]: the trailing run "ca",
      "cb" is cut one word short, so the deeper call sees "ca" alone. */
  lemma SampleGraph()
    ensures Extract(Python, ["ba", "bc", "ca", "cb"]) == Ok(map['b' := {'c'}, 'a' := {'c'}, 'c' := {}])
  {
    var ws: seq<Word> := ["ba", "bc", "ca", "cb"];
    assert MaxLen(ws) == 2;
    var g0 := map['b' := {}];
    var g1 := map['b' := {}, 'a' := {'c'}, 'c' := {}];
    var g2 := map['b' := {'c'}, 'a' := {'c'}, 'c' := {}];
    // the trailing run of the outer loop: words 2 .. 2 only
    assert ProcessWords(Python, ws, 2, 1, 1, g2) == Ok(g2);
    assert Scan(Python, ws, 4, 4, 0, 'c', RunFrom(2), g2) == Ok(g2);
    assert Scan(Python, ws, 3, 4, 0, 'c', NoRun, g2) == Ok(g2);
    // the run "ba", "bc" closed at word 2 gives a -> c
    var ga := map['b' := {}, 'a' := {}];
    assert Scan(Python, ws, 2, 2, 1, 'c', NoRun, g1) == Ok(g1);
    var gc := EnsureNode(ga, 'c');
    assert gc == map['b' := {}, 'a' := {}, 'c' := {}];
    assert gc['a'] + {'c'} == {'c'};
    assert AddEdge(gc, 'a', 'c').Keys == g1.Keys;
    assert AddEdge(gc, 'a', 'c') == g1;
    assert CloseRun(Python, ws, NoRun, 1, 1, ga) == Ok(ga);
    assert Scan(Python, ws, 1, 2, 1, 'a', NoRun, ga) == Ok(g1);
    assert EnsureNode(g0, 'a') == ga;
    assert ProcessWords(Python, ws, 0, 2, 1, g0) == Ok(g1);
    assert CloseRun(Python, ws, RunFrom(0), 2, 0, g0) == Ok(g1);
    // then b -> c at depth 0
    assert EnsureNode(g1, 'c') == g1;
    assert g1['b'] + {'c'} == {'c'};
    assert AddEdge(g1, 'b', 'c').Keys == g2.Keys;
    assert AddEdge(g1, 'b', 'c') == g2;
    assert Scan(Python, ws, 2, 4, 0, 'b', RunFrom(0), g0) == Ok(g2);
    assert Scan(Python, ws, 1, 4, 0, 'b', NoRun, g0) == Ok(g2);
  }

  /** The trailing run of `processWords` stops one word short in the Python
      port: for ["ba", "bc", "ca", "cb"] the words say `a` precedes `b`
      ("ca" before "cb"), the Java graph has that edge, the Python graph does
      not, and the order b, a, c passes the Python linearizer while
      contradicting the words. */
  lemma TrailingRunMissesEvidence()
    ensures Precedes(["ba", "bc", "ca", "cb"], 'a', 'b')
    ensures Extract(Java, ["ba", "bc", "ca", "cb"]).Ok?
    ensures Edge(Extract(Java, ["ba", "bc", "ca", "cb"]).value, 'a', 'b')
    ensures Extract(Python, ["ba", "bc", "ca", "cb"]).Ok?
    ensures !Edge(Extract(Python, ["ba", "bc", "ca", "cb"]).value, 'a', 'b')
    ensures IsTopoOrder(Extract(Python, ["ba", "bc", "ca", "cb"]).value, "bac")
    ensures !OrdersEvidence(["ba", "bc", "ca", "cb"], "bac")
  {
    var ws: seq<Word> := ["ba", "bc", "ca", "cb"];
    var k: nat := 2;
    assert FirstDiff(ws[k], ws[k + 1], 1) && ws[k][1] == 'a' && ws[k + 1][1] == 'b';
    forall i, j | 0 <= i < j < |ws| ensures NotPrefixOf(ws[j], ws[i]) {
      assert ws[j][0] != ws[i][0] || ws[j][1] != ws[i][1];
    }
    ExtractSucceeds(Java, ws);
    ExtractComplete(ws);
    SampleGraph();
    SampleOrder();
  }

  /** b, a, c lists the nodes of the sample's Python graph with its edges
      going forwards, and puts `b` before `a`. */
  lemma SampleOrder()
    ensures IsTopoOrder(map['b' := {'c'}, 'a' := {'c'}, 'c' := {}], "bac")
    ensures IndexOf("bac", 'b') < IndexOf("bac", 'a')
  {
    var g := map['b' := {'c'}, 'a' := {'c'}, 'c' := {}];
    var o := "bac";
    assert o[0] == 'b' && o[1] == 'a' && o[2] == 'c';
    assert Elems(o) == g.Keys;
  }

  /** The Python graph of ["cat", "cbt"]: the words share `c`, and the run
      they form is cut one word short, so the deeper call sees "cat" alone
      and registers `a` without an edge. */
  lemma FirstCharacterMatchesGraph()
    ensures Extract(Python, ["cat", "cbt"]) == Ok(map['c' := {}, 'a' := {}])
  {
    var ws: seq<Word> := ["cat", "cbt"];
    assert MaxLen(ws) == 3;
    var g0 := map['c' := {}];
    var g1 := map['c' := {}, 'a' := {}];
    assert Scan(Python, ws, 1, 1, 1, 'a', NoRun, g1) == Ok(g1);
    assert EnsureNode(g0, 'a') == g1;
    assert ProcessWords(Python, ws, 0, 1, 1, g0) == Ok(g1);
    assert Scan(Python, ws, 2, 2, 0, 'c', RunFrom(0), g0) == Ok(g1);
    assert Scan(Python, ws, 1, 2, 0, 'c', NoRun, g0) == Ok(g1);
  }

  /** With the nodes c, a and the leftover b, `a` precedes `b`. */
  lemma FirstCharacterMatchesLayout(ws: seq<Word>, g: Graph, alphabet: seq<char>)
    requires NodesThenRest(ws, g, alphabet)
    requires g.Keys == {'c', 'a'} && 'b' in Chars(ws)
    ensures |alphabet| >= 2 && Elems(alphabet[..2]) == {'c', 'a'}
    ensures 'a' in alphabet && 'b' in alphabet && IndexOf(alphabet, 'a') < IndexOf(alphabet, 'b')
  {
    assert |g.Keys| == 2;
    NodesBeforeRest(ws, g, alphabet, 'a', 'b');
  }

  /** `test_two_words_first_character_matches` against the Python port: the
      result always exists, whatever order the heap yields, because the
      graph has no edge; `a` comes before `b` only because `a` is a node and
      `b`, never registered, is appended after the nodes. */
  method FirstCharacterMatchesTest() returns (r: Result<seq<char>>)
    ensures r.Ok? && |r.value| >= 2 && Elems(r.value[..2]) == {'c', 'a'}
    ensures 'a' in r.value && 'b' in r.value && IndexOf(r.value, 'a') < IndexOf(r.value, 'b')
  {
    var ws: seq<Word> := ["cat", "cbt"];
    var g: Graph := map['c' := {}, 'a' := {}];
    FirstCharacterMatchesGraph();
    assert NoEdges(g);
    assert ws[1][1] == 'b';
    r := GetAlphabet(ws);
    FirstCharacterMatchesLayout(ws, g, r.value);
  }

  /** The Python graph of ["cat", "bat"]: the single edge c -> b. */
  lemma TwoWordsGraph()
    ensures Extract(Python, ["cat", "bat"]) == Ok(map['c' := {'b'}, 'b' := {}])
  {
    var ws: seq<Word> := ["cat", "bat"];
    assert MaxLen(ws) == 3;
    var g0 := map['c' := {}];
    var g1 := map['c' := {'b'}, 'b' := {}];
    var gb := EnsureNode(g0, 'b');
    assert gb == map['c' := {}, 'b' := {}];
    assert gb['c'] + {'b'} == {'b'};
    assert AddEdge(gb, 'c', 'b').Keys == g1.Keys;
    assert AddEdge(gb, 'c', 'b') == g1;
    assert Scan(Python, ws, 2, 2, 0, 'b', NoRun, g1) == Ok(g1);
    assert Scan(Python, ws, 1, 2, 0, 'c', NoRun, g0) == Ok(g1);
  }

  /** `test_two_words` against the Python port: a result, when the heap
      yields one, puts `c` before `b`. Whether it does depends on the heap
      order, which is left open. */
  method TwoWordsTest() returns (r: Result<seq<char>>)
    ensures r.Ok? ==> 'c' in r.value && 'b' in r.value && IndexOf(r.value, 'c') < IndexOf(r.value, 'b')
  {
    TwoWordsGraph();
    r := GetAlphabet(["cat", "bat"]);
    assert Edge(map['c' := {'b'}, 'b' := {}], 'c', 'b');
  }

  /** The Python graph of ["cat", "cbt", "b"]: the run "cat", "cbt" is
      closed by "b" inside the loop, at its full length, so a -> b is
      recorded there, and c -> b at depth 0. */
  lemma PartialOrderGraph()
    ensures Extract(Python, ["cat", "cbt", "b"]) == Ok(map['c' := {'b'}, 'a' := {'b'}, 'b' := {}])
  {
    var ws: seq<Word> := ["cat", "cbt", "b"];
    assert MaxLen(ws) == 3;
    var g0 := map['c' := {}];
    var ga := map['c' := {}, 'a' := {}];
    var g1 := map['c' := {}, 'a' := {'b'}, 'b' := {}];
    var g2 := map['c' := {'b'}, 'a' := {'b'}, 'b' := {}];
    var gb := EnsureNode(ga, 'b');
    assert gb == map['c' := {}, 'a' := {}, 'b' := {}];
    assert gb['a'] + {'b'} == {'b'};
    assert AddEdge(gb, 'a', 'b').Keys == g1.Keys;
    assert AddEdge(gb, 'a', 'b') == g1;
    assert Scan(Python, ws, 2, 2, 1, 'b', NoRun, g1) == Ok(g1);
    assert Scan(Python, ws, 1, 2, 1, 'a', NoRun, ga) == Ok(g1);
    assert EnsureNode(g0, 'a') == ga;
    assert ProcessWords(Python, ws, 0, 2, 1, g0) == Ok(g1);
    assert CloseRun(Python, ws, RunFrom(0), 2, 0, g0) == Ok(g1);
    assert EnsureNode(g1, 'b') == g1;
    assert g1['c'] + {'b'} == {'b'};
    assert AddEdge(g1, 'c', 'b').Keys == g2.Keys;
    assert AddEdge(g1, 'c', 'b') == g2;
    assert Scan(Python, ws, 3, 3, 0, 'b', NoRun, g2) == Ok(g2);
    assert Scan(Python, ws, 2, 3, 0, 'c', RunFrom(0), g0) == Ok(g2);
    assert Scan(Python, ws, 1, 3, 0, 'c', NoRun, g0) == Ok(g2);
  }

  /** `test_partial_order` against the Python port: a result, when the heap
      yields one, puts `a` and `c` before `b`. */
  method PartialOrderTest() returns (r: Result<seq<char>>)
    ensures r.Ok? ==> 'a' in r.value && 'b' in r.value && IndexOf(r.value, 'a') < IndexOf(r.value, 'b')
    ensures r.Ok? ==> 'c' in r.value && IndexOf(r.value, 'c') < IndexOf(r.value, 'b')
  {
    PartialOrderGraph();
    r := GetAlphabet(["cat", "cbt", "b"]);
    var g: Graph := map['c' := {'b'}, 'a' := {'b'}, 'b' := {}];
    assert Edge(g, 'a', 'b') && Edge(g, 'c', 'b');
  }
}
