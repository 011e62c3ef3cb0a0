/** What getAlphabet's call processWords(0, n, 0) yields for a whole word
    list, in terms of the evidence the list carries. */
module ExtractionFacts {
  import opened Outcomes
  import opened Words
  import opened Graphs
  import opened Extraction
  import opened ExtractionShape
  import opened ExtractionProofs

  /** Every edge of the graph is evidenced by two consecutive words, every
      node is a character of the words, successors are nodes, and no
      character precedes itself (both variants). */
  lemma ExtractSound(v: Variant, ws: seq<Word>)
    ensures Extract(v, ws).Ok? ==>
              && (forall a, b :: Edge(Extract(v, ws).value, a, b) ==> Precedes(ws, a, b))
              && Extract(v, ws).value.Keys <= Chars(ws)
              && Closed(Extract(v, ws).value)
              && NoSelfLoops(Extract(v, ws).value)
  {
    ProcessWordsSound(v, ws, 0, |ws|, 0, map[]);
    ProcessWordsShape(v, ws, 0, |ws|, 0, map[]);
  }

  /** In the Java variant every piece of evidence is an edge, so the edges are
      exactly the evidence. */
  lemma ExtractComplete(ws: seq<Word>)
    ensures Extract(Java, ws).Ok? ==>
              forall a, b :: Edge(Extract(Java, ws).value, a, b) <==> Precedes(ws, a, b)
  {
    ProcessWordsComplete(ws, 0, |ws|, 0, map[]);
    ExtractSound(Java, ws);
  }

  /** On a well-formed list of at least two words no index goes out of range
      (both variants). */
  lemma ExtractSucceeds(v: Variant, ws: seq<Word>)
    requires WellFormed(ws) && |ws| >= 2
    ensures Extract(v, ws).Ok?
  {
    ProcessWordsOk(v, ws, 0, |ws|, 0, map[], |ws|);
  }
}
