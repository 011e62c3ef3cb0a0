/** solution2's `AlphabetDiscovery`: the same extraction as solution1, but a
    heap that is never told about the counts it decrements, so the order in
    which it yields the nodes is only checked, not guaranteed. */
module Solution2 {
  import opened Outcomes
  import opened Words
  import opened Graphs
  import opened Extraction
  import opened ExtractionFacts
  import opened Evidence
  import opened Alphabet

  /** `getAlphabet`: "" for no words, the single word itself for one, and
      otherwise either a discovered alphabet (ordering every two words of a
      well-formed list, and listing the graph's nodes before the words' other
      characters) or a failure; inconsistent evidence always fails, an
      unlucky heap order may fail too, and a graph without edges never
      fails. */
  method GetAlphabet(ws: seq<Word>) returns (r: Result<seq<char>>)
    ensures |ws| == 0 ==> r == Ok("")
    ensures |ws| == 1 ==> r == Ok(ws[0])
    ensures |ws| >= 2 && r.Ok? ==> Discovered(ws, r.value)
    ensures |ws| >= 2 && r.Ok? && WellFormed(ws) ==> OrdersAllPairs(ws, r.value)
    ensures |ws| >= 2 && r.Ok? ==> Extract(Java, ws).Ok? && NodesThenRest(ws, Extract(Java, ws).value, r.value)
    ensures |ws| >= 2 && Extract(Java, ws).Ok? && NoEdges(Extract(Java, ws).value) ==> r.Ok?
    ensures |ws| >= 2 && !Consistent(ws) ==> r.Fail?
    ensures |ws| >= 2 && r.Fail? ==> (r.error == IndexOutOfBounds <==> Extract(Java, ws).Fail?)
    ensures |ws| >= 2 && WellFormed(ws) && r.Fail? ==> r.error == AssertionFailed
  {
    if |ws| == 0 {
      return Ok("");
    }
    if |ws| == 1 {
      return Ok(ws[0]);
    }
    if WellFormed(ws) {
      ExtractSucceeds(Java, ws);
    }
    var extracted := Extract(Java, ws);
    if extracted.Fail? {
      return Fail(extracted.error);
    }
    ExtractSound(Java, ws);
    JavaGraphAcyclic(ws);
    r := HeapOrderAlphabet(ws, extracted.value);
    if r.Ok? {
      JavaGraphOrdersEvidence(ws, r.value);
      if WellFormed(ws) {
        AllPairsOrdered(ws, r.value);
      }
    }
  }
}
