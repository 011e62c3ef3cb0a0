/** solution1's `AlphabetDiscovery`: extraction, then the least-count
    linearisation, then the leftover characters. */
module Solution1 {
  import opened Outcomes
  import opened Words
  import opened Graphs
  import opened Extraction
  import opened ExtractionFacts
  import opened Evidence
  import opened Alphabet

  /** What `getAlphabet` and `getAlphabetAsString` promise for `ws`: nothing
      to order for no words, the single word itself (repeated characters
      included) for one word, and otherwise a discovered alphabet exactly when
      the evidence is consistent and the word reads stay in range. */
  ghost predicate Outcome(ws: seq<Word>, r: Result<seq<char>>)
  {
    && (|ws| == 0 ==> r == Ok([]))
    && (|ws| == 1 ==> r == Ok(ws[0]))
    && (|ws| >= 2 ==>
          && (r.Ok? ==> Discovered(ws, r.value))
          && (r.Ok? <==> Extract(Java, ws).Ok? && Consistent(ws))
          && (r.Fail? ==> (r.error == IndexOutOfBounds <==> Extract(Java, ws).Fail?))
          && (WellFormed(ws) ==> (r.Ok? <==> Consistent(ws)) && (r.Fail? ==> r.error == AssertionFailed)))
  }

  /** On a well-formed list, a result orders the first difference of every
      two words, consecutive or not, the way the list does; any result lists
      the graph's nodes first and the words' other characters after them. */
  method GetAlphabet(ws: seq<Word>) returns (r: Result<seq<char>>)
    ensures Outcome(ws, r)
    ensures |ws| >= 2 && WellFormed(ws) && r.Ok? ==> OrdersAllPairs(ws, r.value)
    ensures |ws| >= 2 && r.Ok? ==> Extract(Java, ws).Ok? && NodesThenRest(ws, Extract(Java, ws).value, r.value)
  {
    if |ws| == 0 {
      return Ok([]);
    }
    if |ws| == 1 {
      return Ok(ws[0]);
    }
    if WellFormed(ws) {
      ExtractSucceeds(Java, ws);
    }
    var extracted := Extract(Java, ws);
    if extracted.Fail? {
      return Fail(extracted.error);
    }
    ExtractSound(Java, ws);
    JavaGraphAcyclic(ws);
    r := LeastCountAlphabet(ws, extracted.value);
    if r.Ok? {
      JavaGraphOrdersEvidence(ws, r.value);
      if WellFormed(ws) {
        AllPairsOrdered(ws, r.value);
      }
    }
  }

  /** The characters of `getAlphabet` joined into a string; with strings
      modelled as character sequences the join is the identity. */
  method GetAlphabetAsString(ws: seq<Word>) returns (r: Result<seq<char>>)
    ensures Outcome(ws, r)
    ensures |ws| >= 2 && WellFormed(ws) && r.Ok? ==> OrdersAllPairs(ws, r.value)
    ensures |ws| >= 2 && r.Ok? ==> Extract(Java, ws).Ok? && NodesThenRest(ws, Extract(Java, ws).value, r.value)
  {
    if |ws| == 0 {
      return Ok("");
    }
    if |ws| == 1 {
      return Ok(ws[0]);
    }
    var alphabet := GetAlphabet(ws);
    if alphabet.Fail? {
      return alphabet;
    }
    var s := "";
    var i := 0;
    while i < |alphabet.value|
      invariant i <= |alphabet.value|
      invariant s == alphabet.value[..i]
    {
      s := s + [alphabet.value[i]];
      i := i + 1;
    }
    assert s == alphabet.value;
    return Ok(s);
  }
}
