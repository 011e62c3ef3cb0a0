/** The word lists of `AlphabetDiscoveryTest` against solution1's promise:
    for each, any result `getAlphabetAsString` may give is a success that
    puts the characters in the order the test asserts. */
module JavaTests {
  import opened Outcomes
  import opened Words
  import opened Evidence
  import opened Solution1

  /** Both characters occur in `alphabet`, `x` first (the test's position
      map, which on a list without repeats is `IndexOf`). */
  ghost predicate Before(alphabet: seq<char>, x: char, y: char)
  {
    x in alphabet && y in alphabet && IndexOf(alphabet, x) < IndexOf(alphabet, y)
  }

  /** A ranking of every computed piece of evidence shows the evidence
      consistent. */
  lemma ConsistentBy(ws: seq<Word>, rank: map<char, int>)
    requires forall a, b :: (a, b) in EvidenceOf(ws) ==> a in rank && b in rank && rank[a] < rank[b]
    ensures Consistent(ws)
  {
    forall a, b | Precedes(ws, a, b) ensures a in rank && b in rank && rank[a] < rank[b] {
      EvidenceOfPrecedes(ws, a, b);
    }
    RankedConsistent(ws, rank);
  }

  /** The computed evidence of two words that first differ at `p`. */
  lemma PairEvidence(u: Word, v: Word, p: nat)
    requires FirstDiff(u, v, p)
    ensures EvidenceOf([u, v]) == {(u[p], v[p])}
  {
    FirstDiffAt(u, v, p);
    assert [u, v][1..] == [v];
  }

  /** testTwoWords: "cat", "bat" puts c before b. */
  lemma TwoWordsTest(ws: seq<Word>, r: Result<seq<char>>)
    requires ws == ["cat", "bat"] && Outcome(ws, r)
    ensures r.Ok? && Before(r.value, 'c', 'b')
  {
    TwoWords(ws, 'c', 'b');
  }

  /** testTwoWordsFirstCharacterMatches: "cat", "cbt" puts a before b. */
  lemma FirstCharacterMatchesTest(ws: seq<Word>, r: Result<seq<char>>)
    requires ws == ["cat", "cbt"] && Outcome(ws, r)
    ensures r.Ok? && Before(r.value, 'a', 'b')
  {
    TwoWords(ws, 'a', 'b');
  }

  /** Two words whose only evidence is `x` before `y`. */
  lemma TwoWords(ws: seq<Word>, x: char, y: char)
    requires (ws == ["cat", "bat"] && x == 'c' && y == 'b') || (ws == ["cat", "cbt"] && x == 'a' && y == 'b')
    ensures WellFormed(ws) && Consistent(ws) && Precedes(ws, x, y)
  {
    assert ws[1][0] != ws[0][0] || ws[1][1] != ws[0][1];
    assert EvidenceOf(ws) == {(x, y)};
    ConsistentBy(ws, map[x := 0, y := 1]);
    EvidenceOfPrecedes(ws, x, y);
  }

  /** testPartialOrder: "cat", "cbt", "b" puts a and c before b. */
  lemma PartialOrderTest(ws: seq<Word>, r: Result<seq<char>>)
    requires ws == ["cat", "cbt", "b"] && Outcome(ws, r)
    ensures r.Ok? && Before(r.value, 'a', 'b') && Before(r.value, 'c', 'b')
  {
    PartialOrderWords(ws);
  }

  lemma PartialOrderWords(ws: seq<Word>)
    requires ws == ["cat", "cbt", "b"]
    ensures WellFormed(ws) && Consistent(ws) && Precedes(ws, 'a', 'b') && Precedes(ws, 'c', 'b')
  {
    assert ws[1][1] != ws[0][1] && ws[2][0] != ws[0][0] && ws[2][0] != ws[1][0];
    EvidenceFrom(ws, 0);
    assert ws[0..] == ws && ws[1..][1..] == ws[2..];
    assert EvidenceOf(ws[1..]) == {('c', 'b')};
    assert EvidenceOf(ws) == {('a', 'b'), ('c', 'b')};
    ConsistentBy(ws, map['a' := 0, 'c' := 0, 'b' := 1]);
    EvidenceOfPrecedes(ws, 'a', 'b');
    EvidenceOfPrecedes(ws, 'c', 'b');
  }

  /** testPartialOrder2: "ab", "ad", "b", "c", "d" puts a, b, c, d in that
      order. */
  lemma PartialOrder2Test(ws: seq<Word>, r: Result<seq<char>>)
    requires ws == ["ab", "ad", "b", "c", "d"] && Outcome(ws, r)
    ensures r.Ok? && Before(r.value, 'a', 'b') && Before(r.value, 'b', 'c') && Before(r.value, 'c', 'd')
  {
    ChainWords(ws);
  }

  /** testPartialOrder4: "ab", "ad", "b", "c", "d", "e" puts a, b, c, d, e in
      that order. */
  lemma PartialOrder4Test(ws: seq<Word>, r: Result<seq<char>>)
    requires ws == ["ab", "ad", "b", "c", "d", "e"] && Outcome(ws, r)
    ensures r.Ok? && Before(r.value, 'a', 'b') && Before(r.value, 'b', 'c')
    ensures Before(r.value, 'c', 'd') && Before(r.value, 'd', 'e')
  {
    ChainWords(ws);
  }

  /** The computed evidence of a suffix: its first pair, then the rest. */
  lemma EvidenceFrom(ws: seq<Word>, k: nat)
    requires k + 1 < |ws|
    ensures EvidenceOf(ws[k..]) == EvidenceOf([ws[k], ws[k + 1]]) + EvidenceOf(ws[k + 1..])
  {
    assert ws[k..][1..] == ws[k + 1..];
    assert [ws[k], ws[k + 1]][1..] == [ws[k + 1]];
  }

  /** The words of testPartialOrder2 and testPartialOrder4: "ab", "ad", "b",
      "c", "d" and possibly "e". */
  ghost predicate ChainList(ws: seq<Word>)
  {
    && (|ws| == 5 || (|ws| == 6 && ws[5] == "e"))
    && ws[0] == "ab" && ws[1] == "ad" && ws[2] == "b" && ws[3] == "c" && ws[4] == "d"
  }

  /** In the chain list each letter comes before the next. */
  lemma ChainWords(ws: seq<Word>)
    requires ChainList(ws)
    ensures WellFormed(ws) && Consistent(ws)
    ensures Precedes(ws, 'a', 'b') && Precedes(ws, 'b', 'c') && Precedes(ws, 'c', 'd')
    ensures |ws| == 6 ==> Precedes(ws, 'd', 'e')
  {
    ChainPrefixFree(ws);
    ChainEvidence(ws);
    ChainOrdered(ws);
  }

  lemma ChainPrefixFree(ws: seq<Word>)
    requires ChainList(ws)
    ensures WellFormed(ws)
  {
    forall i, j | 0 <= i < j < |ws| ensures NotPrefixOf(ws[j], ws[i]) {
      assert ws[j][0] != ws[i][0] || ws[j][1] != ws[i][1];
    }
  }

  /** a, b, c, d, e orders the chain's evidence, and that evidence holds. */
  lemma ChainOrdered(ws: seq<Word>)
    requires |ws| == 5 || |ws| == 6
    requires EvidenceOf(ws) == {('b', 'd'), ('a', 'b'), ('b', 'c'), ('c', 'd')} + EvidenceOf(ws[4..])
    requires |ws| == 5 ==> EvidenceOf(ws[4..]) == {}
    requires |ws| == 6 ==> EvidenceOf(ws[4..]) == {('d', 'e')}
    ensures Consistent(ws)
    ensures Precedes(ws, 'a', 'b') && Precedes(ws, 'b', 'c') && Precedes(ws, 'c', 'd')
    ensures |ws| == 6 ==> Precedes(ws, 'd', 'e')
  {
    ConsistentBy(ws, map['a' := 0, 'b' := 1, 'c' := 2, 'd' := 3, 'e' := 4]);
    EvidenceOfPrecedes(ws, 'a', 'b');
    EvidenceOfPrecedes(ws, 'b', 'c');
    EvidenceOfPrecedes(ws, 'c', 'd');
    EvidenceOfPrecedes(ws, 'd', 'e');
  }

  lemma ChainEvidence(ws: seq<Word>)
    requires ChainList(ws)
    ensures EvidenceOf(ws) == {('b', 'd'), ('a', 'b'), ('b', 'c'), ('c', 'd')} + EvidenceOf(ws[4..])
    ensures |ws| == 5 ==> EvidenceOf(ws[4..]) == {}
    ensures |ws| == 6 ==> EvidenceOf(ws[4..]) == {('d', 'e')}
  {
    ChainHead(ws);
    ChainMiddle(ws);
    if |ws| == 6 {
      EvidenceFrom(ws, 4);
      PairEvidence(ws[4], ws[5], 0);
    }
  }

  lemma ChainHead(ws: seq<Word>)
    requires ChainList(ws)
    ensures EvidenceOf(ws) == {('b', 'd'), ('a', 'b')} + EvidenceOf(ws[2..])
  {
    assert ws[0..] == ws;
    EvidenceFrom(ws, 0);
    EvidenceFrom(ws, 1);
    assert ws[0][..1] == ws[1][..1];
    PairEvidence(ws[0], ws[1], 1);
    PairEvidence(ws[1], ws[2], 0);
  }

  lemma ChainMiddle(ws: seq<Word>)
    requires ChainList(ws)
    ensures EvidenceOf(ws[2..]) == {('b', 'c'), ('c', 'd')} + EvidenceOf(ws[4..])
  {
    EvidenceFrom(ws, 2);
    EvidenceFrom(ws, 3);
    PairEvidence(ws[2], ws[3], 0);
    PairEvidence(ws[3], ws[4], 0);
  }

  /** The words of testPartialOrder3. */
  ghost predicate GroupsList(ws: seq<Word>)
  {
    && |ws| == 11
    && ws[0] == "ab" && ws[1] == "ac" && ws[2] == "ad"
    && ws[3] == "beb" && ws[4] == "bfb" && ws[5] == "bbb"
    && ws[6] == "cgc" && ws[7] == "chc" && ws[8] == "ccc"
    && ws[9] == "dgd" && ws[10] == "ddd"
  }

  /** testPartialOrder3: the eight orderings the test asserts, two of
      them (e before b, g before c) only through a chain of evidence. */
  lemma PartialOrder3Test(ws: seq<Word>, r: Result<seq<char>>)
    requires GroupsList(ws) && Outcome(ws, r)
    ensures r.Ok?
    ensures Before(r.value, 'a', 'b') && Before(r.value, 'b', 'c') && Before(r.value, 'c', 'd')
    ensures Before(r.value, 'e', 'b') && Before(r.value, 'f', 'b') && Before(r.value, 'g', 'c')
    ensures Before(r.value, 'h', 'c') && Before(r.value, 'g', 'd')
  {
    GroupsWords(ws);
    GroupsOrdered(ws, r.value);
  }

  /** An alphabet discovered from the testPartialOrder3 words orders them as
      the test asserts. */
  lemma GroupsOrdered(ws: seq<Word>, alphabet: seq<char>)
    requires Discovered(ws, alphabet)
    requires Precedes(ws, 'a', 'b') && Precedes(ws, 'b', 'c') && Precedes(ws, 'c', 'd')
    requires Precedes(ws, 'e', 'f') && Precedes(ws, 'f', 'b') && Precedes(ws, 'g', 'h')
    requires Precedes(ws, 'h', 'c') && Precedes(ws, 'g', 'd')
    ensures Before(alphabet, 'a', 'b') && Before(alphabet, 'b', 'c') && Before(alphabet, 'c', 'd')
    ensures Before(alphabet, 'e', 'b') && Before(alphabet, 'f', 'b') && Before(alphabet, 'g', 'c')
    ensures Before(alphabet, 'h', 'c') && Before(alphabet, 'g', 'd')
  {
  }

  lemma GroupsWords(ws: seq<Word>)
    requires GroupsList(ws)
    ensures WellFormed(ws) && Consistent(ws)
    ensures Precedes(ws, 'a', 'b') && Precedes(ws, 'b', 'c') && Precedes(ws, 'c', 'd')
    ensures Precedes(ws, 'e', 'f') && Precedes(ws, 'f', 'b') && Precedes(ws, 'g', 'h')
    ensures Precedes(ws, 'h', 'c') && Precedes(ws, 'g', 'd')
  {
    GroupsPrefixFree(ws);
    GroupsEvidence(ws);
    GroupsRanked(ws);
    GroupsPrecedes(ws);
  }

  /** The evidence of testPartialOrder3's words. */
  ghost predicate GroupsEvidenceIs(ws: seq<Word>)
  {
    EvidenceOf(ws) == {('b', 'c'), ('c', 'd'), ('a', 'b')} + {('e', 'f'), ('f', 'b'), ('b', 'c')}
                      + {('g', 'h'), ('h', 'c'), ('c', 'd'), ('g', 'd')}
  }

  lemma GroupsRanked(ws: seq<Word>)
    requires GroupsEvidenceIs(ws)
    ensures Consistent(ws)
  {
    ConsistentBy(ws, map['a' := 0, 'e' := 0, 'f' := 1, 'b' := 2, 'g' := 0, 'h' := 1, 'c' := 3, 'd' := 4]);
  }

  lemma GroupsPrecedes(ws: seq<Word>)
    requires GroupsEvidenceIs(ws)
    ensures Precedes(ws, 'a', 'b') && Precedes(ws, 'b', 'c') && Precedes(ws, 'c', 'd')
    ensures Precedes(ws, 'e', 'f') && Precedes(ws, 'f', 'b') && Precedes(ws, 'g', 'h')
    ensures Precedes(ws, 'h', 'c') && Precedes(ws, 'g', 'd')
  {
    EvidenceOfPrecedes(ws, 'a', 'b');
    EvidenceOfPrecedes(ws, 'b', 'c');
    EvidenceOfPrecedes(ws, 'c', 'd');
    EvidenceOfPrecedes(ws, 'e', 'f');
    EvidenceOfPrecedes(ws, 'f', 'b');
    EvidenceOfPrecedes(ws, 'g', 'h');
    EvidenceOfPrecedes(ws, 'h', 'c');
    EvidenceOfPrecedes(ws, 'g', 'd');
  }

  lemma GroupsPrefixFree(ws: seq<Word>)
    requires GroupsList(ws)
    ensures WellFormed(ws)
  {
    forall i, j | 0 <= i < j < |ws| ensures NotPrefixOf(ws[j], ws[i]) {
      assert ws[j][0] != ws[i][0] || ws[j][1] != ws[i][1];
    }
  }

  lemma GroupsEvidence(ws: seq<Word>)
    requires GroupsList(ws)
    ensures GroupsEvidenceIs(ws)
  {
    assert ws[0..] == ws;
    GroupsFirst(ws);
    GroupsSecond(ws);
    GroupsThird(ws);
  }

  lemma GroupsFirst(ws: seq<Word>)
    requires GroupsList(ws)
    ensures EvidenceOf(ws[0..]) == {('b', 'c'), ('c', 'd'), ('a', 'b')} + EvidenceOf(ws[3..])
  {
    EvidenceFrom(ws, 0);
    EvidenceFrom(ws, 1);
    EvidenceFrom(ws, 2);
    assert ws[0][..1] == ws[1][..1] && ws[1][..1] == ws[2][..1];
    PairEvidence(ws[0], ws[1], 1);
    PairEvidence(ws[1], ws[2], 1);
    PairEvidence(ws[2], ws[3], 0);
  }

  lemma GroupsSecond(ws: seq<Word>)
    requires GroupsList(ws)
    ensures EvidenceOf(ws[3..]) == {('e', 'f'), ('f', 'b'), ('b', 'c')} + EvidenceOf(ws[6..])
  {
    EvidenceFrom(ws, 3);
    EvidenceFrom(ws, 4);
    EvidenceFrom(ws, 5);
    assert ws[3][..1] == ws[4][..1] && ws[4][..1] == ws[5][..1];
    PairEvidence(ws[3], ws[4], 1);
    PairEvidence(ws[4], ws[5], 1);
    PairEvidence(ws[5], ws[6], 0);
  }

  lemma GroupsThird(ws: seq<Word>)
    requires GroupsList(ws)
    ensures EvidenceOf(ws[6..]) == {('g', 'h'), ('h', 'c'), ('c', 'd'), ('g', 'd')}
  {
    assert ws[10..] == [ws[10]];
    EvidenceFrom(ws, 6);
    EvidenceFrom(ws, 7);
    EvidenceFrom(ws, 8);
    EvidenceFrom(ws, 9);
    assert ws[6][..1] == ws[7][..1] && ws[7][..1] == ws[8][..1] && ws[9][..1] == ws[10][..1];
    PairEvidence(ws[6], ws[7], 1);
    PairEvidence(ws[7], ws[8], 1);
    PairEvidence(ws[8], ws[9], 0);
    PairEvidence(ws[9], ws[10], 1);
  }
}
