/** What a word list says about its alphabet, independently of any graph: the
    precedence evidence of consecutive words, whether it is free of cycles,
    and what it means for an alphabet to agree with it. */
module Evidence {
  import opened Outcomes
  import opened Words
  import opened Graphs
  import opened Extraction
  import opened ExtractionFacts
  import opened Assembly

  /** A chain of characters each said by the words to precede the next. */
  ghost predicate EvidencePath(ws: seq<Word>, p: seq<char>)
  {
    |p| >= 1 && forall i :: 0 <= i < |p| - 1 ==> Precedes(ws, p[i], p[i + 1])
  }

  /** The words contradict themselves: a chain of evidence returns to its
      start. */
  ghost predicate EvidenceCycle(ws: seq<Word>, p: seq<char>)
  {
    |p| >= 2 && EvidencePath(ws, p) && p[0] == p[|p| - 1]
  }

  /** Some alphabet can agree with all the evidence. */
  ghost predicate Consistent(ws: seq<Word>)
  {
    forall p :: !EvidenceCycle(ws, p)
  }

  /** `alphabet` lists both characters of every piece of evidence, the earlier
      one first. */
  ghost predicate OrdersEvidence(ws: seq<Word>, alphabet: seq<char>)
  {
    forall a, b :: Precedes(ws, a, b) ==> a in alphabet && b in alphabet && IndexOf(alphabet, a) < IndexOf(alphabet, b)
  }

  /** The answer the discovery promises for two or more words: every character
      of the words exactly once, in an order that agrees with the evidence. */
  ghost predicate Discovered(ws: seq<Word>, alphabet: seq<char>)
  {
    NoDup(alphabet) && Elems(alphabet) == Chars(ws) && OrdersEvidence(ws, alphabet)
  }

  /** The Java graph has a cycle exactly when the evidence has one. */
  lemma JavaGraphAcyclic(ws: seq<Word>)
    requires Extract(Java, ws).Ok?
    ensures Acyclic(Extract(Java, ws).value) <==> Consistent(ws)
  {
    var g := Extract(Java, ws).value;
    ExtractComplete(ws);
    forall p ensures IsCycle(g, p) <==> EvidenceCycle(ws, p) {
      if |p| >= 1 {
        assert (forall i :: 0 <= i < |p| - 1 ==> Edge(g, p[i], p[i + 1]))
           <==> (forall i :: 0 <= i < |p| - 1 ==> Precedes(ws, p[i], p[i + 1]));
      }
    }
  }

  /** Respecting the Java graph is agreeing with the evidence. */
  lemma JavaGraphOrdersEvidence(ws: seq<Word>, alphabet: seq<char>)
    requires Extract(Java, ws).Ok?
    ensures Respects(Extract(Java, ws).value, alphabet) <==> OrdersEvidence(ws, alphabet)
  {
    ExtractComplete(ws);
  }

  /** Along a chain of evidence, positions in an agreeing alphabet strictly
      increase. */
  lemma {:induction false} EvidenceClimbs(ws: seq<Word>, alphabet: seq<char>, p: seq<char>)
    requires OrdersEvidence(ws, alphabet)
    requires EvidencePath(ws, p) && |p| >= 2
    ensures p[0] in alphabet && p[|p| - 1] in alphabet
    ensures IndexOf(alphabet, p[0]) < IndexOf(alphabet, p[|p| - 1])
    decreases |p|
  {
    assert Precedes(ws, p[0], p[1]);
    if |p| > 2 {
      var q := p[1..];
      forall k | 0 <= k < |q| - 1 ensures Precedes(ws, q[k], q[k + 1]) {
        assert Precedes(ws, p[k + 1], p[k + 2]);
      }
      EvidenceClimbs(ws, alphabet, q);
    }
  }

  /** Only consistent evidence can be agreed with: an alphabet that orders
      every piece of evidence rules out every cycle. */
  lemma OrderedMeansConsistent(ws: seq<Word>, alphabet: seq<char>)
    requires OrdersEvidence(ws, alphabet)
    ensures Consistent(ws)
  {
    forall p | EvidenceCycle(ws, p) ensures false {
      EvidenceClimbs(ws, alphabet, p);
    }
  }

  /** Where two words first differ: the length of their common prefix. */
  function DiffPos(u: Word, v: Word): (p: nat)
    ensures p <= |u| && p <= |v| && u[..p] == v[..p]
    ensures p < |u| && p < |v| ==> u[p] != v[p]
    ensures forall k :: 0 <= k < p ==> u[k] == v[k]
  {
    if |u| == 0 || |v| == 0 || u[0] != v[0] then 0
    else
      var q := DiffPos(u[1..], v[1..]);
      assert u[..q + 1] == [u[0]] + u[1..][..q];
      assert v[..q + 1] == [v[0]] + v[1..][..q];
      1 + q
  }

  /** A common prefix is no longer than `DiffPos`. */
  lemma {:induction false} CommonPrefixWithin(u: Word, v: Word, n: nat)
    requires n <= |u| && n <= |v| && u[..n] == v[..n]
    ensures n <= DiffPos(u, v)
    decreases n
  {
    if n > 0 {
      assert u[..n][0] == v[..n][0];
      assert u[1..][..n - 1] == u[..n][1..];
      assert v[1..][..n - 1] == v[..n][1..];
      CommonPrefixWithin(u[1..], v[1..], n - 1);
    }
  }

  /** Two words have at most one first difference, and it is `DiffPos`. */
  lemma FirstDiffAt(u: Word, v: Word, p: nat)
    ensures FirstDiff(u, v, p) <==> p == DiffPos(u, v) && p < |u| && p < |v|
  {
    var d := DiffPos(u, v);
    if FirstDiff(u, v, p) {
      CommonPrefixWithin(u, v, p);
      CommonPrefixWithin(u, v, d);
      assert p <= d && d <= |u| && d <= |v|;
    }
  }

  /** The evidence of consecutive words, computed pair by pair. */
  function EvidenceOf(ws: seq<Word>): (e: set<(char, char)>)
  {
    if |ws| < 2 then {}
    else
      var p := DiffPos(ws[0], ws[1]);
      (if p < |ws[0]| && p < |ws[1]| then {(ws[0][p], ws[1][p])} else {}) + EvidenceOf(ws[1..])
  }

  /** Two words differing at `d` have a `DiffPos` of at most `d`. */
  lemma DiffAtMost(u: Word, v: Word, d: nat)
    requires d < |u| && d < |v| && u[d] != v[d]
    ensures DiffPos(u, v) <= d
  {
  }

  /** A common prefix as long as the shorter word makes it a prefix. */
  lemma DiffPrefix(u: Word, w: Word)
    ensures DiffPos(u, w) == |w| ==> w <= u
  {
    var n := DiffPos(u, w);
    if n == |w| {
      assert w == u[..n];
    }
  }

  /** Comparing `u` with `v` through a middle word `w`: the first difference
      of `u` and `v` is the earlier of the two links' first differences when
      those differ, and no earlier than both when they coincide. */
  lemma DiffChain(u: Word, w: Word, v: Word)
    ensures DiffPos(u, w) < DiffPos(w, v) ==> DiffPos(u, v) == DiffPos(u, w)
    ensures DiffPos(w, v) < DiffPos(u, w) ==> DiffPos(u, v) == DiffPos(w, v)
    ensures DiffPos(u, w) == DiffPos(w, v) ==> DiffPos(u, w) <= DiffPos(u, v)
  {
    var r, q := DiffPos(u, w), DiffPos(w, v);
    var m := if r < q then r else q;
    assert u[..m] == u[..r][..m] && w[..m] == w[..r][..m];
    assert w[..m] == w[..q][..m] && v[..m] == v[..q][..m];
    CommonPrefixWithin(u, v, m);
    if r < q && r < |u| {
      assert w[..q][r] == v[..q][r];
      DiffAtMost(u, v, r);
    }
    if q < r && q < |v| {
      assert u[..r][q] == w[..r][q];
      DiffAtMost(u, v, q);
    }
  }

  /** Two chains of evidence meeting end to start join into one. */
  lemma PathJoin(ws: seq<Word>, p1: seq<char>, p2: seq<char>)
    requires EvidencePath(ws, p1) && EvidencePath(ws, p2) && p1[|p1| - 1] == p2[0]
    ensures EvidencePath(ws, p1 + p2[1..])
    ensures (p1 + p2[1..])[0] == p1[0]
    ensures (p1 + p2[1..])[|p1| + |p2| - 2] == p2[|p2| - 1]
  {
    var s := p1 + p2[1..];
    forall k | 0 <= k < |s| - 1 ensures Precedes(ws, s[k], s[k + 1]) {
      if k < |p1| - 1 {
        assert s[k] == p1[k] && s[k + 1] == p1[k + 1];
      } else {
        var t := k - (|p1| - 1);
        assert s[k] == p2[t] && s[k + 1] == p2[t + 1];
      }
    }
  }

  /** Any two words `ws[i]` and `ws[j]`, `i < j`, of a well-formed list with
      consistent evidence that first differ at `DiffPos` are joined by a chain
      of evidence from the earlier word's character to the later one's. */
  lemma {:induction false} PairPath(ws: seq<Word>, i: nat, j: nat) returns (path: seq<char>)
    requires WellFormed(ws) && Consistent(ws) && i < j < |ws|
    requires DiffPos(ws[i], ws[j]) < |ws[i]| && DiffPos(ws[i], ws[j]) < |ws[j]|
    ensures |path| >= 2 && EvidencePath(ws, path)
    ensures path[0] == ws[i][DiffPos(ws[i], ws[j])]
    ensures path[|path| - 1] == ws[j][DiffPos(ws[i], ws[j])]
    decreases j - i
  {
    var p := DiffPos(ws[i], ws[j]);
    if j == i + 1 {
      FirstDiffAt(ws[i], ws[j], p);
      var k: nat := i;
      assert FirstDiff(ws[k], ws[k + 1], p);
      path := [ws[i][p], ws[j][p]];
      assert Precedes(ws, path[0], path[1]);
    } else {
      var m := j - 1;
      var r, q := DiffPos(ws[i], ws[m]), DiffPos(ws[m], ws[j]);
      DiffChain(ws[i], ws[m], ws[j]);
      assert NotPrefixOf(ws[m], ws[i]) && NotPrefixOf(ws[j], ws[m]);
      if r < q {
        path := PairPath(ws, i, m);
        assert ws[m][..q][r] == ws[j][..q][r];
      } else if q < r {
        path := PairPath(ws, m, j);
        assert ws[i][..r][q] == ws[m][..r][q];
      } else {
        DiffPrefix(ws[i], ws[m]);
        assert r < |ws[m]|;
        assert q < |ws[j]|;
        var path1 := PairPath(ws, i, m);
        var path2 := PairPath(ws, m, j);
        PathJoin(ws, path1, path2);
        path := path1 + path2[1..];
        assert path[|path| - 1] == ws[j][r];
        if ws[i][r] == ws[j][r] {
          assert EvidenceCycle(ws, path);
        }
        DiffAtMost(ws[i], ws[j], r);
      }
    }
  }

  /** Ordered words induce reachability: when `ws[i]` and `ws[j]`, `i < j`,
      first differ at `p`, a chain of evidence leads from `ws[i][p]` to
      `ws[j][p]`. */
  lemma OrderedWordsReach(ws: seq<Word>, i: nat, j: nat, p: nat) returns (path: seq<char>)
    requires WellFormed(ws) && Consistent(ws) && i < j < |ws| && FirstDiff(ws[i], ws[j], p)
    ensures |path| >= 2 && EvidencePath(ws, path)
    ensures path[0] == ws[i][p] && path[|path| - 1] == ws[j][p]
  {
    FirstDiffAt(ws[i], ws[j], p);
    path := PairPath(ws, i, j);
  }

  /** The same chain runs along edges of the Java graph. */
  lemma JavaGraphReaches(ws: seq<Word>, i: nat, j: nat, p: nat) returns (path: seq<char>)
    requires Extract(Java, ws).Ok?
    requires WellFormed(ws) && Consistent(ws) && i < j < |ws| && FirstDiff(ws[i], ws[j], p)
    ensures |path| >= 2 && IsPath(Extract(Java, ws).value, path)
    ensures path[0] == ws[i][p] && path[|path| - 1] == ws[j][p]
  {
    path := OrderedWordsReach(ws, i, j, p);
    ExtractComplete(ws);
    assert forall k :: 0 <= k < |path| - 1 ==> Precedes(ws, path[k], path[k + 1]);
  }

  /** `alphabet` orders the first difference of every two words of the list,
      not only of consecutive ones. */
  ghost predicate OrdersAllPairs(ws: seq<Word>, alphabet: seq<char>)
  {
    forall i, j, p: nat :: 0 <= i < j < |ws| && FirstDiff(ws[i], ws[j], p) ==>
      ws[i][p] in alphabet && ws[j][p] in alphabet && IndexOf(alphabet, ws[i][p]) < IndexOf(alphabet, ws[j][p])
  }

  /** On a well-formed list, an alphabet that agrees with the evidence of
      consecutive words orders every two words the way the list does. */
  lemma AllPairsOrdered(ws: seq<Word>, alphabet: seq<char>)
    requires WellFormed(ws) && OrdersEvidence(ws, alphabet)
    ensures OrdersAllPairs(ws, alphabet)
  {
    OrderedMeansConsistent(ws, alphabet);
    forall i, j, p: nat | 0 <= i < j < |ws| && FirstDiff(ws[i], ws[j], p)
      ensures ws[i][p] in alphabet && ws[j][p] in alphabet && IndexOf(alphabet, ws[i][p]) < IndexOf(alphabet, ws[j][p])
    {
      PairOrdered(ws, alphabet, i, j, p);
    }
  }

  /** One pair of words: the chain between their first differing characters
      climbs through the alphabet. */
  lemma PairOrdered(ws: seq<Word>, alphabet: seq<char>, i: nat, j: nat, p: nat)
    requires WellFormed(ws) && Consistent(ws) && OrdersEvidence(ws, alphabet)
    requires i < j < |ws| && FirstDiff(ws[i], ws[j], p)
    ensures ws[i][p] in alphabet && ws[j][p] in alphabet && IndexOf(alphabet, ws[i][p]) < IndexOf(alphabet, ws[j][p])
  {
    var path := OrderedWordsReach(ws, i, j, p);
    EvidenceClimbs(ws, alphabet, path);
  }

  /** The computed evidence is exactly the precedence evidence. */
  lemma {:induction false} EvidenceOfPrecedes(ws: seq<Word>, a: char, b: char)
    ensures (a, b) in EvidenceOf(ws) <==> Precedes(ws, a, b)
    decreases |ws|
  {
    if |ws| >= 2 {
      var t := ws[1..];
      EvidenceOfPrecedes(t, a, b);
      var d := DiffPos(ws[0], ws[1]);
      var here := d < |ws[0]| && d < |ws[1]| && (a, b) == (ws[0][d], ws[1][d]);
      assert (a, b) in EvidenceOf(ws) <==> here || (a, b) in EvidenceOf(t);
      forall k: nat, p: nat {:trigger FirstDiff(ws[k], ws[k + 1], p)}
        | k + 1 < |ws| && FirstDiff(ws[k], ws[k + 1], p) && ws[k][p] == a && ws[k + 1][p] == b
        ensures (a, b) in EvidenceOf(ws)
      {
        FirstDiffAt(ws[k], ws[k + 1], p);
        if k > 0 {
          var k': nat := k - 1;
          assert t[k'] == ws[k] && t[k' + 1] == ws[k + 1];
          assert FirstDiff(t[k'], t[k' + 1], p);
        }
      }
      forall k: nat, p: nat {:trigger FirstDiff(t[k], t[k + 1], p)}
        | k + 1 < |t| && FirstDiff(t[k], t[k + 1], p) && t[k][p] == a && t[k + 1][p] == b
        ensures Precedes(ws, a, b)
      {
        var k': nat := k + 1;
        assert ws[k'] == t[k] && ws[k' + 1] == t[k + 1];
        assert FirstDiff(ws[k'], ws[k' + 1], p);
      }
      if here {
        var k: nat := 0;
        FirstDiffAt(ws[k], ws[k + 1], d);
        assert FirstDiff(ws[k], ws[k + 1], d);
      }
    }
  }

  /** `rank` numbers both characters of every piece of evidence, the earlier
      one lower. */
  ghost predicate Ranks(ws: seq<Word>, rank: map<char, int>)
  {
    forall a, b :: Precedes(ws, a, b) ==> a in rank && b in rank && rank[a] < rank[b]
  }

  /** Along a chain of evidence, ranks strictly increase. */
  lemma {:induction false} RankClimbs(ws: seq<Word>, rank: map<char, int>, p: seq<char>)
    requires Ranks(ws, rank)
    requires EvidencePath(ws, p) && |p| >= 2
    ensures p[0] in rank && p[|p| - 1] in rank && rank[p[0]] < rank[p[|p| - 1]]
    decreases |p|
  {
    assert Precedes(ws, p[0], p[1]);
    if |p| > 2 {
      var q := p[1..];
      forall k | 0 <= k < |q| - 1 ensures Precedes(ws, q[k], q[k + 1]) {
        assert Precedes(ws, p[k + 1], p[k + 2]);
      }
      RankClimbs(ws, rank, q);
    }
  }

  /** Evidence that some ranking orders is consistent. */
  lemma RankedConsistent(ws: seq<Word>, rank: map<char, int>)
    requires Ranks(ws, rank)
    ensures Consistent(ws)
  {
    forall p | EvidenceCycle(ws, p) ensures false {
      RankClimbs(ws, rank, p);
    }
  }
}
