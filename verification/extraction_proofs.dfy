/** What processWords builds: every edge it adds is evidenced by two
    consecutive words (both variants); in the Java variant every piece of
    evidence becomes an edge; and on a well-formed word list no index ever
    goes out of range (both variants). */
module ExtractionProofs {
  import opened Outcomes
  import opened Words
  import opened Graphs
  import opened Extraction
  import opened ExtractionShape

  /** A sub-range of a range sharing a prefix shares it too. */
  lemma SharePrefixSub(ws: seq<Word>, lo: nat, hi: nat, lo': nat, hi': nat, d: nat)
    requires lo <= lo' <= hi' <= hi <= |ws|
    requires SharePrefix(ws, lo, hi, d)
    ensures SharePrefix(ws, lo', hi', d)
  {
  }

  /** Appending the next word, which agrees with the range on `d` characters
      and with the range's last word on character `d`, keeps `d + 1`
      characters shared. */
  lemma SharePrefixExtend(ws: seq<Word>, lo: nat, hi: nat, d: nat)
    requires lo < hi < |ws|
    requires SharePrefix(ws, lo, hi, d + 1)
    requires d < |ws[hi]| && ws[hi][..d] == ws[lo][..d] && ws[hi][d] == ws[hi - 1][d]
    ensures SharePrefix(ws, lo, hi + 1, d + 1)
  {
    var u, w := ws[hi], ws[lo];
    assert ws[hi - 1][..d + 1] == w[..d + 1];
    assert ws[hi - 1][d] == ws[hi - 1][..d + 1][d];
    assert w[d] == w[..d + 1][d];
    assert u[..d + 1] == u[..d] + [u[d]];
    assert w[..d + 1] == w[..d] + [w[d]];
  }

  /** In a well-formed list, a word after the first of a range sharing `d`
      characters is longer than `d`: otherwise it would be a prefix of the
      first. */
  lemma LongerThanShared(ws: seq<Word>, S: nat, E: nat, d: nat, i: nat)
    requires WellFormed(ws)
    requires S < i < E <= |ws|
    requires SharePrefix(ws, S, E, d)
    ensures d < |ws[i]|
  {
    assert NotPrefixOf(ws[i], ws[S]);
  }

  /** Where the loop of processWords stands: `[S, E)` is a range whose words
      share `depth` characters, `prev` is the character at `depth` of word
      `wi - 1`, and an open run holds at least two words sharing `depth + 1`
      characters. */
  ghost predicate ScanState(ws: seq<Word>, S: nat, E: nat, wi: nat, end: nat, depth: nat, prev: char, run: Run)
  {
    && end <= E <= |ws|
    && S < wi
    && S <= E
    && SharePrefix(ws, S, E, depth)
    && (wi <= end ==> depth < |ws[wi - 1]| && ws[wi - 1][depth] == prev)
    && (run.RunFrom? ==>
          && S <= run.start
          && run.start + 2 <= wi <= end
          && SharePrefix(ws, run.start, wi, depth + 1))
  }

  /** One loop step on a word with the same character keeps the state. */
  lemma SameCharStep(ws: seq<Word>, S: nat, E: nat, wi: nat, end: nat, depth: nat, prev: char, run: Run)
    requires ScanState(ws, S, E, wi, end, depth, prev, run)
    requires wi < end && depth < |ws[wi]| && ws[wi][depth] == prev
    ensures ScanState(ws, S, E, wi + 1, end, depth, prev, if run.RunFrom? then run else RunFrom(wi - 1))
  {
    var lo := if run.RunFrom? then run.start else wi - 1;
    assert ws[wi][..depth] == ws[S][..depth] == ws[lo][..depth];
    SharePrefixExtend(ws, lo, wi, depth);
  }

  /** One loop step on a word with a different character starts afresh. */
  lemma NewCharStep(ws: seq<Word>, S: nat, E: nat, wi: nat, end: nat, depth: nat, prev: char, run: Run)
    requires ScanState(ws, S, E, wi, end, depth, prev, run)
    requires wi < end && depth < |ws[wi]| && ws[wi][depth] != prev
    ensures ScanState(ws, S, E, wi + 1, end, depth, ws[wi][depth], NoRun)
    ensures FirstDiff(ws[wi - 1], ws[wi], depth)
    ensures Precedes(ws, prev, ws[wi][depth])
  {
    assert ws[wi][..depth] == ws[S][..depth] == ws[wi - 1][..depth];
    var k: nat := wi - 1;
    assert FirstDiff(ws[k], ws[k + 1], depth);
  }

  /** The state at the start of processWords' loop. */
  lemma StartState(ws: seq<Word>, start: nat, E: nat, end: nat, depth: nat, first: nat, c: char)
    requires start + 0 <= end <= E <= |ws| && start <= end
    requires SharePrefix(ws, start, E, depth)
    requires first == start || first == start + 1
    requires first < |ws| && depth < |ws[first]| && ws[first][depth] == c
    ensures ScanState(ws, start, E, first + 1, end, depth, c, NoRun)
  {
  }

  ghost predicate SoundFrom(ws: seq<Word>, g: Graph, r: Result<Graph>)
  {
    r.Ok? ==> forall a, b :: Edge(r.value, a, b) ==> Edge(g, a, b) || Precedes(ws, a, b)
  }

  /** Every edge processWords adds is evidenced by two consecutive words. */
  lemma {:induction false} ProcessWordsSound(v: Variant, ws: seq<Word>, start: nat, count: nat, depth: nat, g: Graph)
    requires start + count <= |ws|
    requires SharePrefix(ws, start, start + count, depth)
    ensures SoundFrom(ws, g, ProcessWords(v, ws, start, count, depth, g))
    decreases MaxLen(ws) - depth, 2, 0, 0
  {
    var first := if start < |ws| && |ws[start]| == depth then start + 1 else start;
    if start < |ws| && first < |ws| && depth < |ws[first]| {
      var c := ws[first][depth];
      ProcessWordsStart(v, ws, start, count, depth, g, first);
      StartState(ws, start, start + count, start + count, depth, first, c);
      EnsureNodeEdges(g, c);
      ScanSound(v, ws, first + 1, start + count, depth, c, NoRun, EnsureNode(g, c), start, start + count);
      SoundTrans(ws, g, EnsureNode(g, c), Scan(v, ws, first + 1, start + count, depth, c, NoRun, EnsureNode(g, c)));
    } else {
      ProcessWordsBadStart(v, ws, start, count, depth, g, first);
    }
  }

  lemma {:induction false} ScanSound(v: Variant, ws: seq<Word>, wi: nat, end: nat, depth: nat, prev: char, run: Run, g: Graph, S: nat, E: nat)
    requires depth < MaxLen(ws) && prev in g && 0 < wi && (run.RunFrom? ==> run.start < wi)
    requires ScanState(ws, S, E, wi, end, depth, prev, run)
    ensures SoundFrom(ws, g, Scan(v, ws, wi, end, depth, prev, run, g))
    decreases MaxLen(ws) - depth, 1, if wi <= end then end - wi else 0, 1
  {
    if wi >= end {
      ScanExit(v, ws, wi, end, depth, prev, run, g);
      if run.RunFrom? {
        SharePrefixSub(ws, run.start, wi, run.start, TrailingEnd(v, wi), depth + 1);
      }
      CloseRunSound(v, ws, run, TrailingEnd(v, wi), depth, g);
    } else if !(wi < |ws| && depth < |ws[wi]|) {
      ScanBadChar(v, ws, wi, end, depth, prev, run, g);
    } else if ws[wi][depth] == prev {
      ScanSameChar(v, ws, wi, end, depth, prev, run, g);
      SameCharStep(ws, S, E, wi, end, depth, prev, run);
      ScanSound(v, ws, wi + 1, end, depth, prev, if run.RunFrom? then run else RunFrom(wi - 1), g, S, E);
    } else {
      ScanSoundNew(v, ws, wi, end, depth, prev, run, g, S, E);
    }
  }

  lemma {:induction false} ScanSoundNew(v: Variant, ws: seq<Word>, wi: nat, end: nat, depth: nat, prev: char, run: Run, g: Graph, S: nat, E: nat)
    requires depth < MaxLen(ws) && prev in g && 0 < wi && (run.RunFrom? ==> run.start < wi)
    requires ScanState(ws, S, E, wi, end, depth, prev, run)
    requires wi < end && depth < |ws[wi]| && ws[wi][depth] != prev
    ensures SoundFrom(ws, g, Scan(v, ws, wi, end, depth, prev, run, g))
    decreases MaxLen(ws) - depth, 1, end - wi, 0
  {
    var c := ws[wi][depth];
    NewCharStep(ws, S, E, wi, end, depth, prev, run);
    CloseRunSound(v, ws, run, wi, depth, g);
    ScanNewChar(v, ws, wi, end, depth, prev, run, g);
    var g1r := CloseRun(v, ws, run, wi, depth, g);
    if g1r.Ok? {
      var h := AddEdge(EnsureNode(g1r.value, c), prev, c);
      NewEdgeSound(ws, g1r.value, prev, c);
      ScanSound(v, ws, wi + 1, end, depth, c, NoRun, h, S, E);
      SoundTrans(ws, g1r.value, h, Scan(v, ws, wi + 1, end, depth, c, NoRun, h));
      SoundTrans(ws, g, g1r.value, Scan(v, ws, wi + 1, end, depth, c, NoRun, h));
    }
  }

  /** The edge recorded on a change of character is evidenced. */
  lemma NewEdgeSound(ws: seq<Word>, g: Graph, a: char, b: char)
    requires a in g && Precedes(ws, a, b)
    ensures SoundFrom(ws, g, Ok(AddEdge(EnsureNode(g, b), a, b)))
  {
    EnsureNodeEdges(g, b);
    AddEdgeEdges(EnsureNode(g, b), a, b);
  }

  lemma {:induction false} CloseRunSound(v: Variant, ws: seq<Word>, run: Run, upto: nat, depth: nat, g: Graph)
    requires depth < MaxLen(ws)
    requires run.RunFrom? ==> run.start <= upto <= |ws| && SharePrefix(ws, run.start, upto, depth + 1)
    ensures SoundFrom(ws, g, CloseRun(v, ws, run, upto, depth, g))
    decreases MaxLen(ws) - depth, 0, 0, 0
  {
    if run.RunFrom? {
      ProcessWordsSound(v, ws, run.start, upto - run.start, depth + 1, g);
    }
  }

  lemma SoundTrans(ws: seq<Word>, g: Graph, h: Graph, r: Result<Graph>)
    requires SoundFrom(ws, g, Ok(h)) && SoundFrom(ws, h, r)
    ensures SoundFrom(ws, g, r)
  {
  }

  /** Every pair of consecutive words of `[lo, hi)` whose first difference is
      at position `d` or later yields the edge between the two differing
      characters. */
  ghost predicate CompleteIn(ws: seq<Word>, r: Result<Graph>, lo: nat, hi: nat, d: nat)
  {
    r.Ok? ==>
      forall k: nat, p: nat {:trigger FirstDiff(ws[k], ws[k + 1], p)} ::
        lo <= k && k + 1 < hi && hi <= |ws| && d <= p && FirstDiff(ws[k], ws[k + 1], p) ==>
          Edge(r.value, ws[k][p], ws[k + 1][p])
  }

  lemma CompleteGrow(ws: seq<Word>, h: Graph, r: Graph, lo: nat, hi: nat, d: nat)
    requires CompleteIn(ws, Ok(h), lo, hi, d) && Grows(h, r)
    ensures CompleteIn(ws, Ok(r), lo, hi, d)
  {
  }

  /** Java variant: every consecutive pair of the range that differs at or past
      `depth` becomes an edge. */
  lemma {:induction false} ProcessWordsComplete(ws: seq<Word>, start: nat, count: nat, depth: nat, g: Graph)
    requires start + count <= |ws|
    requires SharePrefix(ws, start, start + count, depth)
    ensures CompleteIn(ws, ProcessWords(Java, ws, start, count, depth, g), start, start + count, depth)
    decreases MaxLen(ws) - depth, 2, 0, 0
  {
    var first := if start < |ws| && |ws[start]| == depth then start + 1 else start;
    if start < |ws| && first < |ws| && depth < |ws[first]| {
      var c := ws[first][depth];
      ProcessWordsStart(Java, ws, start, count, depth, g, first);
      StartState(ws, start, start + count, start + count, depth, first, c);
      ScanComplete(ws, first + 1, start + count, depth, c, NoRun, EnsureNode(g, c), start, start + count);
    } else {
      ProcessWordsBadStart(Java, ws, start, count, depth, g, first);
    }
  }

  lemma {:induction false} CloseRunComplete(ws: seq<Word>, run: Run, upto: nat, depth: nat, g: Graph)
    requires depth < MaxLen(ws)
    requires run.RunFrom? ==> run.start <= upto <= |ws| && SharePrefix(ws, run.start, upto, depth + 1)
    ensures run.RunFrom? ==> CompleteIn(ws, CloseRun(Java, ws, run, upto, depth, g), run.start, upto, depth + 1)
    decreases MaxLen(ws) - depth, 0, 0, 0
  {
    if run.RunFrom? {
      ProcessWordsComplete(ws, run.start, upto - run.start, depth + 1, g);
    }
  }

  /** Pairs from word `wi - 1` on, and pairs inside the open run (which
      differ past `depth`), all become edges. */
  lemma {:induction false} ScanComplete(ws: seq<Word>, wi: nat, end: nat, depth: nat, prev: char, run: Run, g: Graph, S: nat, E: nat)
    requires depth < MaxLen(ws) && prev in g && 0 < wi && (run.RunFrom? ==> run.start < wi)
    requires ScanState(ws, S, E, wi, end, depth, prev, run)
    ensures CompleteIn(ws, Scan(Java, ws, wi, end, depth, prev, run, g), wi - 1, end, depth)
    ensures run.RunFrom? ==> CompleteIn(ws, Scan(Java, ws, wi, end, depth, prev, run, g), run.start, wi, depth + 1)
    decreases MaxLen(ws) - depth, 1, if wi <= end then end - wi else 0, 1
  {
    if wi >= end {
      ScanExit(Java, ws, wi, end, depth, prev, run, g);
      CloseRunComplete(ws, run, wi, depth, g);
    } else if !(depth < |ws[wi]|) {
      ScanBadChar(Java, ws, wi, end, depth, prev, run, g);
    } else if ws[wi][depth] == prev {
      ScanCompleteSame(ws, wi, end, depth, prev, run, g, S, E);
    } else {
      ScanCompleteNew(ws, wi, end, depth, prev, run, g, S, E);
    }
  }

  lemma {:induction false} ScanCompleteSame(ws: seq<Word>, wi: nat, end: nat, depth: nat, prev: char, run: Run, g: Graph, S: nat, E: nat)
    requires depth < MaxLen(ws) && prev in g && 0 < wi && (run.RunFrom? ==> run.start < wi)
    requires ScanState(ws, S, E, wi, end, depth, prev, run)
    requires wi < end && depth < |ws[wi]| && ws[wi][depth] == prev
    ensures CompleteIn(ws, Scan(Java, ws, wi, end, depth, prev, run, g), wi - 1, end, depth)
    ensures run.RunFrom? ==> CompleteIn(ws, Scan(Java, ws, wi, end, depth, prev, run, g), run.start, wi, depth + 1)
    decreases MaxLen(ws) - depth, 1, end - wi, 0
  {
    var run' := if run.RunFrom? then run else RunFrom(wi - 1);
    ScanSameChar(Java, ws, wi, end, depth, prev, run, g);
    SameCharStep(ws, S, E, wi, end, depth, prev, run);
    ScanComplete(ws, wi + 1, end, depth, prev, run', g, S, E);
    CompleteSameStep(ws, Scan(Java, ws, wi + 1, end, depth, prev, run', g), wi, end, depth, prev, run, S, E);
  }

  lemma {:induction false} ScanCompleteNew(ws: seq<Word>, wi: nat, end: nat, depth: nat, prev: char, run: Run, g: Graph, S: nat, E: nat)
    requires depth < MaxLen(ws) && prev in g && 0 < wi && (run.RunFrom? ==> run.start < wi)
    requires ScanState(ws, S, E, wi, end, depth, prev, run)
    requires wi < end && depth < |ws[wi]| && ws[wi][depth] != prev
    ensures CompleteIn(ws, Scan(Java, ws, wi, end, depth, prev, run, g), wi - 1, end, depth)
    ensures run.RunFrom? ==> CompleteIn(ws, Scan(Java, ws, wi, end, depth, prev, run, g), run.start, wi, depth + 1)
    decreases MaxLen(ws) - depth, 1, end - wi, 0
  {
    var c := ws[wi][depth];
    CloseRunComplete(ws, run, wi, depth, g);
    ScanNewChar(Java, ws, wi, end, depth, prev, run, g);
    var g1r := CloseRun(Java, ws, run, wi, depth, g);
    if g1r.Ok? {
      NewCharStep(ws, S, E, wi, end, depth, prev, run);
      var h := AddEdge(EnsureNode(g1r.value, c), prev, c);
      ScanComplete(ws, wi + 1, end, depth, c, NoRun, h, S, E);
      ScanShape(Java, ws, wi + 1, end, depth, c, NoRun, h);
      CompleteNewStep(ws, g1r.value, h, Scan(Java, ws, wi + 1, end, depth, c, NoRun, h), wi, end, depth, prev, run, S, E);
    }
  }

  /** The pair `(wi - 1, wi)` sharing the character at `depth` is covered by
      the run's recursion. */
  lemma CompleteSameStep(ws: seq<Word>, r: Result<Graph>, wi: nat, end: nat, depth: nat, prev: char, run: Run, S: nat, E: nat)
    requires ScanState(ws, S, E, wi, end, depth, prev, run)
    requires wi < end && depth < |ws[wi]| && ws[wi][depth] == prev
    requires CompleteIn(ws, r, wi, end, depth)
    requires CompleteIn(ws, r, if run.RunFrom? then run.start else wi - 1, wi + 1, depth + 1)
    ensures CompleteIn(ws, r, wi - 1, end, depth)
    ensures run.RunFrom? ==> CompleteIn(ws, r, run.start, wi, depth + 1)
  {
    if r.Ok? {
      forall k: nat, p: nat {:trigger FirstDiff(ws[k], ws[k + 1], p)}
        | wi - 1 <= k && k + 1 < end && end <= |ws| && depth <= p && FirstDiff(ws[k], ws[k + 1], p)
        ensures Edge(r.value, ws[k][p], ws[k + 1][p])
      {
        if k == wi - 1 {
          assert p != depth;
        }
      }
    }
  }

  /** The pair `(wi - 1, wi)` differing at `depth` is the edge just added; the
      closed run's edges survive the rest of the loop. */
  lemma CompleteNewStep(ws: seq<Word>, g1: Graph, h: Graph, r: Result<Graph>, wi: nat, end: nat, depth: nat, prev: char, run: Run, S: nat, E: nat)
    requires ScanState(ws, S, E, wi, end, depth, prev, run)
    requires wi < end && depth < |ws[wi]| && ws[wi][depth] != prev
    requires FirstDiff(ws[wi - 1], ws[wi], depth)
    requires prev in g1 && h == AddEdge(EnsureNode(g1, ws[wi][depth]), prev, ws[wi][depth])
    requires run.RunFrom? ==> CompleteIn(ws, Ok(g1), run.start, wi, depth + 1)
    requires r.Ok? ==> Grows(h, r.value)
    requires CompleteIn(ws, r, wi, end, depth)
    ensures CompleteIn(ws, r, wi - 1, end, depth)
    ensures run.RunFrom? ==> CompleteIn(ws, r, run.start, wi, depth + 1)
  {
    if r.Ok? {
      forall k: nat, p: nat {:trigger FirstDiff(ws[k], ws[k + 1], p)}
        | wi - 1 <= k && k + 1 < end && end <= |ws| && depth <= p && FirstDiff(ws[k], ws[k + 1], p)
        ensures Edge(r.value, ws[k][p], ws[k + 1][p])
      {
        if k == wi - 1 {
          assert Edge(h, prev, ws[wi][depth]);
        }
      }
      if run.RunFrom? {
        CompleteGrow(ws, g1, h, run.start, wi, depth + 1);
        CompleteGrow(ws, h, r.value, run.start, wi, depth + 1);
      }
    }
  }

  /** On a well-formed list no index goes out of range. `[start, E)` is a
      range of at least two words sharing `depth` characters that contains the
      range processed (the Python variant's last run can stop one word short
      of it). */
  lemma {:induction false} ProcessWordsOk(v: Variant, ws: seq<Word>, start: nat, count: nat, depth: nat, g: Graph, E: nat)
    requires WellFormed(ws)
    requires start + count <= E <= |ws| && start + 2 <= E
    requires SharePrefix(ws, start, E, depth)
    ensures ProcessWords(v, ws, start, count, depth, g).Ok?
    decreases MaxLen(ws) - depth, 2, 0, 0
  {
    var first := if |ws[start]| == depth then start + 1 else start;
    if first == start + 1 {
      LongerThanShared(ws, start, E, depth, start + 1);
    }
    var c := ws[first][depth];
    ProcessWordsStart(v, ws, start, count, depth, g, first);
    StartState(ws, start, E, start + count, depth, first, c);
    ScanOk(v, ws, first + 1, start + count, depth, c, NoRun, EnsureNode(g, c), start, E);
  }

  lemma {:induction false} CloseRunOk(v: Variant, ws: seq<Word>, run: Run, upto: nat, depth: nat, g: Graph, E: nat)
    requires WellFormed(ws)
    requires depth < MaxLen(ws)
    requires run.RunFrom? ==>
               && run.start <= upto <= E <= |ws| && run.start + 2 <= E
               && SharePrefix(ws, run.start, E, depth + 1)
    ensures CloseRun(v, ws, run, upto, depth, g).Ok?
    decreases MaxLen(ws) - depth, 0, 0, 0
  {
    if run.RunFrom? {
      ProcessWordsOk(v, ws, run.start, upto - run.start, depth + 1, g, E);
    }
  }

  lemma {:induction false} ScanOk(v: Variant, ws: seq<Word>, wi: nat, end: nat, depth: nat, prev: char, run: Run, g: Graph, S: nat, E: nat)
    requires WellFormed(ws)
    requires depth < MaxLen(ws) && prev in g && 0 < wi && (run.RunFrom? ==> run.start < wi)
    requires ScanState(ws, S, E, wi, end, depth, prev, run)
    ensures Scan(v, ws, wi, end, depth, prev, run, g).Ok?
    decreases MaxLen(ws) - depth, 1, if wi <= end then end - wi else 0, 1
  {
    if wi >= end {
      ScanExit(v, ws, wi, end, depth, prev, run, g);
      CloseRunOk(v, ws, run, TrailingEnd(v, wi), depth, g, wi);
    } else {
      LongerThanShared(ws, S, E, depth, wi);
      if ws[wi][depth] == prev {
        ScanOkSame(v, ws, wi, end, depth, prev, run, g, S, E);
      } else {
        ScanOkNew(v, ws, wi, end, depth, prev, run, g, S, E);
      }
    }
  }

  lemma {:induction false} ScanOkSame(v: Variant, ws: seq<Word>, wi: nat, end: nat, depth: nat, prev: char, run: Run, g: Graph, S: nat, E: nat)
    requires WellFormed(ws)
    requires depth < MaxLen(ws) && prev in g && 0 < wi && (run.RunFrom? ==> run.start < wi)
    requires ScanState(ws, S, E, wi, end, depth, prev, run)
    requires wi < end && depth < |ws[wi]| && ws[wi][depth] == prev
    ensures Scan(v, ws, wi, end, depth, prev, run, g).Ok?
    decreases MaxLen(ws) - depth, 1, end - wi, 0
  {
    ScanSameChar(v, ws, wi, end, depth, prev, run, g);
    SameCharStep(ws, S, E, wi, end, depth, prev, run);
    ScanOk(v, ws, wi + 1, end, depth, prev, if run.RunFrom? then run else RunFrom(wi - 1), g, S, E);
  }

  lemma {:induction false} ScanOkNew(v: Variant, ws: seq<Word>, wi: nat, end: nat, depth: nat, prev: char, run: Run, g: Graph, S: nat, E: nat)
    requires WellFormed(ws)
    requires depth < MaxLen(ws) && prev in g && 0 < wi && (run.RunFrom? ==> run.start < wi)
    requires ScanState(ws, S, E, wi, end, depth, prev, run)
    requires wi < end && depth < |ws[wi]| && ws[wi][depth] != prev
    ensures Scan(v, ws, wi, end, depth, prev, run, g).Ok?
    decreases MaxLen(ws) - depth, 1, end - wi, 0
  {
    var c := ws[wi][depth];
    CloseRunOkAt(v, ws, wi, end, depth, prev, run, g, S, E);
    NewCharStep(ws, S, E, wi, end, depth, prev, run);
    var g1 := CloseRun(v, ws, run, wi, depth, g).value;
    ScanOk(v, ws, wi + 1, end, depth, c, NoRun, AddEdge(EnsureNode(g1, c), prev, c), S, E);
  }

  /** On a change of character the open run closes without error, and the
      loop goes on with the new character. */
  lemma {:induction false} CloseRunOkAt(v: Variant, ws: seq<Word>, wi: nat, end: nat, depth: nat, prev: char, run: Run, g: Graph, S: nat, E: nat)
    requires WellFormed(ws)
    requires depth < MaxLen(ws) && prev in g && 0 < wi && (run.RunFrom? ==> run.start < wi)
    requires ScanState(ws, S, E, wi, end, depth, prev, run)
    requires wi < end && depth < |ws[wi]| && ws[wi][depth] != prev
    ensures CloseRun(v, ws, run, wi, depth, g).Ok?
    ensures prev in CloseRun(v, ws, run, wi, depth, g).value
    ensures Scan(v, ws, wi, end, depth, prev, run, g)
         == Scan(v, ws, wi + 1, end, depth, ws[wi][depth], NoRun,
                 AddEdge(EnsureNode(CloseRun(v, ws, run, wi, depth, g).value, ws[wi][depth]), prev, ws[wi][depth]))
    decreases MaxLen(ws) - depth, 0, 0, 1
  {
    CloseRunOk(v, ws, run, wi, depth, g, wi);
    ScanNewChar(v, ws, wi, end, depth, prev, run, g);
  }
}
