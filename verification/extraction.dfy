/** Precedence extraction (`processWords`): a recursive partition of the word
    range `[start, start + count)` at character position `depth`.

    solution1 and solution2 share this procedure word for word; the Python
    port differs only in the length of the last run it recurses on, which
    the `Variant` parameter selects. */
module Extraction {
  import opened Outcomes
  import opened Words
  import opened Graphs

  datatype Variant = Java | Python

  /** The run of consecutive words sharing the character at the current depth
      that is still open (`flagRangeDiscovered` / `rangeStartIndex`). */
  datatype Run = NoRun | RunFrom(start: nat)

  /** End of the run still open when the loop finishes, as passed to the
      recursion: Java uses the loop index after the loop, which is the range
      end; Python uses the last index the loop visited, one less. */
  function TrailingEnd(v: Variant, wi: nat): (e: nat)
  {
    match v
    case Java => wi
    case Python => if wi == 0 then 0 else wi - 1
  }

  /** processWords(start, count, depth) acting on graph `g`. */
  function ProcessWords(v: Variant, ws: seq<Word>, start: nat, count: nat, depth: nat, g: Graph): (r: Result<Graph>)
    ensures r.Ok? ==> g.Keys <= r.value.Keys
    ensures r.Fail? ==> r.error == IndexOutOfBounds
    decreases MaxLen(ws) - depth, 2, 0
  {
    if start >= |ws| then Fail(IndexOutOfBounds)
    else
      // a first word with no character at this depth is skipped
      var first := if |ws[start]| == depth then start + 1 else start;
      if !(first < |ws| && depth < |ws[first]|) then Fail(IndexOutOfBounds)
      else
        var c := ws[first][depth];
        Scan(v, ws, first + 1, start + count, depth, c, NoRun, EnsureNode(g, c))
  }

  /** The loop of processWords from word index `wi` to `end`, with `prev` the
      character at `depth` of the previous word and `run` the open run. */
  function Scan(v: Variant, ws: seq<Word>, wi: nat, end: nat, depth: nat, prev: char, run: Run, g: Graph): (r: Result<Graph>)
    requires depth < MaxLen(ws)
    requires prev in g
    requires 0 < wi
    requires run.RunFrom? ==> run.start < wi
    ensures r.Ok? ==> g.Keys <= r.value.Keys
    ensures r.Fail? ==> r.error == IndexOutOfBounds
    decreases MaxLen(ws) - depth, 1, if wi <= end then end - wi else 0
  {
    if wi >= end then
      CloseRun(v, ws, run, TrailingEnd(v, wi), depth, g)
    else
      if !(wi < |ws| && depth < |ws[wi]|) then Fail(IndexOutOfBounds)
      else
      var c := ws[wi][depth];
      if c == prev then
        // the word continues (or opens) a run sharing `prev`
        Scan(v, ws, wi + 1, end, depth, prev, if run.RunFrom? then run else RunFrom(wi - 1), g)
      else
        // the character changes: close the run, then record prev -> c
        var g1 := CloseRun(v, ws, run, wi, depth, g);
        if g1.Fail? then g1
        else Scan(v, ws, wi + 1, end, depth, c, NoRun, AddEdge(EnsureNode(g1.value, c), prev, c))
  }

  /** Closing the open run, if any, recurses one character deeper on the
      words from the run's start up to (excluding) `upto`. */
  function CloseRun(v: Variant, ws: seq<Word>, run: Run, upto: nat, depth: nat, g: Graph): (r: Result<Graph>)
    requires depth < MaxLen(ws)
    requires run.RunFrom? ==> run.start <= upto
    ensures r.Ok? ==> g.Keys <= r.value.Keys
    ensures r.Fail? ==> r.error == IndexOutOfBounds
    decreases MaxLen(ws) - depth, 0, 0
  {
    match run
    case NoRun => Ok(g)
    case RunFrom(rs) => ProcessWords(v, ws, rs, upto - rs, depth + 1, g)
  }

  /** processWords reads the first word with a character at `depth` and
      starts the loop after it. */
  lemma ProcessWordsStart(v: Variant, ws: seq<Word>, start: nat, count: nat, depth: nat, g: Graph, first: nat)
    requires start < |ws|
    requires first == if |ws[start]| == depth then start + 1 else start
    requires first < |ws| && depth < |ws[first]|
    ensures depth < MaxLen(ws)
    ensures ProcessWords(v, ws, start, count, depth, g)
         == Scan(v, ws, first + 1, start + count, depth, ws[first][depth], NoRun, EnsureNode(g, ws[first][depth]))
  {
  }

  /** Without a first word holding a character at `depth` (an empty range
      included), charAt throws. */
  lemma ProcessWordsBadStart(v: Variant, ws: seq<Word>, start: nat, count: nat, depth: nat, g: Graph, first: nat)
    requires start < |ws| ==> first == if |ws[start]| == depth then start + 1 else start
    requires !(start < |ws| && first < |ws| && depth < |ws[first]|)
    ensures ProcessWords(v, ws, start, count, depth, g) == Fail(IndexOutOfBounds)
  {
  }

  /** When the loop is over, only the open run remains to be closed. */
  lemma ScanExit(v: Variant, ws: seq<Word>, wi: nat, end: nat, depth: nat, prev: char, run: Run, g: Graph)
    requires depth < MaxLen(ws) && prev in g && 0 < wi && (run.RunFrom? ==> run.start < wi)
    requires wi >= end
    ensures Scan(v, ws, wi, end, depth, prev, run, g) == CloseRun(v, ws, run, TrailingEnd(v, wi), depth, g)
  {
  }

  /** One loop step on a word with the previous word's character. */
  lemma ScanSameChar(v: Variant, ws: seq<Word>, wi: nat, end: nat, depth: nat, prev: char, run: Run, g: Graph)
    requires depth < MaxLen(ws) && prev in g && 0 < wi && (run.RunFrom? ==> run.start < wi)
    requires wi < end && wi < |ws| && depth < |ws[wi]| && ws[wi][depth] == prev
    ensures Scan(v, ws, wi, end, depth, prev, run, g)
         == Scan(v, ws, wi + 1, end, depth, prev, if run.RunFrom? then run else RunFrom(wi - 1), g)
  {
  }

  /** One loop step on a word with a new character: the open run is closed
      first, then the new character becomes a node and the successor of
      `prev`. */
  lemma ScanNewChar(v: Variant, ws: seq<Word>, wi: nat, end: nat, depth: nat, prev: char, run: Run, g: Graph)
    requires depth < MaxLen(ws) && prev in g && 0 < wi && (run.RunFrom? ==> run.start < wi)
    requires wi < end && wi < |ws| && depth < |ws[wi]| && ws[wi][depth] != prev
    ensures var g1 := CloseRun(v, ws, run, wi, depth, g);
            && (g1.Fail? ==> Scan(v, ws, wi, end, depth, prev, run, g).Fail?)
            && (g1.Ok? ==>
                  && prev in g1.value
                  && Scan(v, ws, wi, end, depth, prev, run, g)
                     == Scan(v, ws, wi + 1, end, depth, ws[wi][depth], NoRun, AddEdge(EnsureNode(g1.value, ws[wi][depth]), prev, ws[wi][depth])))
  {
  }

  /** A word without a character at the current depth inside the loop makes
      charAt throw. */
  lemma ScanBadChar(v: Variant, ws: seq<Word>, wi: nat, end: nat, depth: nat, prev: char, run: Run, g: Graph)
    requires depth < MaxLen(ws) && prev in g && 0 < wi && (run.RunFrom? ==> run.start < wi)
    requires wi < end && !(wi < |ws| && depth < |ws[wi]|)
    ensures Scan(v, ws, wi, end, depth, prev, run, g) == Fail(IndexOutOfBounds)
  {
  }

  /** The graph built for a whole word list (getAlphabet's call
      processWords(0, words.size(), 0) on an empty map). Its only possible
      failure is a read out of range; the range asserts never fail. */
  function Extract(v: Variant, ws: seq<Word>): (r: Result<Graph>)
    ensures r.Fail? ==> r.error == IndexOutOfBounds
  {
    ProcessWords(v, ws, 0, |ws|, 0, map[])
  }
}
