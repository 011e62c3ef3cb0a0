/** The shape of the graph processWords builds: it only ever adds nodes and
    edges, every node it adds is a character of the word list, and every
    successor it records is also registered as a node. */
module ExtractionShape {
  import opened Outcomes
  import opened Words
  import opened Graphs
  import opened Extraction

  /** A successful result extends `g`, adds only characters of `ws` as nodes
      and keeps successors registered as nodes. */
  ghost predicate ShapeFrom(ws: seq<Word>, g: Graph, r: Result<Graph>)
  {
    r.Ok? ==>
      && Grows(g, r.value)
      && r.value.Keys <= g.Keys + Chars(ws)
      && (Closed(g) ==> Closed(r.value))
  }

  lemma ShapeTrans(ws: seq<Word>, g: Graph, h: Graph, r: Result<Graph>)
    ensures ShapeFrom(ws, g, Ok(h)) && ShapeFrom(ws, h, r) ==> ShapeFrom(ws, g, r)
  {
  }

  /** Registering a character of `ws` keeps the shape. */
  lemma NewNodeShape(ws: seq<Word>, g: Graph, i: nat, d: nat)
    requires i < |ws| && d < |ws[i]|
    ensures ShapeFrom(ws, g, Ok(EnsureNode(g, ws[i][d])))
  {
    assert ws[i][d] in Chars(ws);
    EnsureNodeEdges(g, ws[i][d]);
  }

  /** So does registering it and recording an edge to it from an existing
      node. */
  lemma NewEdgeShape(ws: seq<Word>, g: Graph, i: nat, d: nat, a: char)
    requires i < |ws| && d < |ws[i]| && a in g
    ensures ShapeFrom(ws, g, Ok(AddEdge(EnsureNode(g, ws[i][d]), a, ws[i][d])))
  {
    assert ws[i][d] in Chars(ws);
    EnsureNodeEdges(g, ws[i][d]);
    AddEdgeEdges(EnsureNode(g, ws[i][d]), a, ws[i][d]);
  }

  lemma {:induction false} ProcessWordsShape(v: Variant, ws: seq<Word>, start: nat, count: nat, depth: nat, g: Graph)
    ensures ShapeFrom(ws, g, ProcessWords(v, ws, start, count, depth, g))
    decreases MaxLen(ws) - depth, 2, 0, 0
  {
    var first := if start < |ws| && |ws[start]| == depth then start + 1 else start;
    if start < |ws| && first < |ws| && depth < |ws[first]| {
      var c := ws[first][depth];
      ProcessWordsStart(v, ws, start, count, depth, g, first);
      NewNodeShape(ws, g, first, depth);
      ScanShape(v, ws, first + 1, start + count, depth, c, NoRun, EnsureNode(g, c));
      ShapeTrans(ws, g, EnsureNode(g, c), Scan(v, ws, first + 1, start + count, depth, c, NoRun, EnsureNode(g, c)));
    } else {
      ProcessWordsBadStart(v, ws, start, count, depth, g, first);
    }
  }

  lemma {:induction false} ScanShape(v: Variant, ws: seq<Word>, wi: nat, end: nat, depth: nat, prev: char, run: Run, g: Graph)
    requires depth < MaxLen(ws) && prev in g && 0 < wi && (run.RunFrom? ==> run.start < wi)
    ensures ShapeFrom(ws, g, Scan(v, ws, wi, end, depth, prev, run, g))
    decreases MaxLen(ws) - depth, 1, if wi <= end then end - wi else 0, 1
  {
    if wi >= end {
      ScanExit(v, ws, wi, end, depth, prev, run, g);
      CloseRunShape(v, ws, run, TrailingEnd(v, wi), depth, g);
    } else if wi < |ws| && depth < |ws[wi]| {
      var c := ws[wi][depth];
      if c == prev {
        ScanSameChar(v, ws, wi, end, depth, prev, run, g);
        ScanShape(v, ws, wi + 1, end, depth, prev, if run.RunFrom? then run else RunFrom(wi - 1), g);
      } else {
        ScanNewCharShape(v, ws, wi, end, depth, prev, run, g);
      }
    } else {
      ScanBadChar(v, ws, wi, end, depth, prev, run, g);
    }
  }

  lemma {:induction false} ScanNewCharShape(v: Variant, ws: seq<Word>, wi: nat, end: nat, depth: nat, prev: char, run: Run, g: Graph)
    requires depth < MaxLen(ws) && prev in g && 0 < wi && (run.RunFrom? ==> run.start < wi)
    requires wi < end && wi < |ws| && depth < |ws[wi]| && ws[wi][depth] != prev
    ensures ShapeFrom(ws, g, Scan(v, ws, wi, end, depth, prev, run, g))
    decreases MaxLen(ws) - depth, 1, end - wi, 0
  {
    var c := ws[wi][depth];
    var g1r := CloseRun(v, ws, run, wi, depth, g);
    CloseRunShape(v, ws, run, wi, depth, g);
    ScanNewChar(v, ws, wi, end, depth, prev, run, g);
    if g1r.Ok? {
      var g1 := g1r.value;
      var h := AddEdge(EnsureNode(g1, c), prev, c);
      NewEdgeShape(ws, g1, wi, depth, prev);
      ShapeTrans(ws, g, g1, Ok(h));
      ScanShape(v, ws, wi + 1, end, depth, c, NoRun, h);
      ShapeTrans(ws, g, h, Scan(v, ws, wi + 1, end, depth, c, NoRun, h));
    }
  }

  lemma {:induction false} CloseRunShape(v: Variant, ws: seq<Word>, run: Run, upto: nat, depth: nat, g: Graph)
    requires depth < MaxLen(ws) && (run.RunFrom? ==> run.start <= upto)
    ensures ShapeFrom(ws, g, CloseRun(v, ws, run, upto, depth, g))
    decreases MaxLen(ws) - depth, 0, 0, 0
  {
    if run.RunFrom? {
      ProcessWordsShape(v, ws, run.start, upto - run.start, depth + 1, g);
    }
  }
}
