/** The last stage of `computeAlphabet` / `compute_alphabet`: every character
    of the words that never became a node is appended once, after the ordered
    nodes, in the iteration order of a hash set. */
module Assembly {
  import opened Words
  import opened Graphs

  /** The characters of the first `i` words and of the first `j` characters
      of word `i`. */
  ghost function CharsUpTo(ws: seq<Word>, i: nat, j: nat): set<char>
    requires i < |ws| && j <= |ws[i]|
  {
    Chars(ws[..i]) + Elems(ws[i][..j])
  }

  /** The words' characters grow one word at a time. */
  lemma CharsStep(ws: seq<Word>, i: nat)
    requires i < |ws|
    ensures Chars(ws[..i + 1]) == Chars(ws[..i]) + Elems(ws[i])
  {
    var pre, next := ws[..i], ws[..i + 1];
    forall x | x in Chars(next) ensures x in Chars(pre) + Elems(ws[i]) {
      var a, b :| 0 <= a < |next| && 0 <= b < |next[a]| && next[a][b] == x;
      if a < i {
        assert pre[a][b] == x;
      }
    }
    forall x | x in Chars(pre) + Elems(ws[i]) ensures x in Chars(next) {
      if x in Chars(pre) {
        var a, b :| 0 <= a < |pre| && 0 <= b < |pre[a]| && pre[a][b] == x;
        assert next[a][b] == x;
      } else {
        var b :| 0 <= b < |ws[i]| && ws[i][b] == x;
        assert next[i][b] == x;
      }
    }
  }

  /** The nested loops over the words and their characters: the characters
      of the words that are not nodes. */
  method Unordered(ws: seq<Word>, g: Graph) returns (u: set<char>)
    ensures u == Chars(ws) - g.Keys
  {
    u := {};
    var i := 0;
    while i < |ws|
      invariant i <= |ws|
      invariant u == Chars(ws[..i]) - g.Keys
    {
      var j := 0;
      while j < |ws[i]|
        invariant j <= |ws[i]|
        invariant u == CharsUpTo(ws, i, j) - g.Keys
      {
        var c := ws[i][j];
        if c !in g {
          u := u + {c};
        }
        ElemsStep(ws[i], j);
        j := j + 1;
      }
      assert ws[i][..j] == ws[i];
      CharsStep(ws, i);
      i := i + 1;
    }
    assert ws[..i] == ws;
  }

  /** Every edge of `g` joins two characters of `alphabet`, the first listed
      earlier. */
  ghost predicate Respects(g: Graph, alphabet: seq<char>)
  {
    forall a, b :: Edge(g, a, b) ==> a in alphabet && b in alphabet && IndexOf(alphabet, a) < IndexOf(alphabet, b)
  }

  /** A character's position in `s + t` is its position in `s` when it occurs
      there. */
  lemma {:induction false} IndexOfPrefix(s: seq<char>, t: seq<char>, x: char)
    requires x in s
    ensures IndexOf(s + t, x) == IndexOf(s, x)
    decreases |s|
  {
    if s[0] != x {
      assert (s + t)[1..] == s[1..] + t;
      IndexOfPrefix(s[1..], t, x);
    }
  }

  /** In a sequence without duplicates, `IndexOf` inverts indexing. */
  lemma IndexOfNoDup(s: seq<char>, i: nat)
    requires NoDup(s) && i < |s|
    ensures IndexOf(s, s[i]) == i
  {
  }

  /** The ordered nodes followed by the leftover characters: every character
      of the words exactly once, and the edges still respected. */
  lemma Concatenation(ws: seq<Word>, g: Graph, ordered: seq<char>, tail: seq<char>)
    requires Closed(g) && IsTopoOrder(g, ordered) && g.Keys <= Chars(ws)
    requires NoDup(tail) && Elems(tail) == Chars(ws) - g.Keys
    ensures NoDup(ordered + tail)
    ensures Elems(ordered + tail) == Chars(ws)
    ensures Respects(g, ordered + tail)
  {
    var s := ordered + tail;
    forall i, j | 0 <= i < j < |s| ensures s[i] != s[j] {
      if j < |ordered| {
        assert s[i] == ordered[i] && s[j] == ordered[j];
      } else if i >= |ordered| {
        assert s[i] == tail[i - |ordered|] && s[j] == tail[j - |ordered|];
      } else {
        assert s[i] in Elems(ordered) && s[j] == tail[j - |ordered|];
        assert s[j] in Elems(tail);
      }
    }
    ElemsConcat(ordered, tail);
    forall a, b | Edge(g, a, b) ensures a in s && b in s && IndexOf(s, a) < IndexOf(s, b) {
      assert a in Elems(ordered);
      assert b in Elems(ordered);
      var i :| 0 <= i < |ordered| && ordered[i] == a;
      var j :| 0 <= j < |ordered| && ordered[j] == b;
      IndexOfNoDup(ordered, i);
      IndexOfNoDup(ordered, j);
      IndexOfPrefix(ordered, tail, a);
      IndexOfPrefix(ordered, tail, b);
    }
  }
}
