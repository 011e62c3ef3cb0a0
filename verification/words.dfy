/** Words, the characters they use, and the precedence evidence a sorted word
    list carries. */
module Words {

  type Word = seq<char>

  /** The set of distinct characters of a sequence. */
  function Elems(s: seq<char>): (E: set<char>)
  {
    set x | x in s
  }

  /** No character occurs twice. */
  predicate NoDup(s: seq<char>)
  {
    forall i, j :: 0 <= i < j < |s| ==> s[i] != s[j]
  }

  /** Lists the elements of a set, each once, in an order the caller does not
      control (the iteration order of a hash set or hash map's key set). */
  method Enumerate(S: set<char>) returns (out: seq<char>)
    ensures NoDup(out) && Elems(out) == S
  {
    out := [];
    var rest := S;
    while rest != {}
      invariant rest <= S
      invariant forall x :: x in out <==> x in S && x !in rest
      invariant NoDup(out)
      decreases |rest|
    {
      var c :| c in rest;
      out := out + [c];
      rest := rest - {c};
    }
  }

  /** Walking a sequence one element further adds that element, which is new
      when the sequence has no duplicates. */
  lemma ElemsStep(s: seq<char>, i: nat)
    requires i < |s|
    ensures Elems(s[..i + 1]) == Elems(s[..i]) + {s[i]}
    ensures NoDup(s) ==> s[i] !in Elems(s[..i])
  {
    assert s[..i + 1] == s[..i] + [s[i]];
  }

  lemma ElemsConcat(s: seq<char>, t: seq<char>)
    ensures Elems(s + t) == Elems(s) + Elems(t)
  {
    forall x | x in s + t ensures x in s || x in t {
      var k :| 0 <= k < |s + t| && (s + t)[k] == x;
      if k >= |s| {
        assert t[k - |s|] == x;
      }
    }
  }

  /** A sequence without duplicates has as many distinct characters as
      positions. */
  lemma {:induction false} NoDupCard(s: seq<char>)
    requires NoDup(s)
    ensures |Elems(s)| == |s|
  {
    if s != [] {
      var n := |s| - 1;
      assert NoDup(s[..n]);
      NoDupCard(s[..n]);
      ElemsStep(s, n);
      assert s[..n + 1] == s;
    }
  }

  /** Position of a character in a sequence (its first occurrence). */
  function IndexOf(s: seq<char>, x: char): (i: nat)
    requires x in s
    ensures i < |s| && s[i] == x
    ensures forall j :: 0 <= j < i ==> s[j] != x
  {
    if s[0] == x then 0 else 1 + IndexOf(s[1..], x)
  }

  /** Length of the longest word (0 for no words). */
  function MaxLen(ws: seq<Word>): (n: nat)
    ensures forall i :: 0 <= i < |ws| ==> |ws[i]| <= n
  {
    if ws == [] then 0
    else
      var m := MaxLen(ws[1..]);
      if |ws[0]| > m then |ws[0]| else m
  }

  /** Every character occurring anywhere in the words. */
  ghost function Chars(ws: seq<Word>): set<char>
  {
    set i, j | 0 <= i < |ws| && 0 <= j < |ws[i]| :: ws[i][j]
  }

  /** `u` and `v` agree on their first `p` characters and differ at position `p`. */
  predicate FirstDiff(u: Word, v: Word, p: nat)
  {
    p < |u| && p < |v| && u[..p] == v[..p] && u[p] != v[p]
  }

  /** The evidence of a word list: two consecutive words whose first difference
      is `a` in the earlier word against `b` in the later one say that `a`
      comes before `b`. */
  ghost predicate Precedes(ws: seq<Word>, a: char, b: char)
  {
    exists k: nat, p: nat {:trigger FirstDiff(ws[k], ws[k + 1], p)} :: k + 1 < |ws| && FirstDiff(ws[k], ws[k + 1], p) && ws[k][p] == a && ws[k + 1][p] == b
  }

  /** Every word of `ws[lo..hi]` has at least `d` characters and they all agree
      on the first `d`. */
  ghost predicate SharePrefix(ws: seq<Word>, lo: nat, hi: nat, d: nat)
    requires lo <= hi <= |ws|
  {
    lo < hi ==>
      && d <= |ws[lo]|
      && forall i :: lo <= i < hi ==> d <= |ws[i]| && ws[i][..d] == ws[lo][..d]
  }

  /** No word is a prefix of (or equal to) an earlier word. A list sorted
      strictly under any alphabet has this shape; duplicates and a word
      followed by one of its own prefixes do not. */
  ghost predicate WellFormed(ws: seq<Word>)
  {
    forall i, j :: 0 <= i < j < |ws| ==> NotPrefixOf(ws[j], ws[i])
  }

  predicate NotPrefixOf(u: Word, w: Word)
  {
    !(u <= w)
  }
}
