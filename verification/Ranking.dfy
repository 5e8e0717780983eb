/**
  Candidates and the two priority queues the graph search keeps.

  A score is a `real`: every comparison the source makes on its floats is an order
  comparison, and ties are broken on the node number, so the order is total.  A
  `BinaryHeap` is represented by its contents listed best first, which is the order in
  which popping would deliver them.
*/
module Ranking {

  datatype Candidate = Candidate(score: real, node: nat)

  /** `a` ranks strictly before `b`: higher score, or equal score and lower node. */
  predicate Better(a: Candidate, b: Candidate) {
    a.score > b.score || (a.score == b.score && a.node < b.node)
  }

  /** Listed best first, without repetition. */
  ghost predicate Ranked(h: seq<Candidate>) {
    forall i, j :: 0 <= i < j < |h| ==> Better(h[i], h[j])
  }

  /** Push onto a heap. */
  function Push(h: seq<Candidate>, c: Candidate): (r: seq<Candidate>)
    ensures |r| == |h| + 1
    ensures forall x :: x in r <==> x == c || x in h
  {
    if h == [] || Better(c, h[0]) then
      [c] + h
    else
      [h[0]] + Push(h[1..], c)
  }

  function Last(h: seq<Candidate>): Candidate
    requires h != []
  {
    h[|h| - 1]
  }

  lemma {:induction false} PushRanked(h: seq<Candidate>, c: Candidate)
    requires Ranked(h) && c !in h
    ensures Ranked(Push(h, c))
  {
    if h == [] || Better(c, h[0]) {
    } else {
      PushRanked(h[1..], c);
      var r := Push(h[1..], c);
      forall j | 0 <= j < |r|
        ensures Better(h[0], r[j])
      {
        assert r[j] in r;
      }
    }
  }

  /** Sorting candidates best first, as `sort_by(|a, b| b.cmp(a))` does. */
  function SortBest(s: seq<Candidate>): (r: seq<Candidate>)
    ensures |r| == |s|
    ensures forall x :: x in r <==> x in s
  {
    if s == [] then []
    else
      Push(SortBest(s[..|s| - 1]), s[|s| - 1])
  }

  lemma {:induction false} SortBestRanked(s: seq<Candidate>)
    requires forall i, j :: 0 <= i < j < |s| ==> s[i] != s[j]
    ensures Ranked(SortBest(s))
  {
    if s != [] {
      SortBestRanked(s[..|s| - 1]);
      PushRanked(SortBest(s[..|s| - 1]), s[|s| - 1]);
    }
  }

  /** Everything but the last stays ranked and loses exactly the worst. */
  lemma DropWorst(h: seq<Candidate>)
    requires Ranked(h) && h != []
    ensures Ranked(h[..|h| - 1])
    ensures forall x :: x in h[..|h| - 1] <==> x in h && x != Last(h)
  {
    var d := h[..|h| - 1];
    forall x | x in h && x != Last(h)
      ensures x in d
    {
      var i :| 0 <= i < |h| && h[i] == x;
      assert d[i] == x;
    }
    forall x | x in d
      ensures x in h && x != Last(h)
    {
      var i :| 0 <= i < |d| && d[i] == x;
      assert Better(h[i], h[|h| - 1]);
    }
  }

  lemma WorstIsWorst(h: seq<Candidate>, c: Candidate)
    requires Ranked(h) && c in h
    ensures c == Last(h) || Better(c, Last(h))
    ensures c.score >= Last(h).score
  {
    var i :| 0 <= i < |h| && h[i] == c;
  }

  lemma BestIsBest(h: seq<Candidate>, c: Candidate)
    requires Ranked(h) && c in h
    ensures c.score <= h[0].score
  {
    var i :| 0 <= i < |h| && h[i] == c;
  }
}
