/** How a search ranks and reports rows: by the kernel, whichever path answers. */
module SearchScores {
  import opened Prelude
  import opened Ranking
  import opened GraphSpec
  import opened GraphLinks
  import opened Search
  import Beam

  /** The kernel's similarity of the row at node `n` to the query. */
  function Similarity(env: Env, q: Query, rows: seq<Row>, n: nat): real
    requires n < |rows|
  {
    env.kernel(q.metric, q.vector, rows[n].vector, rows[n].invNorm)
  }

  /** Edges do not depend on scores. */
  const FLAT: nat -> real := _ => 0.0

  /** Neighbours of a node on a layer. */
  function Edges(g: Graph, layer: nat, n: nat): seq<nat> {
    Beam.Neighbours(View(g, layer, FLAT), n)
  }

  ghost predicate Reaches(g: Graph, from: nat, x: nat) {
    Beam.Reachable(View(g, 0, FLAT), [from], x)
  }

  /** The scan answers: the graph cannot be used, or came up short without having seen everything. */
  predicate Scanned(env: Env, g: Graph, q: Query)
    requires AllInRange(g)
  {
    Unusable(g, q) || (|AdmitFound(g, q, Beamed(env, g, q))| < q.topK && |Beamed(env, g, q)| < |g.rows|)
  }

  /** The node the bottom layer is entered at. */
  function Start(env: Env, g: Graph, q: Query): nat
    requires AllInRange(g) && g.entry.Some?
  {
    Descend(g, ScoreBy(env, q.metric, g.rows, q.vector), g.entry.value, |g.layers| - 1, 0)
  }

  // ----- What the beam finds, by the kernel -----

  /** Every candidate is a node of the graph under its similarity. */
  ghost predicate Scored(env: Env, q: Query, rows: seq<Row>, found: seq<Candidate>) {
    forall c :: c in found ==> c.node < |rows| && c.score == Similarity(env, q, rows, c.node)
  }

  /** Best first; equal similarities in node order. */
  ghost predicate BestFirst(found: seq<Candidate>) {
    forall i, j :: 0 <= i < j < |found| ==>
      found[i].score > found[j].score || (found[i].score == found[j].score && found[i].node < found[j].node)
  }

  /** `y` was found, or is no more similar than the least similar found. */
  ghost predicate NoBetter(env: Env, q: Query, rows: seq<Row>, found: seq<Candidate>, y: nat) {
    y < |rows| ==>
      || (exists c :: c in found && c.node == y)
      || (found != [] && Similarity(env, q, rows, y) <= found[|found| - 1].score)
  }

  lemma CoveredIsNoBetter(env: Env, g: Graph, q: Query, found: seq<Candidate>, y: nat)
    requires var L := View(g, 0, ScoreBy(env, q.metric, g.rows, q.vector)); Beam.Covered(L, found, y)
    ensures NoBetter(env, q, g.rows, found, y)
  {
    if y < |g.rows| {
      var L := View(g, 0, ScoreBy(env, q.metric, g.rows, q.vector));
      assert Beam.Scored(L, y).node == y;
    }
  }

  /**
    On a usable graph the candidates carry the kernel's similarity, best first; every
    bottom-layer neighbour of one, and the node the layer was entered at, is found or no
    more similar than the least similar found.
  */
  lemma FoundByKernel(env: Env, g: Graph, q: Query)
    requires AllInRange(g) && !Unusable(g, q)
    ensures var found := Beamed(env, g, q);
      && Scored(env, q, g.rows, found) && BestFirst(found)
      && NoBetter(env, q, g.rows, found, Start(env, g, q))
      && forall c, y :: c in found && y in Edges(g, 0, c.node) ==> NoBetter(env, q, g.rows, found, y)
  {
    var score := ScoreBy(env, q.metric, g.rows, q.vector);
    var L := View(g, 0, score);
    var start := Start(env, g, q);
    var found := Beamed(env, g, q);
    Beam.BeamGuarantee(L, [start], Width(env, g, q));
    hide Beamed;
    forall c | c in found ensures c.node < |g.rows| && c.score == Similarity(env, q, g.rows, c.node) {
      assert c == Beam.Scored(L, c.node);
    }
    if start < |g.rows| {
      assert start in [start];
      CoveredIsNoBetter(env, g, q, found, start);
    }
    forall c, y | c in found && y in Edges(g, 0, c.node) ensures NoBetter(env, q, g.rows, found, y) {
      if y < |g.rows| {
        assert y in Beam.Neighbours(L, c.node);
        CoveredIsNoBetter(env, g, q, found, y);
      }
    }
  }

  /** Fewer candidates than asked for means every node that can be reached is among them. */
  ghost predicate Everything(env: Env, g: Graph, q: Query, found: seq<Candidate>)
    requires AllInRange(g) && g.entry.Some?
  {
    forall x :: Reaches(g, Start(env, g, q), x) ==> exists c :: c in found && c.node == x
  }

  /** Candidates a query asks the graph for: four times as many under a filter, which discards some. */
  function Wanted(env: Env, q: Query): nat {
    var asked := if q.efSearch.Some? then q.efSearch.value else env.params.efSearch;
    (if q.filtered then 4 else 1) * Max(asked, q.topK)
  }

  lemma PathsAreEdges(g: Graph, score: nat -> real, other: nat -> real, entries: seq<nat>, x: nat)
    requires Beam.Reachable(View(g, 0, score), entries, x)
    ensures Beam.Reachable(View(g, 0, other), entries, x)
  {
    var p :| Beam.IsPath(View(g, 0, score), p) && p[0] in entries && p[|p| - 1] == x;
    assert forall y :: Beam.Neighbours(View(g, 0, score), y) == Beam.Neighbours(View(g, 0, other), y);
    assert Beam.IsPath(View(g, 0, other), p);
  }

  lemma EnoughFound(env: Env, g: Graph, q: Query)
    requires AllInRange(g) && !Unusable(g, q)
    ensures var found := Beamed(env, g, q);
      |found| < Wanted(env, q) && |found| < |g.rows| ==> Everything(env, g, q, found)
  {
    var score := ScoreBy(env, q.metric, g.rows, q.vector);
    var L := View(g, 0, score);
    var found := Beamed(env, g, q);
    Beam.BeamGuarantee(L, [Start(env, g, q)], Width(env, g, q));
    if |found| < Wanted(env, q) && |found| < |g.rows| {
      assert Width(env, g, q) >= Min(Wanted(env, q), |g.rows|);
      hide Beamed;
      forall x | Reaches(g, Start(env, g, q), x) ensures exists c :: c in found && c.node == x {
        PathsAreEdges(g, FLAT, score, [Start(env, g, q)], x);
        assert Beam.Scored(L, x) in found;
      }
    }
  }

  /** The bottom layer is entered where the layer above offers nothing more similar, no worse than at the entry. */
  lemma StartByKernel(env: Env, g: Graph, q: Query)
    requires AllInRange(g) && !Unusable(g, q) && g.entry.value < |g.rows|
    ensures var s := Start(env, g, q);
      && s < |g.rows| && Similarity(env, q, g.rows, s) >= Similarity(env, q, g.rows, g.entry.value)
      && (|g.layers| > 1 ==> forall y ::
            y in Edges(g, 1, s) && y < |g.rows| ==> Similarity(env, q, g.rows, y) <= Similarity(env, q, g.rows, s))
  {
    var score := ScoreBy(env, q.metric, g.rows, q.vector);
    DescendInRange(g, score, g.entry.value, |g.layers| - 1, 0);
    DescentLands(g, score, g.entry.value, |g.layers| - 1, 0);
    if |g.layers| > 1 {
      var s := Start(env, g, q);
      forall y | y in Edges(g, 1, s) && y < |g.rows| ensures Similarity(env, q, g.rows, y) <= Similarity(env, q, g.rows, s) {
        assert y in Beam.Neighbours(View(g, 0 + 1, score), s);
        assert score(y) <= score(s);
      }
    }
  }

  // ----- What is offered -----

  /** The offer is what an admitted candidate becomes. */
  ghost predicate FromCandidate(g: Graph, q: Query, found: seq<Candidate>, o: Offer) {
    exists c :: c in found && Kept(g, q, c) && o == Offer(g.rows[c.node].id, c.score)
  }

  lemma {:induction false} AdmittedFrom(g: Graph, q: Query, found: seq<Candidate>, o: Offer)
    requires o in AdmitFound(g, q, found)
    ensures FromCandidate(g, q, found, o)
  {
    AdmitCons(g, q, found);
    hide AdmitFound;
    if o in AdmitFound(g, q, found[1..]) {
      AdmittedFrom(g, q, found[1..], o);
      var c :| c in found[1..] && Kept(g, q, c) && o == Offer(g.rows[c.node].id, c.score);
      assert c in found;
    } else {
      assert found[0] in found;
    }
  }

  lemma {:induction false} AdmittedInOrder(g: Graph, q: Query, found: seq<Candidate>)
    requires forall i, j :: 0 <= i < j < |found| ==> found[i].score >= found[j].score
    ensures var out := AdmitFound(g, q, found); forall i, j :: 0 <= i < j < |out| ==> out[i].score >= out[j].score
  {
    if found != [] {
      var rest := AdmitFound(g, q, found[1..]);
      AdmittedInOrder(g, q, found[1..]);
      AdmitCons(g, q, found);
      hide AdmitFound;
      if Kept(g, q, found[0]) {
        forall o | o in rest ensures found[0].score >= o.score {
          AdmittedFrom(g, q, found[1..], o);
          var c :| c in found[1..] && Kept(g, q, c) && o == Offer(g.rows[c.node].id, c.score);
          var k :| 0 <= k < |found[1..]| && found[1..][k] == c;
          assert found[k + 1] == c;
        }
      }
    }
  }

  lemma GraphOffers(env: Env, g: Graph, q: Query, found: seq<Candidate>)
    requires Scored(env, q, g.rows, found) && BestFirst(found)
    ensures var out := AdmitFound(g, q, found);
      && (forall o :: o in out ==> exists i :: 0 <= i < |g.rows| && Admits(q, g.rows[i].id) && o == OfferOf(env, q, g.rows[i]))
      && forall i, j :: 0 <= i < j < |out| ==> out[i].score >= out[j].score
  {
    hide AdmitFound;
    AdmittedInOrder(g, q, found);
    forall o | o in AdmitFound(g, q, found)
      ensures exists i :: 0 <= i < |g.rows| && Admits(q, g.rows[i].id) && o == OfferOf(env, q, g.rows[i])
    {
      AdmittedFrom(g, q, found, o);
      var c :| c in found && Kept(g, q, c) && o == Offer(g.rows[c.node].id, c.score);
      assert o == OfferOf(env, q, g.rows[c.node]);
    }
  }

  /** Nothing found and admissible is withheld. */
  lemma {:induction false} NothingWithheld(env: Env, g: Graph, q: Query, found: seq<Candidate>, c: Candidate)
    requires Scored(env, q, g.rows, found) && c in found && Admits(q, g.rows[c.node].id)
    ensures OfferOf(env, q, g.rows[c.node]) in AdmitFound(g, q, found)
  {
    var rest := AdmitFound(g, q, found[1..]);
    assert found == [found[0]] + found[1..];
    if c == found[0] {
      assert AdmitFound(g, q, found)[0] == OfferOf(env, q, g.rows[c.node]);
    } else {
      assert c in found[1..];
      NothingWithheld(env, g, q, found[1..], c);
    }
  }

  lemma {:induction false} ScanWithholdsNothing(env: Env, q: Query, rows: seq<Row>, i: nat)
    requires i < |rows| && Admits(q, rows[i].id)
    ensures OfferOf(env, q, rows[i]) in Scan(env, q, rows)
    decreases |rows|
  {
    if i > 0 {
      ScanWithholdsNothing(env, q, rows[1..], i - 1);
    }
  }

  /**
    The scan answers for every row of a source the graph does not fit, and nothing found is
    withheld when the graph answers.
  */
  lemma AnswersInFull(env: Env, g: Graph, q: Query)
    requires AllInRange(g) && q.topK > 0
    ensures var out := Answer(env, g, q);
      if Scanned(env, g, q) then
        forall i :: 0 <= i < |q.source| && Admits(q, q.source[i].id) ==> OfferOf(env, q, q.source[i]) in out
      else
        && g.metric == Some(q.metric) && g.dimension == |q.vector| && |g.rows| == |q.source| && g.rows != []
        && forall c :: c in Beamed(env, g, q) && Kept(g, q, c) ==> OfferOf(env, q, g.rows[c.node]) in out
  {
    hide Beamed, AdmitFound, Scan;
    if Scanned(env, g, q) {
      forall i | 0 <= i < |q.source| && Admits(q, q.source[i].id)
        ensures OfferOf(env, q, q.source[i]) in Answer(env, g, q)
      {
        ScanWithholdsNothing(env, q, q.source, i);
      }
    } else {
      FoundByKernel(env, g, q);
      var found := Beamed(env, g, q);
      forall c | c in found && Kept(g, q, c)
        ensures OfferOf(env, q, g.rows[c.node]) in Answer(env, g, q)
      {
        NothingWithheld(env, g, q, found, c);
      }
    }
  }

  /**
    Whatever answers, every offer is an admissible row under the kernel's similarity to the
    query: a row of the source when the scan answers, and otherwise a row of the graph, the
    most similar first.
  */
  lemma OffersByKernel(env: Env, g: Graph, q: Query)
    requires AllInRange(g) && q.topK > 0
    ensures var out := Answer(env, g, q);
      if Scanned(env, g, q) then
        forall o :: o in out ==> exists i :: 0 <= i < |q.source| && Admits(q, q.source[i].id) && o == OfferOf(env, q, q.source[i])
      else
        && (forall o :: o in out ==> exists i :: 0 <= i < |g.rows| && Admits(q, g.rows[i].id) && o == OfferOf(env, q, g.rows[i]))
        && forall i, j :: 0 <= i < j < |out| ==> out[i].score >= out[j].score
  {
    hide Beamed, AdmitFound, Scan;
    if Scanned(env, g, q) {
      forall o | o in Scan(env, q, q.source)
        ensures exists i :: 0 <= i < |q.source| && Admits(q, q.source[i].id) && o == OfferOf(env, q, q.source[i])
      {
        ScanScores(env, q, q.source, o);
      }
    } else {
      FoundByKernel(env, g, q);
      assert Answer(env, g, q) == AdmitFound(g, q, Beamed(env, g, q));
      GraphOffers(env, g, q, Beamed(env, g, q));
    }
  }
}
