/**
  Answering a query against a built graph (search.rs), with the exact scan it falls back
  to.  An answer is the list of rows offered to the collector, in order.
*/
module Search {
  import opened Prelude
  import opened Ranking
  import opened SearchLayer
  import opened GraphSpec
  import B = GraphBuild
  import I = GraphInvariant
  import Beam

  datatype Offer = Offer(row: nat, score: real)

  datatype Error = Cancelled | Fetch

  /**
    One query.  `admit` is the liveness test and the filter together; `None` is a failed
    metadata read.  `source` lists the rows in the source's own order.
  */
  datatype Query = Query(
    vector: Vector,
    topK: nat,
    metric: Metric,
    source: seq<Row>,
    admit: nat -> Option<bool>,
    filtered: bool,
    efSearch: Option<nat>)

  predicate Admits(q: Query, row: nat) {
    q.admit(row) == Some(true)
  }

  function OfferOf(env: Env, q: Query, row: Row): Offer {
    Offer(row.id, env.kernel(q.metric, q.vector, row.vector, row.invNorm))
  }

  /** Every admissible row of `rows`, scored. */
  function Scan(env: Env, q: Query, rows: seq<Row>): seq<Offer> {
    if rows == [] then []
    else
      (if Admits(q, rows[0].id) then [OfferOf(env, q, rows[0])] else []) + Scan(env, q, rows[1..])
  }

  /** The graph cannot answer this query, so the scan must. */
  predicate Unusable(g: Graph, q: Query) {
    |g.rows| != |q.source| || |g.rows| == 0 || g.metric != Some(q.metric)
    || g.dimension != |q.vector| || g.entry == None
  }

  /** At least `topK` wide; four times as wide under a filter, up to the whole graph. */
  function Width(env: Env, g: Graph, q: Query): nat {
    var ef := Max(if q.efSearch.Some? then q.efSearch.value else env.params.efSearch, q.topK);
    if q.filtered then Min(ef * 4, Max(|g.rows|, 1)) else ef
  }

  function Beamed(env: Env, g: Graph, q: Query): seq<Candidate>
    requires AllInRange(g) && g.entry.Some?
  {
    var score := ScoreBy(env, q.metric, g.rows, q.vector);
    var start := Descend(g, score, g.entry.value, |g.layers| - 1, 0);
    Beam.Search(View(g, 0, score), [start], Width(env, g, q))
  }

  /** The candidate is a node of the graph that the query admits. */
  predicate Kept(g: Graph, q: Query, c: Candidate) {
    c.node < |g.rows| && Admits(q, g.rows[c.node].id)
  }

  function AdmitFound(g: Graph, q: Query, found: seq<Candidate>): seq<Offer> {
    if found == [] then []
    else
      var c := found[0];
      (if Kept(g, q, c) then [Offer(g.rows[c.node].id, c.score)] else [])
      + AdmitFound(g, q, found[1..])
  }

  /** The rows a search offers. */
  function Answer(env: Env, g: Graph, q: Query): seq<Offer>
    requires AllInRange(g)
  {
    if q.topK == 0 then []
    else if Unusable(g, q) then Scan(env, q, q.source)
    else
      var found := Beamed(env, g, q);
      var admitted := AdmitFound(g, q, found);
      if |admitted| < q.topK && |found| < |g.rows| then Scan(env, q, q.source) else admitted
  }

  // ----- What the answer guarantees -----

  ghost predicate SameRows(g: Graph, q: Query) {
    |g.rows| == |q.source| && forall i :: 0 <= i < |g.rows| ==> g.rows[i].id == q.source[i].id
  }

  ghost predicate Ids(rows: seq<Row>) {
    forall i, j :: 0 <= i < j < |rows| ==> rows[i].id != rows[j].id
  }

  /** Rows the query may return. */
  ghost function Admissible(q: Query, rows: seq<Row>): set<nat> {
    set i | 0 <= i < |rows| && Admits(q, rows[i].id) :: rows[i].id
  }

  ghost function Offered(out: seq<Offer>): set<nat> {
    set o | o in out :: o.row
  }

  ghost predicate OnceEach(out: seq<Offer>) {
    forall i, j :: 0 <= i < j < |out| ==> out[i].row != out[j].row
  }

  lemma {:induction false} OnceEachCount(out: seq<Offer>)
    requires OnceEach(out)
    ensures |Offered(out)| == |out|
  {
    if out != [] {
      var last := |out| - 1;
      OnceEachCount(out[..last]);
      assert Offered(out) == Offered(out[..last]) + {out[last].row};
      assert out[last].row !in Offered(out[..last]);
    }
  }

  /** Every offer of a scan is a row of the source under its own score. */
  lemma {:induction false} ScanScores(env: Env, q: Query, rows: seq<Row>, o: Offer)
    requires o in Scan(env, q, rows)
    ensures exists i :: 0 <= i < |rows| && Admits(q, rows[i].id) && o == OfferOf(env, q, rows[i])
  {
    if o in Scan(env, q, rows[1..]) {
      ScanScores(env, q, rows[1..], o);
      var i :| 0 <= i < |rows[1..]| && Admits(q, rows[1..][i].id) && o == OfferOf(env, q, rows[1..][i]);
      assert rows[i + 1] == rows[1..][i];
    }
  }

  /** The scan offers exactly the admissible rows, each once and under its own score. */
  lemma ScanExact(env: Env, q: Query, rows: seq<Row>)
    requires Ids(rows)
    ensures OnceEach(Scan(env, q, rows)) && Offered(Scan(env, q, rows)) == Admissible(q, rows)
    ensures forall o :: o in Scan(env, q, rows) ==> exists i :: 0 <= i < |rows| && o == OfferOf(env, q, rows[i])
  {
    ScanOffers(env, q, rows);
    forall o | o in Scan(env, q, rows) ensures exists i :: 0 <= i < |rows| && o == OfferOf(env, q, rows[i]) {
      ScanScores(env, q, rows, o);
    }
  }

  lemma {:induction false} ScanOffers(env: Env, q: Query, rows: seq<Row>)
    requires Ids(rows)
    ensures OnceEach(Scan(env, q, rows)) && Offered(Scan(env, q, rows)) == Admissible(q, rows)
  {
    if rows == [] {
      return;
    }
    ScanOffers(env, q, rows[1..]);
    var rest := Scan(env, q, rows[1..]);
    var out := Scan(env, q, rows);
    assert Admissible(q, rows) == (if Admits(q, rows[0].id) then {rows[0].id} else {}) + Admissible(q, rows[1..]) by {
      forall x | x in Admissible(q, rows) ensures x in (if Admits(q, rows[0].id) then {rows[0].id} else {}) + Admissible(q, rows[1..]) {
        var i :| 0 <= i < |rows| && Admits(q, rows[i].id) && rows[i].id == x;
        if i > 0 { assert rows[1..][i - 1] == rows[i]; }
      }
    }
    if Admits(q, rows[0].id) {
      assert out == [OfferOf(env, q, rows[0])] + rest;
      assert Offered(out) == {rows[0].id} + Offered(rest);
      assert rows[0].id !in Admissible(q, rows[1..]);
      forall j | 0 <= j < |rest| ensures rest[j].row != rows[0].id {
        assert rest[j].row in Offered(rest);
      }
    } else {
      assert out == rest;
    }
  }

  lemma AdmitCons(g: Graph, q: Query, found: seq<Candidate>)
    requires found != []
    ensures AdmitFound(g, q, found)
         == (if Kept(g, q, found[0]) then [Offer(g.rows[found[0].node].id, found[0].score)] else []) + AdmitFound(g, q, found[1..])
  {
  }

  lemma OfferedCons(o: Offer, out: seq<Offer>)
    ensures Offered([o] + out) == {o.row} + Offered(out) && [] + out == out
  {
  }

  lemma {:induction false} AdmitFoundRows(g: Graph, q: Query, found: seq<Candidate>, x: nat)
    ensures x in Offered(AdmitFound(g, q, found)) <==> exists c :: c in found && Kept(g, q, c) && g.rows[c.node].id == x
  {
    if found != [] {
      AdmitCons(g, q, found);
      hide AdmitFound, Kept;
      var c, rest := found[0], AdmitFound(g, q, found[1..]);
      AdmitFoundRows(g, q, found[1..], x);
      assert forall d :: d in found <==> d == c || d in found[1..];
      OfferedCons(if Kept(g, q, c) && c.node < |g.rows| then Offer(g.rows[c.node].id, c.score) else Offer(0, 0.0), rest);
      assert Kept(g, q, c) ==> c.node < |g.rows| by { KeptInRange(g, q, c); }
    }
  }

  lemma KeptInRange(g: Graph, q: Query, c: Candidate)
    ensures Kept(g, q, c) ==> c.node < |g.rows|
  {
  }

  lemma {:induction false} AdmitFoundOnce(g: Graph, q: Query, found: seq<Candidate>)
    requires Ids(g.rows) && Distinct(Nodes(found))
    ensures OnceEach(AdmitFound(g, q, found))
  {
    if found != [] {
      var c, rest := found[0], AdmitFound(g, q, found[1..]);
      assert Nodes(found)[1..] == Nodes(found[1..]);
      AdmitFoundOnce(g, q, found[1..]);
      AdmitCons(g, q, found);
      hide AdmitFound;
      if Kept(g, q, c) {
        forall j | 0 <= j < |rest| ensures rest[j].row != g.rows[c.node].id {
          assert rest[j].row in Offered(rest);
          AdmitFoundRows(g, q, found[1..], rest[j].row);
          var d :| d in found[1..] && Kept(g, q, d) && g.rows[d.node].id == rest[j].row;
          var k :| 0 <= k < |found[1..]| && found[1..][k] == d;
          assert Nodes(found)[0] == c.node && Nodes(found)[k + 1] == d.node;
        }
      }
    }
  }

  /** What the beam found and the query admits: each once, and only admissible rows. */
  lemma AdmitFoundSound(g: Graph, q: Query, found: seq<Candidate>)
    requires Ids(g.rows) && Distinct(Nodes(found))
    ensures var out := AdmitFound(g, q, found);
      && OnceEach(out)
      && (forall x :: x in Offered(out) <==> exists c :: c in found && Kept(g, q, c) && g.rows[c.node].id == x)
  {
    hide AdmitFound;
    AdmitFoundOnce(g, q, found);
    forall x: nat
      ensures x in Offered(AdmitFound(g, q, found)) <==> exists c :: c in found && Kept(g, q, c) && g.rows[c.node].id == x
    {
      AdmitFoundRows(g, q, found, x);
    }
  }

  lemma GenuineNodes(L: Beam.Layer, entries: seq<nat>, found: seq<Candidate>)
    requires Beam.Genuine(L, entries, found)
    ensures Distinct(Nodes(found)) && forall n :: n in Nodes(found) ==> n < L.size
  {
    forall i, j | 0 <= i < j < |found|
      ensures Nodes(found)[i] != Nodes(found)[j]
    {
      assert found[i] in found && found[j] in found && Better(found[i], found[j]);
    }
    forall n | n in Nodes(found)
      ensures n < L.size
    {
      var i :| 0 <= i < |found| && Nodes(found)[i] == n;
      assert found[i] in found;
    }
  }

  ghost function Below(n: nat): (s: set<nat>)
    ensures |s| == n && forall x: nat :: x in s <==> x < n
  {
    if n == 0 then {} else Below(n - 1) + {n - 1}
  }

  /** Distinct numbers below `n`, as many as `n`, are all of them. */
  lemma Pigeonhole(ns: seq<nat>, n: nat)
    requires Distinct(ns) && |ns| >= n && forall x :: x in ns ==> x < n
    ensures forall x: nat :: x < n ==> x in ns
  {
    DistinctExactly(ns);
    var s, all := Members(ns), Below(n);
    assert all - (all - s) == s;
    forall x: nat | x < n
      ensures x in ns
    {
      assert x in all - s ==> |all - s| > 0;
    }
  }

  /** The beam either supplies enough admitted rows or has covered the whole graph. */
  lemma BeamedCovers(env: Env, g: Graph, q: Query)
    requires AllInRange(g) && Ids(g.rows) && !Unusable(g, q)
    ensures var found := Beamed(env, g, q); var out := AdmitFound(g, q, found);
      && OnceEach(out) && Offered(out) <= Admissible(q, g.rows)
      && (|found| >= |g.rows| ==> Offered(out) == Admissible(q, g.rows))
  {
    var score := ScoreBy(env, q.metric, g.rows, q.vector);
    var L := View(g, 0, score);
    var start := Descend(g, score, g.entry.value, |g.layers| - 1, 0);
    Beam.BeamGuarantee(L, [start], Width(env, g, q));
    var found := Beamed(env, g, q);
    GenuineNodes(L, [start], found);
    AdmitFoundSound(g, q, found);
    if |found| >= |g.rows| {
      Pigeonhole(Nodes(found), |g.rows|);
      forall x | x in Admissible(q, g.rows)
        ensures x in Offered(AdmitFound(g, q, found))
      {
        var i :| 0 <= i < |g.rows| && Admits(q, g.rows[i].id) && g.rows[i].id == x;
        assert i in Nodes(found);
        var k :| 0 <= k < |found| && Nodes(found)[k] == i;
        assert found[k] in found;
      }
    }
  }

  /**
    When the graph covers a different number of rows than the source, or exactly the same
    rows, a search offers only admissible rows of the source, each once, and at least
    `topK` of them or else every one, however fragmented the graph is.
  */
  lemma NeverTooFew(env: Env, g: Graph, q: Query)
    requires AllInRange(g) && Ids(g.rows) && Ids(q.source)
    requires |g.rows| == |q.source| ==> SameRows(g, q)
    ensures var out := Answer(env, g, q);
      && OnceEach(out)
      && Offered(out) <= Admissible(q, q.source)
      && |out| >= Min(q.topK, |Admissible(q, q.source)|)
      && (|out| < q.topK ==> Offered(out) == Admissible(q, q.source))
  {
    ScanExact(env, q, q.source);
    OnceEachCount(Scan(env, q, q.source));
    if q.topK != 0 && !Unusable(g, q) {
      assert Admissible(q, g.rows) == Admissible(q, q.source) by {
        assert forall i :: 0 <= i < |g.rows| ==> g.rows[i].id == q.source[i].id;
      }
      BeamedCovers(env, g, q);
      OnceEachCount(AdmitFound(g, q, Beamed(env, g, q)));
    }
  }

  // ----- Counting rows is not enough -----

  /** A graph over one row, for a source that has since come to hold a different one. */
  lemma SingleNode(env: Env, g: Graph, q: Query)
    requires AllInRange(g) && |g.rows| == 1 && g.entry == Some(0) && !Unusable(g, q)
    requires q.topK == 1 && !q.filtered && Admits(q, g.rows[0].id)
    ensures Answer(env, g, q) != [] && Answer(env, g, q)[0].row == g.rows[0].id
  {
    var score := ScoreBy(env, q.metric, g.rows, q.vector);
    var L := View(g, 0, score);
    DescendInRange(g, score, 0, |g.layers| - 1, 0);
    var start := Descend(g, score, 0, |g.layers| - 1, 0);
    Beam.BeamGuarantee(L, [start], Width(env, g, q));
    var found := Beamed(env, g, q);
    assert Beam.Covered(L, found, start);
    assert found[0] in found;
    GenuineNodes(L, [start], found);
    assert Nodes(found)[0] in Nodes(found);
    assert AdmitFound(g, q, found)[0] == Offer(g.rows[0].id, found[0].score);
  }

  lemma {:induction false} DescendInRange(g: Graph, score: nat -> real, current: nat, top: int, bottom: int)
    requires AllInRange(g) && current < |g.rows| && bottom >= -1
    ensures Descend(g, score, current, top, bottom) < |g.rows|
    decreases top - bottom
  {
    if top > bottom {
      ViewInRange(g, top, score);
      ClimbToLocalMaximum(View(g, top, score), current);
      DescendInRange(g, score, Climb(View(g, top, score), current), top - 1, bottom);
    }
  }

  /**
    The row count is all that is compared before the graph is used: with as many rows but
    not the same ones, a search can offer a row the source does not hold.
  */
  lemma EqualCountIsNotEnough(env: Env)
    ensures exists g: Graph, q: Query ::
      && AllInRange(g) && Ids(g.rows) && Ids(q.source) && |g.rows| == |q.source|
      && exists o :: o in Answer(env, g, q) && forall i :: 0 <= i < |q.source| ==> q.source[i].id != o.row
  {
    var g := I.Build(env, Dot, 0, [Row(3, [], 0.0)]);
    var q := Query([], 1, Dot, [Row(7, [], 0.0)], (_: nat) => Some(true), false, None);
    I.LayersInRange(env, g);
    SingleNode(env, g, q);
    assert Answer(env, g, q)[0] in Answer(env, g, q);
  }

  /** Some row of the source has this id. */
  ghost predicate Holds(source: seq<Row>, id: nat) {
    exists i :: 0 <= i < |source| && source[i].id == id
  }

  /** Every query over `source` is offered rows of `source` only. */
  ghost predicate Trustworthy(env: Env, g: Graph, source: seq<Row>)
    requires AllInRange(g)
  {
    forall q: Query, o :: q.source == source && o in Answer(env, g, q) ==> Holds(source, o.row)
  }

  /** A query can be answered from the graph at all. */
  ghost predicate Usable(g: Graph) {
    g.rows != [] && g.metric.Some? && g.entry.Some?
  }

  /** Node `x` can be reached on the bottom layer from where the descent for `vector` lands. */
  ghost predicate Landed(env: Env, g: Graph, vector: Vector, x: nat)
    requires AllInRange(g) && Usable(g)
  {
    var score := ScoreBy(env, g.metric.value, g.rows, vector);
    Beam.Reachable(View(g, 0, score), [Descend(g, score, g.entry.value, |g.layers| - 1, 0)], x)
  }

  /** Nothing a search can come to is a row the source no longer has. */
  ghost predicate NothingStale(env: Env, g: Graph, source: seq<Row>)
    requires AllInRange(g) && Usable(g)
  {
    forall vector: Vector, x: nat ::
      |vector| == g.dimension && x < |g.rows| && Landed(env, g, vector, x) ==> Holds(source, g.rows[x].id)
  }

  /** At most as many candidates as nodes. */
  lemma FoundFits(L: Beam.Layer, entries: seq<nat>, found: seq<Candidate>)
    requires Beam.Genuine(L, entries, found)
    ensures |found| <= L.size
  {
    GenuineNodes(L, entries, found);
    DistinctExactly(Nodes(found));
    assert Members(Nodes(found)) <= Below(L.size);
    SubsetCount(Members(Nodes(found)), Below(L.size));
  }

  /** A query wide enough to see everything it can come to, and admitting one row only, is offered that row. */
  lemma StaleIsOffered(env: Env, g: Graph, source: seq<Row>, vector: Vector, x: nat) returns (q: Query, o: Offer)
    requires AllInRange(g) && Usable(g) && Ids(g.rows) && |g.rows| == |source|
    requires |vector| == g.dimension && x < |g.rows| && Landed(env, g, vector, x)
    ensures q.source == source && o in Answer(env, g, q) && o.row == g.rows[x].id
  {
    var id := g.rows[x].id;
    var ef := |g.rows| + 1;
    q := Query(vector, 1, g.metric.value, source, (r: nat) => Some(r == id), false, Some(ef));
    var score := ScoreBy(env, q.metric, g.rows, q.vector);
    var L := View(g, 0, score);
    var start := Descend(g, score, g.entry.value, |g.layers| - 1, 0);
    Beam.BeamGuarantee(L, [start], ef);
    var found := Beamed(env, g, q);
    FoundFits(L, [start], found);
    assert Beam.Scored(L, x) in found;
    GenuineNodes(L, [start], found);
    AdmitFoundSound(g, q, found);
    var out := AdmitFound(g, q, found);
    assert id in Offered(out);
    o :| o in out && o.row == id;
  }

  lemma AnswerHolds(env: Env, g: Graph, q: Query, o: Offer)
    requires AllInRange(g) && Ids(g.rows) && o in Answer(env, g, q)
    requires Usable(g) ==> NothingStale(env, g, q.source)
    ensures Holds(q.source, o.row)
  {
    if o in Scan(env, q, q.source) {
      ScanScores(env, q, q.source, o);
    } else {
      var score := ScoreBy(env, q.metric, g.rows, q.vector);
      var L := View(g, 0, score);
      var start := Descend(g, score, g.entry.value, |g.layers| - 1, 0);
      Beam.BeamGuarantee(L, [start], Width(env, g, q));
      var found := Beamed(env, g, q);
      GenuineNodes(L, [start], found);
      AdmitFoundSound(g, q, found);
      assert o.row in Offered(AdmitFound(g, q, found));
      var c :| c in found && Kept(g, q, c) && g.rows[c.node].id == o.row;
      assert Landed(env, g, q.vector, c.node);
    }
  }

  /**
    The exact condition.  With as many rows in the graph as in the source, every query is
    offered rows of the source only, if and only if no node that a search can come to on the
    bottom layer is a row the source does not have.
  */
  lemma OnlySourceRowsExactly(env: Env, g: Graph, source: seq<Row>)
    requires AllInRange(g) && Ids(g.rows) && |g.rows| == |source|
    ensures Trustworthy(env, g, source) <==> (Usable(g) ==> NothingStale(env, g, source))
  {
    hide Answer, Landed, Holds;
    if Usable(g) ==> NothingStale(env, g, source) {
      forall q: Query, o | q.source == source && o in Answer(env, g, q) ensures Holds(source, o.row) {
        AnswerHolds(env, g, q, o);
      }
    } else {
      var vector: Vector, x: nat :|
        |vector| == g.dimension && x < |g.rows| && Landed(env, g, vector, x) && !Holds(source, g.rows[x].id);
      var q, o := StaleIsOffered(env, g, source, vector, x);
    }
  }

  // ----- The imperative search -----

  /** A scan ceiling, charged as candidates are examined. */
  class Budget {
    var scanned: nat
    const max: Option<nat>

    constructor (max: Option<nat>)
      ensures scanned == 0 && this.max == max
    {
      scanned, this.max := 0, max;
    }

    method Charge(n: nat) returns (ok: bool)
      modifies this
      ensures scanned == old(scanned) + n
      ensures ok <==> max == None || scanned <= max.value
    {
      scanned := scanned + n;
      ok := max == None || scanned <= max.value;
    }
  }

  /** The collector, reduced to what it has been offered. */
  class Collector {
    var offers: seq<Offer>
    constructor ()
      ensures offers == []
    {
      offers := [];
    }
  }

  /** More has been scanned than the ceiling allows. */
  ghost predicate Exceeded(max: Option<nat>, scanned: nat) {
    max.Some? && scanned > max.value
  }

  /** The metadata of each of these rows can be read. */
  ghost predicate Readable(q: Query, rows: seq<Row>) {
    forall i :: 0 <= i < |rows| ==> q.admit(rows[i].id).Some?
  }

  /** How many scores a climb computes: one for every neighbour of every node it stands on. */
  function ClimbCost(L: Beam.Layer, current: nat): nat
    requires InRange(L)
    decreases Above(L, current)
  {
    var ns := Beam.Neighbours(L, current);
    var next := Sweep(L.score, ns, current);
    if next == current then |ns|
    else
      assert next in Above(L, current) && next !in Above(L, next);
      assert Above(L, next) < Above(L, current);
      |ns| + ClimbCost(L, next)
  }

  function DescentCost(g: Graph, score: nat -> real, current: nat, top: int): nat
    requires AllInRange(g)
    decreases top
  {
    if top <= 0 then 0
    else
      ViewInRange(g, top, score);
      var L := View(g, top, score);
      ClimbCost(L, current) + DescentCost(g, score, Climb(L, current), top - 1)
  }

  /** What a search over the graph is charged: the scores of the descent and the nodes found. */
  function GraphCost(env: Env, g: Graph, q: Query): nat
    requires AllInRange(g) && g.entry.Some?
  {
    DescentCost(g, ScoreBy(env, q.metric, g.rows, q.vector), g.entry.value, |g.layers| - 1) + |Beamed(env, g, q)|
  }

  ghost predicate FoundReadable(g: Graph, q: Query, found: seq<Candidate>) {
    forall i :: 0 <= i < |found| && found[i].node < |g.rows| ==> q.admit(g.rows[found[i].node].id).Some?
  }

  /** Scanning from `scanned` on comes to an end. */
  ghost predicate ScanCompletes(env: Env, q: Query, max: Option<nat>, scanned: nat) {
    Readable(q, q.source) && !Exceeded(max, scanned + |Scan(env, q, q.source)|)
  }

  /** Every row the search looks at can be read, and all it is charged fits the ceiling. */
  ghost predicate Completes(env: Env, g: Graph, q: Query, max: Option<nat>, scanned: nat)
    requires AllInRange(g)
  {
    if Unusable(g, q) then ScanCompletes(env, q, max, scanned)
    else
      var found := Beamed(env, g, q);
      && !Exceeded(max, scanned + GraphCost(env, g, q)) && FoundReadable(g, q, found)
      && (|AdmitFound(g, q, found)| < q.topK && |found| < |g.rows| ==>
          ScanCompletes(env, q, max, scanned + GraphCost(env, g, q)))
  }

  const SCAN_STRIDE: nat := 1024
  const GRAPH_STRIDE: nat := 256

  /** Score every admissible row; fails exactly on an unreadable row or a ceiling below the number scored. */
  method ExactScan(env: Env, q: Query, budget: Budget, out: Collector) returns (r: Result<(), Error>)
    modifies budget, out
    ensures r.Ok? && q.topK > 0 ==> out.offers == old(out.offers) + Scan(env, q, q.source)
    ensures q.topK == 0 ==> r.Ok? && out.offers == old(out.offers) && budget.scanned == old(budget.scanned)
    ensures q.topK > 0 ==> (r.Ok? <==> ScanCompletes(env, q, budget.max, old(budget.scanned)))
    ensures r == Err(Fetch) ==> !Readable(q, q.source)
    ensures r == Err(Cancelled) ==> Exceeded(budget.max, budget.scanned)
  {
    if q.topK == 0 {
      return Ok(());
    }
    var sinceCheck := 0;
    ghost var all := Scan(env, q, q.source);
    assert q.source[0..] == q.source;
    for i := 0 to |q.source|
      invariant out.offers + Scan(env, q, q.source[i..]) == old(out.offers) + all
      invariant budget.scanned + sinceCheck + |Scan(env, q, q.source[i..])| == old(budget.scanned) + |all|
      invariant forall j :: 0 <= j < i ==> q.admit(q.source[j].id).Some?
    {
      var row := q.source[i];
      assert q.source[i..][0] == row && q.source[i..][1..] == q.source[i + 1..];
      match q.admit(row.id)
      case None => return Err(Fetch);
      case Some(false) =>
        assert Scan(env, q, q.source[i..]) == Scan(env, q, q.source[i + 1..]);
      case Some(true) =>
        out.offers := out.offers + [OfferOf(env, q, row)];
        sinceCheck := sinceCheck + 1;
        if sinceCheck >= SCAN_STRIDE {
          var ok := budget.Charge(sinceCheck);
          if !ok {
            return Err(Cancelled);
          }
          sinceCheck := 0;
        }
    }
    var ok := budget.Charge(sinceCheck);
    r := if ok then Ok(()) else Err(Cancelled);
  }

  /** Greedy descent to the bottom layer, charging what it scores. */
  method DescendCharged(g: Graph, score: nat -> real, entry: nat, budget: Budget)
    returns (current: nat, charged: nat, ok: bool)
    requires AllInRange(g)
    modifies budget
    ensures ok ==> current == Descend(g, score, entry, |g.layers| - 1, 0)
    ensures var total := old(budget.scanned) + DescentCost(g, score, entry, |g.layers| - 1);
      if ok then budget.scanned + charged == total else Exceeded(budget.max, budget.scanned) && budget.scanned <= total
  {
    current, charged, ok := entry, 0, true;
    var layer := |g.layers| - 1;
    ghost var total := budget.scanned + DescentCost(g, score, entry, layer);
    while layer > 0
      invariant ok && budget.scanned + charged + DescentCost(g, score, current, layer) == total
      invariant Descend(g, score, current, layer, 0) == Descend(g, score, entry, |g.layers| - 1, 0)
    {
      var L := View(g, layer, score);
      ViewInRange(g, layer, score);
      var improved := true;
      ghost var top := Climb(L, current);
      ghost var below := DescentCost(g, score, top, layer - 1);
      while improved
        invariant ok && budget.scanned + charged + (if improved then ClimbCost(L, current) else 0) + below == total
        invariant Climb(L, current) == top
        invariant !improved ==> current == top
        decreases Above(L, current), improved
      {
        ghost var from := current;
        var ns := Beam.Neighbours(L, current);
        current, improved := B.Sweep(score, ns, current);
        charged := charged + |ns|;
        if improved {
          assert current in Above(L, from) && current !in Above(L, current);
          assert Above(L, current) < Above(L, from);
        }
        if charged >= GRAPH_STRIDE {
          ok := budget.Charge(charged);
          if !ok {
            return;
          }
          charged := 0;
        }
      }
      layer := layer - 1;
    }
  }

  /** Apply liveness and the filter to what the beam found. */
  method AdmitAll(g: Graph, q: Query, found: seq<Candidate>) returns (r: Result<seq<Offer>, Error>)
    ensures r.Ok? <==> FoundReadable(g, q, found)
    ensures r.Ok? ==> r.value == AdmitFound(g, q, found)
    ensures r.Err? ==> r == Err(Fetch)
  {
    var admitted: seq<Offer> := [];
    assert found[0..] == found;
    for i := 0 to |found|
      invariant admitted + AdmitFound(g, q, found[i..]) == AdmitFound(g, q, found)
      invariant forall j :: 0 <= j < i && found[j].node < |g.rows| ==> q.admit(g.rows[found[j].node].id).Some?
    {
      var c := found[i];
      assert found[i..][0] == c && found[i..][1..] == found[i + 1..];
      ghost var rest := AdmitFound(g, q, found[i + 1..]);
      if c.node < |g.rows| {
        match q.admit(g.rows[c.node].id)
        case None => return Err(Fetch);
        case Some(true) =>
          var o := Offer(g.rows[c.node].id, c.score);
          assert admitted + ([o] + rest) == (admitted + [o]) + rest;
          admitted := admitted + [o];
        case Some(false) =>
          assert [] + rest == rest;
      } else {
        assert [] + rest == rest;
      }
    }
    r := Ok(admitted);
  }

  /** Descend to the bottom layer and search it, charging what is scored. */
  method Traverse(env: Env, g: Graph, q: Query, budget: Budget) returns (found: seq<Candidate>, ok: bool)
    requires AllInRange(g) && g.entry.Some?
    modifies budget
    ensures ok ==> found == Beamed(env, g, q) && budget.scanned == old(budget.scanned) + GraphCost(env, g, q)
    ensures ok <==> !Exceeded(budget.max, old(budget.scanned) + GraphCost(env, g, q))
    ensures !ok ==> Exceeded(budget.max, budget.scanned)
  {
    var score := ScoreBy(env, q.metric, g.rows, q.vector);
    var current, charged;
    current, charged, ok := DescendCharged(g, score, g.entry.value, budget);
    if !ok {
      return [], false;
    }
    var visited := new Visited();
    found := SearchLayer.Run(View(g, 0, score), [current], Width(env, g, q), visited);
    ok := budget.Charge(charged + |found|);
  }

  /** Run a query.  It succeeds exactly when every row it looks at can be read and what it is charged fits the ceiling. */
  method Run(env: Env, g: Graph, q: Query, budget: Budget, out: Collector) returns (r: Result<(), Error>)
    requires AllInRange(g)
    modifies budget, out
    ensures r.Ok? ==> out.offers == old(out.offers) + Answer(env, g, q)
    ensures r.Ok? <==> q.topK == 0 || Completes(env, g, q, budget.max, old(budget.scanned))
    ensures r == Err(Fetch) ==> !Readable(q, q.source) || !Readable(q, g.rows)
    ensures r == Err(Cancelled) ==> Exceeded(budget.max, budget.scanned)
    ensures budget.max.None? && Readable(q, q.source) && Readable(q, g.rows) ==> r.Ok?
  {
    if q.topK == 0 {
      return Ok(());
    }
    if Unusable(g, q) {
      r := ExactScan(env, q, budget, out);
      return;
    }
    hide Beamed, Scan, AdmitFound, GraphCost, Readable, FoundReadable;
    var found, ok := Traverse(env, g, q, budget);
    if !ok {
      return Err(Cancelled);
    }
    var admitted :- AdmitAll(g, q, found);
    if |admitted| < q.topK && |found| < |g.rows| {
      r := ExactScan(env, q, budget, out);
      return;
    }
    out.offers := out.offers + admitted;
    r := Ok(());
  }
}
