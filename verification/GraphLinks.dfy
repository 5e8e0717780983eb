/**
  What an insertion connects (build.rs, `insert`): on every layer the new node shares with
  the entry point it is linked, both ways, to the nearest of what the beam finds there.
*/
module GraphLinks {
  import opened Prelude
  import opened Ranking
  import opened GraphSpec
  import opened Selection
  import opened GraphInvariant
  import Beam

  // ----- Scores and degrees, in the index's own terms -----

  /** `score` is the kernel's similarity of each row to `query`. */
  ghost predicate ByKernel(env: Env, metric: Metric, rows: seq<Row>, query: Vector, score: nat -> real) {
    forall n: nat :: n < |rows| ==> score(n) == env.kernel(metric, query, rows[n].vector, rows[n].invNorm)
  }

  lemma ScoresByKernel(env: Env, metric: Metric, rows: seq<Row>, query: Vector)
    ensures ByKernel(env, metric, rows, query, ScoreBy(env, metric, rows, query))
  {
  }

  /** Twice `m` neighbours on the bottom layer, `m` above. */
  function Most(env: Env, layer: nat): nat {
    if layer == 0 then 2 * env.params.m else env.params.m
  }

  lemma DegreesBounded(env: Env, g: Graph, layer: nat, x: nat)
    requires GraphOk(env, g) && layer < |g.layers| && x < |g.rows|
    ensures |g.layers[layer]| == |g.rows| && |g.layers[layer][x]| <= Most(env, layer)
  {
    assert LayerOk(g.levels, layer, Cap(env.params, layer), g.layers[layer]);
    assert ListOk(g.levels, layer, Cap(env.params, layer), x, g.layers[layer][x]);
  }

  // ----- Selection: the nearest candidate first -----

  lemma {:induction false} DiverseKeeps(env: Env, metric: Metric, rows: seq<Row>, cands: seq<Candidate>, max: nat, kept: seq<nat>)
    ensures kept <= Diverse(env, metric, rows, cands, max, kept)
    decreases |cands|
  {
    if cands != [] && |kept| < max {
      DiverseKeeps(env, metric, rows, cands[1..], max,
        if Dominated(env, metric, rows, cands[0], kept) then kept else kept + [cands[0].node]);
    }
  }

  lemma {:induction false} TopUpKeeps(cands: seq<Candidate>, max: nat, kept: seq<nat>)
    ensures kept <= TopUp(cands, max, kept)
    decreases |cands|
  {
    if cands != [] && |kept| < max {
      TopUpKeeps(cands[1..], max, if cands[0].node in kept then kept else kept + [cands[0].node]);
    }
  }

  /** The first candidate is always kept, and kept first. */
  lemma NearestIsKept(env: Env, metric: Metric, rows: seq<Row>, cands: seq<Candidate>, max: nat)
    requires cands != [] && max > 0
    ensures Select(env, metric, rows, cands, max) != [] && Select(env, metric, rows, cands, max)[0] == cands[0].node
  {
    var first := [cands[0].node];
    assert !Dominated(env, metric, rows, cands[0], []);
    assert [] + first == first;
    DiverseKeeps(env, metric, rows, cands[1..], max, first);
    var kept := Diverse(env, metric, rows, cands, max, []);
    assert first <= kept;
    TopUpKeeps(cands, max, kept);
    assert Select(env, metric, rows, cands, max)[0] == kept[0];
  }

  /**
    Filling up goes nearest first: a candidate passed over by the filling, while another
    was added, comes after the added one.
  */
  lemma {:induction false} FillsNearestFirst(cands: seq<Candidate>, max: nat, kept: seq<nat>, i: nat, j: nat)
    requires i < j < |cands| && Distinct(Nodes(cands))
    requires cands[j].node !in kept && cands[j].node in TopUp(cands, max, kept)
    ensures cands[i].node in TopUp(cands, max, kept)
    decreases |cands|
  {
    if |kept| < max {
      var next := if cands[0].node in kept then kept else kept + [cands[0].node];
      assert Nodes(cands)[0] != Nodes(cands)[j] && Nodes(cands)[1..] == Nodes(cands[1..]);
      if i == 0 {
        TopUpKeeps(cands[1..], max, next);
        var k :| 0 <= k < |next| && next[k] == cands[0].node;
        assert TopUp(cands, max, kept)[k] == next[k];
      } else {
        FillsNearestFirst(cands[1..], max, next, i - 1, j - 1);
      }
    }
  }

  // ----- One layer -----

  /**
    What linking did to the list of a chosen node: the new node is in it, or it is at the
    cap; nothing else was added; and while there was room nothing was dropped.
  */
  ghost predicate Answered(before: seq<nat>, after: seq<nat>, node: nat, most: nat) {
    && (node in after || |after| == most)
    && (forall y :: y in after ==> y in before || y == node)
    && (|before| < most ==> after == before + [node])
  }

  /**
    What linking `node` among `found` did to one layer: its list holds found nodes, the
    nearest first, as many as the cap or all of them; each answers; nobody else is touched.
  */
  ghost predicate Linked(before: seq<seq<nat>>, after: seq<seq<nat>>, node: nat, found: seq<Candidate>, most: nat) {
    && |after| == |before| && node < |after|
    && Fills(found, most, after[node])
    && (found != [] && most > 0 ==> after[node] != [] && after[node][0] == found[0].node)
    && (forall t :: t in after[node] ==> t < |after| && t != node && Answered(before[t], after[t], node, most))
    && (forall x :: 0 <= x < |after| && x != node && x !in after[node] ==> after[x] == before[x])
  }

  /** An overfull list is pruned to exactly the cap. */
  lemma PruneFull(env: Env, metric: Metric, rows: seq<Row>, lists: seq<seq<nat>>, node: nat, max: nat)
    requires node < |lists| && Distinct(lists[node]) && |lists[node]| > max
    ensures var r := Prune(env, metric, rows, lists, node, max);
      && |r[node]| == max && (forall y :: y in r[node] ==> y in lists[node])
      && forall x :: 0 <= x < |lists| && x != node ==> r[x] == lists[x]
  {
    var score := ScoreBy(env, metric, rows, VectorOf(rows, node));
    ScoredListNodes(score, lists[node]);
    var cands := SortBest(ScoredList(score, lists[node]));
    SelectFills(env, metric, rows, cands, max);
    var kept := Select(env, metric, rows, cands, max);
    if |kept| < max {
      DistinctFits(lists[node], kept);
    }
  }

  /** How near `z` is to `x`, by the kernel. */
  function Nearness(env: Env, metric: Metric, rows: seq<Row>, x: nat, z: nat): real
    requires x < |rows| && z < |rows|
  {
    env.kernel(metric, rows[x].vector, rows[z].vector, rows[z].invNorm)
  }

  /** A pruned list begins with the node's nearest neighbour of those it had. */
  lemma PruneKeepsNearest(env: Env, metric: Metric, rows: seq<Row>, lists: seq<seq<nat>>, node: nat, max: nat)
    requires node < |lists| && node < |rows| && Distinct(lists[node]) && |lists[node]| > max > 0
    requires forall z :: z in lists[node] ==> z < |rows|
    ensures var r := Prune(env, metric, rows, lists, node, max)[node];
      && r != [] && r[0] in lists[node]
      && forall z :: z in lists[node] ==> Nearness(env, metric, rows, node, z) <= Nearness(env, metric, rows, node, r[0])
  {
    var score := ScoreBy(env, metric, rows, VectorOf(rows, node));
    var scored := ScoredList(score, lists[node]);
    var cands := SortBest(scored);
    assert forall i :: 0 <= i < |scored| ==> scored[i].node == lists[node][i];
    SortBestRanked(scored);
    NearestIsKept(env, metric, rows, cands, max);
    assert cands[0] in scored;
    hide Select, SortBest;
    forall z | z in lists[node]
      ensures score(z) <= cands[0].score
    {
      var i :| 0 <= i < |lists[node]| && lists[node][i] == z;
      assert scored[i] in cands;
    }
  }

  lemma LinkOneAnswers(env: Env, metric: Metric, rows: seq<Row>, lists: seq<seq<nat>>, node: nat, to: nat, max: nat)
    requires node < |lists| && to < |lists| && node != to && node !in lists[to] && to !in lists[node]
    requires Distinct(lists[to]) && |lists[to]| <= max
    ensures var r := LinkOne(env, metric, rows, lists, node, to, max);
      && r[node] == lists[node] + [to] && Answered(lists[to], r[to], node, max)
      && forall x :: 0 <= x < |lists| && x != node && x != to ==> r[x] == lists[x]
  {
    var two := Connect(Connect(lists, node, to), to, node);
    DistinctAppend(lists[to], node);
    assert two[to] == lists[to] + [node];
    if |two[to]| > max {
      PruneFull(env, metric, rows, two, to, max);
    }
  }

  /** A node that can be linked to: not yet linked, its own list in order. */
  ghost predicate CanAnswer(lists: seq<seq<nat>>, node: nat, c: nat, max: nat) {
    c < |lists| && c != node && node !in lists[c] && Distinct(lists[c]) && |lists[c]| <= max
  }

  lemma FirstIsNew(a: seq<nat>, chosen: seq<nat>)
    requires Distinct(a + chosen) && chosen != []
    ensures chosen[0] !in a && chosen[0] !in chosen[1..] && a + [chosen[0]] + chosen[1..] == a + chosen
  {
    var s := a + chosen;
    assert forall i :: 0 <= i < |a| ==> s[i] == a[i];
    assert forall i :: 0 <= i < |chosen| ==> s[|a| + i] == chosen[i];
  }

  lemma {:induction false} LinkAllAnswers(env: Env, metric: Metric, rows: seq<Row>, lists: seq<seq<nat>>, node: nat, chosen: seq<nat>, max: nat)
    requires node < |lists| && Distinct(lists[node] + chosen)
    requires forall c :: c in chosen ==> CanAnswer(lists, node, c, max)
    ensures var r := LinkAll(env, metric, rows, lists, node, chosen, max);
      && r[node] == lists[node] + chosen
      && (forall t :: t in chosen ==> t < |lists| && Answered(lists[t], r[t], node, max))
      && forall x :: 0 <= x < |lists| && x != node && x !in chosen ==> r[x] == lists[x]
    decreases |chosen|
  {
    hide Answered, LinkOne, Distinct;
    if chosen == [] {
      assert lists[node] + chosen == lists[node];
    } else {
      var to, more := chosen[0], chosen[1..];
      FirstIsNew(lists[node], chosen);
      assert forall c :: c in chosen <==> c == to || c in more;
      assert CanAnswer(lists, node, to, max);
      LinkOneAnswers(env, metric, rows, lists, node, to, max);
      var next := LinkOne(env, metric, rows, lists, node, to, max);
      assert forall c :: c in more ==> CanAnswer(lists, node, c, max) && c != to;
      LinkAllAnswers(env, metric, rows, next, node, more, max);
    }
  }

  lemma ListedCanAnswer(env: Env, g: Graph, layer: nat, node: nat, c: nat)
    requires LayersOk(env, g) && layer < |g.layers| && Isolated(g.layers[layer], node)
    requires c < |g.levels| && c != node
    ensures CanAnswer(g.layers[layer], node, c, Cap(env.params, layer))
  {
    assert ListOk(g.levels, layer, Cap(env.params, layer), c, g.layers[layer][c]);
  }

  /** Linking a layer links it. */
  lemma LayerLinked(env: Env, metric: Metric, g: Graph, node: nat, found: seq<Candidate>, layer: nat)
    requires LayersOk(env, g) && layer < |g.layers| && Isolated(g.layers[layer], node)
    requires Distinct(Nodes(found)) && EntriesOk(g.levels, layer, node, Nodes(found))
    ensures Linked(g.layers[layer], LinkLayer(env, metric, g, node, found, layer).layers[layer], node, found, Most(env, layer))
  {
    var max := Cap(env.params, layer);
    var lists := g.layers[layer];
    SelectFills(env, metric, g.rows, found, max);
    var chosen := Select(env, metric, g.rows, found, max);
    hide Select, Answered, CanAnswer, LinkAll;
    assert lists[node] + chosen == chosen;
    forall c | c in chosen
      ensures CanAnswer(lists, node, c, max) && c != node
    {
      assert c in Nodes(found);
      ListedCanAnswer(env, g, layer, node, c);
    }
    LinkAllAnswers(env, metric, g.rows, lists, node, chosen, max);
    if found != [] && max > 0 {
      NearestIsKept(env, metric, g.rows, found, max);
    }
  }

  // ----- Every layer -----

  /**
    What the beam finds on layer `l` before anything is linked: from `entries` on the top
    layer, and below it from everything found one layer up.
  */
  ghost function FoundOn(env: Env, g: Graph, score: nat -> real, entries: seq<nat>, top: nat, l: nat): seq<Candidate>
    requires l <= top
    decreases top - l
  {
    Beam.Search(View(g, l, score), if l == top then entries else Nodes(FoundOn(env, g, score, entries, top, l + 1)), env.params.efConstruction)
  }

  /** The beam finds something from any entry on the layer. */
  lemma FindsSomething(L: Beam.Layer, entries: seq<nat>, ef: nat)
    requires exists e :: e in entries && e < L.size
    ensures Beam.Search(L, entries, ef) != []
  {
    Beam.BeamGuarantee(L, entries, ef);
    var e :| e in entries && e < L.size;
    assert Beam.Covered(L, Beam.Search(L, entries, ef), e);
  }

  /** Layers not yet reached look as they did before. */
  lemma {:induction false} FoundOnSame(env: Env, g: Graph, h: Graph, score: nat -> real, entries: seq<nat>, top: nat, l: nat)
    requires l <= top < |g.layers| && |h.layers| == |g.layers| && |h.rows| == |g.rows|
    requires forall k :: l <= k <= top ==> h.layers[k] == g.layers[k]
    ensures FoundOn(env, h, score, entries, top, l) == FoundOn(env, g, score, entries, top, l)
    decreases top - l
  {
    hide Beam.Search;
    if l < top {
      FoundOnSame(env, g, h, score, entries, top, l + 1);
    }
  }

  /** Started one layer lower from what the top layer yields, the same is found. */
  lemma {:induction false} FoundBelow(env: Env, g: Graph, score: nat -> real, entries: seq<nat>, top: nat, l: nat)
    requires l < top
    ensures FoundOn(env, g, score, Nodes(FoundOn(env, g, score, entries, top, top)), top - 1, l) == FoundOn(env, g, score, entries, top, l)
    decreases top - l
  {
    if l < top - 1 {
      FoundBelow(env, g, score, entries, top, l + 1);
    }
  }

  ghost predicate LinkedFrom(env: Env, g: Graph, r: Graph, node: nat, score: nat -> real, entries: seq<nat>, top: nat, l: nat)
    requires l <= top < |g.layers| && |r.layers| == |g.layers|
  {
    var found := FoundOn(env, g, score, entries, top, l);
    found != [] && Linked(g.layers[l], r.layers[l], node, found, Most(env, l))
  }

  lemma EntryInRange(env: Env, g: Graph, layer: int, node: nat, entries: seq<nat>)
    requires LayersOk(env, g) && EntriesOk(g.levels, layer, node, entries) && entries != []
    ensures exists e :: e in entries && e < |g.rows|
  {
    assert entries[0] in entries;
  }

  lemma LowerEntries(levels: seq<nat>, layer: int, node: nat, entries: seq<nat>)
    requires EntriesOk(levels, layer, node, entries)
    ensures EntriesOk(levels, layer - 1, node, entries)
  {
  }

  lemma {:induction false} LinkDownLinks(env: Env, metric: Metric, g: Graph, node: nat, score: nat -> real, entries: seq<nat>, top: int)
    requires LayersOk(env, g) && -1 <= top < |g.layers| && node < |g.levels| && g.levels[node] >= top
    requires forall l :: 0 <= l <= top ==> Isolated(g.layers[l], node)
    requires EntriesOk(g.levels, top, node, entries) && entries != []
    ensures var r := LinkDown(env, metric, g, node, score, entries, top);
      && |r.layers| == |g.layers|
      && (forall l :: 0 <= l <= top ==> LinkedFrom(env, g, r, node, score, entries, top, l))
      && forall l :: top < l < |g.layers| ==> r.layers[l] == g.layers[l]
    decreases top
  {
    hide LayersOk, Isolated, Linked, LinkLayer, EntriesOk;
    if top >= 0 {
      var found := Found(env, g, score, entries, top);
      FoundOk(env, g, score, entries, top, node);
      EntryInRange(env, g, top, node, entries);
      FindsSomething(View(g, top, score), entries, env.params.efConstruction);
      LayerLinked(env, metric, g, node, found, top);
      LinkLayerOk(env, metric, g, node, found, top);
      LinkLayerFrame(env, metric, g, node, found, top);
      var next := LinkLayer(env, metric, g, node, found, top);
      LowerEntries(g.levels, top, node, Nodes(found));
      LinkDownLinks(env, metric, next, node, score, Nodes(found), top - 1);
      var r := LinkDown(env, metric, g, node, score, entries, top);
      forall l | 0 <= l <= top ensures LinkedFrom(env, g, r, node, score, entries, top, l) {
        if l < top {
          FoundOnSame(env, g, next, score, Nodes(found), top - 1, l);
          FoundBelow(env, g, score, entries, top, l);
          assert LinkedFrom(env, next, r, node, score, Nodes(found), top - 1, l);
        }
      }
    }
  }

  // ----- Where the descent lands -----

  /**
    The descent over layers `top` down to `bottom + 1` ends no worse than it began, and on
    the last of them no neighbour is better; with no such layer it stays where it is.
  */
  lemma {:induction false} DescentLands(g: Graph, score: nat -> real, current: nat, top: int, bottom: int)
    requires AllInRange(g) && bottom >= -1
    ensures var r := Descend(g, score, current, top, bottom);
      && score(r) >= score(current)
      && (top <= bottom ==> r == current)
      && (top > bottom ==> forall y :: y in Beam.Neighbours(View(g, bottom + 1, score), r) ==> score(y) <= score(r))
    decreases top - bottom
  {
    hide AllInRange, Climb, Above, InRange;
    if top > bottom {
      ViewInRange(g, top, score);
      ClimbToLocalMaximum(View(g, top, score), current);
      DescentLands(g, score, Climb(View(g, top, score), current), top - 1, bottom);
    }
  }

  // ----- A whole insertion -----

  /** Where the new node's own layers are entered. */
  function Landing(env: Env, metric: Metric, p: Graph, node: nat, e: nat): nat
    requires AllInRange(p) && node < |p.levels| == |p.rows| && e < |p.rows|
  {
    Descend(p, ScoreBy(env, metric, p.rows, p.rows[node].vector), e, p.levels[e], p.levels[node])
  }

  lemma Ready(env: Env, p: Graph, node: nat, e: nat)
    requires Pushed(env, p) && node + 1 == |p.rows| && p.entry == Some(e)
    ensures AllInRange(p) && node < |p.levels| == |p.rows| && e < |p.rows| && Insertable(p, node) && LayersOk(env, p)
    ensures Max(p.levels[node], p.levels[e]) < |p.layers| && forall l :: 0 <= l < |p.layers| ==> Isolated(p.layers[l], node)
    ensures e != node
  {
    PushedInsertable(env, p);
    LayersInRange(env, p);
  }

  lemma LandsOnLayer(env: Env, metric: Metric, p: Graph, node: nat, e: nat)
    requires Pushed(env, p) && node + 1 == |p.rows| && p.entry == Some(e)
    requires AllInRange(p) && node < |p.levels| == |p.rows| && e < |p.rows|
    ensures EntriesOk(p.levels, Min(p.levels[node], p.levels[e]), node, [Landing(env, metric, p, node, e)])
  {
    Ready(env, p, node, e);
    hide Pushed, LayersOk, Isolated, Descend, AllInRange, Insertable;
    DescendOk(env, p, ScoreBy(env, metric, p.rows, p.rows[node].vector), e, p.levels[e], p.levels[node], node);
  }

  /**
    Inserting the node pushed last, under entry point `e`: every layer up to the lower of
    their two levels is linked as `Linked` says, from where a descent by the kernel lands;
    every layer above keeps its lists; and the entry point moves exactly to a higher node.
  */
  lemma InsertLinks(env: Env, metric: Metric, p: Graph, node: nat, e: nat)
    requires Pushed(env, p) && node + 1 == |p.rows| && p.entry == Some(e)
    ensures AllInRange(p) && node < |p.levels| == |p.rows| && e < |p.rows| && Insertable(p, node)
    ensures var r := Insert(env, metric, p, node); var score := ScoreBy(env, metric, p.rows, p.rows[node].vector);
      var low := Min(p.levels[node], p.levels[e]);
      && ByKernel(env, metric, p.rows, p.rows[node].vector, score)
      && low < |p.layers| == |r.layers|
      && (forall l :: 0 <= l <= low ==> LinkedFrom(env, p, r, node, score, [Landing(env, metric, p, node, e)], low, l))
      && (forall l :: low < l < |p.layers| ==> r.layers[l] == p.layers[l])
      && r.entry == Some(if p.levels[node] > p.levels[e] then node else e)
  {
    Ready(env, p, node, e);
    LandsOnLayer(env, metric, p, node, e);
    hide Pushed, AllInRange, LayersOk, Isolated, LinkDown, Descend, EntriesOk;
    var score := ScoreBy(env, metric, p.rows, p.rows[node].vector);
    var low := Min(p.levels[node], p.levels[e]);
    var entries := [Landing(env, metric, p, node, e)];
    LinkDownOk(env, metric, p, node, score, entries, low);
    LinkDownLinks(env, metric, p, node, score, entries, low);
    var linked := LinkDown(env, metric, p, node, score, entries, low);
    var r := Insert(env, metric, p, node);
    assert r == if p.levels[node] > p.levels[e] then linked.(entry := Some(node)) else linked;
    assert r.layers == linked.layers;
    forall l | 0 <= l <= low ensures LinkedFrom(env, p, r, node, score, entries, low, l) {
      assert LinkedFrom(env, p, linked, node, score, entries, low, l);
    }
  }

  // ----- Nobody is left alone -----

  /** Every node has a neighbour on the bottom layer. */
  ghost predicate NobodyAlone(g: Graph) {
    && g.layers != [] && |g.layers[0]| == |g.rows|
    && forall x :: 0 <= x < |g.rows| ==> g.layers[0][x] != []
  }

  /** A linked bottom layer leaves nobody alone who was not alone before, nor the new node. */
  lemma LinkedCompany(before: seq<seq<nat>>, after: seq<seq<nat>>, node: nat, found: seq<Candidate>, most: nat)
    requires Linked(before, after, node, found, most) && found != [] && most > 0 && node + 1 == |before|
    requires node == 1 || forall x :: 0 <= x < node ==> before[x] != []
    ensures forall x :: 0 <= x < |after| ==> after[x] != []
  {
    assert after[node][0] in after[node];
    forall x | 0 <= x < |after| ensures after[x] != [] {
      if x != node && x in after[node] {
        assert Answered(before[x], after[x], node, most);
      }
    }
  }

  /** Adding a row is pushing it and then inserting it under the entry point there was. */
  lemma AddParts(env: Env, metric: Metric, g: Graph, row: Row)
    requires GraphOk(env, g) && g.rows != []
    ensures var p := PushNode(g, row, env.level(row.id));
      && Pushed(env, p) && p.entry == g.entry && g.entry.Some? && p.rows == g.rows + [row]
      && Insertable(p, |g.rows|) && Add(env, metric, g, row) == Insert(env, metric, p, |g.rows|)
      && g.layers != [] && |g.layers[0]| == |g.rows| && p.layers != [] && p.layers[0] == g.layers[0] + [[]]
  {
    PushOk(env, g, row);
    PushNodeOk(env, g, row, env.level(row.id));
    DegreesBounded(env, g, 0, 0);
  }

  lemma AddCompany(env: Env, metric: Metric, g: Graph, row: Row)
    requires GraphOk(env, g) && g.rows != [] && env.params.m > 0
    requires |g.rows| == 1 || NobodyAlone(g)
    ensures NobodyAlone(Add(env, metric, g, row))
  {
    AddParts(env, metric, g, row);
    var p, r := PushNode(g, row, env.level(row.id)), Add(env, metric, g, row);
    var node, e := |g.rows|, g.entry.value;
    hide PushNode, Pushed, LinkedFrom, Linked, Insertable, GraphOk, Insert, AllInRange, ByKernel;
    InsertLinks(env, metric, p, node, e);
    var low := Min(p.levels[node], p.levels[e]);
    var score := ScoreBy(env, metric, p.rows, p.rows[node].vector);
    var entries := [Landing(env, metric, p, node, e)];
    BottomLinked(env, p, r, node, score, entries, low);
    LinkedCompany(p.layers[0], r.layers[0], node, FoundOn(env, p, score, entries, low, 0), Most(env, 0));
  }

  lemma BottomLinked(env: Env, p: Graph, r: Graph, node: nat, score: nat -> real, entries: seq<nat>, low: nat)
    requires low < |p.layers| == |r.layers| && LinkedFrom(env, p, r, node, score, entries, low, 0)
    ensures var found := FoundOn(env, p, score, entries, low, 0);
      found != [] && Linked(p.layers[0], r.layers[0], node, found, Most(env, 0))
      && |r.layers[0]| == |p.layers[0]|
  {
  }

  lemma BuildSnoc(env: Env, metric: Metric, dimension: nat, rows: seq<Row>, row: Row)
    ensures Build(env, metric, dimension, rows + [row]) == Add(env, metric, Build(env, metric, dimension, rows), row)
  {
    hide Add, GraphOk;
    ExtendIsRebuild(env, metric, dimension, rows, [row]);
    var g := Build(env, metric, dimension, rows);
    assert [row][1..] == [];
    assert Extend(env, metric, Add(env, metric, g, row), []) == Add(env, metric, g, row);
  }

  /** In every graph built from at least two rows, every node has a neighbour on the bottom layer. */
  lemma {:induction false} EveryoneLinked(env: Env, metric: Metric, dimension: nat, rows: seq<Row>)
    requires env.params.m > 0 && |rows| >= 2
    ensures NobodyAlone(Build(env, metric, dimension, rows))
    decreases |rows|
  {
    hide Build, NobodyAlone, GraphOk, Add;
    var n := |rows| - 1;
    BuildSnoc(env, metric, dimension, rows[..n], rows[n]);
    assert rows == rows[..n] + [rows[n]];
    if n >= 2 {
      EveryoneLinked(env, metric, dimension, rows[..n]);
    }
    AddCompany(env, metric, Build(env, metric, dimension, rows[..n]), rows[n]);
  }
}
