/**
  The invariant every insertion keeps: one list per node per layer, no self or repeated
  edge, bounded degree, both ends of a layer's edge at that level or above, and an entry
  of maximal level.
*/
module GraphInvariant {
  import opened Prelude
  import opened Ranking
  import opened GraphSpec
  import opened Selection
  import Beam

  ghost predicate ListOk(levels: seq<nat>, layer: nat, cap: nat, x: nat, list: seq<nat>) {
    && Distinct(list) && |list| <= cap && x !in list
    && (forall t :: t in list ==> t < |levels| && levels[t] >= layer)
    && (list != [] ==> x < |levels| && levels[x] >= layer)
  }

  ghost predicate LayerOk(levels: seq<nat>, layer: nat, cap: nat, lists: seq<seq<nat>>) {
    && |lists| == |levels|
    && forall x :: 0 <= x < |lists| ==> ListOk(levels, layer, cap, x, lists[x])
  }

  ghost predicate LayersOk(env: Env, g: Graph) {
    && |g.levels| == |g.rows|
    && forall l :: 0 <= l < |g.layers| ==> LayerOk(g.levels, l, Cap(env.params, l), g.layers[l])
  }

  ghost predicate EntryOk(g: Graph) {
    && |g.levels| == |g.rows|
    && if g.rows == [] then g.entry == None && g.layers == []
       else && g.entry.Some? && g.entry.value < |g.rows|
            && (forall x :: 0 <= x < |g.levels| ==> g.levels[x] <= g.levels[g.entry.value])
            && |g.layers| == g.levels[g.entry.value] + 1
  }

  ghost predicate GraphOk(env: Env, g: Graph) {
    && LayersOk(env, g)
    && EntryOk(g)
    && forall x :: 0 <= x < |g.rows| ==> g.levels[x] == env.level(g.rows[x].id)
  }

  lemma LayersInRange(env: Env, g: Graph)
    requires LayersOk(env, g)
    ensures AllInRange(g)
  {
    forall l: nat, x, y | l < |g.layers| && x < |g.layers[l]| && 0 <= x && y in g.layers[l][x]
      ensures y < |g.rows|
    {
      assert ListOk(g.levels, l, Cap(env.params, l), x, g.layers[l][x]);
    }
  }

  // ----- push_node -----

  /** No edge on this layer touches `node`. */
  ghost predicate Isolated(lists: seq<seq<nat>>, node: nat) {
    && node < |lists| && lists[node] == []
    && forall x :: 0 <= x < |lists| ==> node !in lists[x]
  }

  lemma PushNodeOk(env: Env, g: Graph, row: Row, level: nat)
    requires LayersOk(env, g)
    ensures var r := PushNode(g, row, level);
            && LayersOk(env, r)
            && |r.layers| == Max(|g.layers|, level + 1)
            && (forall l :: 0 <= l < |r.layers| ==> Isolated(r.layers[l], |g.rows|))
            && (forall l :: 0 <= l < |g.layers| ==> r.layers[l] == g.layers[l] + [[]])
            && forall l :: |g.layers| <= l < |r.layers| ==> r.layers[l] == seq(|g.rows|, _ => []) + [[]]
  {
    var r := PushNode(g, row, level);
    var grown := Grow(g.layers, |g.rows|, level);
    forall l | 0 <= l < |r.layers|
      ensures LayerOk(r.levels, l, Cap(env.params, l), r.layers[l]) && Isolated(r.layers[l], |g.rows|)
    {
      assert r.layers[l] == grown[l] + [[]];
      forall x | 0 <= x < |r.layers[l]|
        ensures ListOk(r.levels, l, Cap(env.params, l), x, r.layers[l][x]) && |g.rows| !in r.layers[l][x]
      {
        if x < |g.rows| && l < |g.layers| {
          assert ListOk(g.levels, l, Cap(env.params, l), x, g.layers[l][x]);
          assert r.layers[l][x] == g.layers[l][x];
        } else {
          assert r.layers[l][x] == [];
        }
      }
    }
  }

  // ----- linking one layer -----

  lemma ScoredListNodes(score: nat -> real, ns: seq<nat>)
    requires Distinct(ns)
    ensures var s := SortBest(ScoredList(score, ns));
            Distinct(Nodes(s)) && forall n :: n in Nodes(s) <==> n in ns
  {
    var c := ScoredList(score, ns);
    assert forall i :: 0 <= i < |c| ==> c[i].node == ns[i];
    SortBestRanked(c);
    var s := SortBest(c);
    forall i, j | 0 <= i < j < |s|
      ensures Nodes(s)[i] != Nodes(s)[j]
    {
      assert s[i] in c && s[j] in c && Better(s[i], s[j]);
    }
    forall n: nat
      ensures n in Nodes(s) <==> n in ns
    {
      if n in ns {
        var i :| 0 <= i < |ns| && ns[i] == n;
        assert c[i] in s;
        var j :| 0 <= j < |s| && s[j] == c[i];
        assert Nodes(s)[j] == n;
      }
      if n in Nodes(s) {
        var j :| 0 <= j < |s| && Nodes(s)[j] == n;
        assert s[j] in c;
      }
    }
  }

  /** Trimming an over-full list leaves a list within the cap and touches no other. */
  lemma PruneOk(env: Env, metric: Metric, rows: seq<Row>, levels: seq<nat>, layer: nat, lists: seq<seq<nat>>, node: nat, max: nat)
    requires |lists| == |levels| && node < |lists|
    requires forall x :: 0 <= x < |lists| && x != node ==> ListOk(levels, layer, max, x, lists[x])
    requires ListOk(levels, layer, max + 1, node, lists[node])
    ensures LayerOk(levels, layer, max, Prune(env, metric, rows, lists, node, max))
    ensures forall x :: 0 <= x < |lists| && x != node ==> Prune(env, metric, rows, lists, node, max)[x] == lists[x]
  {
    if |lists[node]| > max {
      var score := ScoreBy(env, metric, rows, VectorOf(rows, node));
      ScoredListNodes(score, lists[node]);
      SelectFills(env, metric, rows, SortBest(ScoredList(score, lists[node])), max);
    }
  }

  /** Adding the edge pair `node`-`to` and pruning `to`. */
  lemma LinkOneOk(env: Env, metric: Metric, rows: seq<Row>, levels: seq<nat>, layer: nat, lists: seq<seq<nat>>, node: nat, to: nat, max: nat)
    requires LayerOk(levels, layer, max, lists) && node < |levels| && to < |levels| && node != to
    requires levels[node] >= layer && levels[to] >= layer
    requires |lists[node]| < max && to !in lists[node]
    ensures var r := LinkOne(env, metric, rows, lists, node, to, max);
            LayerOk(levels, layer, max, r) && r[node] == lists[node] + [to]
  {
    assert ListOk(levels, layer, max, node, lists[node]);
    assert ListOk(levels, layer, max, to, lists[to]);
    DistinctAppend(lists[node], to);
    var one := Connect(lists, node, to);
    if node !in lists[to] {
      DistinctAppend(lists[to], node);
    }
    var two := Connect(one, to, node);
    PruneOk(env, metric, rows, levels, layer, two, to, max);
  }

  lemma {:induction false} LinkAllOk(env: Env, metric: Metric, rows: seq<Row>, levels: seq<nat>, layer: nat, lists: seq<seq<nat>>, node: nat, chosen: seq<nat>, max: nat)
    requires LayerOk(levels, layer, max, lists) && node < |levels| && levels[node] >= layer
    requires Distinct(lists[node] + chosen) && |lists[node]| + |chosen| <= max
    requires forall c :: c in chosen ==> c < |levels| && c != node && levels[c] >= layer
    ensures LayerOk(levels, layer, max, LinkAll(env, metric, rows, lists, node, chosen, max))
    ensures LinkAll(env, metric, rows, lists, node, chosen, max)[node] == lists[node] + chosen
    decreases |chosen|
  {
    if chosen == [] {
      assert lists[node] + chosen == lists[node];
    } else {
      var to := chosen[0];
      var s := lists[node] + chosen;
      assert s[|lists[node]|] == to && to in chosen;
      assert forall c :: c in chosen[1..] ==> c in chosen;
      assert forall i :: 0 <= i < |lists[node]| ==> s[i] == lists[node][i];
      LinkOneOk(env, metric, rows, levels, layer, lists, node, to, max);
      var next := LinkOne(env, metric, rows, lists, node, to, max);
      assert next[node] + chosen[1..] == s;
      LinkAllOk(env, metric, rows, levels, layer, next, node, chosen[1..], max);
    }
  }

  // ----- linking every layer -----

  /** Entry points a layer's search may start from without ever meeting `node`. */
  ghost predicate EntriesOk(levels: seq<nat>, layer: int, node: nat, entries: seq<nat>) {
    forall e :: e in entries ==> e < |levels| && e != node && levels[e] >= layer
  }

  /** The beam stays among nodes of the layer and never meets the isolated new node. */
  lemma FoundOk(env: Env, g: Graph, score: nat -> real, entries: seq<nat>, layer: nat, node: nat)
    requires LayersOk(env, g) && layer < |g.layers| && Isolated(g.layers[layer], node)
    requires EntriesOk(g.levels, layer, node, entries)
    ensures var found := Found(env, g, score, entries, layer);
            Distinct(Nodes(found)) && EntriesOk(g.levels, layer, node, Nodes(found))
  {
    var L := View(g, layer, score);
    var found := Found(env, g, score, entries, layer);
    Beam.BeamGuarantee(L, entries, env.params.efConstruction);
    forall i, j | 0 <= i < j < |found|
      ensures Nodes(found)[i] != Nodes(found)[j]
    {
      assert found[i] in found && found[j] in found && Better(found[i], found[j]);
    }
    var s := set x: nat | x < |g.levels| && x != node && g.levels[x] >= layer;
    assert Beam.Closed(L, s) by {
      forall x, y | x in s && y in Beam.Neighbours(L, x) && y < L.size
        ensures y in s
      {
        assert ListOk(g.levels, layer, Cap(env.params, layer), x, g.layers[layer][x]);
      }
    }
    forall n | n in Nodes(found)
      ensures n in s
    {
      var i :| 0 <= i < |found| && Nodes(found)[i] == n;
      assert found[i] in found;
      var p :| Beam.IsPath(L, p) && p[0] in entries && p[|p| - 1] == n;
      Beam.PathStaysIn(L, p, s);
    }
  }

  lemma LinkLayerOk(env: Env, metric: Metric, g: Graph, node: nat, found: seq<Candidate>, layer: nat)
    requires LayersOk(env, g) && layer < |g.layers| && Isolated(g.layers[layer], node)
    requires node < |g.levels| && g.levels[node] >= layer
    requires Distinct(Nodes(found)) && EntriesOk(g.levels, layer, node, Nodes(found))
    ensures LayersOk(env, LinkLayer(env, metric, g, node, found, layer))
  {
    var max := Cap(env.params, layer);
    SelectFills(env, metric, g.rows, found, max);
    var chosen := Select(env, metric, g.rows, found, max);
    assert g.layers[layer][node] + chosen == chosen;
    LinkAllOk(env, metric, g.rows, g.levels, layer, g.layers[layer], node, chosen, max);
  }

  lemma LinkLayerFrame(env: Env, metric: Metric, g: Graph, node: nat, found: seq<Candidate>, layer: nat)
    requires layer < |g.layers|
    ensures var r := LinkLayer(env, metric, g, node, found, layer);
            && |r.layers| == |g.layers| && r == g.(layers := r.layers)
            && forall l :: 0 <= l < |g.layers| && l != layer ==> r.layers[l] == g.layers[l]
  {
  }

  lemma {:induction false} LinkDownOk(env: Env, metric: Metric, g: Graph, node: nat, score: nat -> real, entries: seq<nat>, layer: int)
    requires LayersOk(env, g) && -1 <= layer < |g.layers|
    requires node < |g.levels| && g.levels[node] >= layer
    requires forall l :: 0 <= l <= layer ==> Isolated(g.layers[l], node)
    requires EntriesOk(g.levels, layer, node, entries)
    ensures var r := LinkDown(env, metric, g, node, score, entries, layer);
            LayersOk(env, r) && |r.layers| == |g.layers| && r == g.(layers := r.layers)
    decreases layer
  {
    hide LayersOk, Isolated, Found, LinkLayer;
    if layer >= 0 {
      FoundOk(env, g, score, entries, layer, node);
      var found := Found(env, g, score, entries, layer);
      LinkLayerOk(env, metric, g, node, found, layer);
      var next := LinkLayer(env, metric, g, node, found, layer);
      LinkLayerFrame(env, metric, g, node, found, layer);
      LinkDownOk(env, metric, next, node, score, NextEntries(found, entries), layer - 1);
    }
  }

  /** Climbing a layer stays on the layer and never meets the isolated new node. */
  lemma ClimbOk(env: Env, g: Graph, score: nat -> real, current: nat, layer: nat, node: nat)
    requires LayersOk(env, g) && AllInRange(g) && layer < |g.layers| && Isolated(g.layers[layer], node)
    requires current < |g.levels| && current != node && g.levels[current] >= layer
    ensures InRange(View(g, layer, score))
    ensures var r := Climb(View(g, layer, score), current);
            r < |g.levels| && r != node && g.levels[r] >= layer
  {
    var L := View(g, layer, score);
    var r := Climb(L, current);
    ClimbToLocalMaximum(L, current);
    if r != current {
      var x: nat :| r in Beam.Neighbours(L, x);
      assert ListOk(g.levels, layer, Cap(env.params, layer), x, g.layers[layer][x]);
    }
  }

  /** The greedy descent ends on a node of the layer below which it stops, never on `node`. */
  lemma {:induction false} DescendOk(env: Env, g: Graph, score: nat -> real, current: nat, top: int, bottom: int, node: nat)
    requires LayersOk(env, g) && AllInRange(g) && -1 <= bottom && top < |g.layers|
    requires forall l :: 0 <= l < |g.layers| ==> Isolated(g.layers[l], node)
    requires current < |g.levels| && current != node && g.levels[current] >= top
    ensures var r := Descend(g, score, current, top, bottom);
            r < |g.levels| && r != node && g.levels[r] >= Min(top, bottom)
    decreases top - bottom
  {
    hide LayersOk, AllInRange, Isolated, Climb;
    if top > bottom {
      ClimbOk(env, g, score, current, top, node);
      DescendOk(env, g, score, Climb(View(g, top, score), current), top - 1, bottom, node);
    }
  }

  /** A pushed, not yet linked, last node over a graph that was fine before it. */
  ghost predicate Pushed(env: Env, g: Graph) {
    && g.rows != [] && LayersOk(env, g)
    && var node := |g.rows| - 1;
    && (forall l :: 0 <= l < |g.layers| ==> Isolated(g.layers[l], node))
    && (forall x :: 0 <= x < |g.rows| ==> g.levels[x] == env.level(g.rows[x].id))
    && match g.entry
       case None => node == 0 && |g.layers| == g.levels[node] + 1
       case Some(e) => && e < node
                       && (forall x :: 0 <= x < node ==> g.levels[x] <= g.levels[e])
                       && |g.layers| == Max(g.levels[e], g.levels[node]) + 1
  }

  /** Pushing a row onto a sound graph. */
  lemma PushOk(env: Env, g: Graph, row: Row)
    requires GraphOk(env, g)
    ensures var p := PushNode(g, row, env.level(row.id)); Pushed(env, p) && Insertable(p, |p.rows| - 1)
  {
    PushNodeOk(env, g, row, env.level(row.id));
    PushedInsertable(env, PushNode(g, row, env.level(row.id)));
  }

  lemma PushedInsertable(env: Env, g: Graph)
    requires Pushed(env, g)
    ensures Insertable(g, |g.rows| - 1)
  {
    LayersInRange(env, g);
  }

  /** Linking the pushed node under entry `e`, before the entry is moved. */
  lemma LinkedOk(env: Env, metric: Metric, g: Graph, node: nat, e: nat, score: nat -> real)
    requires Pushed(env, g) && node == |g.rows| - 1 && g.entry == Some(e) && AllInRange(g)
    ensures var level, top := g.levels[node], g.levels[e];
            var r := LinkDown(env, metric, g, node, score, [Descend(g, score, e, top, level)], Min(level, top));
            LayersOk(env, r) && |r.layers| == |g.layers| && r == g.(layers := r.layers)
  {
    var level, top := g.levels[node], g.levels[e];
    DescendOk(env, g, score, e, top, level, node);
    LinkDownOk(env, metric, g, node, score, [Descend(g, score, e, top, level)], Min(level, top));
  }

  /** With its entry moved to the new node when that is higher, the linked graph is fine again. */
  lemma EntryMoved(env: Env, g: Graph, r: Graph)
    requires Pushed(env, g) && g.entry.Some?
    requires LayersOk(env, r) && |r.layers| == |g.layers| && r == g.(layers := r.layers)
    ensures var node := |g.rows| - 1;
            GraphOk(env, if g.levels[node] > g.levels[g.entry.value] then r.(entry := Some(node)) else r)
  {
    var node := |g.rows| - 1;
    var q := if g.levels[node] > g.levels[g.entry.value] then r.(entry := Some(node)) else r;
    assert LayersOk(env, q) && q.rows == g.rows && q.levels == g.levels;
  }

  lemma FirstIsEntry(env: Env, g: Graph)
    requires Pushed(env, g) && g.entry == None
    ensures GraphOk(env, g.(entry := Some(0)))
  {
    assert LayersOk(env, g.(entry := Some(0)));
  }

  lemma InsertOk(env: Env, metric: Metric, g: Graph, node: nat)
    requires node + 1 == |g.rows| && Insertable(g, node) && Pushed(env, g)
    ensures var r := Insert(env, metric, g, node);
            GraphOk(env, r) && r.rows == g.rows && r.dimension == g.dimension && r.metric == g.metric
  {
    hide LinkDown, Descend, ScoreBy, AllInRange, GraphOk;
    match g.entry
    case None =>
      FirstIsEntry(env, g);
    case Some(e) =>
      var score := ScoreBy(env, metric, g.rows, g.rows[node].vector);
      LinkedOk(env, metric, g, node, e, score);
      EntryMoved(env, g, LinkDown(env, metric, g, node, score,
        [Descend(g, score, e, g.levels[e], g.levels[node])], Min(g.levels[node], g.levels[e])));
  }

  // ----- build_from and extend -----

  /** Push one row and link it. */
  function Add(env: Env, metric: Metric, g: Graph, row: Row): (r: Graph)
    requires GraphOk(env, g)
    ensures GraphOk(env, r) && r.rows == g.rows + [row]
    ensures r.dimension == g.dimension && r.metric == g.metric
  {
    PushOk(env, g, row);
    var p := PushNode(g, row, env.level(row.id));
    InsertOk(env, metric, p, |p.rows| - 1);
    Insert(env, metric, p, |p.rows| - 1)
  }

  /** Every graph reachable by insertions keeps the invariant and covers exactly its rows. */
  function Extend(env: Env, metric: Metric, g: Graph, rows: seq<Row>): (r: Graph)
    requires GraphOk(env, g)
    ensures GraphOk(env, r) && r.rows == g.rows + rows
    ensures r.dimension == g.dimension && r.metric == g.metric
    decreases |rows|
  {
    hide Add, GraphOk;
    if rows == [] then g
    else
      assert rows == [rows[0]] + rows[1..];
      Extend(env, metric, Add(env, metric, g, rows[0]), rows[1..])
  }

  function Build(env: Env, metric: Metric, dimension: nat, rows: seq<Row>): (r: Graph)
    ensures GraphOk(env, r) && r.rows == rows
    ensures r.dimension == dimension && r.metric == Some(metric)
  {
    Extend(env, metric, Empty(dimension, metric), rows)
  }

  /** Extending what was built from `a` with `b` is building from `a` followed by `b`. */
  lemma {:induction false} ExtendIsRebuild(env: Env, metric: Metric, dimension: nat, a: seq<Row>, b: seq<Row>)
    ensures Extend(env, metric, Build(env, metric, dimension, a), b) == Build(env, metric, dimension, a + b)
  {
    ExtendAppend(env, metric, Empty(dimension, metric), a, b);
  }

  lemma {:induction false} ExtendAppend(env: Env, metric: Metric, g: Graph, a: seq<Row>, b: seq<Row>)
    requires GraphOk(env, g)
    ensures Extend(env, metric, Extend(env, metric, g, a), b) == Extend(env, metric, g, a + b)
    decreases |a|
  {
    if a == [] {
      assert a + b == b;
    } else {
      assert (a + b)[0] == a[0] && (a + b)[1..] == a[1..] + b;
      ExtendAppend(env, metric, Add(env, metric, g, a[0]), a[1..], b);
    }
  }
}
