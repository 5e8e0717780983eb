/**
  Graph construction as the source performs it: one mutable graph, lists updated in place,
  one visited buffer reused by every search of a build.  Every method is proved to compute
  the corresponding function of `GraphSpec` and `GraphInvariant`.
*/
module GraphBuild {
  import opened Prelude
  import opened Ranking
  import opened SearchLayer
  import Beam
  import S = GraphSpec
  import I = GraphInvariant

  class HnswGraph {
    var rows: seq<S.Row>
    var levels: seq<nat>
    var layers: seq<seq<seq<nat>>>
    var entry: Option<nat>
    var dimension: nat
    var metric: Option<S.Metric>

    function Val(): S.Graph
      reads this
    {
      S.Graph(rows, levels, layers, entry, dimension, metric)
    }

    constructor (dimension: nat, metric: S.Metric)
      ensures Val() == S.Empty(dimension, metric)
    {
      rows, levels, layers, entry := [], [], [], None;
      this.dimension, this.metric := dimension, Some(metric);
    }

    /** Append a node; every layer, new ones included, gets one list for it. */
    method PushNode(row: S.Row, level: nat) returns (node: nat)
      modifies this
      ensures node == old(|rows|)
      ensures Val() == S.PushNode(old(Val()), row, level)
    {
      node := |rows|;
      ghost var grown := S.Grow(layers, node, level);
      while |layers| <= level
        invariant S.Grow(layers, node, level) == grown
        invariant Val() == old(Val()).(layers := layers)
        decreases level + 1 - |layers|
      {
        layers := layers + [seq(node, _ => [])];
      }
      rows := rows + [row];
      levels := levels + [level];
      for l := 0 to |layers|
        invariant |layers| == |grown|
        invariant forall k :: 0 <= k < |layers| ==> layers[k] == if k < l then grown[k] + [[]] else grown[k]
        invariant Val() == old(Val()).(rows := old(rows) + [row], levels := old(levels) + [level], layers := layers)
      {
        layers := layers[l := layers[l] + [[]]];
      }
      assert layers == S.PushNode(old(Val()), row, level).layers;
    }

    /** Add `to` to the list of `from`, unless it is there or is `from` itself. */
    method Connect(layer: nat, from: nat, to: nat)
      requires layer < |layers|
      modifies this`layers
      ensures layers == old(layers)[layer := S.Connect(old(layers)[layer], from, to)]
    {
      if from == to {
        return;
      }
      if from < |layers[layer]| {
        if to !in layers[layer][from] {
          layers := layers[layer := layers[layer][from := layers[layer][from] + [to]]];
        }
      }
    }

    /** Trim the list of `node` back to `max`. */
    method Prune(env: S.Env, metric: S.Metric, layer: nat, node: nat, max: nat)
      requires layer < |layers|
      modifies this`layers
      ensures layers == old(layers)[layer := S.Prune(env, metric, rows, old(layers)[layer], node, max)]
    {
      if node >= |layers[layer]| || |layers[layer][node]| <= max {
        return;
      }
      var score := S.ScoreBy(env, metric, rows, S.VectorOf(rows, node));
      var scored := SortBest(S.ScoredList(score, layers[layer][node]));
      var kept := SelectNeighbours(env, metric, rows, scored, max);
      layers := layers[layer := layers[layer][node := kept]];
    }

    /** Greedy descent over the layers the new node does not belong to. */
    method Descend(score: nat -> real, start: nat, top: int, bottom: int) returns (current: nat)
      requires S.AllInRange(Val()) && bottom >= -1
      ensures current == S.Descend(Val(), score, start, top, bottom)
    {
      hide S.Climb, S.AllInRange, S.InRange;
      current := start;
      var layer := top;
      while layer > bottom
        invariant S.Descend(Val(), score, current, layer, bottom) == S.Descend(Val(), score, start, top, bottom)
        decreases layer - bottom
      {
        var L := S.View(Val(), layer, score);
        S.ViewInRange(Val(), layer, score);
        current := Climb(L, current);
        layer := layer - 1;
      }
    }

    /** Link `node` to each of `chosen`, pruning each as it gains an edge. */
    method LinkAll(env: S.Env, metric: S.Metric, layer: nat, node: nat, chosen: seq<nat>, max: nat)
      requires layer < |layers|
      modifies this`layers
      ensures layers == old(layers)[layer := S.LinkAll(env, metric, rows, old(layers)[layer], node, chosen, max)]
    {
      hide S.Prune, S.Connect;
      ghost var goal := S.LinkAll(env, metric, rows, layers[layer], node, chosen, max);
      assert chosen[0..] == chosen;
      for i := 0 to |chosen|
        invariant layer < |layers| && layers == old(layers)[layer := layers[layer]]
        invariant S.LinkAll(env, metric, rows, layers[layer], node, chosen[i..], max) == goal
      {
        assert chosen[i..][0] == chosen[i] && chosen[i..][1..] == chosen[i + 1..];
        Connect(layer, node, chosen[i]);
        Connect(layer, chosen[i], node);
        Prune(env, metric, layer, chosen[i], max);
      }
    }

    /** Link a newly pushed node into the graph. */
    method Insert(env: S.Env, metric: S.Metric, node: nat, visited: Visited)
      requires S.Insertable(Val(), node) && visited.Valid()
      modifies this`layers, this`entry, visited
      ensures visited.Valid()
      ensures Val() == S.Insert(env, metric, old(Val()), node)
    {
      if entry == None {
        entry := Some(node);
        return;
      }
      var level, top := levels[node], levels[entry.value];
      var score := S.ScoreBy(env, metric, rows, rows[node].vector);
      var current := Descend(score, entry.value, top, level);
      LinkDown(env, metric, node, score, [current], Min(level, top), visited);
      if level > top {
        entry := Some(node);
      }
    }

    /** Search one layer and connect the node to what selection keeps of the answer. */
    method LinkLayer(env: S.Env, metric: S.Metric, node: nat, score: nat -> real, entries: seq<nat>, layer: nat, visited: Visited)
      returns (found: seq<Candidate>)
      requires layer < |layers| && visited.Valid()
      modifies this`layers, visited
      ensures visited.Valid()
      ensures found == S.Found(env, old(Val()), score, entries, layer)
      ensures Val() == S.LinkLayer(env, metric, old(Val()), node, found, layer) && |layers| == |old(layers)|
    {
      found := SearchLayer.Run(S.View(Val(), layer, score), entries, env.params.efConstruction, visited);
      var max := S.Cap(env.params, layer);
      var chosen := SelectNeighbours(env, metric, rows, found, max);
      LinkAll(env, metric, layer, node, chosen, max);
    }

    /** Search and connect on every layer from `from` down; what a layer finds enters the next. */
    method LinkDown(env: S.Env, metric: S.Metric, node: nat, score: nat -> real, start: seq<nat>, from: nat, visited: Visited)
      requires from < |layers| && visited.Valid()
      modifies this`layers, visited
      ensures visited.Valid()
      ensures Val() == S.LinkDown(env, metric, old(Val()), node, score, start, from)
    {
      hide S.Found, S.LinkLayer, S.Nodes;
      var entries := start;
      var layer: int := from;
      ghost var goal := S.LinkDown(env, metric, Val(), node, score, start, from);
      while layer >= 0
        invariant -1 <= layer < |layers| && visited.Valid()
        invariant S.LinkDown(env, metric, Val(), node, score, entries, layer) == goal
      {
        var found := LinkLayer(env, metric, node, score, entries, layer, visited);
        if found != [] {
          entries := S.Nodes(found);
        }
        layer := layer - 1;
      }
    }

    /** Add rows to a graph that already covers everything before them. */
    method Extend(env: S.Env, metric: S.Metric, more: seq<S.Row>)
      requires I.GraphOk(env, Val())
      modifies this
      ensures Val() == I.Extend(env, metric, old(Val()), more)
    {
      hide I.GraphOk, I.Add;
      var visited := new Visited();
      ghost var goal := I.Extend(env, metric, Val(), more);
      assert more[0..] == more;
      for i := 0 to |more|
        invariant visited.Valid() && fresh(visited)
        invariant I.GraphOk(env, Val())
        invariant I.Extend(env, metric, Val(), more[i..]) == goal
      {
        assert more[i..][0] == more[i] && more[i..][1..] == more[i + 1..];
        AddRow(env, metric, more[i], visited);
      }
    }

    method AddRow(env: S.Env, metric: S.Metric, row: S.Row, visited: Visited)
      requires I.GraphOk(env, Val()) && visited.Valid()
      modifies this, visited
      ensures visited.Valid()
      ensures I.GraphOk(env, Val()) && Val() == I.Add(env, metric, old(Val()), row)
    {
      hide I.GraphOk, I.Pushed, S.Insert, S.Insertable;
      I.PushOk(env, Val(), row);
      var node := PushNode(row, env.level(row.id));
      I.InsertOk(env, metric, Val(), node);
      Insert(env, metric, node, visited);
    }
  }

  /** Keep diverse candidates, then top up by proximity. */
  method SelectNeighbours(env: S.Env, metric: S.Metric, rows: seq<S.Row>, cands: seq<Candidate>, max: nat) returns (kept: seq<nat>)
    ensures kept == S.Select(env, metric, rows, cands, max)
  {
    kept := [];
    ghost var diverse := S.Diverse(env, metric, rows, cands, max, []);
    var i := 0;
    assert cands[0..] == cands;
    while i < |cands| && |kept| < max
      invariant 0 <= i <= |cands|
      invariant S.Diverse(env, metric, rows, cands[i..], max, kept) == diverse
    {
      assert cands[i..][0] == cands[i] && cands[i..][1..] == cands[i + 1..];
      if !S.Dominated(env, metric, rows, cands[i], kept) {
        kept := kept + [cands[i].node];
      }
      i := i + 1;
    }
    assert kept == diverse;
    i := 0;
    while i < |cands| && |kept| < max
      invariant 0 <= i <= |cands|
      invariant S.TopUp(cands[i..], max, kept) == S.TopUp(cands, max, diverse)
    {
      assert cands[i..][0] == cands[i] && cands[i..][1..] == cands[i + 1..];
      if cands[i].node !in kept {
        kept := kept + [cands[i].node];
      }
      i := i + 1;
    }
  }

  /** One pass over the neighbours of `start`, moving to each that improves. */
  method Sweep(score: nat -> real, ns: seq<nat>, start: nat) returns (current: nat, improved: bool)
    ensures current == S.Sweep(score, ns, start)
    ensures improved <==> current != start
  {
    current, improved := start, false;
    assert ns[0..] == ns;
    for k := 0 to |ns|
      invariant S.Sweep(score, ns[k..], current) == S.Sweep(score, ns, start)
      invariant improved ==> score(current) > score(start)
      invariant !improved ==> current == start
    {
      assert ns[k..][0] == ns[k] && ns[k..][1..] == ns[k + 1..];
      if score(ns[k]) > score(current) {
        current, improved := ns[k], true;
      }
    }
  }

  /** Move to the best neighbour until no neighbour improves. */
  method Climb(L: Beam.Layer, start: nat) returns (current: nat)
    requires S.InRange(L)
    ensures current == S.Climb(L, start)
  {
    current := start;
    var improved := true;
    while improved
      invariant S.Climb(L, current) == S.Climb(L, start)
      invariant !improved ==> S.Climb(L, current) == current
      decreases S.Above(L, current), improved
    {
      ghost var from := current;
      current, improved := Sweep(L.score, Beam.Neighbours(L, current), current);
      if improved {
        assert current in S.Above(L, from) && current !in S.Above(L, current);
        assert S.Above(L, current) < S.Above(L, from);
      }
    }
  }

  /** Build a graph over rows already decoded. */
  method BuildFrom(env: S.Env, metric: S.Metric, dimension: nat, rows: seq<S.Row>) returns (g: HnswGraph)
    ensures fresh(g) && g.Val() == I.Build(env, metric, dimension, rows)
  {
    g := new HnswGraph(dimension, metric);
    g.Extend(env, metric, rows);
  }
}
