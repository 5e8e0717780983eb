/**
  The HNSW graph as a value, and every construction step as a function of it: `push_node`,
  greedy descent, neighbour selection, `connect`, `prune`, `insert`, `build_from`, `extend`.

  The three parallel per-node arrays of the source (row, vector, inverse norm) are one
  sequence of `Row` records.  The distance kernels and the hashed level assignment are
  parameters of `Env`.
*/
module GraphSpec {
  import opened Prelude
  import opened Ranking
  import Beam

  datatype Metric = Cosine | L2 | Dot

  type Vector = seq<real>

  datatype Row = Row(id: nat, vector: Vector, invNorm: real)

  datatype Params = Params(m: nat, efConstruction: nat, efSearch: nat, seed: nat)

  const MAX_LEVEL: nat := 16

  /** Kernel `(metric, query, row vector, row inverse norm)`, and the level of a row. */
  datatype Env = Env(kernel: (Metric, Vector, Vector, real) -> real, level: nat -> nat, params: Params)

  datatype Graph = Graph(
    rows: seq<Row>,
    levels: seq<nat>,
    layers: seq<seq<seq<nat>>>,
    entry: Option<nat>,
    dimension: nat,
    metric: Option<Metric>)

  function Empty(dimension: nat, metric: Metric): Graph {
    Graph([], [], [], None, dimension, Some(metric))
  }

  /** Degree cap: twice as many neighbours on the bottom layer. */
  function Cap(p: Params, layer: nat): nat {
    if layer == 0 then p.m * 2 else p.m
  }

  function ScoreBy(env: Env, metric: Metric, rows: seq<Row>, query: Vector): nat -> real {
    (n: nat) => if n < |rows| then env.kernel(metric, query, rows[n].vector, rows[n].invNorm) else 0.0
  }

  function VectorOf(rows: seq<Row>, n: nat): Vector {
    if n < |rows| then rows[n].vector else []
  }

  function Lists(g: Graph, layer: nat): seq<seq<nat>> {
    if layer < |g.layers| then g.layers[layer] else []
  }

  function View(g: Graph, layer: nat, score: nat -> real): Beam.Layer {
    Beam.Layer(|g.rows|, Lists(g, layer), score)
  }

  // ----- push_node -----

  /** Add empty layers, each already holding `n` lists, until `level` exists. */
  function Grow(layers: seq<seq<seq<nat>>>, n: nat, level: nat): (r: seq<seq<seq<nat>>>)
    ensures |r| == Max(|layers|, level + 1)
    ensures forall l :: 0 <= l < |layers| ==> r[l] == layers[l]
    ensures forall l :: |layers| <= l < |r| ==> r[l] == seq(n, _ => [])
    decreases level + 1 - |layers|
  {
    if |layers| <= level then Grow(layers + [seq(n, _ => [])], n, level) else layers
  }

  function PushNode(g: Graph, row: Row, level: nat): Graph {
    var grown := Grow(g.layers, |g.rows|, level);
    g.(rows := g.rows + [row],
       levels := g.levels + [level],
       layers := seq(|grown|, l requires 0 <= l < |grown| => grown[l] + [[]]))
  }

  // ----- greedy descent -----

  /** One pass over the neighbours of the node the pass started from. */
  function Sweep(score: nat -> real, ns: seq<nat>, current: nat): (r: nat)
    ensures r == current || (r in ns && score(r) > score(current))
    decreases |ns|
  {
    if ns == [] then current
    else Sweep(score, ns[1..], if score(ns[0]) > score(current) then ns[0] else current)
  }

  ghost predicate InRange(L: Beam.Layer) {
    forall x, y :: y in Beam.Neighbours(L, x) ==> y < L.size
  }

  /** Nodes strictly better than `current`: what the climb has left. */
  ghost function Above(L: Beam.Layer, current: nat): set<nat> {
    set x: nat | x < L.size && L.score(x) > L.score(current)
  }

  /** Repeat passes until one improves nothing. */
  function Climb(L: Beam.Layer, current: nat): (r: nat)
    requires InRange(L)
    decreases Above(L, current)
  {
    var next := Sweep(L.score, Beam.Neighbours(L, current), current);
    if next == current then current
    else
      assert next in Above(L, current) && next !in Above(L, next);
      assert Above(L, next) < Above(L, current);
      Climb(L, next)
  }

  lemma {:induction false} SweepBest(score: nat -> real, ns: seq<nat>, current: nat)
    ensures score(Sweep(score, ns, current)) >= score(current)
    ensures forall n :: n in ns ==> score(n) <= score(Sweep(score, ns, current))
    decreases |ns|
  {
    if ns != [] {
      SweepBest(score, ns[1..], if score(ns[0]) > score(current) then ns[0] else current);
      assert forall n :: n in ns <==> n == ns[0] || n in ns[1..];
    }
  }

  /**
    The climb stops at a local maximum, no worse than where it began, which it reached
    along edges of the layer.
  */
  lemma {:induction false} ClimbToLocalMaximum(L: Beam.Layer, current: nat)
    requires InRange(L)
    ensures var r := Climb(L, current);
            && L.score(r) >= L.score(current)
            && (forall n :: n in Beam.Neighbours(L, r) ==> L.score(n) <= L.score(r))
            && (r == current || exists x :: r in Beam.Neighbours(L, x))
    decreases Above(L, current)
  {
    var next := Sweep(L.score, Beam.Neighbours(L, current), current);
    SweepBest(L.score, Beam.Neighbours(L, current), current);
    if next != current {
      assert next in Above(L, current) && next !in Above(L, next);
      assert Above(L, next) < Above(L, current);
      ClimbToLocalMaximum(L, next);
    }
  }

  ghost predicate AllInRange(g: Graph) {
    forall l: nat, x, y :: l < |g.layers| && x < |g.layers[l]| && 0 <= x && y in g.layers[l][x] ==> y < |g.rows|
  }

  lemma ViewInRange(g: Graph, layer: nat, score: nat -> real)
    requires AllInRange(g)
    ensures InRange(View(g, layer, score))
  {
  }

  /** Climb on every layer from `top` down to but excluding `bottom`. */
  function Descend(g: Graph, score: nat -> real, current: nat, top: int, bottom: int): (r: nat)
    requires AllInRange(g) && bottom >= -1
    decreases top - bottom
  {
    if top <= bottom then current
    else
      ViewInRange(g, top, score);
      Descend(g, score, Climb(View(g, top, score), current), top - 1, bottom)
  }

  // ----- neighbour selection -----

  /** Some kept node is closer to the candidate than the candidate is to the query. */
  predicate Dominated(env: Env, metric: Metric, rows: seq<Row>, c: Candidate, kept: seq<nat>) {
    exists k :: k in kept && ScoreBy(env, metric, rows, VectorOf(rows, c.node))(k) > c.score
  }

  /** The diversity heuristic. */
  function Diverse(env: Env, metric: Metric, rows: seq<Row>, cands: seq<Candidate>, max: nat, kept: seq<nat>): seq<nat>
    decreases |cands|
  {
    if cands == [] || |kept| >= max then kept
    else
      Diverse(env, metric, rows, cands[1..], max,
              if Dominated(env, metric, rows, cands[0], kept) then kept else kept + [cands[0].node])
  }

  /** Fill the quota by plain proximity. */
  function TopUp(cands: seq<Candidate>, max: nat, kept: seq<nat>): seq<nat>
    decreases |cands|
  {
    if cands == [] || |kept| >= max then kept
    else TopUp(cands[1..], max, if cands[0].node in kept then kept else kept + [cands[0].node])
  }

  function Select(env: Env, metric: Metric, rows: seq<Row>, cands: seq<Candidate>, max: nat): seq<nat> {
    TopUp(cands, max, Diverse(env, metric, rows, cands, max, []))
  }

  // ----- linking -----

  function Connect(lists: seq<seq<nat>>, from: nat, to: nat): (r: seq<seq<nat>>)
    ensures |r| == |lists|
  {
    if from == to || from >= |lists| || to in lists[from] then lists
    else lists[from := lists[from] + [to]]
  }

  /** The neighbours of `node`, scored against it. */
  function ScoredList(score: nat -> real, ns: seq<nat>): (r: seq<Candidate>)
    ensures |r| == |ns|
  {
    seq(|ns|, i requires 0 <= i < |ns| => Candidate(score(ns[i]), ns[i]))
  }

  /** Trim a list back to `max` with the same heuristic. */
  function Prune(env: Env, metric: Metric, rows: seq<Row>, lists: seq<seq<nat>>, node: nat, max: nat): (r: seq<seq<nat>>)
    ensures |r| == |lists|
  {
    if node >= |lists| || |lists[node]| <= max then lists
    else
      var scored := SortBest(ScoredList(ScoreBy(env, metric, rows, VectorOf(rows, node)), lists[node]));
      lists[node := Select(env, metric, rows, scored, max)]
  }

  function LinkOne(env: Env, metric: Metric, rows: seq<Row>, lists: seq<seq<nat>>, node: nat, to: nat, max: nat): (r: seq<seq<nat>>)
    ensures |r| == |lists|
  {
    Prune(env, metric, rows, Connect(Connect(lists, node, to), to, node), to, max)
  }

  function LinkAll(env: Env, metric: Metric, rows: seq<Row>, lists: seq<seq<nat>>, node: nat, chosen: seq<nat>, max: nat): (r: seq<seq<nat>>)
    ensures |r| == |lists|
    decreases |chosen|
  {
    if chosen == [] then lists
    else LinkAll(env, metric, rows, LinkOne(env, metric, rows, lists, node, chosen[0], max), node, chosen[1..], max)
  }

  function Nodes(cs: seq<Candidate>): (r: seq<nat>)
    ensures |r| == |cs|
  {
    seq(|cs|, i requires 0 <= i < |cs| => cs[i].node)
  }

  /** What one layer contributes: the beam's answer, and the layer's lists once linked. */
  function Found(env: Env, g: Graph, score: nat -> real, entries: seq<nat>, layer: nat): seq<Candidate> {
    Beam.Search(View(g, layer, score), entries, env.params.efConstruction)
  }

  function LinkLayer(env: Env, metric: Metric, g: Graph, node: nat, found: seq<Candidate>, layer: nat): Graph
    requires layer < |g.layers|
  {
    var max := Cap(env.params, layer);
    var chosen := Select(env, metric, g.rows, found, max);
    g.(layers := g.layers[layer := LinkAll(env, metric, g.rows, g.layers[layer], node, chosen, max)])
  }

  function NextEntries(found: seq<Candidate>, entries: seq<nat>): seq<nat> {
    if found == [] then entries else Nodes(found)
  }

  /** Connect `node` on every layer from `layer` down to the bottom. */
  function LinkDown(env: Env, metric: Metric, g: Graph, node: nat, score: nat -> real, entries: seq<nat>, layer: int): Graph
    requires layer < |g.layers|
    decreases layer
  {
    if layer < 0 then g
    else
      var found := Found(env, g, score, entries, layer);
      LinkDown(env, metric, LinkLayer(env, metric, g, node, found, layer), node, score, NextEntries(found, entries), layer - 1)
  }

  /** What `insert` may rely on of the graph it is given. */
  ghost predicate Insertable(g: Graph, node: nat) {
    && |g.levels| == |g.rows| && node < |g.rows| && AllInRange(g)
    && g.levels[node] < |g.layers|
    && (g.entry.Some? ==> g.entry.value < |g.rows| && g.levels[g.entry.value] < |g.layers|)
  }

  function Insert(env: Env, metric: Metric, g: Graph, node: nat): Graph
    requires Insertable(g, node)
  {
    match g.entry
    case None => g.(entry := Some(node))
    case Some(entry) =>
      var level, top := g.levels[node], g.levels[entry];
      var score := ScoreBy(env, metric, g.rows, g.rows[node].vector);
      var current := Descend(g, score, entry, top, level);
      var linked := LinkDown(env, metric, g, node, score, [current], Min(level, top));
      if level > top then linked.(entry := Some(node)) else linked
  }
}
