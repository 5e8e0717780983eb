/**
  Saving and restoring a built graph (snapshot.rs): structure only, vectors come back from
  the source's rows.
*/
module Snapshot {
  import opened Prelude
  import opened Bytes
  import opened GraphSpec

  const MAGIC: nat := 0x484E_5357
  const VERSION: nat := 1
  const MIN_BYTES_PER_NODE: nat := 10
  const HEADER_LEN: nat := 41

  function MetricCode(m: Option<Metric>): nat {
    match m
    case Some(Cosine) => 1
    case Some(L2) => 2
    case Some(Dot) => 3
    case None => 0
  }

  function MetricFrom(code: nat): Option<Metric> {
    if code == 1 then Some(Cosine) else if code == 2 then Some(L2) else if code == 3 then Some(Dot) else None
  }

  // ----- encode -----

  function EncodeHeader(g: Graph, p: Params): (r: seq<Byte>)
    ensures |r| == HEADER_LEN
  {
    Le(MAGIC, 4) + (Le(VERSION, 2) + (Le(MetricCode(g.metric), 2) + (Le(g.dimension, 4) + (Le(p.m, 4)
    + (Le(p.efConstruction, 4) + (Le(p.seed, 8) + (Le(|g.rows|, 4) + (Le(|g.layers|, 4)
    + (Le(if g.entry.Some? then 1 else 0, 1) + Le(if g.entry.Some? then g.entry.value else 0, 4))))))))))
  }

  function EncodeRows(rows: seq<Row>): (r: seq<Byte>)
    ensures |r| == 8 * |rows|
  {
    if rows == [] then [] else Le(rows[0].id, 8) + EncodeRows(rows[1..])
  }

  function EncodeLevels(levels: seq<nat>): (r: seq<Byte>)
    ensures |r| == |levels|
  {
    if levels == [] then [] else Le(levels[0], 1) + EncodeLevels(levels[1..])
  }

  function EncodeNodes(ns: seq<nat>): (r: seq<Byte>)
    ensures |r| == 4 * |ns|
  {
    if ns == [] then [] else Le(ns[0], 4) + EncodeNodes(ns[1..])
  }

  function EncodeLists(lists: seq<seq<nat>>): (r: seq<Byte>)
    ensures |r| >= 4 * |lists|
  {
    if lists == [] then []
    else Le(|lists[0]|, 4) + (EncodeNodes(lists[0]) + EncodeLists(lists[1..]))
  }

  function EncodeLayers(layers: seq<seq<seq<nat>>>): seq<Byte> {
    if layers == [] then [] else EncodeLists(layers[0]) + EncodeLayers(layers[1..])
  }

  function Encode(g: Graph, p: Params): seq<Byte> {
    EncodeHeader(g, p) + (EncodeRows(g.rows) + (EncodeLevels(g.levels) + EncodeLayers(g.layers)))
  }

  // ----- decode -----

  datatype Header = Header(metric: Metric, dimension: nat, nodes: nat, layers: nat, entry: Option<nat>, paramsMatch: bool)

  function DecodeHeader(b: seq<Byte>, p: Params): Option<Header> {
    if |b| < HEADER_LEN || At(b, 0, 4) != MAGIC || At(b, 4, 2) != VERSION then None
    else
      var metric := MetricFrom(At(b, 6, 2));
      var nodes, layers := At(b, 28, 4), At(b, 32, 4);
      var hasEntry, entry := At(b, 36, 1), At(b, 37, 4);
      if metric == None || nodes * MIN_BYTES_PER_NODE > |b| || layers > MAX_LEVEL + 1 then None
      else if hasEntry > 1 || (hasEntry == 1 && entry >= nodes) then None
      else
        Some(Header(metric.value, At(b, 8, 4), nodes, layers, if hasEntry == 1 then Some(entry) else None,
                    At(b, 12, 4) == p.m && At(b, 16, 4) == p.efConstruction && At(b, 20, 8) == p.seed))
  }

  /** Check every stored row against the source's row in the same position; the position after. */
  function CheckRows(b: seq<Byte>, at: nat, rows: seq<Row>, dimension: nat): Option<nat>
    decreases |rows|
  {
    if rows == [] then Some(at)
    else if at + 8 > |b| || At(b, at, 8) != rows[0].id || |rows[0].vector| != dimension then None
    else CheckRows(b, at + 8, rows[1..], dimension)
  }

  /** `count` node numbers, each below `nodes`. */
  function DecodeNodes(b: seq<Byte>, at: nat, count: nat, nodes: nat): Option<(seq<nat>, nat)>
    decreases count
  {
    if count == 0 then Some(([], at))
    else if at + 4 > |b| || At(b, at, 4) >= nodes then None
    else
      match DecodeNodes(b, at + 4, count - 1, nodes)
      case None => None
      case Some((ns, end)) => Some(([At(b, at, 4)] + ns, end))
  }

  function DecodeLists(b: seq<Byte>, at: nat, count: nat, nodes: nat): Option<(seq<seq<nat>>, nat)>
    decreases count
  {
    if count == 0 then Some(([], at))
    else if at + 4 > |b| || At(b, at, 4) > nodes then None
    else
      match DecodeNodes(b, at + 4, At(b, at, 4), nodes)
      case None => None
      case Some((ns, mid)) =>
        match DecodeLists(b, mid, count - 1, nodes)
        case None => None
        case Some((lists, end)) => Some(([ns] + lists, end))
  }

  function DecodeLayers(b: seq<Byte>, at: nat, count: nat, nodes: nat): Option<(seq<seq<seq<nat>>>, nat)>
    decreases count
  {
    if count == 0 then Some(([], at))
    else
      match DecodeLists(b, at, nodes, nodes)
      case None => None
      case Some((lists, mid)) =>
        match DecodeLayers(b, mid, count - 1, nodes)
        case None => None
        case Some((layers, end)) => Some(([lists] + layers, end))
  }

  /** Rebuild a graph from a snapshot, given the rows it must describe. */
  function Decode(b: seq<Byte>, h: Header, rows: seq<Row>): Option<Graph> {
    if h.nodes != |rows| then None
    else
      match CheckRows(b, HEADER_LEN, rows, h.dimension)
      case None => None
      case Some(at) =>
        if at + h.nodes > |b| then None
        else
          match DecodeLayers(b, at + h.nodes, h.layers, h.nodes)
          case None => None
          case Some((layers, _)) =>
            if h.entry.Some? != (h.nodes > 0) then None
            else Some(Graph(rows, b[at..at + h.nodes], layers, h.entry, h.dimension, Some(h.metric)))
  }

  // ----- Any bytes at all -----

  /** One list per node on every layer, every neighbour and the entry in range. */
  ghost predicate Sane(g: Graph) {
    && |g.levels| == |g.rows| && AllInRange(g)
    && (forall l :: 0 <= l < |g.layers| ==> |g.layers[l]| == |g.rows|)
    && (g.entry.Some? <==> g.rows != [])
    && (g.entry.Some? ==> g.entry.value < |g.rows|)
  }

  lemma {:induction false} DecodeNodesSane(b: seq<Byte>, at: nat, count: nat, nodes: nat)
    ensures var r := DecodeNodes(b, at, count, nodes);
            r.Some? ==> |r.value.0| == count && forall n :: n in r.value.0 ==> n < nodes
    decreases count
  {
    if count > 0 && at + 4 <= |b| {
      DecodeNodesSane(b, at + 4, count - 1, nodes);
    }
  }

  lemma {:induction false} DecodeListsSane(b: seq<Byte>, at: nat, count: nat, nodes: nat)
    ensures var r := DecodeLists(b, at, count, nodes);
            r.Some? ==> (|r.value.0| == count
                         && forall x, n :: 0 <= x < count && n in r.value.0[x] ==> n < nodes)
    decreases count
  {
    if count > 0 && at + 4 <= |b| {
      DecodeNodesSane(b, at + 4, At(b, at, 4), nodes);
      var r := DecodeNodes(b, at + 4, At(b, at, 4), nodes);
      if r.Some? {
        DecodeListsSane(b, r.value.1, count - 1, nodes);
      }
    }
  }

  lemma {:induction false} DecodeLayersSane(b: seq<Byte>, at: nat, count: nat, nodes: nat)
    ensures var r := DecodeLayers(b, at, count, nodes);
            r.Some? ==> (&& |r.value.0| == count
                         && (forall l :: 0 <= l < count ==> |r.value.0[l]| == nodes)
                         && (forall l, x, n :: 0 <= l < count && 0 <= x < |r.value.0[l]| && n in r.value.0[l][x] ==> n < nodes))
    decreases count
  {
    if count > 0 {
      DecodeListsSane(b, at, nodes, nodes);
      var r := DecodeLists(b, at, nodes, nodes);
      if r.Some? {
        DecodeLayersSane(b, r.value.1, count - 1, nodes);
      }
    }
  }

  /** Whatever bytes are restored, the graph is safe to traverse and covers exactly `rows`. */
  lemma RestoredIsSane(b: seq<Byte>, p: Params, rows: seq<Row>)
    ensures var h := DecodeHeader(b, p);
      h.Some? ==>
        var r := Decode(b, h.value, rows);
        r.Some? ==> Sane(r.value) && r.value.rows == rows && forall i :: 0 <= i < |rows| ==> |rows[i].vector| == r.value.dimension
  {
    var h := DecodeHeader(b, p);
    if h.Some? {
      var r := Decode(b, h.value, rows);
      if r.Some? {
        var at := CheckRows(b, HEADER_LEN, rows, h.value.dimension).value;
        DecodeLayersSane(b, at + h.value.nodes, h.value.layers, h.value.nodes);
        CheckRowsDimension(b, HEADER_LEN, rows, h.value.dimension);
      }
    }
  }

  lemma {:induction false} CheckRowsDimension(b: seq<Byte>, at: nat, rows: seq<Row>, dimension: nat)
    requires CheckRows(b, at, rows, dimension).Some?
    ensures CheckRows(b, at, rows, dimension).value == at + 8 * |rows|
    ensures forall i :: 0 <= i < |rows| ==> |rows[i].vector| == dimension
    decreases |rows|
  {
    if rows != [] {
      CheckRowsDimension(b, at + 8, rows[1..], dimension);
    }
  }

  // ----- Restoring what was saved -----

  /** Everything fits the widths it is stored in. */
  ghost predicate Fits(g: Graph, p: Params) {
    && Sane(g) && g.metric.Some?
    && |g.rows| < U32 && g.dimension < U32 && |g.layers| <= MAX_LEVEL + 1
    && p.m < U32 && p.efConstruction < U32 && p.seed < U64
    && (forall i :: 0 <= i < |g.rows| ==> g.rows[i].id < U64 && |g.rows[i].vector| == g.dimension)
    && (forall i :: 0 <= i < |g.levels| ==> g.levels[i] < 256)
    && (forall l :: 0 <= l < |g.layers| ==> ListsFit(g.layers[l], |g.rows|))
    && (g.rows != [] ==> g.layers != [])
  }

  ghost predicate ListsFit(lists: seq<seq<nat>>, nodes: nat) {
    forall x :: 0 <= x < |lists| ==> |lists[x]| <= nodes && forall n :: n in lists[x] ==> n < nodes
  }

  lemma {:induction false} NodesBack(b: seq<Byte>, at: nat, ns: seq<nat>, nodes: nat)
    requires Holds(b, at, EncodeNodes(ns)) && nodes <= U32 && forall n :: n in ns ==> n < nodes
    ensures DecodeNodes(b, at, |ns|, nodes) == Some((ns, at + |EncodeNodes(ns)|))
    decreases |ns|
  {
    hide Holds, Le, At, Pow256;
    if ns != [] {
      Powers();
      assert ns[0] in ns && forall n :: n in ns[1..] ==> n in ns;
      ReadBack(b, at, ns[0], 4, EncodeNodes(ns[1..]));
      NodesBack(b, at + 4, ns[1..], nodes);
      assert ns == [ns[0]] + ns[1..];
    }
  }

  lemma {:induction false} ListsBack(b: seq<Byte>, at: nat, lists: seq<seq<nat>>, nodes: nat)
    requires Holds(b, at, EncodeLists(lists)) && nodes < U32 && ListsFit(lists, nodes)
    ensures DecodeLists(b, at, |lists|, nodes) == Some((lists, at + |EncodeLists(lists)|))
    decreases |lists|
  {
    hide Holds, Le, At, Pow256, EncodeNodes, DecodeNodes;
    if lists != [] {
      Powers();
      var head, rest := EncodeNodes(lists[0]), EncodeLists(lists[1..]);
      ReadBack(b, at, |lists[0]|, 4, head + rest);
      HoldsParts(b, at + 4, head, rest);
      NodesBack(b, at + 4, lists[0], nodes);
      ListsBack(b, at + 4 + |head|, lists[1..], nodes);
      assert lists == [lists[0]] + lists[1..];
    }
  }

  lemma {:induction false} LayersBack(b: seq<Byte>, at: nat, layers: seq<seq<seq<nat>>>, nodes: nat)
    requires Holds(b, at, EncodeLayers(layers)) && nodes < U32
    requires forall l :: 0 <= l < |layers| ==> |layers[l]| == nodes && ListsFit(layers[l], nodes)
    ensures DecodeLayers(b, at, |layers|, nodes) == Some((layers, at + |EncodeLayers(layers)|))
    decreases |layers|
  {
    hide Holds, EncodeLists, DecodeLists, ListsFit;
    if layers != [] {
      HoldsParts(b, at, EncodeLists(layers[0]), EncodeLayers(layers[1..]));
      ListsBack(b, at, layers[0], nodes);
      LayersBack(b, at + |EncodeLists(layers[0])|, layers[1..], nodes);
      assert layers == [layers[0]] + layers[1..];
    }
  }

  /** The same row ids in the same order. */
  predicate SameIds(a: seq<Row>, b: seq<Row>) {
    if a == [] || b == [] then a == b else a[0].id == b[0].id && SameIds(a[1..], b[1..])
  }

  /** The stored rows are accepted exactly against rows with the same ids. */
  lemma {:induction false} RowsBack(b: seq<Byte>, at: nat, saved: seq<Row>, rows: seq<Row>, dimension: nat)
    requires Holds(b, at, EncodeRows(saved)) && |rows| == |saved|
    requires forall i :: 0 <= i < |saved| ==> saved[i].id < U64
    requires forall i :: 0 <= i < |rows| ==> |rows[i].vector| == dimension
    ensures CheckRows(b, at, rows, dimension) == if SameIds(saved, rows) then Some(at + 8 * |rows|) else None
    decreases |rows|
  {
    hide Holds, Le, At, Pow256;
    if rows != [] {
      Powers();
      ReadBack(b, at, saved[0].id, 8, EncodeRows(saved[1..]));
      RowsBack(b, at + 8, saved[1..], rows[1..], dimension);
    }
  }

  lemma {:induction false} LevelsBack(levels: seq<nat>)
    requires forall i :: 0 <= i < |levels| ==> levels[i] < 256
    ensures EncodeLevels(levels) == levels
  {
    if levels != [] {
      LevelsBack(levels[1..]);
      assert Le(levels[0], 1) == [levels[0] % 256];
      assert levels == [levels[0]] + levels[1..];
    }
  }

  /** The eleven header fields come back from where they were written. */
  lemma HeaderFields(b: seq<Byte>, g: Graph, p: Params)
    requires Fits(g, p) && Holds(b, 0, EncodeHeader(g, p))
    ensures |b| >= HEADER_LEN
    ensures At(b, 0, 4) == MAGIC && At(b, 4, 2) == VERSION && At(b, 6, 2) == MetricCode(g.metric)
    ensures At(b, 8, 4) == g.dimension && At(b, 12, 4) == p.m && At(b, 16, 4) == p.efConstruction
    ensures At(b, 20, 8) == p.seed && At(b, 28, 4) == |g.rows| && At(b, 32, 4) == |g.layers|
    ensures At(b, 36, 1) == if g.entry.Some? then 1 else 0
    ensures At(b, 37, 4) == if g.entry.Some? then g.entry.value else 0
  {
    hide Holds, Le, At, Pow256;
    Powers();
    var flag: nat, entry := if g.entry.Some? then 1 else 0, if g.entry.Some? then g.entry.value else 0;
    var f10 := Le(flag, 1) + Le(entry, 4);
    var f9 := Le(|g.layers|, 4) + f10;
    var f8 := Le(|g.rows|, 4) + f9;
    var f7 := Le(p.seed, 8) + f8;
    var f6 := Le(p.efConstruction, 4) + f7;
    var f5 := Le(p.m, 4) + f6;
    var f4 := Le(g.dimension, 4) + f5;
    var f3 := Le(MetricCode(g.metric), 2) + f4;
    var f2 := Le(VERSION, 2) + f3;
    ReadBack(b, 0, MAGIC, 4, f2);
    ReadBack(b, 4, VERSION, 2, f3);
    ReadBack(b, 6, MetricCode(g.metric), 2, f4);
    ReadBack(b, 8, g.dimension, 4, f5);
    ReadBack(b, 12, p.m, 4, f6);
    ReadBack(b, 16, p.efConstruction, 4, f7);
    ReadBack(b, 20, p.seed, 8, f8);
    ReadBack(b, 28, |g.rows|, 4, f9);
    ReadBack(b, 32, |g.layers|, 4, f10);
    ReadBack(b, 36, flag, 1, Le(entry, 4));
    HoldsLe(b, 37, entry, 4);
  }

  lemma HeaderBack(b: seq<Byte>, g: Graph, p: Params)
    requires Fits(g, p) && Holds(b, 0, EncodeHeader(g, p)) && |g.rows| * MIN_BYTES_PER_NODE <= |b|
    ensures DecodeHeader(b, p) == Some(Header(g.metric.value, g.dimension, |g.rows|, |g.layers|, g.entry, true))
  {
    hide Holds, At, EncodeHeader, AllInRange;
    HeaderFields(b, g, p);
  }

  /**
    A saved graph is restored against rows with the same ids in the same order, as itself
    with those rows, and against no others.
  */
  lemma RestoresSaved(g: Graph, p: Params, rows: seq<Row>)
    requires Fits(g, p) && forall i :: 0 <= i < |rows| ==> |rows[i].vector| == g.dimension
    ensures DecodeHeader(Encode(g, p), p) == Some(HeaderOf(g))
    ensures Decode(Encode(g, p), HeaderOf(g), rows) == if SameIds(g.rows, rows) then Some(g.(rows := rows)) else None
  {
    hide Holds, At, EncodeHeader, EncodeRows, EncodeLevels, EncodeLayers, DecodeHeader, DecodeLayers, CheckRows;
    var b := Encode(g, p);
    var ids, levels, layers := EncodeRows(g.rows), EncodeLevels(g.levels), EncodeLayers(g.layers);
    WholeHolds(b);
    HoldsParts(b, 0, EncodeHeader(g, p), ids + (levels + layers));
    HoldsParts(b, HEADER_LEN, ids, levels + layers);
    HoldsParts(b, HEADER_LEN + |ids|, levels, layers);
    EnoughBytes(g);
    HeaderBack(b, g, p);
    LevelsBack(g.levels);
    HeldSlice(b, HEADER_LEN + |ids|, levels);
    if |rows| == |g.rows| {
      RowsBack(b, HEADER_LEN, g.rows, rows, g.dimension);
      LayersBack(b, HEADER_LEN + |ids| + |levels|, g.layers, |g.rows|);
    } else {
      DifferentLengths(g.rows, rows);
    }
  }

  function HeaderOf(g: Graph): Header
    requires g.metric.Some?
  {
    Header(g.metric.value, g.dimension, |g.rows|, |g.layers|, g.entry, true)
  }

  lemma {:induction false} DifferentLengths(a: seq<Row>, b: seq<Row>)
    requires |a| != |b|
    ensures !SameIds(a, b)
  {
    if a != [] && b != [] {
      DifferentLengths(a[1..], b[1..]);
    }
  }

  /** Thirteen bytes a node at least, so the count check never refuses a saved graph. */
  lemma EnoughBytes(g: Graph)
    requires (forall l :: 0 <= l < |g.layers| ==> |g.layers[l]| == |g.rows|) && (g.rows != [] ==> g.layers != [])
    requires |g.levels| == |g.rows|
    ensures HEADER_LEN + |EncodeRows(g.rows)| + |EncodeLevels(g.levels)| + |EncodeLayers(g.layers)| >= MIN_BYTES_PER_NODE * |g.rows|
  {
    if g.rows != [] {
      assert |EncodeLayers(g.layers)| >= |EncodeLists(g.layers[0])|;
    }
  }
}
