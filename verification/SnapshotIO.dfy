/** Saving and restoring with an output buffer and a cursor, as snapshot.rs does it. */
module SnapshotIO {
  import opened Prelude
  import opened Bytes
  import opened GraphSpec
  import S = Snapshot

  // ----- Writing -----

  method WriteNodes(out: seq<Byte>, ns: seq<nat>) returns (r: seq<Byte>)
    ensures r == out + S.EncodeNodes(ns)
  {
    hide Le;
    r := out;
    assert ns[0..] == ns;
    for i := 0 to |ns|
      invariant r + S.EncodeNodes(ns[i..]) == out + S.EncodeNodes(ns)
    {
      assert ns[i..][0] == ns[i] && ns[i..][1..] == ns[i + 1..];
      r := r + Le(ns[i], 4);
    }
  }

  method WriteLists(out: seq<Byte>, lists: seq<seq<nat>>) returns (r: seq<Byte>)
    ensures r == out + S.EncodeLists(lists)
  {
    hide Le, S.EncodeNodes;
    r := out;
    assert lists[0..] == lists;
    for i := 0 to |lists|
      invariant r + S.EncodeLists(lists[i..]) == out + S.EncodeLists(lists)
    {
      assert lists[i..][0] == lists[i] && lists[i..][1..] == lists[i + 1..];
      ghost var rest := S.EncodeLists(lists[i + 1..]);
      ghost var before := r;
      r := WriteNodes(r + Le(|lists[i]|, 4), lists[i]);
      assert before + (Le(|lists[i]|, 4) + (S.EncodeNodes(lists[i]) + rest)) == r + rest;
    }
  }

  /** Serialise a graph. */
  method Encode(g: Graph, p: Params) returns (out: seq<Byte>)
    ensures out == S.Encode(g, p)
  {
    hide Le, S.EncodeHeader, S.EncodeLists, S.EncodeLevels;
    var header := S.EncodeHeader(g, p);
    out := header;
    assert g.rows[0..] == g.rows && g.layers[0..] == g.layers;
    for i := 0 to |g.rows|
      invariant out + S.EncodeRows(g.rows[i..]) == header + S.EncodeRows(g.rows)
    {
      assert g.rows[i..][0] == g.rows[i] && g.rows[i..][1..] == g.rows[i + 1..];
      out := out + Le(g.rows[i].id, 8);
    }
    assert out == header + S.EncodeRows(g.rows);
    out := out + S.EncodeLevels(g.levels);
    ghost var fixed := out;
    for l := 0 to |g.layers|
      invariant out + S.EncodeLayers(g.layers[l..]) == fixed + S.EncodeLayers(g.layers)
    {
      assert g.layers[l..][0] == g.layers[l] && g.layers[l..][1..] == g.layers[l + 1..];
      ghost var rest := S.EncodeLayers(g.layers[l + 1..]);
      ghost var before := out;
      out := WriteLists(out, g.layers[l]);
      assert before + (S.EncodeLists(g.layers[l]) + rest) == out + rest;
    }
    assert out == fixed + S.EncodeLayers(g.layers);
    assert out == header + (S.EncodeRows(g.rows) + (S.EncodeLevels(g.levels) + S.EncodeLayers(g.layers)));
  }

  // ----- Reading -----

  /** A little-endian reader that stops, rather than fails, at the end of input. */
  class Cursor {
    const bytes: seq<Byte>
    var at: nat

    constructor (bytes: seq<Byte>)
      ensures this.bytes == bytes && at == 0
    {
      this.bytes, at := bytes, 0;
    }

    method Take(n: nat) returns (r: Option<seq<Byte>>)
      modifies this
      ensures r == if old(at) + n <= |bytes| then Some(bytes[old(at)..old(at) + n]) else None
      ensures at == if r.Some? then old(at) + n else old(at)
    {
      if at + n > |bytes| {
        return None;
      }
      r := Some(bytes[at..at + n]);
      at := at + n;
    }

    method Uint(k: nat) returns (r: Option<nat>)
      modifies this
      ensures r == if old(at) + k <= |bytes| then Some(At(bytes, old(at), k)) else None
      ensures at == if r.Some? then old(at) + k else old(at)
    {
      var s := Take(k);
      r := if s.Some? then Some(FromLe(s.value)) else None;
    }
  }

  /** What a loop still to run makes of what it has so far. */
  ghost function Prepend<T>(sofar: seq<T>, rest: Option<(seq<T>, nat)>): Option<(seq<T>, nat)> {
    match rest
    case None => None
    case Some((xs, end)) => Some((sofar + xs, end))
  }

  lemma PrependLaws<T>(sofar: seq<T>, x: T, rest: Option<(seq<T>, nat)>)
    ensures Prepend([], rest) == rest
    ensures Prepend(sofar + [x], rest) == Prepend(sofar, Prepend([x], rest))
    ensures rest.Some? && rest.value.0 == [] ==> Prepend(sofar, rest) == Some((sofar, rest.value.1))
  {
    if rest.Some? {
      var xs := rest.value.0;
      assert [] + xs == xs && (sofar + [x]) + xs == sofar + ([x] + xs) && sofar + [] == sofar;
    }
  }

  method ReadNodes(c: Cursor, count: nat, nodes: nat) returns (r: Option<seq<nat>>)
    modifies c
    ensures var spec := S.DecodeNodes(c.bytes, old(c.at), count, nodes);
            if r.Some? then spec == Some((r.value, c.at)) else spec == None
  {
    hide At;
    var ns: seq<nat> := [];
    ghost var spec := S.DecodeNodes(c.bytes, c.at, count, nodes);
    PrependLaws(ns, 0, spec);
    for i := 0 to count
      invariant spec == Prepend(ns, S.DecodeNodes(c.bytes, c.at, count - i, nodes))
    {
      var n := c.Uint(4);
      if n == None || n.value >= nodes {
        return None;
      }
      PrependLaws(ns, n.value, S.DecodeNodes(c.bytes, c.at, count - i - 1, nodes));
      ns := ns + [n.value];
    }
    PrependLaws(ns, 0, S.DecodeNodes(c.bytes, c.at, 0, nodes));
    r := Some(ns);
  }

  method ReadLists(c: Cursor, count: nat, nodes: nat) returns (r: Option<seq<seq<nat>>>)
    modifies c
    ensures var spec := S.DecodeLists(c.bytes, old(c.at), count, nodes);
            if r.Some? then spec == Some((r.value, c.at)) else spec == None
  {
    hide At, S.DecodeNodes;
    var lists: seq<seq<nat>> := [];
    ghost var spec := S.DecodeLists(c.bytes, c.at, count, nodes);
    PrependLaws(lists, [], spec);
    for i := 0 to count
      invariant spec == Prepend(lists, S.DecodeLists(c.bytes, c.at, count - i, nodes))
    {
      var n := c.Uint(4);
      if n == None || n.value > nodes {
        return None;
      }
      var ns := ReadNodes(c, n.value, nodes);
      if ns == None {
        return None;
      }
      PrependLaws(lists, ns.value, S.DecodeLists(c.bytes, c.at, count - i - 1, nodes));
      lists := lists + [ns.value];
    }
    PrependLaws(lists, [], S.DecodeLists(c.bytes, c.at, 0, nodes));
    r := Some(lists);
  }

  method ReadLayers(c: Cursor, count: nat, nodes: nat) returns (r: Option<seq<seq<seq<nat>>>>)
    modifies c
    ensures var spec := S.DecodeLayers(c.bytes, old(c.at), count, nodes);
            if r.Some? then spec == Some((r.value, c.at)) else spec == None
  {
    hide S.DecodeLists;
    var layers: seq<seq<seq<nat>>> := [];
    ghost var spec := S.DecodeLayers(c.bytes, c.at, count, nodes);
    PrependLaws(layers, [], spec);
    for i := 0 to count
      invariant spec == Prepend(layers, S.DecodeLayers(c.bytes, c.at, count - i, nodes))
    {
      var lists := ReadLists(c, nodes, nodes);
      if lists == None {
        return None;
      }
      PrependLaws(layers, lists.value, S.DecodeLayers(c.bytes, c.at, count - i - 1, nodes));
      layers := layers + [lists.value];
    }
    PrependLaws(layers, [], S.DecodeLayers(c.bytes, c.at, 0, nodes));
    r := Some(layers);
  }

  method CheckRows(c: Cursor, rows: seq<Row>, dimension: nat) returns (ok: bool)
    modifies c
    ensures S.CheckRows(c.bytes, old(c.at), rows, dimension) == if ok then Some(c.at) else None
  {
    hide At;
    assert rows[0..] == rows;
    for i := 0 to |rows|
      invariant S.CheckRows(c.bytes, c.at, rows[i..], dimension) == S.CheckRows(c.bytes, old(c.at), rows, dimension)
    {
      assert rows[i..][0] == rows[i] && rows[i..][1..] == rows[i + 1..];
      var id := c.Uint(8);
      if id == None || id.value != rows[i].id || |rows[i].vector| != dimension {
        return false;
      }
    }
    ok := true;
  }

  /** Rebuild a graph from a snapshot, given the rows it must describe. */
  method Decode(bytes: seq<Byte>, h: S.Header, rows: seq<Row>) returns (g: Option<Graph>)
    requires S.HEADER_LEN <= |bytes|
    ensures g == S.Decode(bytes, h, rows)
  {
    hide S.CheckRows, S.DecodeLayers;
    if h.nodes != |rows| {
      return None;
    }
    var c := new Cursor(bytes);
    var _ := c.Take(S.HEADER_LEN);
    var ok := CheckRows(c, rows, h.dimension);
    if !ok {
      return None;
    }
    var levels := c.Take(h.nodes);
    if levels == None {
      return None;
    }
    var layers := ReadLayers(c, h.layers, h.nodes);
    if layers == None || h.entry.Some? != (h.nodes > 0) {
      return None;
    }
    g := Some(Graph(rows, levels.value, layers.value, h.entry, h.dimension, Some(h.metric)));
  }
}
