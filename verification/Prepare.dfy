/**
  `HnswIndex::prepare` as a protocol: any number of threads, each taking the steps of one
  call at a time, over one shared graph behind a lock and one snapshot slot.  A step is
  what happens while a lock is held, or between two acquisitions.
*/
module Prepare {
  import opened Prelude
  import opened Bytes
  import opened GraphSpec
  import opened GraphInvariant
  import S = Snapshot
  import Search

  /** What is fixed over a run: the environment, one metric, one dimension, and what each row id holds. */
  datatype World = World(env: Env, metric: Metric, dimension: nat, row: nat -> Row)

  /** Rows a source may list: each is what its id holds. */
  ghost predicate Faithful(w: World, rows: seq<Row>) {
    && |rows| < U32
    && forall i :: 0 <= i < |rows| ==>
         rows[i] == w.row(rows[i].id) && rows[i].id < U64 && |rows[i].vector| == w.dimension
  }

  ghost predicate WorldOk(w: World) {
    && w.dimension < U32
    && w.env.params.m < U32 && w.env.params.efConstruction < U32 && w.env.params.seed < U64
    && forall r :: w.env.level(r) <= MAX_LEVEL
  }

  /** Where a thread is within one call over `source`. */
  datatype Thread =
    | Idle
    | Started(source: seq<Row>)
    | Deciding(source: seq<Row>, restored: Option<Graph>)
    | Storing(bytes: seq<Byte>)
    | Built(source: seq<Row>, graph: Graph)
    | Replacing(source: seq<Row>, graph: Graph)

  datatype State = State(shared: Graph, saved: Option<seq<Byte>>, threads: map<nat, Thread>)

  const DEFAULT_GRAPH := Graph([], [], [], None, 0, None)

  // ----- The tests the code makes -----

  predicate IsValidFor(g: Graph, rows: nat, dimension: nat, metric: Metric) {
    g.metric == Some(metric) && g.dimension == dimension && |g.rows| == rows
  }

  predicate IsPrefixOf(g: Graph, rows: seq<Row>, dimension: nat, metric: Metric) {
    && g.metric == Some(metric) && g.dimension == dimension
    && |g.rows| <= |rows|
    && S.SameIds(g.rows, rows[..|g.rows|])
  }

  /** What loading a snapshot yields: nothing, or the graph it holds if it describes these rows. */
  function Restore(w: World, saved: Option<seq<Byte>>, rows: seq<Row>): Option<Graph> {
    if saved == None then None
    else
      var h := S.DecodeHeader(saved.value, w.env.params);
      if h == None || h.value.metric != w.metric || h.value.dimension != w.dimension
         || h.value.nodes != |rows| || !h.value.paramsMatch then None
      else S.Decode(saved.value, h.value, rows)
  }

  /** Under the write lock, at the end: a graph already as good, or covering more, is kept. */
  predicate KeepExisting(w: World, shared: Graph, rows: nat, graph: Graph) {
    || IsValidFor(shared, rows, w.dimension, w.metric)
    || (shared.metric == Some(w.metric) && shared.dimension == w.dimension && |shared.rows| > |graph.rows|)
  }

  /** Extension is defined on sound graphs, which is all the lock ever guards. */
  ghost function Extended(w: World, g: Graph, tail: seq<Row>): Graph {
    if GraphOk(w.env, g) then Extend(w.env, w.metric, g, tail) else g
  }

  // ----- Steps -----

  ghost predicate Moves(s: State, s': State, t: nat, from: Thread, to: Thread) {
    (if t in s.threads then s.threads[t] else Idle) == from && s'.threads == s.threads[t := to]
  }

  /** A call begins; or it returns at once because the counts already agree. */
  ghost predicate Begin(w: World, s: State, s': State, t: nat, rows: seq<Row>) {
    && Faithful(w, rows) && s'.shared == s.shared && s'.saved == s.saved
    && Moves(s, s', t, Idle, if IsValidFor(s.shared, |rows|, w.dimension, w.metric) then Idle else Started(rows))
  }

  /** The snapshot is read; reading may find nothing whatever is stored. */
  ghost predicate Load(w: World, s: State, s': State, t: nat, rows: seq<Row>, readable: bool) {
    && s'.shared == s.shared && s'.saved == s.saved
    && Moves(s, s', t, Started(rows), Deciding(rows, if readable then Restore(w, s.saved, rows) else None))
  }

  /** A restored graph goes straight to the replacement. */
  ghost predicate Adopt(w: World, s: State, s': State, t: nat, rows: seq<Row>, g: Graph) {
    && s'.shared == s.shared && s'.saved == s.saved
    && Moves(s, s', t, Deciding(rows, Some(g)), Replacing(rows, g))
  }

  /** Under the write lock: another thread did the work, or the graph is extended in place. */
  ghost predicate Decide(w: World, s: State, s': State, t: nat, rows: seq<Row>) {
    && s'.saved == s.saved
    && if IsValidFor(s.shared, |rows|, w.dimension, w.metric) then
         s'.shared == s.shared && Moves(s, s', t, Deciding(rows, None), Idle)
       else if |s.shared.rows| > 0 && IsPrefixOf(s.shared, rows, w.dimension, w.metric) then
         && s'.shared == Extended(w, s.shared, rows[|s.shared.rows|..])
         && Moves(s, s', t, Deciding(rows, None), Storing(S.Encode(s'.shared, w.env.params)))
       else
         && s'.shared == s.shared
         && Moves(s, s', t, Deciding(rows, None), Built(rows, Build(w.env, w.metric, w.dimension, rows)))
  }

  /** The encoded graph is written out, or the write fails and nobody minds. */
  ghost predicate Store(w: World, s: State, s': State, t: nat, bytes: seq<Byte>, written: bool) {
    && s'.shared == s.shared && s'.saved == (if written then Some(bytes) else s.saved)
    && Moves(s, s', t, Storing(bytes), Idle)
  }

  ghost predicate StoreBuilt(w: World, s: State, s': State, t: nat, rows: seq<Row>, g: Graph, written: bool) {
    && s'.shared == s.shared && s'.saved == (if written then Some(S.Encode(g, w.env.params)) else s.saved)
    && Moves(s, s', t, Built(rows, g), Replacing(rows, g))
  }

  ghost predicate Replace(w: World, s: State, s': State, t: nat, rows: seq<Row>, g: Graph) {
    && s'.saved == s.saved
    && s'.shared == (if KeepExisting(w, s.shared, |rows|, g) then s.shared else g)
    && Moves(s, s', t, Replacing(rows, g), Idle)
  }

  /** One step of one thread `t`. */
  datatype Action =
    | DoBegin(t: nat, rows: seq<Row>)
    | DoLoad(t: nat, rows: seq<Row>, readable: bool)
    | DoAdopt(t: nat, rows: seq<Row>, g: Graph)
    | DoDecide(t: nat, rows: seq<Row>)
    | DoStore(t: nat, bytes: seq<Byte>, written: bool)
    | DoStoreBuilt(t: nat, rows: seq<Row>, g: Graph, written: bool)
    | DoReplace(t: nat, rows: seq<Row>, g: Graph)

  ghost predicate Step(w: World, s: State, s': State, a: Action) {
    match a
    case DoBegin(t, rows) => Begin(w, s, s', t, rows)
    case DoLoad(t, rows, readable) => Load(w, s, s', t, rows, readable)
    case DoAdopt(t, rows, g) => Adopt(w, s, s', t, rows, g)
    case DoDecide(t, rows) => Decide(w, s, s', t, rows)
    case DoStore(t, bytes, written) => Store(w, s, s', t, bytes, written)
    case DoStoreBuilt(t, rows, g, written) => StoreBuilt(w, s, s', t, rows, g, written)
    case DoReplace(t, rows, g) => Replace(w, s, s', t, rows, g)
  }

  ghost predicate Next(w: World, s: State, s': State) {
    exists a :: Step(w, s, s', a)
  }

  ghost predicate Initial(s: State) {
    s.shared == DEFAULT_GRAPH && s.saved == None && s.threads == map[]
  }

  // ----- The invariant -----

  /** Exactly the graph `build_from` makes of faithful rows. */
  ghost predicate IsBuilt(w: World, g: Graph) {
    Faithful(w, g.rows) && g == Build(w.env, w.metric, w.dimension, g.rows)
  }

  ghost predicate BytesOk(w: World, bytes: seq<Byte>) {
    exists g :: IsBuilt(w, g) && bytes == S.Encode(g, w.env.params)
  }

  ghost predicate ThreadOk(w: World, t: Thread) {
    match t
    case Idle => true
    case Started(rows) => Faithful(w, rows)
    case Deciding(rows, None) => Faithful(w, rows)
    case Deciding(rows, Some(g)) => Faithful(w, rows) && IsBuilt(w, g) && g.rows == rows
    case Storing(bytes) => BytesOk(w, bytes)
    case Built(rows, g) => Faithful(w, rows) && IsBuilt(w, g) && g.rows == rows
    case Replacing(rows, g) => Faithful(w, rows) && IsBuilt(w, g) && g.rows == rows
  }

  ghost predicate Inv(w: World, s: State) {
    && (s.shared == DEFAULT_GRAPH || IsBuilt(w, s.shared))
    && (s.saved.Some? ==> BytesOk(w, s.saved.value))
    && (forall t :: t in s.threads ==> ThreadOk(w, s.threads[t]))
  }

  lemma {:induction false} SameIdsSameRows(w: World, a: seq<Row>, b: seq<Row>)
    requires Faithful(w, a) && Faithful(w, b) && S.SameIds(a, b)
    ensures a == b
  {
    if a != [] && b != [] {
      SameIdsSameRows(w, a[1..], b[1..]);
      assert a[0] == w.row(a[0].id) && b[0] == w.row(b[0].id);
      assert a == [a[0]] + a[1..] && b == [b[0]] + b[1..];
    }
  }

  lemma {:induction false} SameIdsReflexive(a: seq<Row>)
    ensures S.SameIds(a, a)
  {
    if a != [] {
      SameIdsReflexive(a[1..]);
    }
  }

  lemma ListFits(levels: seq<nat>, layer: nat, cap: nat, x: nat, list: seq<nat>)
    requires ListOk(levels, layer, cap, x, list)
    ensures |list| <= |levels|
  {
    DistinctExactly(list);
    assert Members(list) <= Search.Below(|levels|);
    SubsetCount(Members(list), Search.Below(|levels|));
  }

  /** Whatever is built fits the widths a snapshot stores it in. */
  lemma BuiltFits(w: World, g: Graph)
    requires WorldOk(w) && IsBuilt(w, g)
    ensures GraphOk(w.env, g) && S.Fits(g, w.env.params)
  {
    hide Build;
    assert GraphOk(w.env, g);
    LayersInRange(w.env, g);
    forall l | 0 <= l < |g.layers|
      ensures |g.layers[l]| == |g.rows| && S.ListsFit(g.layers[l], |g.rows|)
    {
      forall x | 0 <= x < |g.layers[l]|
        ensures |g.layers[l][x]| <= |g.rows|
      {
        ListFits(g.levels, l, Cap(w.env.params, l), x, g.layers[l][x]);
      }
    }
  }

  /** A snapshot that passes validation is the graph that would be built now. */
  lemma RestoreIsBuild(w: World, saved: Option<seq<Byte>>, rows: seq<Row>)
    requires WorldOk(w) && Faithful(w, rows) && (saved.Some? ==> BytesOk(w, saved.value))
    ensures var r := Restore(w, saved, rows); r.Some? ==> IsBuilt(w, r.value) && r.value.rows == rows
  {
    if saved.Some? {
      var g :| IsBuilt(w, g) && saved.value == S.Encode(g, w.env.params);
      BuiltFits(w, g);
      hide *;
      RestoreOne(w, g, rows);
    }
  }

  lemma RestoreOne(w: World, g: Graph, rows: seq<Row>)
    requires Faithful(w, rows) && IsBuilt(w, g) && S.Fits(g, w.env.params)
    ensures var r := Restore(w, Some(S.Encode(g, w.env.params)), rows);
            r.Some? ==> IsBuilt(w, r.value) && r.value.rows == rows
  {
    hide Build, S.Encode, S.DecodeHeader, S.Decode, S.Fits;
    S.RestoresSaved(g, w.env.params, rows);
    if S.SameIds(g.rows, rows) {
      SameIdsSameRows(w, g.rows, rows);
    }
  }

  /** A stored snapshot of these very rows is used, and one of any other rows is not. */
  lemma RestoreUsed(w: World, g: Graph, rows: seq<Row>)
    requires WorldOk(w) && IsBuilt(w, g) && Faithful(w, rows)
    ensures Restore(w, Some(S.Encode(g, w.env.params)), rows) == if g.rows == rows then Some(g) else None
  {
    BuiltFits(w, g);
    hide Build, GraphOk, S.Encode, S.DecodeHeader, S.Decode, S.Fits, S.SameIds;
    S.RestoresSaved(g, w.env.params, rows);
    if S.SameIds(g.rows, rows) {
      SameIdsSameRows(w, g.rows, rows);
    }
    SameIdsReflexive(rows);
    assert g.rows == rows ==> g.(rows := rows) == g;
  }

  /** Extending a built graph by the rest of the source is building over the source. */
  lemma ExtendIsBuild(w: World, g: Graph, rows: seq<Row>)
    requires IsBuilt(w, g) && Faithful(w, rows) && IsPrefixOf(g, rows, w.dimension, w.metric)
    ensures var r := Extended(w, g, rows[|g.rows|..]); IsBuilt(w, r) && r.rows == rows
  {
    hide Build, Extend, GraphOk;
    var n := |g.rows|;
    SameIdsSameRows(w, g.rows, rows[..n]);
    assert rows[..n] + rows[n..] == rows;
    ExtendIsRebuild(w.env, w.metric, w.dimension, g.rows, rows[n..]);
  }

  ghost predicate Progress(w: World, s: State, s': State) {
    Inv(w, s') && |s'.shared.rows| >= |s.shared.rows|
  }

  lemma DecideOk(w: World, s: State, s': State, t: nat, rows: seq<Row>)
    requires WorldOk(w) && Inv(w, s) && Decide(w, s, s', t, rows)
    ensures Progress(w, s, s')
  {
    hide Build, Extended, IsPrefixOf, S.Encode;
    assert Faithful(w, rows);
    if !IsValidFor(s.shared, |rows|, w.dimension, w.metric) && |s.shared.rows| > 0 && IsPrefixOf(s.shared, rows, w.dimension, w.metric) {
      ExtendIsBuild(w, s.shared, rows);
      PrefixLength(s.shared, rows, w.dimension, w.metric);
    }
  }

  lemma PrefixLength(g: Graph, rows: seq<Row>, dimension: nat, metric: Metric)
    requires IsPrefixOf(g, rows, dimension, metric)
    ensures |g.rows| <= |rows|
  {
  }

  lemma LoadOk(w: World, s: State, s': State, t: nat, rows: seq<Row>, readable: bool)
    requires WorldOk(w) && Inv(w, s) && Load(w, s, s', t, rows, readable)
    ensures Progress(w, s, s')
  {
    hide Build, Restore;
    RestoreIsBuild(w, s.saved, rows);
  }

  lemma ReplaceOk(w: World, s: State, s': State, t: nat, rows: seq<Row>, g: Graph)
    requires Inv(w, s) && Replace(w, s, s', t, rows, g)
    ensures Progress(w, s, s')
  {
    hide Build;
    assert ThreadOk(w, Replacing(rows, g));
  }

  lemma StepOk(w: World, s: State, s': State, a: Action)
    requires WorldOk(w) && Inv(w, s) && Step(w, s, s', a)
    ensures Progress(w, s, s')
  {
    hide Build, S.Encode, Decide, Load, Replace;
    match a
    case DoLoad(t, rows, readable) => LoadOk(w, s, s', t, rows, readable);
    case DoDecide(t, rows) => DecideOk(w, s, s', t, rows);
    case DoReplace(t, rows, g) => ReplaceOk(w, s, s', t, rows, g);
    case _ =>
  }

  // ----- Every run -----

  ghost predicate IsRun(w: World, run: seq<State>) {
    && run != [] && Initial(run[0])
    && forall i :: 0 < i < |run| ==> Next(w, run[i - 1], run[i])
  }

  /**
    Over every interleaving of calls: the shared graph is always exactly what building
    over its rows gives, every snapshot is one of those graphs, and the number of rows
    covered never goes down.
  */
  lemma {:induction false} EveryRun(w: World, run: seq<State>, i: nat, j: nat)
    requires WorldOk(w) && IsRun(w, run) && i <= j < |run|
    ensures Inv(w, run[j]) && |run[i].shared.rows| <= |run[j].shared.rows|
    decreases j
  {
    hide Step, Build;
    if j > 0 {
      EveryRun(w, run, if i < j then i else j - 1, j - 1);
      assert Next(w, run[j - 1], run[j]);
      var a :| Step(w, run[j - 1], run[j], a);
      StepOk(w, run[j - 1], run[j], a);
    }
  }

  // ----- When one call makes the graph fit the source -----

  function ThreadOf(s: State, t: nat): Thread {
    if t in s.threads then s.threads[t] else Idle
  }

  /** Thread `t`, in the middle of its call, takes a step. */
  ghost predicate LoneMove(w: World, t: nat, s: State, s': State) {
    ThreadOf(s, t) != Idle && exists a: Action :: a.t == t && Step(w, s, s', a)
  }

  /** One call of thread `t` over `rows`, nobody else moving, from its beginning to its return. */
  ghost predicate Alone(w: World, t: nat, rows: seq<Row>, run: seq<State>) {
    && |run| > 1 && Begin(w, run[0], run[1], t, rows) && ThreadOf(run[|run| - 1], t) == Idle
    && forall i :: 1 < i < |run| ==> LoneMove(w, t, run[i - 1], run[i])
  }

  /** What a caller can compare before calling: the source has grown past the graph, or is its rows. */
  ghost predicate WillFit(g: Graph, rows: seq<Row>) {
    |g.rows| < |rows| || g.rows == rows
  }

  /** How far a lone call from `s0` has come. */
  ghost predicate OnTrack(w: World, s0: State, s: State, t: nat, rows: seq<Row>) {
    var untouched := s.shared == s0.shared && !IsValidFor(s0.shared, |rows|, w.dimension, w.metric);
    match ThreadOf(s, t)
    case Idle => s.shared.rows == rows <==> WillFit(s0.shared, rows)
    case Started(r) => r == rows && untouched
    case Deciding(r, g) => r == rows && untouched && (g.Some? ==> g.value.rows == rows)
    case Built(r, g) => r == rows && untouched && g.rows == rows
    case Replacing(r, g) => r == rows && untouched && g.rows == rows
    case Storing(_) => s.shared.rows == rows && WillFit(s0.shared, rows)
  }

  /** The shared graph is empty and unmarked, or marked with this metric and dimension. */
  lemma Marked(w: World, g: Graph)
    requires g == DEFAULT_GRAPH || IsBuilt(w, g)
    ensures g.rows == [] || (g.metric == Some(w.metric) && g.dimension == w.dimension)
    ensures g.metric.Some? ==> g.metric == Some(w.metric) && g.dimension == w.dimension
  {
    hide Faithful;
  }

  lemma LoneDecide(w: World, s0: State, s: State, s': State, t: nat, rows: seq<Row>)
    requires WorldOk(w) && Inv(w, s) && OnTrack(w, s0, s, t, rows) && Decide(w, s, s', t, rows)
    ensures OnTrack(w, s0, s', t, rows)
  {
    hide Build, Extended, IsPrefixOf, S.Encode, WorldOk, BytesOk;
    Marked(w, s.shared);
    assert Faithful(w, rows) by { assert ThreadOk(w, ThreadOf(s, t)); }
    if |s.shared.rows| > 0 && IsPrefixOf(s.shared, rows, w.dimension, w.metric) {
      ExtendIsBuild(w, s.shared, rows);
      PrefixLength(s.shared, rows, w.dimension, w.metric);
    }
  }

  lemma LoneReplace(w: World, s0: State, s: State, s': State, t: nat, rows: seq<Row>, g: Graph)
    requires Inv(w, s) && OnTrack(w, s0, s, t, rows) && Replace(w, s, s', t, rows, g)
    ensures OnTrack(w, s0, s', t, rows)
  {
    hide Build, BytesOk, Faithful;
    Marked(w, s.shared);
  }

  lemma LoneLoad(w: World, s0: State, s: State, s': State, t: nat, rows: seq<Row>, readable: bool)
    requires WorldOk(w) && Inv(w, s) && OnTrack(w, s0, s, t, rows) && Load(w, s, s', t, rows, readable)
    ensures OnTrack(w, s0, s', t, rows)
  {
    hide Build, Restore, WorldOk, BytesOk;
    assert Faithful(w, rows) by { assert ThreadOk(w, ThreadOf(s, t)); }
    RestoreIsBuild(w, s.saved, rows);
  }

  lemma LoneStep(w: World, s0: State, s: State, s': State, t: nat, rows: seq<Row>, a: Action)
    requires WorldOk(w) && Inv(w, s) && OnTrack(w, s0, s, t, rows) && a.t == t && ThreadOf(s, t) != Idle && Step(w, s, s', a)
    ensures OnTrack(w, s0, s', t, rows)
  {
    hide Build, S.Encode, Decide, Load, Replace, WorldOk, Inv, Faithful;
    match a
    case DoBegin(_, _) =>
    case DoLoad(_, r, readable) => LoneLoad(w, s0, s, s', t, rows, readable) by { assert r == rows by { Whose(s, s', t, a, w); } }
    case DoAdopt(_, _, _) =>
    case DoDecide(_, r) => LoneDecide(w, s0, s, s', t, rows) by { assert r == rows by { Whose(s, s', t, a, w); } }
    case DoStore(_, _, _) =>
    case DoStoreBuilt(_, _, _, _) =>
    case DoReplace(_, r, g) => LoneReplace(w, s0, s, s', t, rows, g) by { assert r == rows by { Whose(s, s', t, a, w); } }
  }

  /** A step names the rows its thread is working on. */
  lemma Whose(s: State, s': State, t: nat, a: Action, w: World)
    requires a.t == t && Step(w, s, s', a)
    ensures a.DoLoad? ==> ThreadOf(s, t) == Started(a.rows)
    ensures a.DoDecide? ==> ThreadOf(s, t) == Deciding(a.rows, None)
    ensures a.DoReplace? ==> ThreadOf(s, t) == Replacing(a.rows, a.g)
  {
    hide Build, S.Encode, Extended, IsPrefixOf, Restore;
  }

  lemma {:induction false} LoneRun(w: World, t: nat, rows: seq<Row>, run: seq<State>, i: nat)
    requires WorldOk(w) && Alone(w, t, rows, run) && 0 < i < |run| && Inv(w, run[0])
    ensures Inv(w, run[i]) && OnTrack(w, run[0], run[i], t, rows)
    decreases i
  {
    hide Build, Step, WorldOk, Inv, Faithful, OnTrack, Begin;
    if i == 1 {
      assert Step(w, run[0], run[1], DoBegin(t, rows)) by { BeginIsStep(w, run[0], run[1], t, rows); }
      StepOk(w, run[0], run[1], DoBegin(t, rows));
      LoneBegin(w, run[0], run[1], t, rows);
    } else {
      LoneRun(w, t, rows, run, i - 1);
      assert LoneMove(w, t, run[i - 1], run[i]);
      var a: Action :| a.t == t && Step(w, run[i - 1], run[i], a);
      StepOk(w, run[i - 1], run[i], a);
      LoneStep(w, run[0], run[i - 1], run[i], t, rows, a);
    }
  }

  lemma BeginIsStep(w: World, s: State, s': State, t: nat, rows: seq<Row>)
    requires Begin(w, s, s', t, rows)
    ensures Step(w, s, s', DoBegin(t, rows))
  {
    hide Faithful;
  }

  lemma LoneBegin(w: World, s: State, s': State, t: nat, rows: seq<Row>)
    requires Begin(w, s, s', t, rows)
    ensures OnTrack(w, s, s', t, rows)
  {
    hide Faithful;
  }

  /**
    The exact condition.  From any state the protocol can be in, one call alone leaves the
    shared graph covering exactly the source's rows if and only if the source has more rows
    than the graph, or is the graph's rows already.  A source that has shrunk, or that holds
    as many other rows, is not adopted.
  */
  lemma PrepareFitsExactly(w: World, t: nat, rows: seq<Row>, run: seq<State>)
    requires WorldOk(w) && run != [] && Inv(w, run[0]) && Alone(w, t, rows, run)
    ensures var last := run[|run| - 1];
      Inv(w, last) && (last.shared.rows == rows <==> WillFit(run[0].shared, rows))
  {
    hide WorldOk, Inv, Alone;
    assert |run| > 1 && ThreadOf(run[|run| - 1], t) == Idle by { Returned(w, t, rows, run); }
    LoneRun(w, t, rows, run, |run| - 1);
  }

  lemma Returned(w: World, t: nat, rows: seq<Row>, run: seq<State>)
    requires Alone(w, t, rows, run)
    ensures |run| > 1 && ThreadOf(run[|run| - 1], t) == Idle
  {
    hide Begin, Step;
  }

  // ----- What counting rows lets through -----

  /** One call over rows `a`, run alone from the start, up to its return. */
  ghost function FirstCall(w: World, a: seq<Row>): seq<State> {
    var g := Build(w.env, w.metric, w.dimension, a);
    var bytes := Some(S.Encode(g, w.env.params));
    [State(DEFAULT_GRAPH, None, map[]),
     State(DEFAULT_GRAPH, None, map[0 := Started(a)]),
     State(DEFAULT_GRAPH, None, map[0 := Deciding(a, None)]),
     State(DEFAULT_GRAPH, None, map[0 := Built(a, g)]),
     State(DEFAULT_GRAPH, bytes, map[0 := Replacing(a, g)]),
     State(g, bytes, map[0 := Idle])]
  }

  lemma Overwrite(x: Thread, y: Thread)
    ensures map[0 := x][0 := y] == map[0 := y] && map[][0 := y] == map[0 := y]
  {
  }

  lemma FirstCallRuns(w: World, a: seq<Row>)
    requires Faithful(w, a)
    ensures IsRun(w, FirstCall(w, a))
  {
    hide Build, S.Encode, Faithful, Extended, IsPrefixOf, Restore;
    var r := FirstCall(w, a);
    var g := Build(w.env, w.metric, w.dimension, a);
    assert Next(w, r[0], r[1]) by { Overwrite(Idle, r[1].threads[0]); assert Step(w, r[0], r[1], DoBegin(0, a)); }
    assert Next(w, r[1], r[2]) by { Overwrite(r[1].threads[0], r[2].threads[0]); assert Step(w, r[1], r[2], DoLoad(0, a, false)); }
    assert Next(w, r[2], r[3]) by { Overwrite(r[2].threads[0], r[3].threads[0]); assert Step(w, r[2], r[3], DoDecide(0, a)); }
    assert Next(w, r[3], r[4]) by { Overwrite(r[3].threads[0], r[4].threads[0]); assert Step(w, r[3], r[4], DoStoreBuilt(0, a, g, true)); }
    assert Next(w, r[4], r[5]) by { Overwrite(r[4].threads[0], Idle); assert Step(w, r[4], r[5], DoReplace(0, a, g)); }
    assert Initial(r[0]);
    hide Next, Initial;
    forall i | 0 < i < |r|
      ensures Next(w, r[i - 1], r[i])
    {
      assert i == 1 || i == 2 || i == 3 || i == 4 || i == 5;
    }
  }

  lemma LastReturns(w: World, a: Row, b: Row)
    requires Faithful(w, [a]) && Faithful(w, [b])
    ensures var last := FirstCall(w, [a])[5]; Begin(w, last, last, 0, [b]) && Next(w, last, last)
  {
    hide Build, S.Encode, Faithful;
    var last := FirstCall(w, [a])[5];
    assert Begin(w, last, last, 0, [b]) by { Overwrite(Idle, Idle); }
    assert Step(w, last, last, DoBegin(0, [b]));
  }

  /** After a call over `[a]` a call over `[b]` returns at once and changes nothing. */
  lemma SecondCallReturns(w: World, a: Row, b: Row)
    requires Faithful(w, [a]) && Faithful(w, [b])
    ensures var first := FirstCall(w, [a]); var last := first[5];
      IsRun(w, first + [last]) && Begin(w, last, last, 0, [b])
  {
    FirstCallRuns(w, [a]);
    var first := FirstCall(w, [a]);
    var last := first[5];
    hide FirstCall, Next, Initial, Begin;
    assert Begin(w, last, last, 0, [b]) && Next(w, last, last) by { LastReturns(w, a, b); }
    var run := first + [last];
    forall i | 0 < i < |run|
      ensures Next(w, run[i - 1], run[i])
    {
      if i < |first| {
        assert Next(w, first[i - 1], first[i]);
      }
    }
  }

  /** A search for anything over `[b]`, answered by the graph of `[a]`. */
  lemma OldRowOffered(w: World, a: Row, b: Row) returns (q: Search.Query)
    ensures var g := Build(w.env, w.metric, w.dimension, [a]);
      && q.source == [b] && AllInRange(g)
      && exists o :: o in Search.Answer(w.env, g, q) && o.row == a.id
  {
    var g := Build(w.env, w.metric, w.dimension, [a]);
    hide Build;
    LayersInRange(w.env, g);
    q := Search.Query(seq(w.dimension, _ => 0.0), 1, w.metric, [b], (_: nat) => Some(true), false, None);
    hide AllInRange;
    Search.SingleNode(w.env, g, q);
    assert Search.Answer(w.env, g, q)[0] in Search.Answer(w.env, g, q);
  }

  /**
    Replacing the source's rows by as many others, as a compaction does, goes unnoticed:
    the next call returns at once and a search over the new source offers an old row.
  */
  lemma ReplacedRowsGoUnnoticed(w: World, a: Row, b: Row) returns (run: seq<State>, q: Search.Query)
    requires Faithful(w, [a]) && Faithful(w, [b]) && a.id != b.id
    ensures IsRun(w, run) && |run| > 1 && q.source == [b]
    ensures Begin(w, run[|run| - 2], run[|run| - 1], 0, [b]) && run[|run| - 1].threads == map[0 := Idle]
    ensures AllInRange(run[|run| - 1].shared)
    ensures exists o :: o in Search.Answer(w.env, run[|run| - 1].shared, q) && o.row == a.id
  {
    SecondCallReturns(w, a, b);
    q := OldRowOffered(w, a, b);
    var first := FirstCall(w, [a]);
    var last := first[5];
    run := first + [last];
    hide *;
    assert run[|run| - 1] == last && run[|run| - 2] == last;
  }
}
