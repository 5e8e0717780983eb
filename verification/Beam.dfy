/**
  The beam search over one layer (build.rs, `search_layer`), as a function of the layer
  alone, and what its answer guarantees on any graph.
*/
module Beam {
  import opened Prelude
  import opened Ranking

  /** One layer as a query sees it: how many nodes, their lists, and the query's scores. */
  datatype Layer = Layer(size: nat, lists: seq<seq<nat>>, score: nat -> real)

  /** Neighbours of `x`, or nothing if the layer has no list for it. */
  function Neighbours(L: Layer, x: nat): seq<nat> {
    if x < |L.lists| then L.lists[x] else []
  }

  function Scored(L: Layer, x: nat): Candidate {
    Candidate(L.score(x), x)
  }

  datatype State = State(frontier: seq<Candidate>, results: seq<Candidate>, seen: set<nat>)

  ghost predicate Bounded(L: Layer, st: State) {
    forall x :: x in st.seen ==> x < L.size
  }

  /** Nodes of the layer not seen yet. */
  ghost function Unseen(L: Layer, seen: set<nat>): set<nat> {
    set x: nat | x < L.size && x !in seen
  }

  /** Enter the entry points; every distinct one is kept, whatever `ef` is. */
  function Enter(L: Layer, entries: seq<nat>, st: State): (r: State)
    requires Bounded(L, st)
    ensures Bounded(L, r)
    decreases |entries|
  {
    if entries == [] then st
    else
      var e := entries[0];
      if e >= L.size || e in st.seen then Enter(L, entries[1..], st)
      else
        var c := Scored(L, e);
        Enter(L, entries[1..], State(Push(st.frontier, c), Push(st.results, c), st.seen + {e}))
  }

  /** Consider one neighbour of the node being expanded. */
  function Offer(L: Layer, ef: nat, st: State, n: nat): (r: State)
    requires Bounded(L, st)
    ensures Bounded(L, r) && st.seen <= r.seen
    ensures r.seen == st.seen ==> r == st
    ensures n < L.size ==> n in r.seen
  {
    if n >= L.size || n in st.seen then st
    else
      var c := Scored(L, n);
      var seen := st.seen + {n};
      assert seen != st.seen;
      if |st.results| < ef || (st.results != [] && c.score > Last(st.results).score) then
        var kept := Push(st.results, c);
        State(Push(st.frontier, c), if |kept| > ef then kept[..|kept| - 1] else kept, seen)
      else
        st.(seen := seen)
  }

  function Expand(L: Layer, ef: nat, st: State, ns: seq<nat>): (r: State)
    requires Bounded(L, st)
    ensures Bounded(L, r) && st.seen <= r.seen
    ensures r.seen == st.seen ==> r == st
    decreases |ns|
  {
    if ns == [] then st else Expand(L, ef, Offer(L, ef, st, ns[0]), ns[1..])
  }

  /** Everything left is worse than the worst kept result. */
  predicate Hopeless(ef: nat, st: State)
    requires st.frontier != []
  {
    st.results != [] && |st.results| >= ef && st.frontier[0].score < Last(st.results).score
  }

  /** Pop the best of the frontier and expand it. */
  function Step(L: Layer, ef: nat, st: State): (r: State)
    requires Bounded(L, st) && st.frontier != []
    ensures Bounded(L, r) && st.seen <= r.seen
  {
    Expand(L, ef, st.(frontier := st.frontier[1..]), Neighbours(L, st.frontier[0].node))
  }

  lemma StepDecreases(L: Layer, ef: nat, st: State)
    requires Bounded(L, st) && st.frontier != []
    ensures var r := Step(L, ef, st);
            Unseen(L, r.seen) < Unseen(L, st.seen)
            || (r.seen == st.seen && |r.frontier| < |st.frontier|)
  {
    var r := Step(L, ef, st);
    if r.seen != st.seen {
      var x :| x in r.seen && x !in st.seen;
      assert x in Unseen(L, st.seen) && x !in Unseen(L, r.seen);
    }
  }

  /** The main loop, run to its end. */
  function Run(L: Layer, ef: nat, st: State): (r: State)
    requires Bounded(L, st)
    decreases Unseen(L, st.seen), |st.frontier|
  {
    if st.frontier == [] || Hopeless(ef, st) then st
    else
      StepDecreases(L, ef, st);
      Run(L, ef, Step(L, ef, st))
  }

  function Initial(L: Layer, entries: seq<nat>): (r: State)
    ensures Bounded(L, r)
  {
    Enter(L, entries, State([], [], {}))
  }

  /** What `search_layer` returns. */
  function Search(L: Layer, entries: seq<nat>, ef: nat): seq<Candidate> {
    Run(L, ef, Initial(L, entries)).results
  }

  // ----- Reachability -----

  ghost predicate IsPath(L: Layer, p: seq<nat>) {
    && p != []
    && (forall i :: 0 <= i < |p| ==> p[i] < L.size)
    && (forall i :: 0 < i < |p| ==> p[i] in Neighbours(L, p[i - 1]))
  }

  /** Some path inside the layer leads from an entry to `x`. */
  ghost predicate Reachable(L: Layer, entries: seq<nat>, x: nat) {
    exists p :: IsPath(L, p) && p[0] in entries && p[|p| - 1] == x
  }

  lemma ReachableStep(L: Layer, entries: seq<nat>, x: nat, y: nat)
    requires Reachable(L, entries, x) && y in Neighbours(L, x) && y < L.size
    ensures Reachable(L, entries, y)
  {
    var p :| IsPath(L, p) && p[0] in entries && p[|p| - 1] == x;
    var q := p + [y];
    assert IsPath(L, q) && q[0] in entries && q[|q| - 1] == y;
  }

  ghost predicate Closed(L: Layer, s: set<nat>) {
    forall x, y :: x in s && y in Neighbours(L, x) && y < L.size ==> y in s
  }

  lemma {:induction false} PathStaysIn(L: Layer, p: seq<nat>, s: set<nat>)
    requires IsPath(L, p) && p[0] in s && Closed(L, s)
    ensures p[|p| - 1] in s
  {
    if |p| > 1 {
      PathStaysIn(L, p[..|p| - 1], s);
      assert p[|p| - 1] in Neighbours(L, p[|p| - 2]);
    }
  }

  // ----- The invariant of the search -----

  /** Candidates of a queue carry the score of a node already seen. */
  ghost predicate Honest(L: Layer, st: State, h: seq<Candidate>) {
    && Ranked(h)
    && forall c :: c in h ==> c.node in st.seen && c == Scored(L, c.node)
  }

  /** A node seen and not kept cannot beat the worst kept, and the results are full. */
  ghost predicate Settled(L: Layer, ef: nat, st: State, x: nat) {
    || Scored(L, x) in st.results
    || (st.results != [] && |st.results| >= ef && L.score(x) <= Last(st.results).score)
  }

  /** Whatever is kept is either already expanded or still waiting. */
  ghost predicate Tracked(st: State, done: set<nat>) {
    forall c :: c in st.results ==> c.node in done || c in st.frontier
  }

  ghost predicate Inv(L: Layer, entries: seq<nat>, ef: nat, st: State) {
    && Bounded(L, st)
    && Honest(L, st, st.frontier)
    && Honest(L, st, st.results)
    && (forall x :: x in st.seen ==> Reachable(L, entries, x))
    && (forall x :: x in st.seen ==> Settled(L, ef, st, x))
  }

  ghost predicate Expanded(L: Layer, st: State, done: set<nat>) {
    && done <= st.seen
    && forall x, y :: x in done && y in Neighbours(L, x) && y < L.size ==> y in st.seen
  }

  lemma NewIsFresh(L: Layer, st: State, h: seq<Candidate>, n: nat)
    requires Honest(L, st, h) && n !in st.seen
    ensures Ranked(Push(h, Scored(L, n)))
    ensures Honest(L, st.(seen := st.seen + {n}), Push(h, Scored(L, n)))
  {
    PushRanked(h, Scored(L, n));
  }

  /** The node pushed in full results displaces the old worst. */
  lemma Displaces(h: seq<Candidate>, c: Candidate)
    requires Ranked(h) && h != [] && c !in h && c.score > Last(h).score
    ensures Ranked(Push(h, c)) && Last(Push(h, c)) == Last(h)
  {
    PushRanked(h, c);
    var r := Push(h, c);
    WorstIsWorst(r, Last(h));
    if Last(r) != Last(h) {
      assert Last(r) in r;
      if Last(r) != c {
        WorstIsWorst(h, Last(r));
      }
    }
  }

  /** Keeping `n` while there is room. */
  lemma KeepWithRoom(L: Layer, ef: nat, st: State, n: nat, x: nat)
    requires n < L.size && n !in st.seen && |st.results| < ef
    requires x == n || (x in st.seen && Settled(L, ef, st, x))
    requires Bounded(L, st)
    ensures Settled(L, ef, Offer(L, ef, st, n), x)
  {
    assert Scored(L, x) in Push(st.results, Scored(L, n));
  }

  /** Keeping `n` when full evicts the worst, which then cannot beat the new worst. */
  lemma KeepWhenFull(L: Layer, ef: nat, st: State, n: nat, x: nat)
    requires Bounded(L, st) && Honest(L, st, st.results)
    requires n < L.size && n !in st.seen && |st.results| >= ef && st.results != []
    requires L.score(n) > Last(st.results).score
    requires x == n || (x in st.seen && Settled(L, ef, st, x))
    ensures Settled(L, ef, Offer(L, ef, st, n), x)
  {
    var c := Scored(L, n);
    var kept := Push(st.results, c);
    Displaces(st.results, c);
    DropWorst(kept);
    var r := kept[..|kept| - 1];
    assert r == Offer(L, ef, st, n).results;
    assert Last(r) in kept;
    if Last(r) in st.results {
      WorstIsWorst(st.results, Last(r));
    }
  }

  lemma OfferSettles(L: Layer, ef: nat, st: State, n: nat)
    requires Bounded(L, st) && Honest(L, st, st.results) && st.results != []
    requires forall x :: x in st.seen ==> Settled(L, ef, st, x)
    ensures var r := Offer(L, ef, st, n); forall x :: x in r.seen ==> Settled(L, ef, r, x)
  {
    if n >= L.size || n in st.seen {
      return;
    }
    var r := Offer(L, ef, st, n);
    forall x | x in r.seen
      ensures Settled(L, ef, r, x)
    {
      if |st.results| < ef {
        KeepWithRoom(L, ef, st, n, x);
      } else if L.score(n) > Last(st.results).score {
        KeepWhenFull(L, ef, st, n, x);
      }
    }
  }

  lemma OfferKeepsInv(L: Layer, entries: seq<nat>, ef: nat, st: State, n: nat, done: set<nat>)
    requires Inv(L, entries, ef, st) && Tracked(st, done) && st.results != []
    requires n < L.size ==> Reachable(L, entries, n)
    ensures Inv(L, entries, ef, Offer(L, ef, st, n)) && Tracked(Offer(L, ef, st, n), done)
    ensures Offer(L, ef, st, n).results != []
    ensures |Offer(L, ef, st, n).results| <= Max(|st.results|, ef)
  {
    var r := Offer(L, ef, st, n);
    OfferSettles(L, ef, st, n);
    if r.seen != st.seen {
      var c := Scored(L, n);
      NewIsFresh(L, st, st.frontier, n);
      NewIsFresh(L, st, st.results, n);
      DropWorst(Push(st.results, c));
    }
  }

  lemma {:induction false} ExpandKeepsInv(L: Layer, entries: seq<nat>, ef: nat, st: State, ns: seq<nat>, done: set<nat>)
    requires Inv(L, entries, ef, st) && Tracked(st, done) && st.results != []
    requires forall n :: n in ns && n < L.size ==> Reachable(L, entries, n)
    ensures var r := Expand(L, ef, st, ns);
            && Inv(L, entries, ef, r) && Tracked(r, done) && r.results != []
            && |r.results| <= Max(|st.results|, ef)
            && (forall n :: n in ns && n < L.size ==> n in r.seen)
    decreases |ns|
  {
    if ns != [] {
      OfferKeepsInv(L, entries, ef, st, ns[0], done);
      ExpandKeepsInv(L, entries, ef, Offer(L, ef, st, ns[0]), ns[1..], done);
    }
  }

  lemma StepKeepsInv(L: Layer, entries: seq<nat>, ef: nat, st: State, done: set<nat>)
    requires Inv(L, entries, ef, st) && Tracked(st, done) && Expanded(L, st, done) && st.frontier != []
    ensures var r := Step(L, ef, st); var done' := done + {st.frontier[0].node};
            && Inv(L, entries, ef, r) && Tracked(r, done') && Expanded(L, r, done') && r.results != []
            && |r.results| <= Max(|st.results|, ef)
  {
    var c := st.frontier[0];
    var x := c.node;
    assert Settled(L, ef, st, x);
    var st1 := st.(frontier := st.frontier[1..]);
    assert Inv(L, entries, ef, st1) && Tracked(st1, done + {x}) by {
      assert forall d :: d in st.frontier ==> d == c || d in st1.frontier;
      assert forall y :: Settled(L, ef, st, y) ==> Settled(L, ef, st1, y);
    }
    forall n | n in Neighbours(L, x) && n < L.size
      ensures Reachable(L, entries, n)
    {
      ReachableStep(L, entries, x, n);
    }
    ExpandKeepsInv(L, entries, ef, st1, Neighbours(L, x), done + {x});
  }

  /** Everything returned has been expanded by the time the loop stops. */
  lemma {:induction false} RunInvariant(L: Layer, entries: seq<nat>, ef: nat, st: State, done: set<nat>)
    requires Inv(L, entries, ef, st) && Tracked(st, done) && Expanded(L, st, done)
    ensures var r := Run(L, ef, st);
            && Inv(L, entries, ef, r)
            && st.seen <= r.seen
            && |r.results| <= Max(|st.results|, ef)
            && (exists d :: Expanded(L, r, d) && Tracked(r, d) && forall c :: c in r.results ==> c.node in d)
    decreases Unseen(L, st.seen), |st.frontier|
  {
    if st.frontier == [] {
    } else if Hopeless(ef, st) {
      forall c | c in st.results
        ensures c.node in done
      {
        WorstIsWorst(st.results, c);
        if c in st.frontier {
          BestIsBest(st.frontier, c);
        }
      }
    } else {
      StepKeepsInv(L, entries, ef, st, done);
      StepDecreases(L, ef, st);
      RunInvariant(L, entries, ef, Step(L, ef, st), done + {st.frontier[0].node});
    }
  }

  /** Every node seen so far is kept: the state while the entry points go in. */
  ghost predicate Entering(L: Layer, entries: seq<nat>, ef: nat, st: State) {
    && Inv(L, entries, ef, st) && Tracked(st, {})
    && forall x :: x in st.seen ==> Scored(L, x) in st.results
  }

  lemma EnterOne(L: Layer, entries: seq<nat>, ef: nat, st: State, e: nat)
    requires Entering(L, entries, ef, st) && e in entries && e < L.size && e !in st.seen
    ensures var c := Scored(L, e);
            Entering(L, entries, ef, State(Push(st.frontier, c), Push(st.results, c), st.seen + {e}))
  {
    var c := Scored(L, e);
    NewIsFresh(L, st, st.frontier, e);
    NewIsFresh(L, st, st.results, e);
    assert IsPath(L, [e]) && [e][0] in entries;
    assert Reachable(L, entries, e);
    var r := State(Push(st.frontier, c), Push(st.results, c), st.seen + {e});
    assert forall x :: x in r.seen ==> Scored(L, x) in r.results && Settled(L, ef, r, x);
  }

  lemma {:induction false} EnterInvariant(L: Layer, entries: seq<nat>, ef: nat, rest: seq<nat>, st: State)
    requires Entering(L, entries, ef, st)
    requires forall e :: e in rest ==> e in entries
    ensures var r := Enter(L, rest, st);
            && Entering(L, entries, ef, r) && |r.results| <= |st.results| + |rest| && st.seen <= r.seen
            && (forall e :: e in rest && e < L.size ==> e in r.seen)
    decreases |rest|
  {
    if rest != [] {
      var e := rest[0];
      assert forall x :: x in rest <==> x == e || x in rest[1..];
      if e < L.size && e !in st.seen {
        EnterOne(L, entries, ef, st, e);
        hide Entering;
        var c := Scored(L, e);
        EnterInvariant(L, entries, ef, rest[1..], State(Push(st.frontier, c), Push(st.results, c), st.seen + {e}));
      } else {
        hide Entering;
        EnterInvariant(L, entries, ef, rest[1..], st);
      }
    }
  }

  // ----- How many results there are -----

  /** The distinct entry points that are nodes of the layer. */
  ghost function Entered(L: Layer, entries: seq<nat>): set<nat> {
    set e | e in entries && e < L.size
  }

  lemma EnteredCons(L: Layer, entries: seq<nat>)
    requires entries != []
    ensures Entered(L, entries) == (if entries[0] < L.size then {entries[0]} else {}) + Entered(L, entries[1..])
  {
    assert forall x :: x in entries <==> x == entries[0] || x in entries[1..];
  }

  lemma {:induction false} EnterSees(L: Layer, entries: seq<nat>, st: State, x: nat)
    requires Bounded(L, st)
    ensures x in Enter(L, entries, st).seen <==> x in st.seen || x in Entered(L, entries)
    decreases |entries|
  {
    if entries != [] {
      var e := entries[0];
      EnteredCons(L, entries);
      var c := Scored(L, e);
      if e >= L.size || e in st.seen {
        EnterSees(L, entries[1..], st, x);
      } else {
        EnterSees(L, entries[1..], State(Push(st.frontier, c), Push(st.results, c), st.seen + {e}), x);
      }
    }
  }

  lemma {:induction false} EnterKeeps(L: Layer, entries: seq<nat>, st: State)
    requires Bounded(L, st) && |st.results| == |st.seen|
    ensures |Enter(L, entries, st).results| == |Enter(L, entries, st).seen|
    decreases |entries|
  {
    if entries != [] {
      var e := entries[0];
      if e >= L.size || e in st.seen {
        EnterKeeps(L, entries[1..], st);
      } else {
        var c := Scored(L, e);
        EnterKeeps(L, entries[1..], State(Push(st.frontier, c), Push(st.results, c), st.seen + {e}));
      }
    }
  }

  lemma EnterCounts(L: Layer, entries: seq<nat>)
    ensures |Initial(L, entries).results| == |Entered(L, entries)|
  {
    var st0 := State([], [], {});
    EnterKeeps(L, entries, st0);
    forall x: nat ensures x in Initial(L, entries).seen <==> x in Entered(L, entries) {
      EnterSees(L, entries, st0, x);
    }
    assert Initial(L, entries).seen == Entered(L, entries);
  }

  /** Once kept, a result can be displaced but not merely dropped. */
  lemma {:induction false} ExpandGrows(L: Layer, ef: nat, st: State, ns: seq<nat>)
    requires Bounded(L, st)
    ensures |Expand(L, ef, st, ns).results| >= |st.results|
    decreases |ns|
  {
    if ns != [] {
      ExpandGrows(L, ef, Offer(L, ef, st, ns[0]), ns[1..]);
    }
  }

  lemma {:induction false} RunGrows(L: Layer, ef: nat, st: State)
    requires Bounded(L, st)
    ensures |Run(L, ef, st).results| >= |st.results|
    decreases Unseen(L, st.seen), |st.frontier|
  {
    if st.frontier != [] && !Hopeless(ef, st) {
      StepDecreases(L, ef, st);
      ExpandGrows(L, ef, st.(frontier := st.frontier[1..]), Neighbours(L, st.frontier[0].node));
      RunGrows(L, ef, Step(L, ef, st));
    }
  }

  // ----- What the answer guarantees -----

  /** Ranked, without repetition, each a reachable node under its own score. */
  ghost predicate Genuine(L: Layer, entries: seq<nat>, out: seq<Candidate>) {
    && Ranked(out)
    && forall c :: c in out ==> c == Scored(L, c.node) && c.node < L.size && Reachable(L, entries, c.node)
  }

  /** `y` is returned, or scores no better than the worst returned. */
  ghost predicate Covered(L: Layer, out: seq<Candidate>, y: nat) {
    Scored(L, y) in out || (out != [] && L.score(y) <= Last(out).score)
  }

  /** Looking one step past the answer, or at an entry, finds nothing better than its worst. */
  ghost predicate LocallyOptimal(L: Layer, entries: seq<nat>, out: seq<Candidate>) {
    && (forall e :: e in entries && e < L.size ==> Covered(L, out, e))
    && (forall c, y :: c in out && y in Neighbours(L, c.node) && y < L.size ==> Covered(L, out, y))
  }

  /** The answer is the whole reachable set. */
  ghost predicate Exhaustive(L: Layer, entries: seq<nat>, out: seq<Candidate>) {
    forall x :: Scored(L, x) in out <==> Reachable(L, entries, x)
  }

  lemma FinalState(L: Layer, entries: seq<nat>, ef: nat) returns (r: State, d: set<nat>)
    ensures r == Run(L, ef, Initial(L, entries)) && Inv(L, entries, ef, r)
    ensures |Entered(L, entries)| <= |r.results| <= Max(|Entered(L, entries)|, ef)
    ensures forall e :: e in entries && e < L.size ==> e in r.seen
    ensures Expanded(L, r, d) && forall c :: c in r.results ==> c.node in d
  {
    var st0 := State([], [], {});
    assert Entering(L, entries, ef, st0);
    EnterInvariant(L, entries, ef, entries, st0);
    var st := Initial(L, entries);
    EnterCounts(L, entries);
    RunGrows(L, ef, st);
    RunInvariant(L, entries, ef, st, {});
    r := Run(L, ef, st);
    d :| Expanded(L, r, d) && Tracked(r, d) && forall c :: c in r.results ==> c.node in d;
  }

  /** When the beam is not filled, all that was seen was kept, and what was seen is closed. */
  lemma ShortIsExhaustive(L: Layer, entries: seq<nat>, ef: nat, r: State, d: set<nat>)
    requires Inv(L, entries, ef, r) && |r.results| < ef
    requires forall e :: e in entries && e < L.size ==> e in r.seen
    requires Expanded(L, r, d) && forall c :: c in r.results ==> c.node in d
    ensures Exhaustive(L, entries, r.results)
  {
    assert Closed(L, r.seen) by {
      forall a, b | a in r.seen && b in Neighbours(L, a) && b < L.size
        ensures b in r.seen
      {
        assert Settled(L, ef, r, a);
      }
    }
    forall x | Reachable(L, entries, x)
      ensures Scored(L, x) in r.results
    {
      var p :| IsPath(L, p) && p[0] in entries && p[|p| - 1] == x;
      PathStaysIn(L, p, r.seen);
      assert Settled(L, ef, r, x);
    }
  }

  lemma KeptIsGenuine(L: Layer, entries: seq<nat>, ef: nat, r: State)
    requires Inv(L, entries, ef, r)
    ensures Genuine(L, entries, r.results)
  {
  }

  lemma KeptIsLocallyOptimal(L: Layer, entries: seq<nat>, ef: nat, r: State, d: set<nat>)
    requires Inv(L, entries, ef, r)
    requires forall e :: e in entries && e < L.size ==> e in r.seen
    requires Expanded(L, r, d) && forall c :: c in r.results ==> c.node in d
    ensures LocallyOptimal(L, entries, r.results)
  {
    forall y | y in r.seen
      ensures Covered(L, r.results, y)
    {
      assert Settled(L, ef, r, y);
    }
  }

  /**
    On any layer, from any entries, with any beam width: the answer is genuine and locally
    optimal, and an answer shorter than the beam is exactly the reachable set.  The width
    is exceeded exactly when more than `ef` distinct nodes are given as entries.
  */
  lemma BeamGuarantee(L: Layer, entries: seq<nat>, ef: nat)
    ensures Genuine(L, entries, Search(L, entries, ef))
    ensures LocallyOptimal(L, entries, Search(L, entries, ef))
    ensures |Search(L, entries, ef)| <= Max(|Entered(L, entries)|, ef)
    ensures |Search(L, entries, ef)| > ef <==> |Entered(L, entries)| > ef
    ensures |Search(L, entries, ef)| < ef ==> Exhaustive(L, entries, Search(L, entries, ef))
  {
    var r, d := FinalState(L, entries, ef);
    KeptIsGenuine(L, entries, ef, r);
    KeptIsLocallyOptimal(L, entries, ef, r, d);
    if |r.results| < ef {
      ShortIsExhaustive(L, entries, ef, r, d);
    }
  }
}
