/**
  The generation-stamped visited set and the imperative `search_layer` that uses it.  The
  method computes `Beam.Search` whatever the buffer was used for before, across wraparound
  of the generation counter included.
*/
module SearchLayer {
  import opened Ranking
  import opened Beam

  const MAX_GENERATION: nat := 0xFFFF_FFFF

  /** Which nodes a traversal has already seen. */
  class Visited {
    var stamp: seq<nat>
    var generation: nat

    ghost predicate Valid()
      reads this
    {
      && generation <= MAX_GENERATION
      && forall i :: 0 <= i < |stamp| ==> stamp[i] <= generation
    }

    /** The nodes marked in the current traversal. */
    ghost function Seen(): set<nat>
      reads this
    {
      set i: nat | i < |stamp| && stamp[i] == generation
    }

    constructor ()
      ensures Valid() && stamp == [] && generation == 0
    {
      stamp, generation := [], 0;
    }

    /** Start a fresh traversal over `len` nodes. */
    method Begin(len: nat)
      requires Valid()
      modifies this
      ensures Valid() && Seen() == {}
      ensures |stamp| >= len && |stamp| >= old(|stamp|)
    {
      if |stamp| < len {
        stamp := stamp + seq(len - |stamp|, _ => 0);
      }
      if generation < MAX_GENERATION {
        generation := generation + 1;
      } else {
        stamp := seq(|stamp|, _ => 0);
        generation := 1;
      }
    }

    /** Mark `node` seen; out of range counts as seen already. */
    method See(node: nat) returns (already: bool)
      requires Valid()
      modifies this
      ensures Valid() && |stamp| == old(|stamp|)
      ensures already == (node >= |stamp| || node in old(Seen()))
      ensures Seen() == if node < |stamp| then old(Seen()) + {node} else old(Seen())
    {
      if node >= |stamp| || stamp[node] == generation {
        return true;
      }
      stamp := stamp[node := generation];
      return false;
    }
  }

  ghost predicate Ready(L: Layer, visited: Visited, f: seq<Candidate>, r: seq<Candidate>)
    reads visited
  {
    visited.Valid() && |visited.stamp| >= L.size && Bounded(L, Abs(visited, f, r))
  }

  /** The search state the two queues and the stamps stand for. */
  ghost function Abs(visited: Visited, f: seq<Candidate>, r: seq<Candidate>): State
    reads visited
  {
    State(f, r, visited.Seen())
  }

  /** Enter every distinct in-range entry point. */
  method EnterAll(L: Layer, entries: seq<nat>, visited: Visited) returns (f: seq<Candidate>, r: seq<Candidate>)
    requires Ready(L, visited, [], []) && visited.Seen() == {}
    modifies visited
    ensures Ready(L, visited, f, r) && Abs(visited, f, r) == Initial(L, entries)
  {
    f, r := [], [];
    for i := 0 to |entries|
      invariant Ready(L, visited, f, r)
      invariant Enter(L, entries[i..], Abs(visited, f, r)) == Initial(L, entries)
    {
      var entry := entries[i];
      assert entries[i..][0] == entry && entries[i..][1..] == entries[i + 1..];
      ghost var before := Abs(visited, f, r);
      if entry < L.size {
        var already := visited.See(entry);
        assert already ==> visited.Seen() == before.seen;
        if !already {
          f, r := Push(f, Scored(L, entry)), Push(r, Scored(L, entry));
        }
      }
      assert Enter(L, entries[i..], before) == Enter(L, entries[i + 1..], Abs(visited, f, r));
    }
  }

  /** One neighbour of the node being expanded. */
  method OfferOne(L: Layer, ef: nat, visited: Visited, f: seq<Candidate>, r: seq<Candidate>, n: nat)
    returns (f': seq<Candidate>, r': seq<Candidate>)
    requires Ready(L, visited, f, r)
    modifies visited
    ensures Ready(L, visited, f', r')
    ensures Abs(visited, f', r') == Offer(L, ef, old(Abs(visited, f, r)), n)
  {
    f', r' := f, r;
    if n >= L.size {
      return;
    }
    var already := visited.See(n);
    if already {
      assert visited.Seen() == old(visited.Seen());
      return;
    }
    var c := Scored(L, n);
    if |r| < ef || (r != [] && c.score > Last(r).score) {
      f', r' := Push(f, c), Push(r, c);
      if |r'| > ef {
        r' := r'[..|r'| - 1];
      }
    }
  }

  /** All neighbours of the node just popped. */
  method ExpandAll(L: Layer, ef: nat, visited: Visited, f: seq<Candidate>, r: seq<Candidate>, ns: seq<nat>)
    returns (f': seq<Candidate>, r': seq<Candidate>)
    requires Ready(L, visited, f, r)
    modifies visited
    ensures Ready(L, visited, f', r')
    ensures Abs(visited, f', r') == Expand(L, ef, old(Abs(visited, f, r)), ns)
  {
    f', r' := f, r;
    for k := 0 to |ns|
      invariant Ready(L, visited, f', r')
      invariant Expand(L, ef, Abs(visited, f', r'), ns[k..]) == Expand(L, ef, old(Abs(visited, f, r)), ns)
    {
      assert ns[k..][0] == ns[k] && ns[k..][1..] == ns[k + 1..];
      f', r' := OfferOne(L, ef, visited, f', r', ns[k]);
    }
  }

  /** The beam search over one layer. */
  method Run(L: Layer, entries: seq<nat>, ef: nat, visited: Visited) returns (out: seq<Candidate>)
    requires visited.Valid()
    modifies visited
    ensures visited.Valid()
    ensures out == Search(L, entries, ef)
  {
    visited.Begin(L.size);
    var frontier, results := EnterAll(L, entries, visited);
    while frontier != []
      invariant Ready(L, visited, frontier, results)
      invariant Beam.Run(L, ef, Abs(visited, frontier, results)) == Beam.Run(L, ef, Initial(L, entries))
      decreases Unseen(L, visited.Seen()), |frontier|
    {
      var current := frontier[0];
      if results != [] && |results| >= ef && current.score < Last(results).score {
        break;
      }
      StepDecreases(L, ef, Abs(visited, frontier, results));
      frontier, results := ExpandAll(L, ef, visited, frontier[1..], results, Neighbours(L, current.node));
    }
    out := results;
  }
}
