/** What neighbour selection (build.rs, `select_neighbours`) guarantees. */
module Selection {
  import opened Prelude
  import opened Ranking
  import opened GraphSpec

  /** How close the candidate is to a kept node. */
  function Closeness(env: Env, metric: Metric, rows: seq<Row>, c: Candidate, k: nat): real {
    ScoreBy(env, metric, rows, VectorOf(rows, c.node))(k)
  }

  /** Keeping at most `max` distinct candidates, and all of them if the quota is not met. */
  ghost predicate Fills(cands: seq<Candidate>, max: nat, kept: seq<nat>) {
    && Distinct(kept)
    && |kept| <= max
    && (forall n :: n in kept ==> n in Nodes(cands))
    && (|kept| < max ==> forall n :: n in Nodes(cands) ==> n in kept)
  }

  lemma NodesTail(cands: seq<Candidate>, n: nat)
    requires cands != []
    ensures n in Nodes(cands) <==> n == cands[0].node || n in Nodes(cands[1..])
  {
    var ns := Nodes(cands);
    assert ns == [cands[0].node] + Nodes(cands[1..]);
  }

  lemma NodesTailAll(cands: seq<Candidate>)
    requires cands != []
    ensures forall n :: n in Nodes(cands) <==> n == cands[0].node || n in Nodes(cands[1..])
  {
    forall n: nat
      ensures n in Nodes(cands) <==> n == cands[0].node || n in Nodes(cands[1..])
    {
      NodesTail(cands, n);
    }
  }

  /** The heuristic extends what it was given with distinct candidates, up to the quota. */
  lemma {:induction false} DiverseSound(env: Env, metric: Metric, rows: seq<Row>, cands: seq<Candidate>, max: nat, kept: seq<nat>)
    requires Distinct(Nodes(cands)) && Distinct(kept) && |kept| <= max
    requires forall n :: n in kept ==> n !in Nodes(cands)
    ensures var r := Diverse(env, metric, rows, cands, max, kept);
            Distinct(r) && |r| <= max && kept <= r && forall n :: n in r ==> n in kept || n in Nodes(cands)
    decreases |cands|
  {
    if cands != [] && |kept| < max {
      NodesTailAll(cands);
      assert Nodes(cands)[1..] == Nodes(cands[1..]);
      var c := cands[0];
      assert c.node == Nodes(cands)[0];
      assert forall i :: 1 <= i < |cands| ==> Nodes(cands)[0] != Nodes(cands)[i];
      if Dominated(env, metric, rows, c, kept) {
        DiverseSound(env, metric, rows, cands[1..], max, kept);
      } else {
        DistinctAppend(kept, c.node);
        DiverseSound(env, metric, rows, cands[1..], max, kept + [c.node]);
      }
    }
  }

  lemma {:induction false} TopUpSound(cands: seq<Candidate>, max: nat, kept: seq<nat>)
    requires Distinct(kept) && |kept| <= max
    ensures var r := TopUp(cands, max, kept);
            && Distinct(r) && |r| <= max && kept <= r
            && (forall n :: n in r ==> n in kept || n in Nodes(cands))
            && (|r| < max ==> forall n :: n in Nodes(cands) ==> n in r)
    decreases |cands|
  {
    if cands != [] && |kept| < max {
      NodesTailAll(cands);
      if cands[0].node in kept {
        TopUpSound(cands[1..], max, kept);
      } else {
        var more := kept + [cands[0].node];
        DistinctAppend(kept, cands[0].node);
        TopUpSound(cands[1..], max, more);
        assert TopUp(cands, max, kept)[|kept|] == more[|kept|];
      }
    }
  }

  /** Selection keeps distinct candidates and misses the quota only by running out of them. */
  lemma SelectFills(env: Env, metric: Metric, rows: seq<Row>, cands: seq<Candidate>, max: nat)
    requires Distinct(Nodes(cands))
    ensures Fills(cands, max, Select(env, metric, rows, cands, max))
  {
    DiverseSound(env, metric, rows, cands, max, []);
    TopUpSound(cands, max, Diverse(env, metric, rows, cands, max, []));
  }

  // ----- Algorithm 4: the kept nodes are spread out, and no spread-out candidate is missed -----

  /** Every kept candidate is closer to the query than to any kept before it. */
  ghost predicate Spread(env: Env, metric: Metric, rows: seq<Row>, chosen: seq<Candidate>) {
    forall i, j :: 0 <= i < j < |chosen| ==>
      Closeness(env, metric, rows, chosen[j], chosen[i].node) <= chosen[j].score
  }

  /** The candidate is kept, or some kept candidate is closer to it than the query is. */
  ghost predicate Represented(env: Env, metric: Metric, rows: seq<Row>, chosen: seq<Candidate>, c: Candidate) {
    c in chosen || exists i :: 0 <= i < |chosen| && Closeness(env, metric, rows, c, chosen[i].node) > c.score
  }

  /**
    The heuristic keeps a spread-out set, and leaves a candidate out only when a kept one
    represents it or the quota is met.
  */
  lemma {:induction false} DiverseSpreads(env: Env, metric: Metric, rows: seq<Row>, cands: seq<Candidate>, max: nat, chosen: seq<Candidate>)
    returns (r: seq<Candidate>)
    requires Spread(env, metric, rows, chosen) && |chosen| <= max
    ensures Nodes(r) == Diverse(env, metric, rows, cands, max, Nodes(chosen))
    ensures Spread(env, metric, rows, r) && chosen <= r
    ensures forall c :: c in r ==> c in chosen || c in cands
    ensures |r| < max ==> forall c :: c in cands ==> Represented(env, metric, rows, r, c)
    decreases |cands|
  {
    r := chosen;
    if cands == [] || |chosen| >= max {
      return;
    }
    var c := cands[0];
    var next := chosen;
    if !Dominated(env, metric, rows, c, Nodes(chosen)) {
      next := chosen + [c];
      assert Nodes(next) == Nodes(chosen) + [c.node];
      forall i | 0 <= i < |chosen|
        ensures Closeness(env, metric, rows, c, chosen[i].node) <= c.score
      {
        assert Nodes(chosen)[i] in Nodes(chosen);
      }
      assert c in next;
    } else {
      var k :| k in Nodes(chosen) && Closeness(env, metric, rows, c, k) > c.score;
      var i :| 0 <= i < |chosen| && Nodes(chosen)[i] == k;
    }
    assert Represented(env, metric, rows, next, c);
    r := DiverseSpreads(env, metric, rows, cands[1..], max, next);
    assert Represented(env, metric, rows, r, c) by {
      assert forall i :: 0 <= i < |next| ==> r[i] == next[i];
    }
  }
}
