/**
  What was appended to a log, as units: standalone operations, whole batches, and the
  operations of a batch whose commit record did not survive.
*/
module WalUnits {
  import opened Prelude
  import opened Wal

  datatype Unit =
    | Single(at: nat, op: Op)
    | Batch(at: nat, txn: nat, ops: seq<Op>)
    | Orphan(at: nat, txn: nat, ops: seq<Op>)

  function OpFrames(at: nat, txn: nat, ops: seq<Op>): (r: seq<Frame>) {
    seq(|ops|, i requires 0 <= i < |ops| => Frame(at + i, txn, ops[i]))
  }

  function UnitFrames(u: Unit): seq<Frame> {
    match u
    case Single(at, op) => [Frame(at, 0, op)]
    case Batch(at, txn, ops) => OpFrames(at, txn, ops) + [Frame(at + |ops|, txn, Commit(|ops|))]
    case Orphan(at, txn, ops) => OpFrames(at, txn, ops)
  }

  function Flatten(us: seq<Unit>): seq<Frame> {
    if us == [] then [] else UnitFrames(us[0]) + Flatten(us[1..])
  }

  ghost predicate NoCommits(ops: seq<Op>) {
    forall i :: 0 <= i < |ops| ==> !ops[i].Commit?
  }

  ghost predicate UnitOk(u: Unit) {
    match u
    case Single(_, op) => !op.Commit?
    case Batch(_, txn, ops) => txn > 0 && NoCommits(ops)
    case Orphan(_, txn, ops) => txn > 0 && NoCommits(ops) && ops != []
  }

  ghost predicate UnitsOk(us: seq<Unit>) {
    forall i :: 0 <= i < |us| ==> UnitOk(us[i])
  }

  // ----- Cutting -----

  /** What is left of a unit when only its first `m` frames survive. */
  function Part(u: Unit, m: nat): seq<Unit>
    requires m < |UnitFrames(u)|
  {
    if m == 0 then [] else [Orphan(u.at, u.txn, u.ops[..m])]
  }

  function CutUnits(us: seq<Unit>, m: nat): seq<Unit> {
    if us == [] then []
    else
      var n := |UnitFrames(us[0])|;
      if m >= n then [us[0]] + CutUnits(us[1..], m - n) else Part(us[0], m)
  }

  lemma PartFrames(u: Unit, m: nat)
    requires UnitOk(u) && m < |UnitFrames(u)|
    ensures Flatten(Part(u, m)) == UnitFrames(u)[..m] && UnitsOk(Part(u, m))
  {
    if m > 0 {
      var o := Orphan(u.at, u.txn, u.ops[..m]);
      assert UnitFrames(o) == UnitFrames(u)[..m];
      assert [o][1..] == [];
      assert Flatten([o]) == UnitFrames(o) + [];
    }
  }

  lemma FlattenCons(u: Unit, us: seq<Unit>)
    ensures Flatten([u] + us) == UnitFrames(u) + Flatten(us)
  {
    hide UnitFrames;
    assert ([u] + us)[1..] == us;
  }

  lemma {:induction false} FlattenSplit(a: seq<Unit>, b: seq<Unit>)
    ensures Flatten(a + b) == Flatten(a) + Flatten(b)
  {
    if a == [] {
      assert a + b == b;
    } else {
      hide Flatten, UnitFrames;
      Rest(a, b);
      FlattenSplit(a[1..], b);
      FlattenCons(a[0], a[1..] + b);
      FlattenCons(a[0], a[1..]);
      Associate(UnitFrames(a[0]), Flatten(a[1..]), Flatten(b));
    }
  }

  /** Cutting units cuts their frames. */
  lemma {:induction false} CutFrames(us: seq<Unit>, m: nat)
    requires UnitsOk(us) && m <= |Flatten(us)|
    ensures Flatten(CutUnits(us, m)) == Flatten(us)[..m] && UnitsOk(CutUnits(us, m))
  {
    hide UnitFrames, UnitOk;
    if us != [] {
      var u, more := us[0], Flatten(us[1..]);
      var n := |UnitFrames(u)|;
      if m >= n {
        CutFrames(us[1..], m - n);
        FlattenCons(u, CutUnits(us[1..], m - n));
        assert (UnitFrames(u) + more)[..m] == UnitFrames(u) + more[..m - n];
      } else {
        PartFrames(u, m);
        assert (UnitFrames(u) + more)[..m] == UnitFrames(u)[..m];
      }
    }
  }

  /** A cut that falls within the last unit leaves the others alone. */
  lemma {:induction false} CutLast(us: seq<Unit>, u: Unit, m: nat)
    requires m <= |UnitFrames(u)|
    ensures CutUnits(us + [u], |Flatten(us)| + m) == us + if m == |UnitFrames(u)| then [u] else Part(u, m)
  {
    hide UnitFrames, Part;
    if us == [] {
      assert us + [u] == [u] && [u][1..] == [];
    } else {
      Rest(us, [u]);
      CutLast(us[1..], u, m);
      assert (us + [u])[1..] == us[1..] + [u];
    }
  }

  // ----- What replay should apply -----

  /** Standalone operations and the operations of whole batches, in order. */
  function Applied(us: seq<Unit>): seq<Frame> {
    if us == [] then []
    else
      (match us[0]
       case Single(_, _) => UnitFrames(us[0])
       case Batch(at, txn, ops) => OpFrames(at, txn, ops)
       case Orphan(_, _, _) => [])
      + Applied(us[1..])
  }

  /** Some batch's leftover operations carry the id of a whole batch. */
  ghost predicate Clash(us: seq<Unit>) {
    exists i, j :: 0 <= i < |us| && 0 <= j < |us| && us[i].Orphan? && us[j].Batch? && us[i].txn == us[j].txn
  }

  ghost predicate BatchId(us: seq<Unit>, txn: nat) {
    exists j :: 0 <= j < |us| && us[j].Batch? && us[j].txn == txn
  }

  /** What replay makes of one unit when `txns` are the committed transactions. */
  function Replayed(u: Unit, txns: seq<nat>): seq<Frame> {
    match u
    case Single(_, _) => UnitFrames(u)
    case _ => if u.txn in txns then OpFrames(u.at, u.txn, u.ops) else []
  }

  lemma {:induction false} KeepOps(at: nat, txn: nat, ops: seq<Op>, txns: seq<nat>)
    requires NoCommits(ops) && txn > 0
    ensures Keep(OpFrames(at, txn, ops), txns) == if txn in txns then OpFrames(at, txn, ops) else []
    ensures CommittedTxns(OpFrames(at, txn, ops)) == []
    decreases |ops|
  {
    if ops != [] {
      var fs := OpFrames(at, txn, ops);
      assert fs[1..] == OpFrames(at + 1, txn, ops[1..]);
      KeepOps(at + 1, txn, ops[1..], txns);
    }
  }

  lemma KeepUnit(u: Unit, txns: seq<nat>)
    requires UnitOk(u)
    ensures Keep(UnitFrames(u), txns) == Replayed(u, txns)
    ensures CommittedTxns(UnitFrames(u)) == if u.Batch? then [u.txn] else []
  {
    match u
    case Single(at, op) =>
      KeepOne(Frame(at, 0, op), txns);
      TxnsOne(Frame(at, 0, op));
    case Orphan(at, txn, ops) => KeepOps(at, txn, ops, txns);
    case Batch(at, txn, ops) =>
      var c := Frame(at + |ops|, txn, Commit(|ops|));
      KeepOps(at, txn, ops, txns);
      KeepOne(c, txns);
      TxnsOne(c);
      KeepSplit(OpFrames(at, txn, ops), [c], txns);
      TxnsSplit(OpFrames(at, txn, ops), [c]);
  }

  lemma {:induction false} TxnsOfUnits(us: seq<Unit>, txn: nat)
    requires UnitsOk(us)
    ensures txn in CommittedTxns(Flatten(us)) <==> BatchId(us, txn)
  {
    hide UnitFrames, UnitOk, CommittedTxns;
    if us == [] {
      NothingKept([]);
    } else {
      KeepUnit(us[0], []);
      TxnsOfUnits(us[1..], txn);
      TxnsSplit(UnitFrames(us[0]), Flatten(us[1..]));
      BatchIdCons(us, txn);
    }
  }

  lemma BatchIdCons(us: seq<Unit>, txn: nat)
    requires us != []
    ensures BatchId(us, txn) <==> (us[0].Batch? && us[0].txn == txn) || BatchId(us[1..], txn)
  {
    if BatchId(us, txn) {
      var j :| 0 <= j < |us| && us[j].Batch? && us[j].txn == txn;
      assert j > 0 ==> us[1..][j - 1] == us[j];
    }
    if BatchId(us[1..], txn) {
      var j :| 0 <= j < |us[1..]| && us[1..][j].Batch? && us[1..][j].txn == txn;
      assert us[j + 1] == us[1..][j];
    }
  }

  /** Replay against `txns` yields at least what was applied, and exactly that when no leftover is in `txns`. */
  lemma {:induction false} ReplayUnits(us: seq<Unit>, txns: seq<nat>)
    requires UnitsOk(us) && forall i :: 0 <= i < |us| && us[i].Batch? ==> us[i].txn in txns
    ensures |Keep(Flatten(us), txns)| >= |Applied(us)|
    ensures Keep(Flatten(us), txns) == Applied(us) <==> forall i :: 0 <= i < |us| && us[i].Orphan? ==> us[i].txn !in txns
    ensures (exists i :: 0 <= i < |us| && us[i].Orphan? && us[i].txn in txns) ==> |Keep(Flatten(us), txns)| > |Applied(us)|
  {
    hide UnitFrames, Keep;
    if us == [] {
      NothingKept(txns);
    } else {
      var u, more := us[0], us[1..];
      KeepUnit(u, txns);
      KeepSplit(UnitFrames(u), Flatten(more), txns);
      ReplayUnits(more, txns);
      assert forall i :: 0 < i < |us| ==> us[i] == more[i - 1];
      assert forall i :: 0 <= i < |more| ==> us[i + 1] == more[i];
      if u.Orphan? {
        assert |OpFrames(u.at, u.txn, u.ops)| > 0;
      }
    }
  }

  /**
    Replay of a log applies exactly its standalone operations and whole batches if and
    only if no leftover operation carries the id of a whole batch.
  */
  lemma AllOrNothing(us: seq<Unit>)
    requires UnitsOk(us)
    ensures Committed(Flatten(us)) == Applied(us) <==> !Clash(us)
  {
    var txns := CommittedTxns(Flatten(us));
    hide UnitOk, Flatten, Keep, CommittedTxns, Applied;
    forall txn: nat ensures txn in txns <==> BatchId(us, txn) {
      TxnsOfUnits(us, txn);
    }
    ReplayUnits(us, txns);
  }
}
