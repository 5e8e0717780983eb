/**
  The log file, the writer that appends to it and the recovery that reopens it, as the
  objects the source has.  Each method takes the step of `WalCrash` it stands for.
*/
module WalWriter {
  import opened Prelude
  import opened Bytes
  import opened Wal
  import opened WalUnits
  import opened Storage
  import WalCode
  import Cursor
  import Steps = WalCrash

  /** When a writer syncs by itself: after every write, after every batch, or never. */
  datatype Durability = Full | PerBatch | Relaxed {
    predicate SyncsEveryWrite() {
      Full?
    }
    predicate SyncsOnCommit() {
      Full? || PerBatch?
    }
  }

  /** The state after a write, and after the sync the policy asks for when the write succeeded. */
  ghost function AfterWrite(s: Steps.Log, ok: bool, syncs: bool): Steps.Log {
    if ok && syncs then Steps.Synced(s) else s
  }

  class WalWriter {
    const file: MemoryFile
    const durability: Durability
    var nextSequence: nat
    var nextTxn: nat
    var bytes: nat

    ghost predicate Valid()
      reads this, file
    {
      bytes == |file.live|
    }

    ghost function State(): Steps.Log
      reads this, file
    {
      Steps.Log(file.live, file.durable, Some(Steps.Writer(nextSequence, nextTxn)))
    }

    constructor (file: MemoryFile, first: nat, durability: Durability)
      ensures Valid() && this.file == file && this.durability == durability
      ensures State() == Steps.Log(file.live, file.durable, Some(Steps.Writer(first, 1)))
    {
      this.file, this.durability, nextSequence, nextTxn, bytes := file, durability, first, 1, |file.live|;
    }

    method Write(buf: seq<Byte>)
      requires Valid()
      modifies this`bytes, file
      ensures Valid() && file.live == old(file.live) + buf && file.durable == old(file.durable)
    {
      var offset := file.Append(buf);
      bytes := bytes + |buf|;
    }

    method Sync()
      requires Valid()
      modifies file
      ensures Valid() && State() == Steps.Next(old(State()), Steps.Sync)
    {
      file.SyncData();
    }

    method Append(op: Op) returns (r: Result<nat, Cursor.FormatError>)
      requires Valid() && OpTyped(op) && Steps.Allowed(State(), Steps.Append(op, None))
      modifies this, file
      ensures Valid()
      ensures State() == AfterWrite(Steps.Next(old(State()), Steps.Append(op, None)), r.Ok?, durability.SyncsEveryWrite())
      ensures r.Ok? <==> FrameOk(Frame(old(nextSequence), 0, op))
      ensures r.Ok? ==> match durability
        case Full => file.durable == file.live
        case PerBatch => file.durable == old(file.durable)
        case Relaxed => file.durable == old(file.durable)
      ensures r.Ok? ==> r.value == old(nextSequence)
      ensures nextSequence == old(nextSequence) + (if r.Ok? then 1 else 0) && nextTxn == old(nextTxn)
    {
      hide BodyBytes, FrameBytes;
      var f := Frame(nextSequence, 0, op);
      var out := new Cursor.Writer();
      var sequence := nextSequence;
      var _ :- WalCode.AppendTo(f, out);
      OneFrame(f);
      Write(out.buf);
      nextSequence := nextSequence + 1;
      if durability.SyncsEveryWrite() {
        Sync();
      }
      r := Ok(sequence);
    }

    /** The whole group and its commit record in one write. */
    method AppendGroup(ops: seq<Op>) returns (r: Result<nat, Cursor.FormatError>)
      requires Valid() && (forall i :: 0 <= i < |ops| ==> OpTyped(ops[i]))
      requires Steps.Allowed(State(), Steps.Group(ops, None))
      modifies this, file
      ensures Valid()
      ensures State() == AfterWrite(Steps.Next(old(State()), Steps.Group(ops, None)), r.Ok?, durability.SyncsOnCommit())
      ensures r.Ok? <==> FramesOk(UnitFrames(Batch(old(nextSequence), old(nextTxn), ops)))
      ensures r.Ok? ==> match durability
        case Full => file.durable == file.live
        case PerBatch => file.durable == file.live
        case Relaxed => file.durable == old(file.durable)
      ensures r.Ok? ==> r.value == old(nextTxn)
      ensures nextSequence == old(nextSequence) + (if r.Ok? then |ops| + 1 else 0) && nextTxn == old(nextTxn) + 1
    {
      hide FramesOk, UnitFrames, AllBytes;
      ghost var u := Batch(nextSequence, nextTxn, ops);
      assert |UnitFrames(u)| == |ops| + 1 by { GroupLength(nextSequence, nextTxn, ops); }
      var txn := nextTxn;
      nextTxn := nextTxn + 1;
      var buf :- GroupBytes(nextSequence, txn, ops);
      Write(buf);
      nextSequence := nextSequence + |ops| + 1;
      if durability.SyncsOnCommit() {
        Sync();
      }
      r := Ok(txn);
    }
  }

  /** Empty the log once its operations are in a segment, and number on from the last sequence. */
  method Checkpoint(w: WalWriter) returns (next: WalWriter)
    requires w.Valid()
    modifies w.file
    ensures fresh(next) && next.Valid() && next.file == w.file && next.durability == w.durability
    ensures next.State() == Steps.Next(old(w.State()), Steps.Checkpoint(true))
    ensures w.file.live == [] && w.file.durable == [] && next.nextSequence == w.nextSequence && next.nextTxn == 1
  {
    w.file.Truncate(0);
    w.file.SyncData();
    next := new WalWriter(w.file, w.nextSequence, w.durability);
  }

  lemma GroupLength(at: nat, txn: nat, ops: seq<Op>)
    ensures |UnitFrames(Batch(at, txn, ops))| == |ops| + 1
  {
  }

  /** The operations' frames and their commit record, in one buffer. */
  method GroupBytes(at: nat, txn: nat, ops: seq<Op>) returns (r: Result<seq<Byte>, Cursor.FormatError>)
    requires at + |ops| < U64 && txn < U64 && forall i :: 0 <= i < |ops| ==> OpTyped(ops[i])
    ensures r.Ok? <==> FramesOk(UnitFrames(Batch(at, txn, ops)))
    ensures r.Ok? ==> r.value == AllBytes(UnitFrames(Batch(at, txn, ops)))
  {
    hide BodyBytes, FrameBytes, AllBytes;
    ghost var fs := UnitFrames(Batch(at, txn, ops));
    var out := new Cursor.Writer();
    var sequence := at;
    NoBytes();
    for i := 0 to |ops|
      invariant sequence == at + i && fresh(out)
      invariant FramesOk(fs[..i]) && out.buf == AllBytes(fs[..i])
    {
      assert fs[i] == Frame(sequence, txn, ops[i]);
      var _ :- WalCode.AppendTo(Frame(sequence, txn, ops[i]), out);
      NextFrame(fs, i);
      sequence := sequence + 1;
    }
    assert fs[|ops|] == Frame(sequence, txn, Commit(|ops|)) && fs[..|ops| + 1] == fs;
    var _ :- WalCode.AppendTo(Frame(sequence, txn, Commit(|ops|)), out);
    NextFrame(fs, |ops|);
    r := Ok(out.buf);
  }

  lemma OneFrame(f: Frame)
    ensures AllBytes([f]) == FrameBytes(f)
  {
    hide FrameBytes;
    AllBytesCons(f, []);
    NoBytes();
    assert [f] + [] == [f];
  }

  lemma NextFrame(fs: seq<Frame>, i: nat)
    requires i < |fs|
    ensures AllBytes(fs[..i + 1]) == AllBytes(fs[..i]) + FrameBytes(fs[i])
  {
    hide FrameBytes, AllBytes;
    assert fs[..i + 1] == fs[..i] + [fs[i]];
    BytesSplit(fs[..i], [fs[i]]);
    OneFrame(fs[i]);
  }

  method LastSequence(fs: seq<Frame>) returns (last: nat)
    ensures last == Steps.LastSequence(fs)
  {
    last := 0;
    for i := |fs| downto 0
      invariant last == Steps.LastSequence(fs[i..])
    {
      assert fs[i..][1..] == fs[i + 1..];
      last := Max(fs[i].sequence, last);
    }
  }

  /** Replay the log, cut a torn tail, and open a writer past the last sequence. */
  method Reopen(file: MemoryFile, durability: Durability) returns (r: Result<(WalWriter, seq<Frame>), Cursor.FormatError>)
    modifies file
    ensures var before := Steps.Log(old(file.live), old(file.durable), None);
      match r
      case Ok((w, replayed)) =>
        && fresh(w) && w.Valid() && w.file == file && w.durability == durability && w.State() == Steps.Recover(before)
        && replayed == Committed(ScanLog(old(file.live)).frames)
      case Err(e) => ScanLog(old(file.live)).tail == Corrupt(e) && unchanged(file)
  {
    hide ScanLog, Committed, Steps.LastSequence;
    var scan := WalCode.ScanAll(file.live);
    if scan.tail.Corrupt? {
      return Err(scan.tail.reason);
    }
    ScanIsExact(file.live);
    var replayed := WalCode.CommittedOf(scan.frames);
    var last := LastSequence(scan.frames);
    if scan.tail == Torn {
      file.Truncate(scan.valid);
      file.SyncData();
    }
    var w := new WalWriter(file, Min(last + 1, U64 - 1), durability);
    r := Ok((w, replayed));
  }
}
