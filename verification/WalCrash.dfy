/**
  The log over whole runs: appends, syncs, torn appends, process death, power loss,
  checkpoints and recoveries, in any order.
*/
module WalCrash {
  import opened Prelude
  import opened Bytes
  import opened Wal
  import opened WalUnits

  datatype Writer = Writer(nextSeq: nat, nextTxn: nat)

  /** A log file as its storage holds it, and the writer of the process using it, if one is alive. */
  datatype Log = Log(live: seq<Byte>, durable: seq<Byte>, writer: Option<Writer>)

  /**
    `kept` is how many bytes reach the file before the process dies, when it does; an append
    that fails without dying has written nothing, and a group has spent its id.
  */
  datatype Step =
    | Append(op: Op, kept: Option<nat>)
    | Group(ops: seq<Op>, kept: Option<nat>)
    | AppendFails(group: bool)
    | Sync
    | Kill
    | PowerLoss
    | PartialFlush(bytes: nat)
    | Checkpoint(finished: bool)
    | CutTail
    | Reopen

  const Empty: Log := Log([], [], None)

  // ----- The code's side: bytes and counters -----

  function LastSequence(fs: seq<Frame>): nat {
    if fs == [] then 0 else Max(fs[0].sequence, LastSequence(fs[1..]))
  }

  /** What a writer appends for a step. */
  function Appending(w: Writer, step: Step): Unit
    requires step.Append? || step.Group?
  {
    if step.Append? then Single(w.nextSeq, step.op) else Batch(w.nextSeq, w.nextTxn, step.ops)
  }

  /** The counters after an append, successful or refused. */
  function Advance(w: Writer, step: Step, ok: bool): Writer
    requires step.Append? || step.Group?
  {
    var u := Appending(w, step);
    Writer(if ok then w.nextSeq + |UnitFrames(u)| else w.nextSeq, if step.Group? then w.nextTxn + 1 else w.nextTxn)
  }

  /** Who may take which step; counters stay within 64 bits. */
  ghost predicate Allowed(s: Log, step: Step) {
    match step
    case Append(op, _) => s.writer.Some? && !op.Commit? && s.writer.value.nextSeq + 1 < U64
    case Group(ops, _) =>
      s.writer.Some? && NoCommits(ops) && s.writer.value.nextSeq + |ops| + 1 < U64 && s.writer.value.nextTxn + 1 < U64
    case AppendFails(_) => s.writer.Some? && s.writer.value.nextTxn + 1 < U64
    case Sync => s.writer.Some?
    case Checkpoint(_) => s.writer.Some?
    case CutTail => s.writer.None?
    case Reopen => s.writer.None?
    case PartialFlush(k) => |s.durable| <= k <= |s.live| && s.live[..|s.durable|] == s.durable
    case _ => true
  }

  /** One buffer, one append; a frame too large writes nothing. */
  ghost function Write(s: Log, step: Step): Log
    requires (step.Append? || step.Group?) && s.writer.Some?
  {
    var w := s.writer.value;
    var fs := UnitFrames(Appending(w, step));
    if !FramesOk(fs) then s.(writer := Some(Advance(w, step, false)))
    else
      match step.kept
      case None => s.(live := s.live + AllBytes(fs), writer := Some(Advance(w, step, true)))
      case Some(k) => s.(live := s.live + AllBytes(fs)[..Min(k, |AllBytes(fs)|)], writer := None)
  }

  /** Scan, cut a torn tail and sync, number on from the last sequence, transactions from one. */
  function Recover(s: Log): Log {
    var scan := ScanLog(s.live);
    var w := Some(Writer(Min(LastSequence(scan.frames) + 1, U64 - 1), 1));
    match scan.tail
    case Corrupt(_) => s
    case Torn => if scan.valid <= |s.live| then Log(s.live[..scan.valid], s.live[..scan.valid], w) else s
    case Clean => s.(writer := w)
  }

  /** Recovery that dies between truncating a torn tail and syncing the file. */
  function Truncated(s: Log): Log {
    var scan := ScanLog(s.live);
    if scan.tail == Torn && scan.valid <= |s.live| then s.(live := s.live[..scan.valid]) else s
  }

  /** Everything written is durable. */
  function Synced(s: Log): Log {
    s.(durable := s.live)
  }

  ghost function Next(s: Log, step: Step): Log
    requires Allowed(s, step)
  {
    match step
    case Append(_, _) => Write(s, step)
    case Group(_, _) => Write(s, step)
    case AppendFails(group) =>
      var w := s.writer.value;
      s.(writer := Some(w.(nextTxn := if group then w.nextTxn + 1 else w.nextTxn)))
    case Sync => Synced(s)
    case Kill => s.(writer := None)
    case PowerLoss => s.(live := s.durable, writer := None)
    case PartialFlush(k) => s.(live := s.live[..k], writer := None)
    case Checkpoint(finished) =>
      if finished then Log([], [], Some(Writer(s.writer.value.nextSeq, 1))) else s.(live := [], writer := None)
    case CutTail => Truncated(s)
    case Reopen => Recover(s)
  }

  // ----- The observer's side: what was appended -----

  /**
    `appended`: every frame whose append onto this log was begun; `units`: what of it is
    whole; `saved`: the units the last sync covered.
  */
  datatype History = History(units: seq<Unit>, saved: seq<Unit>, appended: seq<Frame>)

  const NoHistory: History := History([], [], [])

  ghost function TrackWrite(s: Log, h: History, step: Step): History
    requires (step.Append? || step.Group?) && s.writer.Some?
  {
    var u := Appending(s.writer.value, step);
    if !FramesOk(UnitFrames(u)) then h
    else
      var all := h.appended + UnitFrames(u);
      match step.kept
      case None => h.(units := h.units + [u], appended := all)
      case Some(k) => h.(units := CutUnits(h.units + [u], Whole(all, |s.live| + k)), appended := all)
  }

  ghost function Track(s: Log, h: History, step: Step): History
    requires Allowed(s, step)
  {
    match step
    case Append(_, _) => TrackWrite(s, h, step)
    case Group(_, _) => TrackWrite(s, h, step)
    case AppendFails(_) => h
    case Sync => h.(saved := h.units)
    case Kill => h
    case PowerLoss => h.(units := h.saved, appended := Flatten(h.saved))
    case PartialFlush(k) => h.(units := CutUnits(h.units, Whole(h.appended, k)))
    case Checkpoint(finished) => History([], if finished then [] else h.saved, [])
    case CutTail => h.(appended := Flatten(h.units))
    case Reopen =>
      var torn := |AllBytes(Flatten(h.units))| < |s.live|;
      History(h.units, if torn then h.units else h.saved, Flatten(h.units))
  }

  /** Where a run of steps leads, if every step is allowed. */
  ghost function RunOf(steps: seq<Step>): Option<(Log, History)> {
    if steps == [] then Some((Empty, NoHistory))
    else
      var n := |steps| - 1;
      match RunOf(steps[..n])
      case None => None
      case Some((s, h)) => if Allowed(s, steps[n]) then Some((Next(s, steps[n]), Track(s, h, steps[n]))) else None
  }

  // ----- The invariant -----

  ghost predicate Rising(fs: seq<Frame>) {
    forall i, j :: 0 <= i < j < |fs| ==> fs[i].sequence < fs[j].sequence
  }

  ghost predicate Below(fs: seq<Frame>, n: nat) {
    forall i :: 0 <= i < |fs| ==> fs[i].sequence < n
  }

  ghost predicate UnitsFit(us: seq<Unit>) {
    UnitsOk(us) && FramesOk(Flatten(us)) && Rising(Flatten(us)) && Below(Flatten(us), U64 - 1)
  }

  /** The file is some prefix of what was appended, and `units` is what of it is whole. */
  ghost predicate Holding(live: seq<Byte>, units: seq<Unit>, appended: seq<Frame>) {
    && FramesOk(appended) && |live| <= |AllBytes(appended)| && live == AllBytes(appended)[..|live|]
    && UnitsFit(units) && Flatten(units) == appended[..Whole(appended, |live|)]
  }

  ghost predicate WriterOk(w: Writer, units: seq<Unit>) {
    Below(Flatten(units), w.nextSeq) && w.nextSeq < U64 && w.nextTxn >= 1
  }

  ghost predicate Inv(s: Log, h: History) {
    && Holding(s.live, h.units, h.appended)
    && UnitsFit(h.saved) && s.durable == AllBytes(Flatten(h.saved))
    && (s.writer.Some? ==>
          (h.appended == Flatten(h.units) && s.live == AllBytes(h.appended) && WriterOk(s.writer.value, h.units)))
  }

  // ----- Counting whole frames -----

  lemma {:induction false} WholeAll(fs: seq<Frame>)
    ensures Whole(fs, |AllBytes(fs)|) == |fs|
  {
    hide FrameBytes;
    if fs != [] {
      WholeAll(fs[1..]);
    }
  }

  lemma {:induction false} WholeMonotone(fs: seq<Frame>, j: nat, k: nat)
    requires j <= k
    ensures Whole(fs, j) <= Whole(fs, k)
    decreases |fs|
  {
    hide FrameBytes;
    if fs != [] && j >= |FrameBytes(fs[0])| {
      var n := |FrameBytes(fs[0])|;
      WholeMonotone(fs[1..], j - n, k - n);
    }
  }

  /** Frames past a whole prefix are counted on their own. */
  lemma {:induction false} WholeSplit(a: seq<Frame>, b: seq<Frame>, k: nat)
    ensures Whole(a + b, |AllBytes(a)| + k) == |a| + Whole(b, k)
    decreases |a|
  {
    hide FrameBytes, AllBytes, Whole;
    if a == [] {
      assert a + b == b;
      assert |AllBytes(a)| == 0 by { NothingHeld(); }
    } else {
      var f, more := a[0], a[1..];
      Rest(a, b);
      WholeSplit(more, b, k);
      AllBytesCons(f, more);
      var n := |AllBytes(more)| + k;
      WholeCons(f, more + b, n);
      assert |AllBytes(a)| + k == |FrameBytes(f)| + n;
    }
  }

  lemma WholeCons(f: Frame, fs: seq<Frame>, k: nat)
    ensures Whole([f] + fs, |FrameBytes(f)| + k) == 1 + Whole(fs, k)
  {
    hide FrameBytes;
    assert ([f] + fs)[1..] == fs;
  }

  // ----- Each step keeps the invariant -----

  lemma PrefixFits(us: seq<Unit>, m: nat)
    requires UnitsFit(us) && m <= |Flatten(us)|
    ensures UnitsFit(CutUnits(us, m)) && Flatten(CutUnits(us, m)) == Flatten(us)[..m]
  {
    hide FrameOk, Flatten, CutUnits, UnitOk;
    CutFrames(us, m);
  }

  /** A cut of what is held holds what is left of the units. */
  lemma Shorten(live: seq<Byte>, units: seq<Unit>, appended: seq<Frame>, k: nat)
    requires Holding(live, units, appended) && k <= |live|
    ensures Holding(live[..k], CutUnits(units, Whole(appended, k)), appended)
  {
    hide FrameOk, Flatten, CutUnits, UnitOk, Whole, AllBytes, UnitsFit;
    var m := Whole(appended, k);
    WholeMonotone(appended, k, |live|);
    PrefixFits(units, m);
    assert live[..k] == AllBytes(appended)[..k];
    assert appended[..Whole(appended, |live|)][..m] == appended[..m];
  }

  lemma HoldWhole(units: seq<Unit>)
    requires UnitsFit(units)
    ensures Holding(AllBytes(Flatten(units)), units, Flatten(units))
  {
    hide FrameOk, Flatten, UnitOk, Whole, AllBytes;
    var fs := Flatten(units);
    WholeAll(fs);
    assert AllBytes(fs)[..|AllBytes(fs)|] == AllBytes(fs) && fs[..|fs|] == fs;
  }

  /** The frames a writer appends carry on the numbering. */
  lemma AppendedFits(units: seq<Unit>, w: Writer, step: Step)
    requires UnitsFit(units) && WriterOk(w, units) && (step.Append? || step.Group?)
    requires Allowed(Log([], [], Some(w)), step) && FramesOk(UnitFrames(Appending(w, step)))
    ensures var u := Appending(w, step);
      && UnitsFit(units + [u]) && Flatten(units + [u]) == Flatten(units) + UnitFrames(u)
      && WriterOk(Advance(w, step, true), units + [u])
  {
    hide FrameOk, Flatten;
    var u := Appending(w, step);
    FlattenOne(u);
    FlattenSplit(units, [u]);
    assert forall i :: 0 <= i < |UnitFrames(u)| ==> UnitFrames(u)[i].sequence == w.nextSeq + i;
  }

  lemma FlattenOne(u: Unit)
    ensures Flatten([u]) == UnitFrames(u)
  {
    hide UnitFrames;
    assert [u][1..] == [];
    assert UnitFrames(u) + [] == UnitFrames(u);
  }

  lemma WriteOk(s: Log, h: History, step: Step)
    requires Inv(s, h) && (step.Append? || step.Group?) && Allowed(s, step)
    ensures Inv(Write(s, step), TrackWrite(s, h, step))
  {
    hide FrameOk, Flatten, UnitOk, Whole, AllBytes, UnitsFit, CutUnits, UnitFrames, FramesOk, Holding, NoCommits;
    var w := s.writer.value;
    var u := Appending(w, step);
    var fs := UnitFrames(u);
    if FramesOk(fs) {
      HoldingFits(s.live, h.units, h.appended);
      AppendedFits(h.units, w, step);
      var us := h.units + [u];
      HoldWhole(us);
      BytesSplit(Flatten(h.units), fs);
      assert Flatten(us) == h.appended + fs && AllBytes(Flatten(us)) == s.live + AllBytes(fs);
      match step.kept
      case None =>
      case Some(k) =>
        var n := |s.live| + Min(k, |AllBytes(fs)|);
        Shorten(s.live + AllBytes(fs), us, Flatten(us), n);
        assert (s.live + AllBytes(fs))[..n] == s.live + AllBytes(fs)[..Min(k, |AllBytes(fs)|)];
        WholeCapped(h.appended + fs, |s.live| + k, n);
    } else {
      RefusedOk(w, h.units, step);
    }
  }

  lemma RefusedOk(w: Writer, units: seq<Unit>, step: Step)
    requires WriterOk(w, units) && (step.Append? || step.Group?)
    ensures WriterOk(Advance(w, step, false), units)
  {
  }

  lemma WholeCapped(fs: seq<Frame>, k: nat, n: nat)
    requires n == Min(k, |AllBytes(fs)|)
    ensures Whole(fs, k) == Whole(fs, n)
  {
    hide Whole, AllBytes;
    if k > |AllBytes(fs)| {
      WholeAll(fs);
      WholeMonotone(fs, |AllBytes(fs)|, k);
    }
  }

  lemma {:induction false} LastBounds(fs: seq<Frame>, n: nat)
    requires Below(fs, n) && n > 0
    ensures LastSequence(fs) < n && Below(fs, LastSequence(fs) + 1)
  {
    if fs != [] {
      LastBounds(fs[1..], n);
      assert forall i :: 0 < i < |fs| ==> fs[i] == fs[1..][i - 1];
    }
  }

  /** What a scan of the file reports: exactly the whole units, and never corruption. */
  lemma ScanFinds(live: seq<Byte>, units: seq<Unit>, appended: seq<Frame>)
    requires Holding(live, units, appended)
    ensures var n := |AllBytes(Flatten(units))|;
      && n <= |live| && live[..n] == AllBytes(Flatten(units))
      && ScanLog(live) == Scan(Flatten(units), if n == |live| then Clean else Torn, n)
  {
    hide FrameOk, Flatten, UnitOk, Whole, ScanLog;
    CutLog(appended, |live|);
    ScanIsExact(live);
  }

  lemma RecoverOk(s: Log, h: History)
    requires Inv(s, h) && s.writer.None?
    ensures Inv(Recover(s), Track(s, h, Reopen)) && Recover(s).writer.Some?
  {
    hide FrameOk, Flatten, UnitOk, Whole, AllBytes, ScanLog, LastSequence, Holding, FramesOk;
    ScanFinds(s.live, h.units, h.appended);
    HoldingFits(s.live, h.units, h.appended);
    LastBounds(Flatten(h.units), U64 - 1);
    HoldWhole(h.units);
    assert s.live[..|s.live|] == s.live;
  }

  lemma CutTailOk(s: Log, h: History)
    requires Inv(s, h) && s.writer.None?
    ensures Inv(Truncated(s), Track(s, h, CutTail))
  {
    hide FrameOk, Flatten, UnitOk, Whole, AllBytes, ScanLog, Holding, FramesOk, UnitsFit;
    ScanFinds(s.live, h.units, h.appended);
    HoldingFits(s.live, h.units, h.appended);
    HoldWhole(h.units);
    assert s.live[..|s.live|] == s.live;
  }

  lemma HoldingFits(live: seq<Byte>, units: seq<Unit>, appended: seq<Frame>)
    requires Holding(live, units, appended)
    ensures UnitsFit(units)
  {
  }

  /** Every step keeps the invariant. */
  lemma StepOk(s: Log, h: History, step: Step)
    requires Inv(s, h) && Allowed(s, step)
    ensures Inv(Next(s, step), Track(s, h, step))
  {
    hide FrameOk, UnitOk, Whole, ScanLog, LastSequence, Holding, FramesOk, UnitsFit, Flatten, AllBytes, CutUnits, Write, TrackWrite, Truncated;
    match step
    case Append(_, _) => WriteOk(s, h, step);
    case Group(_, _) => WriteOk(s, h, step);
    case CutTail => CutTailOk(s, h);
    case Reopen => RecoverOk(s, h);
    case PartialFlush(k) => Shorten(s.live, h.units, h.appended, k);
    case PowerLoss => HoldWhole(h.saved);
    case Sync => HoldingFits(s.live, h.units, h.appended);
    case Kill =>
    case AppendFails(_) =>
    case Checkpoint(_) => NothingHeld();
  }

  lemma NothingHeld()
    ensures AllBytes([]) == [] && Flatten([]) == [] && Holding([], [], []) && UnitsFit([])
  {
  }

  lemma {:induction false} EveryRun(steps: seq<Step>)
    requires RunOf(steps).Some?
    ensures var (s, h) := RunOf(steps).value; Inv(s, h)
    decreases |steps|
  {
    hide Inv, Next, Track, Allowed;
    if steps == [] {
      NothingHeld();
      assert Inv(Empty, NoHistory) by { NothingHeld(); FirstInv(); }
    } else {
      var n := |steps| - 1;
      EveryRun(steps[..n]);
      var (s, h) := RunOf(steps[..n]).value;
      StepOk(s, h, steps[n]);
    }
  }

  lemma FirstInv()
    ensures Inv(Empty, NoHistory)
  {
    NothingHeld();
  }

  // ----- What recovery finds -----

  /** In every reachable state a scan finds exactly the whole units appended, and no corruption. */
  lemma RecoveryFinds(steps: seq<Step>)
    requires RunOf(steps).Some?
    ensures var (s, h) := RunOf(steps).value; var scan := ScanLog(s.live);
      && scan.frames == Flatten(h.units) && !scan.tail.Corrupt? && Rising(scan.frames)
      && (s.writer.Some? ==> scan.tail == Clean)
  {
    hide RunOf, Flatten, AllBytes, ScanLog, FramesOk, Whole, UnitsOk;
    var (s, h) := RunOf(steps).value;
    EveryRun(steps);
    ScanFinds(s.live, h.units, h.appended);
  }

  /** A flush cut short keeps everything synced, and nothing that was not there. */
  lemma FlushKeeps(s: Log, h: History, k: nat)
    requires Inv(s, h) && Allowed(s, PartialFlush(k))
    ensures var f := Flatten(CutUnits(h.units, Whole(h.appended, k))); Flatten(h.saved) <= f <= Flatten(h.units)
  {
    hide FrameOk, Flatten, UnitOk, Whole, AllBytes, ScanLog, CutUnits, FramesOk, Holding;
    var us := CutUnits(h.units, Whole(h.appended, k));
    Shorten(s.live, h.units, h.appended, k);
    ScanFinds(s.live[..k], us, h.appended);
    var rest := s.live[..k][|s.durable|..];
    assert s.live[..k] == s.durable + rest;
    ScanFrames(Flatten(h.saved), rest);
    FlushBelow(s, h, k);
  }

  lemma FlushBelow(s: Log, h: History, k: nat)
    requires Inv(s, h) && k <= |s.live|
    ensures Flatten(CutUnits(h.units, Whole(h.appended, k))) <= Flatten(h.units)
  {
    hide FrameOk, Flatten, UnitOk, Whole, AllBytes, CutUnits, FramesOk, UnitsFit;
    WholeMonotone(h.appended, k, |s.live|);
    PrefixFits(h.units, Whole(h.appended, k));
  }

  /** What an append leaves: the units before it, then all, part or none of the new one. */
  lemma WriteLeaves(s: Log, h: History, step: Step) returns (m: nat)
    requires Inv(s, h) && (step.Append? || step.Group?) && Allowed(s, step)
    requires FramesOk(UnitFrames(Appending(s.writer.value, step)))
    ensures var u := Appending(s.writer.value, step);
      && m <= |UnitFrames(u)|
      && TrackWrite(s, h, step).units == h.units + (if m == |UnitFrames(u)| then [u] else Part(u, m))
      && m == if step.kept.None? then |UnitFrames(u)| else Whole(UnitFrames(u), step.kept.value)
  {
    hide FrameOk, Flatten, UnitOk, Whole, AllBytes, CutUnits, FramesOk, Holding, Part, UnitFrames;
    var u := Appending(s.writer.value, step);
    match step.kept
    case None => m := |UnitFrames(u)|;
    case Some(k) =>
      m := Whole(UnitFrames(u), k);
      WholeSplit(h.appended, UnitFrames(u), k);
      CutLast(h.units, u, m);
  }

  /** `base` is recorded both in the file and in what the last sync covered. */
  ghost predicate Keeps(base: seq<Frame>, h: History) {
    base <= Flatten(h.units) && base <= Flatten(h.saved)
  }

  lemma StepKeeps(s: Log, h: History, step: Step, base: seq<Frame>)
    requires Inv(s, h) && Allowed(s, step) && Keeps(base, h) && !step.Checkpoint?
    ensures Keeps(base, Track(s, h, step))
  {
    hide Inv, Flatten, CutUnits, Whole, FramesOk, AllBytes, Part;
    match step
    case PartialFlush(k) => FlushKeeps(s, h, k);
    case Append(_, _) => WriteKeeps(s, h, step, base);
    case Group(_, _) => WriteKeeps(s, h, step, base);
    case CutTail =>
    case Reopen =>
    case Sync =>
    case Kill =>
    case AppendFails(_) =>
    case PowerLoss =>
  }

  lemma WriteKeeps(s: Log, h: History, step: Step, base: seq<Frame>)
    requires Inv(s, h) && (step.Append? || step.Group?) && Allowed(s, step) && Keeps(base, h)
    ensures Keeps(base, TrackWrite(s, h, step))
  {
    hide Inv, Flatten, CutUnits, Whole, FramesOk, AllBytes, Part, UnitFrames;
    var u := Appending(s.writer.value, step);
    if FramesOk(UnitFrames(u)) {
      var m := WriteLeaves(s, h, step);
      FlattenSplit(h.units, if m == |UnitFrames(u)| then [u] else Part(u, m));
    }
  }

  /**
    Durability: whatever the log held at a sync is still at its front, unchanged and in
    order, after any further steps, until a checkpoint.
  */
  lemma {:induction false} SyncedSurvives(before: seq<Step>, later: seq<Step>)
    requires RunOf(before + [Sync] + later).Some? && forall i :: 0 <= i < |later| ==> !later[i].Checkpoint?
    ensures RunOf(before).Some?
    ensures ScanLog(RunOf(before).value.0.live).frames <= ScanLog(RunOf(before + [Sync] + later).value.0.live).frames
  {
    hide Inv, Flatten, CutUnits, Whole, FramesOk, AllBytes, ScanLog, Next, Track, Allowed, RunOf, Rising;
    SyncedKept(before, later);
    RecoveryFinds(before);
    RecoveryFinds(before + [Sync] + later);
  }

  lemma RunSnoc(steps: seq<Step>, step: Step)
    requires RunOf(steps + [step]).Some?
    ensures RunOf(steps).Some?
    ensures var (s, h) := RunOf(steps).value;
      Allowed(s, step) && RunOf(steps + [step]) == Some((Next(s, step), Track(s, h, step)))
  {
    hide Next, Track, Allowed;
    assert (steps + [step])[..|steps|] == steps;
  }

  lemma {:induction false} SyncedKept(before: seq<Step>, later: seq<Step>)
    requires RunOf(before + [Sync] + later).Some? && forall i :: 0 <= i < |later| ==> !later[i].Checkpoint?
    ensures RunOf(before).Some? && Keeps(Flatten(RunOf(before).value.1.units), RunOf(before + [Sync] + later).value.1)
    decreases |later|
  {
    hide Inv, Flatten, Next, Allowed, RunOf, TrackWrite, CutUnits, AllBytes;
    if later == [] {
      assert before + [Sync] + later == before + [Sync];
      RunSnoc(before, Sync);
    } else {
      var n := |later| - 1;
      var prior := before + [Sync] + later[..n];
      assert before + [Sync] + later == prior + [later[n]];
      hide Track, Keeps;
      RunSnoc(prior, later[n]);
      SyncedKept(before, later[..n]);
      EveryRun(prior);
      var (s, h) := RunOf(prior).value;
      StepKeeps(s, h, later[n], Flatten(RunOf(before).value.1.units));
    }
  }

  lemma {:induction false} CommitRecorded(fs: seq<Frame>, i: nat)
    requires i < |fs| && fs[i].op.Commit?
    ensures fs[i].txn in CommittedTxns(fs)
  {
    if i > 0 {
      CommitRecorded(fs[1..], i - 1);
    }
  }

  lemma {:induction false} KeptIfCommitted(fs: seq<Frame>, i: nat, txns: seq<nat>)
    requires i < |fs| && !fs[i].op.Commit? && fs[i].txn in txns
    ensures fs[i] in Keep(fs, txns)
  {
    if i > 0 {
      KeptIfCommitted(fs[1..], i - 1, txns);
    }
  }

  /** A log that starts with a whole batch after `f` replays all of it. */
  lemma BatchReplayed(f: seq<Frame>, at: nat, txn: nat, ops: seq<Op>, log: seq<Frame>)
    requires f + UnitFrames(Batch(at, txn, ops)) <= log && NoCommits(ops)
    ensures forall k :: 0 <= k < |ops| ==> Frame(at + k, txn, ops[k]) in Committed(log)
  {
    var u := UnitFrames(Batch(at, txn, ops));
    assert u[|ops|] == Frame(at + |ops|, txn, Commit(|ops|));
    assert log[|f| + |ops|] == (f + u)[|f| + |ops|] == u[|ops|];
    CommitRecorded(log, |f| + |ops|);
    forall k | 0 <= k < |ops| ensures Frame(at + k, txn, ops[k]) in Committed(log) {
      assert log[|f| + k] == (f + u)[|f| + k] == u[k] == Frame(at + k, txn, ops[k]);
      KeptIfCommitted(log, |f| + k, CommittedTxns(log));
    }
  }

  /** What a batch appended whole adds to what a scan finds. */
  lemma BatchLogged(before: seq<Step>, ops: seq<Op>)
    requires RunOf(before + [Group(ops, None)]).Some?
    ensures RunOf(before).Some? && RunOf(before).value.0.writer.Some? && NoCommits(ops)
    ensures var w := RunOf(before).value.0.writer.value; var u := Batch(w.nextSeq, w.nextTxn, ops);
      FramesOk(UnitFrames(u)) ==>
        ScanLog(RunOf(before + [Group(ops, None)]).value.0.live).frames == ScanLog(RunOf(before).value.0.live).frames + UnitFrames(u)
  {
    hide Flatten, CutUnits, Whole, FramesOk, AllBytes, ScanLog, RunOf, Rising, UnitFrames, Next;
    RunSnoc(before, Group(ops, None));
    RecoveryFinds(before);
    RecoveryFinds(before + [Group(ops, None)]);
    var (s, h) := RunOf(before).value;
    if FramesOk(UnitFrames(Batch(s.writer.value.nextSeq, s.writer.value.nextTxn, ops))) {
      GroupRecorded(s, h, ops);
    }
  }

  /**
    A batch appended and synced survives any further steps until a checkpoint: its frames
    stay where they were put, and recovery replays every one of its operations.
  */
  lemma AcknowledgedBatchSurvives(before: seq<Step>, w: Writer, ops: seq<Op>, later: seq<Step>)
    requires RunOf(before).Some? && RunOf(before).value.0.writer == Some(w)
    requires FramesOk(UnitFrames(Batch(w.nextSeq, w.nextTxn, ops)))
    requires RunOf(before + [Group(ops, None)] + [Sync] + later).Some?
    requires forall i :: 0 <= i < |later| ==> !later[i].Checkpoint?
    ensures var log := ScanLog(RunOf(before + [Group(ops, None)] + [Sync] + later).value.0.live).frames;
      && ScanLog(RunOf(before).value.0.live).frames + UnitFrames(Batch(w.nextSeq, w.nextTxn, ops)) <= log
      && forall k :: 0 <= k < |ops| ==> Frame(w.nextSeq + k, w.nextTxn, ops[k]) in Committed(log)
  {
    hide *;
    var mid := before + [Group(ops, None)];
    SyncedSurvives(mid, later);
    BatchLogged(before, ops);
    BatchReplayed(ScanLog(RunOf(before).value.0.live).frames, w.nextSeq, w.nextTxn, ops,
      ScanLog(RunOf(mid + [Sync] + later).value.0.live).frames);
  }

  lemma GroupRecorded(s: Log, h: History, ops: seq<Op>)
    requires Allowed(s, Group(ops, None))
    requires FramesOk(UnitFrames(Batch(s.writer.value.nextSeq, s.writer.value.nextTxn, ops)))
    ensures Flatten(Track(s, h, Group(ops, None)).units)
         == Flatten(h.units) + UnitFrames(Batch(s.writer.value.nextSeq, s.writer.value.nextTxn, ops))
  {
    hide FramesOk, UnitFrames, Flatten;
    var u := Batch(s.writer.value.nextSeq, s.writer.value.nextTxn, ops);
    FlattenSplit(h.units, [u]);
    FlattenOne(u);
  }

  // ----- Batches are all or nothing exactly when ids are not reused -----

  /** Replay applies the standalone operations and whole batches appended, and nothing else. */
  ghost predicate Atomic(s: Log, h: History) {
    Committed(ScanLog(s.live).frames) == Applied(h.units)
  }

  lemma AtomicExactly(s: Log, h: History)
    requires Inv(s, h)
    ensures Atomic(s, h) <==> !Clash(h.units)
  {
    hide FrameOk, Flatten, UnitOk, Whole, AllBytes, ScanLog, FramesOk, Committed, Applied, Clash;
    ScanFinds(s.live, h.units, h.appended);
    AllOrNothing(h.units);
  }

  /** Some frame in the log belongs to transaction `txn`. */
  ghost predicate Carried(us: seq<Unit>, txn: nat) {
    exists i :: 0 <= i < |us| && !us[i].Single? && us[i].txn == txn
  }

  /** No two groups in the log share an id. */
  ghost predicate OwnIds(us: seq<Unit>) {
    forall i, j :: 0 <= i < j < |us| && !us[i].Single? && !us[j].Single? ==> us[i].txn != us[j].txn
  }

  /** Every group was given an id that no frame then in the log carried. */
  ghost predicate FreshIds(steps: seq<Step>) {
    forall n :: 0 <= n < |steps| && steps[n].Group? && RunOf(steps[..n]).Some? ==> FreshAt(steps[..n])
  }

  ghost predicate FreshAt(steps: seq<Step>)
    requires RunOf(steps).Some?
  {
    var (s, h) := RunOf(steps).value;
    s.writer.Some? ==> !Carried(h.units, s.writer.value.nextTxn)
  }

  /** Cutting introduces no new group ids. */
  lemma {:induction false} CutIds(us: seq<Unit>, m: nat)
    requires UnitsOk(us)
    ensures var c := CutUnits(us, m);
      |c| <= |us| && forall i :: 0 <= i < |c| && !c[i].Single? ==> !us[i].Single? && us[i].txn == c[i].txn
  {
    hide UnitFrames, UnitOk;
    if us != [] {
      var n := |UnitFrames(us[0])|;
      if m >= n {
        CutIds(us[1..], m - n);
        assert forall i :: 0 < i < |us| ==> us[i] == us[1..][i - 1];
      } else {
        PartIds(us[0], m);
      }
    }
  }

  lemma PartIds(u: Unit, m: nat)
    requires m < |UnitFrames(u)|
    ensures var p := Part(u, m);
      p == [] || (|p| == 1 && p[0].Orphan? && !u.Single? && p[0].txn == u.txn && p[0].at == u.at && p[0].ops == u.ops[..m])
  {
  }

  lemma StepOwnIds(s: Log, h: History, step: Step)
    requires Inv(s, h) && Allowed(s, step) && OwnIds(h.units) && OwnIds(h.saved)
    requires step.Group? ==> !Carried(h.units, s.writer.value.nextTxn)
    ensures OwnIds(Track(s, h, step).units) && OwnIds(Track(s, h, step).saved)
  {
    hide Flatten, CutUnits, Whole, AllBytes, Part, FramesOk, UnitFrames, UnitOk, Rising, Below;
    match step
    case PartialFlush(k) => CutIds(h.units, Whole(h.appended, k));
    case Append(_, _) => WriteOwnIds(s, h, step);
    case Group(_, _) => WriteOwnIds(s, h, step);
    case CutTail =>
    case Reopen =>
    case Sync =>
    case Kill =>
    case AppendFails(_) =>
    case PowerLoss =>
    case Checkpoint(_) =>
  }

  lemma WriteOwnIds(s: Log, h: History, step: Step)
    requires Inv(s, h) && (step.Append? || step.Group?) && Allowed(s, step) && OwnIds(h.units)
    requires step.Group? ==> !Carried(h.units, s.writer.value.nextTxn)
    ensures OwnIds(TrackWrite(s, h, step).units) && TrackWrite(s, h, step).saved == h.saved
  {
    hide Inv, Flatten, CutUnits, Whole, FramesOk, AllBytes, Part, UnitFrames;
    var u := Appending(s.writer.value, step);
    if FramesOk(UnitFrames(u)) {
      var m := WriteLeaves(s, h, step);
      if m < |UnitFrames(u)| {
        PartIds(u, m);
      }
    }
  }

  lemma OwnIdsNoClash(us: seq<Unit>)
    requires OwnIds(us)
    ensures !Clash(us)
  {
  }

  lemma {:induction false} FreshOwnIds(steps: seq<Step>)
    requires RunOf(steps).Some? && FreshIds(steps)
    ensures var (s, h) := RunOf(steps).value; OwnIds(h.units) && OwnIds(h.saved)
    decreases |steps|
  {
    hide Inv, Next, Track, Allowed, OwnIds, FreshAt;
    if steps == [] {
      assert OwnIds([]) by { NoIds(); }
    } else {
      var n := |steps| - 1;
      var prior := steps[..n];
      assert forall m :: 0 <= m < n ==> prior[..m] == steps[..m];
      FreshOwnIds(prior);
      EveryRun(prior);
      assert steps[n].Group? ==> FreshAt(steps[..n]);
      var (s, h) := RunOf(prior).value;
      FreshMeans(prior, steps[n]);
      StepOwnIds(s, h, steps[n]);
    }
  }

  lemma NoIds()
    ensures OwnIds([])
  {
  }

  lemma FreshMeans(steps: seq<Step>, step: Step)
    requires RunOf(steps).Some? && Allowed(RunOf(steps).value.0, step) && (step.Group? ==> FreshAt(steps))
    ensures var (s, h) := RunOf(steps).value; step.Group? ==> s.writer.Some? && !Carried(h.units, s.writer.value.nextTxn)
  {
    hide RunOf, Carried;
  }

  /** In every run that never reuses an id still in the log, batches are all or nothing. */
  lemma FreshRunsAreAtomic(steps: seq<Step>)
    requires RunOf(steps).Some? && FreshIds(steps)
    ensures var (s, h) := RunOf(steps).value; Atomic(s, h)
  {
    hide RunOf, Inv, FreshIds, Atomic, OwnIds, Clash;
    var (s, h) := RunOf(steps).value;
    EveryRun(steps);
    FreshOwnIds(steps);
    OwnIdsNoClash(h.units);
    AtomicExactly(s, h);
  }

  lemma ClashSnoc(us: seq<Unit>, u: Unit)
    requires !Clash(us)
    ensures u.Batch? ==> (Clash(us + [u]) <==> exists i :: 0 <= i < |us| && us[i].Orphan? && us[i].txn == u.txn)
    ensures u.Orphan? ==> (Clash(us + [u]) <==> BatchId(us, u.txn))
  {
    var all := us + [u];
    assert all[|us|] == u && forall i :: 0 <= i < |us| ==> all[i] == us[i];
  }

  /** Torn after its first operation, a batch leaves that operation behind. */
  lemma TornAfterOne(s: Log, h: History, ops: seq<Op>) returns (step: Step)
    requires Inv(s, h) && ops != [] && Allowed(s, Group(ops, None))
    requires FramesOk(UnitFrames(Batch(s.writer.value.nextSeq, s.writer.value.nextTxn, ops)))
    ensures step.Group? && step.ops == ops && Allowed(s, step)
    ensures TrackWrite(s, h, step).units == h.units + [Orphan(s.writer.value.nextSeq, s.writer.value.nextTxn, ops[..1])]
  {
    hide Inv, Flatten, CutUnits, FramesOk, AllBytes, TrackWrite, FrameBytes, NoCommits;
    var u := Batch(s.writer.value.nextSeq, s.writer.value.nextTxn, ops);
    var fs := UnitFrames(u);
    step := Group(ops, Some(|FrameBytes(fs[0])|));
    assert Appending(s.writer.value, step) == u;
    var m := WriteLeaves(s, h, step);
    assert m == 1 by { WholeFirst(fs); }
  }

  lemma WholeFirst(fs: seq<Frame>)
    requires |fs| > 1
    ensures Whole(fs, |FrameBytes(fs[0])|) == 1
  {
    hide BodyBytes;
    assert Whole(fs[1..], 0) == 0;
  }

  /** However an append of this batch ends, replay stays all or nothing. */
  ghost predicate SafeGroup(s: Log, h: History, ops: seq<Op>)
    requires Allowed(s, Group(ops, None))
  {
    forall kept: Option<nat> :: Atomic(Next(s, Group(ops, kept)), Track(s, h, Group(ops, kept)))
  }

  /**
    The exact condition: a batch is safe against every way its append can end if and only
    if its id is on no frame in the log.
  */
  lemma SafeGroupExactly(s: Log, h: History, ops: seq<Op>)
    requires Inv(s, h) && !Clash(h.units) && ops != [] && Allowed(s, Group(ops, None))
    requires FramesOk(UnitFrames(Batch(s.writer.value.nextSeq, s.writer.value.nextTxn, ops)))
    ensures SafeGroup(s, h, ops) <==> !Carried(h.units, s.writer.value.nextTxn)
  {
    hide Inv, Clash, FramesOk, UnitFrames, Atomic, Carried, TrackWrite, Write, NoCommits;
    var txn := s.writer.value.nextTxn;
    if Carried(h.units, txn) {
      var step := ReuseBreaks(s, h, ops);
    } else {
      forall kept: Option<nat> ensures Atomic(Next(s, Group(ops, kept)), Track(s, h, Group(ops, kept))) {
        NewIdKeeps(s, h, Group(ops, kept));
      }
    }
  }

  lemma ReuseBreaks(s: Log, h: History, ops: seq<Op>) returns (step: Step)
    requires Inv(s, h) && !Clash(h.units) && ops != [] && Allowed(s, Group(ops, None))
    requires FramesOk(UnitFrames(Batch(s.writer.value.nextSeq, s.writer.value.nextTxn, ops)))
    requires Carried(h.units, s.writer.value.nextTxn)
    ensures step.Group? && step.ops == ops && Allowed(s, step) && !Atomic(Next(s, step), Track(s, h, step))
  {
    hide Inv, Clash, FramesOk, UnitFrames, Atomic, TrackWrite, Write, NoCommits;
    var txn := s.writer.value.nextTxn;
    var i :| 0 <= i < |h.units| && !h.units[i].Single? && h.units[i].txn == txn;
    if h.units[i].Batch? {
      step := TornAfterOne(s, h, ops);
      ClashSnoc(h.units, Orphan(s.writer.value.nextSeq, txn, ops[..1]));
    } else {
      step := Group(ops, None);
      var m := WriteLeaves(s, h, step);
      ClashSnoc(h.units, Batch(s.writer.value.nextSeq, txn, ops));
    }
    StepOk(s, h, step);
    AtomicExactly(Next(s, step), Track(s, h, step));
  }

  lemma NewIdKeeps(s: Log, h: History, step: Step)
    requires Inv(s, h) && !Clash(h.units) && step.Group? && Allowed(s, step)
    requires !Carried(h.units, s.writer.value.nextTxn)
    ensures Atomic(Next(s, step), Track(s, h, step))
  {
    hide Inv, FramesOk, UnitFrames, Atomic, Write, NoCommits, CutUnits, Part;
    var u := Appending(s.writer.value, step);
    if FramesOk(UnitFrames(u)) {
      var m := WriteLeaves(s, h, step);
      if m < |UnitFrames(u)| {
        PartIds(u, m);
        if Part(u, m) == [] {
          assert h.units + Part(u, m) == h.units;
        } else {
          assert Part(u, m) == [Part(u, m)[0]];
          ClashSnoc(h.units, Part(u, m)[0]);
        }
      } else {
        ClashSnoc(h.units, u);
      }
    }
    StepOk(s, h, step);
    AtomicExactly(Next(s, step), Track(s, h, step));
  }

  lemma RunGrows(steps: seq<Step>, step: Step)
    requires RunOf(steps).Some? && Allowed(RunOf(steps).value.0, step)
    ensures var (s, h) := RunOf(steps).value; RunOf(steps + [step]) == Some((Next(s, step), Track(s, h, step)))
  {
    hide Next, Track, Allowed;
    assert (steps + [step])[..|steps|] == steps;
  }

  /** Opening an empty log. */
  lemma FirstOpen()
    ensures RunOf([Reopen]) == Some((Log([], [], Some(Writer(1, 1))), NoHistory))
  {
    hide RunOf, Next, Track;
    var none: seq<Step> := [];
    RunNone(none);
    RunGrows(none, Reopen);
    assert none + [Reopen] == [Reopen];
    OpenNothing(Empty, NoHistory);
  }

  lemma RunNone(steps: seq<Step>)
    requires steps == []
    ensures RunOf(steps) == Some((Empty, NoHistory))
  {
  }

  lemma OpenNothing(s: Log, h: History)
    requires s == Empty && h == NoHistory
    ensures Next(s, Reopen) == Log([], [], Some(Writer(1, 1))) && Track(s, h, Reopen) == h
  {
    hide DecodeFrame, ScanLog;
    NothingHeld();
    ScanStep(s.live);
  }

  /** What is known once a batch has been appended to an empty log and its process has died. */
  lemma FirstBatch(first: seq<Op>)
    requires NoCommits(first) && |first| + 2 < U64 && FramesOk(UnitFrames(Batch(1, 1, first)))
    ensures var steps := [Reopen] + [Group(first, None)] + [Kill];
      && RunOf(steps).Some?
      && var (s, h) := RunOf(steps).value;
         s.writer.None? && h.units == [Batch(1, 1, first)] && s.live == AllBytes(UnitFrames(Batch(1, 1, first)))
  {
    FirstOpen();
    hide FramesOk, RunOf, AllBytes, NoCommits, Flatten, UnitFrames;
    var u := Batch(1, 1, first);
    var step := Group(first, None);
    RunGrows([Reopen], step);
    RunGrows([Reopen] + [step], Kill);
    assert [] + AllBytes(UnitFrames(u)) == AllBytes(UnitFrames(u));
  }

  /** A second start over a log of one batch numbers on past it, and from id one again. */
  lemma StartsOver(s: Log, h: History, first: seq<Op>)
    requires Inv(s, h) && h.units == [Batch(1, 1, first)] && s.live == AllBytes(UnitFrames(Batch(1, 1, first))) && |first| + 2 < U64
    ensures Recover(s).writer == Some(Writer(|first| + 2, 1))
  {
    hide FrameOk, FramesOk, AllBytes, ScanLog, UnitFrames, Holding, UnitsFit, Flatten, LastSequence;
    ScanFinds(s.live, h.units, h.appended);
    FlattenOne(h.units[0]);
    BatchLast(1, 1, first);
  }

  /** A batch, process death, and a second start: the writer hands out id one again. */
  lemma SecondStart(first: seq<Op>)
    requires NoCommits(first) && |first| + 2 < U64 && FramesOk(UnitFrames(Batch(1, 1, first)))
    ensures var steps := [Reopen] + [Group(first, None)] + [Kill] + [Reopen];
      && RunOf(steps).Some?
      && RunOf(steps).value.1.units == [Batch(1, 1, first)]
      && RunOf(steps).value.0.writer == Some(Writer(|first| + 2, 1))
  {
    hide FramesOk, RunOf, AllBytes, NoCommits, UnitFrames, Recover, Inv;
    FirstBatch(first);
    var steps := [Reopen] + [Group(first, None)] + [Kill];
    EveryRun(steps);
    var (s, h) := RunOf(steps).value;
    StartsOver(s, h, first);
    RunGrows(steps, Reopen);
  }

  lemma BatchLast(at: nat, txn: nat, ops: seq<Op>)
    ensures LastSequence(UnitFrames(Batch(at, txn, ops))) == at + |ops|
  {
    var fs := UnitFrames(Batch(at, txn, ops));
    assert Below(fs, at + |ops| + 1);
    LastBounds(fs, at + |ops| + 1);
    assert fs[|ops|].sequence == at + |ops|;
  }

  /**
    Ids restart at one with every writer, so a batch torn after a restart can be half
    replayed on the strength of an earlier batch's commit record.
  */
  lemma RestartBreaksBatches(first: seq<Op>, second: seq<Op>) returns (steps: seq<Step>)
    requires NoCommits(first) && NoCommits(second) && second != [] && |first| + |second| + 3 < U64
    requires FramesOk(UnitFrames(Batch(1, 1, first))) && FramesOk(UnitFrames(Batch(|first| + 2, 1, second)))
    ensures RunOf(steps).Some? && var (s, h) := RunOf(steps).value; !Atomic(s, h)
  {
    hide FramesOk, RunOf, AllBytes, NoCommits, Inv, Atomic, UnitFrames, Clash, Carried;
    SecondStart(first);
    var prior := [Reopen] + [Group(first, None)] + [Kill] + [Reopen];
    EveryRun(prior);
    var (s, h) := RunOf(prior).value;
    assert !Clash(h.units) && Carried(h.units, 1) by { OneBatch(first); }
    var step := ReuseBreaks(s, h, second);
    RunGrows(prior, step);
    steps := prior + [step];
  }

  lemma OneBatch(ops: seq<Op>)
    ensures !Clash([Batch(1, 1, ops)]) && Carried([Batch(1, 1, ops)], 1)
  {
    assert [Batch(1, 1, ops)][0].Batch?;
  }

  lemma SmallDelete(at: nat, txn: nat, x: Byte)
    requires at < 128 && txn < 128
    ensures FrameOk(Frame(at, txn, Delete([x])))
  {
    var f := Frame(at, txn, Delete([x]));
    assert |BodyBytes(f)| == 5;
  }

  lemma SmallCommit(at: nat, txn: nat, n: nat)
    requires at < 128 && txn < 128 && n < 128
    ensures FrameOk(Frame(at, txn, Commit(n)))
  {
    var f := Frame(at, txn, Commit(n));
    assert |BodyBytes(f)| == 4;
  }

  /** One delete committed, restart, two deletes torn after the first: replay applies that one. */
  lemma HalfABatch() returns (steps: seq<Step>)
    ensures RunOf(steps).Some? && var (s, h) := RunOf(steps).value; !Atomic(s, h)
  {
    hide FrameOk, RunOf, Atomic;
    SmallDelete(1, 1, 7);
    SmallCommit(2, 1, 1);
    SmallDelete(3, 1, 8);
    SmallDelete(4, 1, 9);
    SmallCommit(5, 1, 2);
    steps := RestartBreaksBatches([Delete([7])], [Delete([8]), Delete([9])]);
  }
}
