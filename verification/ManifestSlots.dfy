/**
  The two manifest slots over whole runs: creation, commits taken one storage call at a
  time, torn writes, process death, loss of power and reopening, in any order.
*/
module ManifestSlots {
  import opened Prelude
  import opened Bytes
  import opened Manifest
  import Cursor
  import Block

  datatype Slot = A | B {
    function Other(): Slot {
      if this == A then B else A
    }
  }

  // ----- Choosing a slot -----

  datatype Status = Missing | Invalid(error: Cursor.FormatError) | Fine(manifest: Manifest)

  datatype SlotScan = SlotScan(chosen: Option<(Slot, Manifest)>, a: Status, b: Status) {
    function NextSlot(): Slot {
      match chosen
      case Some((slot, _)) => slot.Other()
      case None => A
    }
  }

  function Examine(bytes: Option<seq<Byte>>): Status {
    match bytes
    case None => Missing
    case Some(b) =>
      match Decode(b)
      case Ok(m) => Fine(m)
      case Err(e) => Invalid(e)
  }

  function ScanSlots(a: Option<seq<Byte>>, b: Option<seq<Byte>>): SlotScan {
    var sa, sb := Examine(a), Examine(b);
    var chosen :=
      if sa.Fine? && sb.Fine? then
        if sb.manifest.sequence > sa.manifest.sequence then Some((B, sb.manifest)) else Some((A, sa.manifest))
      else if sa.Fine? then Some((A, sa.manifest))
      else if sb.Fine? then Some((B, sb.manifest))
      else None;
    SlotScan(chosen, sa, sb)
  }

  // ----- The files and the process -----

  /** What the two files hold; an empty file and a missing one are the same to the reader. */
  datatype Pair = Pair(a: seq<Byte>, b: seq<Byte>) {
    function Get(slot: Slot): seq<Byte> {
      if slot == A then a else b
    }
    function Put(slot: Slot, bytes: seq<Byte>): Pair {
      if slot == A then Pair(bytes, b) else Pair(a, bytes)
    }
  }

  function Present(bytes: seq<Byte>): Option<seq<Byte>> {
    if bytes == [] then None else Some(bytes)
  }

  function ScanPair(p: Pair): SlotScan {
    ScanSlots(Present(p.a), Present(p.b))
  }

  /** How far a commit has got: its target emptied, or its bytes written but not synced. */
  datatype Phase = Idle | Truncated(next: Manifest) | Written(next: Manifest)

  datatype Process = Down | Up(current: Manifest, slot: Slot, phase: Phase)

  datatype Disk = Disk(live: Pair, durable: Pair, process: Process)

  datatype Step =
    | Load
    | Create(uuid: seq<Byte>, now: nat)
    | Begin(next: Manifest, now: nat)
    | Write(kept: Option<nat>)
    | WriteFails
    | Finish
    | SyncFails
    | Kill
    | PowerLoss

  const Blank: Disk := Disk(Pair([], []), Pair([], []), Down)

  function First(uuid: seq<Byte>, now: nat): Manifest {
    Manifest(1, uuid, now, now, [])
  }

  /** The fields a commit fills in itself. */
  function Stamp(current: Manifest, next: Manifest, now: nat): Manifest {
    Manifest(Min(current.sequence + 1, U64 - 1), current.uuid, current.created, now, next.entries)
  }

  predicate Storable(m: Manifest) {
    Typed(m) && Valid(m) && |Payload(m)| < U64
  }

  function SlotBytes(m: Manifest): seq<Byte> {
    Block.EncodeBlock(Block.Manifest, Payload(m))
  }

  /** Who may take which step; sequences stay below the top of their range. */
  predicate Allowed(s: Disk, step: Step) {
    match step
    case Load => s.process.Down?
    case Create(uuid, now) => s.process.Down? && s.live == Pair([], []) && |uuid| == 16 && now < U64
    case Begin(next, now) =>
      && s.process.Up? && s.process.phase.Idle? && s.process.current.sequence + 1 < U64
      && Typed(next) && now < U64 && |Payload(Stamp(s.process.current, next, now))| < U64
    case Write(_) => s.process.Up? && s.process.phase.Truncated?
    case WriteFails => s.process.Up? && s.process.phase.Truncated?
    case Finish => s.process.Up? && s.process.phase.Written?
    case SyncFails => s.process.Up? && s.process.phase.Written?
    case Kill => true
    case PowerLoss => true
  }

  /** Check and stamp the manifest, then empty the slot it will go to. */
  function BeginStep(s: Disk, next: Manifest, now: nat): Disk
    requires s.process.Up?
  {
    var p := s.process;
    var m := Stamp(p.current, next, now);
    if Encode(m).Err? then s
    else s.(live := s.live.Put(p.slot.Other(), []), process := p.(phase := Truncated(m)))
  }

  /** Write the bytes: all of them, or the first `k` and then death. */
  function WriteStep(s: Disk, kept: Option<nat>): Disk
    requires s.process.Up? && s.process.phase.Truncated?
  {
    var p := s.process;
    var bytes := SlotBytes(p.phase.next);
    match kept
    case None => s.(live := s.live.Put(p.slot.Other(), bytes), process := p.(phase := Written(p.phase.next)))
    case Some(k) => s.(live := s.live.Put(p.slot.Other(), bytes[..Min(k, |bytes|)]), process := Down)
  }

  /** Sync the slot and adopt it. */
  function FinishStep(s: Disk): Disk
    requires s.process.Up? && s.process.phase.Written?
  {
    var p := s.process;
    var target := p.slot.Other();
    s.(durable := s.durable.Put(target, s.live.Get(target)), process := Up(p.phase.next, target, Idle))
  }

  /** A commit that fails leaves the process as it was; a creation that fails leaves none. */
  function GiveUp(p: Process): Process
    requires p.Up? && !p.phase.Idle?
  {
    if p.phase.next == p.current then Down else p.(phase := Idle)
  }

  function LoadStep(s: Disk): Disk {
    match ScanPair(s.live).chosen
    case Some((slot, m)) => s.(process := Up(m, slot, Idle))
    case None => s
  }

  function Next(s: Disk, step: Step): Disk
    requires Allowed(s, step)
  {
    match step
    case Load => LoadStep(s)
    case Create(uuid, now) => s.(process := Up(First(uuid, now), B, Truncated(First(uuid, now))))
    case Begin(next, now) => BeginStep(s, next, now)
    case Write(kept) => WriteStep(s, kept)
    case WriteFails => s.(process := GiveUp(s.process))
    case Finish => FinishStep(s)
    case SyncFails => s.(process := GiveUp(s.process))
    case Kill => s.(process := Down)
    case PowerLoss => s.(live := s.durable, process := Down)
  }

  /** A commit nothing interrupts: its three steps one after another. */
  function Uninterrupted(s: Disk, next: Manifest, now: nat): Disk
    requires s.process.Up? && Encode(Stamp(s.process.current, next, now)).Ok?
  {
    FinishStep(WriteStep(BeginStep(s, next, now), None))
  }

  // ----- What was completely written, and what was committed -----

  /**
    The slot and manifest last written whole and not since emptied, those of the last commit
    that returned, and whether this process's last commit failed at its sync.
  */
  datatype History = History(written: Option<(Slot, Manifest)>, committed: Option<(Slot, Manifest)>, failed: bool)

  const NoHistory: History := History(None, None, false)

  function TrackBegin(s: Disk, h: History, next: Manifest, now: nat): History
    requires s.process.Up?
  {
    if Encode(Stamp(s.process.current, next, now)).Err? then h
    else if h.failed then History(Some((s.process.slot, s.process.current)), h.committed, false)
    else h
  }

  function Track(s: Disk, h: History, step: Step): History
    requires Allowed(s, step)
  {
    match step
    case Begin(next, now) => TrackBegin(s, h, next, now)
    case Write(kept) =>
      var m := s.process.phase.next;
      if kept.None? || kept.value >= |SlotBytes(m)| then h.(written := Some((s.process.slot.Other(), m))) else h
    case Finish => h.(committed := Some((s.process.slot.Other(), s.process.phase.next)))
    case SyncFails => h.(failed := GiveUp(s.process).Up?)
    case PowerLoss => History(h.committed, h.committed, false)
    case Kill => h.(failed := false)
    case _ => h
  }

  function RunOf(steps: seq<Step>): Option<(Disk, History)> {
    if steps == [] then Some((Blank, NoHistory))
    else
      var n := |steps| - 1;
      match RunOf(steps[..n])
      case None => None
      case Some((s, h)) => if Allowed(s, steps[n]) then Some((Next(s, steps[n]), Track(s, h, steps[n]))) else None
  }

  // ----- The invariant -----

  /** Bytes that can only lose to a manifest of sequence `n`. */
  ghost predicate Lesser(b: seq<Byte>, n: nat) {
    || b == []
    || (exists w: Manifest :: Storable(w) && |b| < |SlotBytes(w)| && b == SlotBytes(w)[..|b|])
    || (exists w: Manifest :: Storable(w) && b == SlotBytes(w) && w.sequence < n)
  }

  ghost predicate Good(p: Pair, top: Option<(Slot, Manifest)>) {
    match top
    case None => Lesser(p.a, 0) && Lesser(p.b, 0)
    case Some((c, z)) => Storable(z) && p.Get(c) == SlotBytes(z) && Lesser(p.Get(c.Other()), z.sequence)
  }

  function Seq(top: Option<(Slot, Manifest)>): nat {
    match top
    case None => 0
    case Some((_, m)) => m.sequence
  }

  /** The process believes what a scan would tell it. */
  ghost predicate Believes(p: Process, top: Option<(Slot, Manifest)>) {
    p.Up? && top.Some? && top.value.0 == p.slot && Clamp(p.current) == Clamp(top.value.1)
  }

  /** The slot the process believes in does hold what it believes, no older than the last commit. */
  ghost predicate Kept(s: Disk, h: History) {
    && s.process.Up? && Storable(s.process.current)
    && s.live.Get(s.process.slot) == SlotBytes(s.process.current)
    && Seq(h.committed) <= s.process.current.sequence
  }

  /** After a failed sync the other slot already holds the newer manifest. */
  ghost predicate Behind(s: Disk, h: History) {
    s.process.Up? && h.written.Some? && h.written.value.0 == s.process.slot.Other() && s.process.current.sequence < Seq(h.written)
  }

  ghost predicate ProcessOk(s: Disk, h: History) {
    match s.process
    case Down => !h.failed
    case Up(_, _, Idle) => Kept(s, h) && if h.failed then Behind(s, h) else Believes(s.process, h.written)
    case Up(current, slot, Truncated(next)) =>
      && !h.failed && s.live.Get(slot.Other()) == [] && Storable(next) && Seq(h.written) < next.sequence
      && if current == next then h.written.None? else Believes(s.process, h.written) && Kept(s, h) && current.sequence < next.sequence
    case Up(current, slot, Written(next)) =>
      && !h.failed && h.written == Some((slot.Other(), next)) && s.live.Get(slot.Other()) == SlotBytes(next)
      && Seq(h.committed) < next.sequence
      && (current != next ==> Kept(s, h) && current.sequence < next.sequence)
  }

  ghost predicate Inv(s: Disk, h: History) {
    && Good(s.live, h.written) && Good(s.durable, h.committed)
    && Seq(h.committed) <= Seq(h.written) && (h.committed.Some? ==> h.written.Some?)
    && ProcessOk(s, h)
  }

  // ----- What a slot's bytes tell a reader -----

  lemma ReadWhole(z: Manifest)
    requires Storable(z)
    ensures SlotBytes(z) != [] && Examine(Present(SlotBytes(z))) == Fine(Clamp(z))
  {
    hide Payload, Typed, Valid, Decode, Holds;
    WholeHolds(SlotBytes(z));
    EncodesValid(z);
    DecodeEncoded(z, SlotBytes(z));
  }

  lemma ReadCut(w: Manifest, k: nat)
    requires Storable(w) && k < |SlotBytes(w)|
    ensures Decode(SlotBytes(w)[..k]).Err?
  {
    hide Payload, Typed, Valid, Block.EncodeBlock, Block.DecodeBlock, ReadPayload;
    Block.CutBlock(Block.Manifest, Payload(w), k);
  }

  lemma ReadLesser(b: seq<Byte>, n: nat)
    requires Lesser(b, n)
    ensures var s := Examine(Present(b)); s.Fine? ==> s.manifest.sequence < n
  {
    hide Storable, SlotBytes, Decode;
    if b != [] {
      if w: Manifest :| Storable(w) && |b| < |SlotBytes(w)| && b == SlotBytes(w)[..|b|] {
        ReadCut(w, |b|);
      } else {
        var w: Manifest :| Storable(w) && b == SlotBytes(w) && w.sequence < n;
        ReadWhole(w);
      }
    }
  }

  /** A scan chooses exactly the manifest on top. */
  lemma ScanChooses(p: Pair, top: Option<(Slot, Manifest)>)
    requires Good(p, top)
    ensures ScanPair(p).chosen == match top { case None => None case Some((c, z)) => Some((c, Clamp(z))) }
  {
    hide Storable, SlotBytes, Lesser, Examine, ClampEntries;
    match top
    case None =>
      ReadLesser(p.a, 0);
      ReadLesser(p.b, 0);
    case Some((c, z)) =>
      ReadWhole(z);
      ReadLesser(p.Get(c.Other()), z.sequence);
  }

  // ----- Each step keeps the invariant -----

  lemma LesserGrows(b: seq<Byte>, n: nat, m: nat)
    requires Lesser(b, n) && n <= m
    ensures Lesser(b, m)
  {
    hide Storable, SlotBytes;
  }

  lemma CutIsLesser(w: Manifest, k: nat, n: nat)
    requires Storable(w) && k < |SlotBytes(w)|
    ensures Lesser(SlotBytes(w)[..k], n)
  {
    hide Storable, SlotBytes;
    var b := SlotBytes(w)[..k];
    assert |b| < |SlotBytes(w)| && b == SlotBytes(w)[..|b|];
  }

  lemma WholeIsLesser(w: Manifest, n: nat)
    requires Storable(w) && w.sequence < n
    ensures Lesser(SlotBytes(w), n)
  {
    hide Storable, SlotBytes;
  }

  /** Emptying, or partly filling, the slot that is not on top leaves the top in place. */
  lemma OtherReplaced(p: Pair, top: Option<(Slot, Manifest)>, slot: Slot, bytes: seq<Byte>)
    requires Good(p, top) && (top.Some? ==> slot != top.value.0) && Lesser(bytes, 0)
    ensures Good(p.Put(slot, bytes), top)
  {
    hide Storable, SlotBytes, Lesser;
    LesserGrows(bytes, 0, Seq(top));
  }

  /** A newer manifest in the slot that is not on top becomes the top. */
  lemma NewTop(p: Pair, top: Option<(Slot, Manifest)>, slot: Slot, z: Manifest)
    requires Good(p, top) && Storable(z) && Seq(top) < z.sequence
    ensures Good(p.Put(slot, SlotBytes(z)), Some((slot, z)))
  {
    hide Storable, SlotBytes, Lesser;
    match top
    case None => LesserGrows(p.Get(slot.Other()), 0, z.sequence);
    case Some((c, t)) =>
      WholeIsLesser(t, z.sequence);
      if c == slot {
        LesserGrows(p.Get(slot.Other()), t.sequence, z.sequence);
      }
  }

  lemma ClampTwice(m: Manifest)
    ensures Clamp(Clamp(m)) == Clamp(m)
  {
    assert AllPlain(Clamp(m).entries);
    ClampPlain(Clamp(m));
  }

  lemma ClampStorable(z: Manifest)
    requires Storable(z)
    ensures Storable(Clamp(z)) && SlotBytes(Clamp(z)) == SlotBytes(z)
  {
    hide Payload, Typed, Valid, Clamp;
    ClampSameBytes(z);
    ClampValid(z);
  }

  lemma StepOk(s: Disk, h: History, step: Step)
    requires Inv(s, h) && Allowed(s, step)
    ensures Inv(Next(s, step), Track(s, h, step))
  {
    hide Storable, SlotBytes, Lesser, Good, Typed, Encode, ScanPair, Clamp, BeginStep, WriteStep, LoadStep, TrackBegin;
    match step
    case Load => LoadOk(s, h);
    case Create(uuid, now) => CreateOk(s, h, uuid, now);
    case Begin(next, now) => BeginOk(s, h, next, now);
    case Write(kept) => WriteOk(s, h, kept);
    case WriteFails =>
    case Finish => FinishOk(s, h);
    case SyncFails =>
    case Kill =>
    case PowerLoss =>
  }

  lemma LoadOk(s: Disk, h: History)
    requires Inv(s, h) && s.process.Down?
    ensures Inv(LoadStep(s), h)
  {
    hide Storable, SlotBytes, Lesser, ScanPair, ClampEntries;
    ScanChooses(s.live, h.written);
    if h.written.Some? {
      var z := h.written.value.1;
      ClampTwice(z);
      ClampStorable(z);
    }
  }

  lemma FinishOk(s: Disk, h: History)
    requires Inv(s, h) && Allowed(s, Finish)
    ensures Inv(FinishStep(s), Track(s, h, Finish))
  {
    hide Storable, SlotBytes, Lesser, Good, Clamp;
    TopStorable(s.live, h.written);
    NewTop(s.durable, h.committed, s.process.slot.Other(), s.process.phase.next);
  }

  lemma CreateOk(s: Disk, h: History, uuid: seq<Byte>, now: nat)
    requires Inv(s, h) && Allowed(s, Create(uuid, now))
    ensures Inv(Next(s, Create(uuid, now)), h)
  {
    hide Storable, SlotBytes, Lesser, ScanPair;
    FirstStorable(uuid, now);
    if h.written.Some? {
      ReadWhole(h.written.value.1);
    }
  }

  lemma FirstStorable(uuid: seq<Byte>, now: nat)
    requires |uuid| == 16 && now < U64
    ensures Storable(First(uuid, now))
  {
    var m := First(uuid, now);
    assert |Payload(m)| == 49;
  }

  lemma BeginOk(s: Disk, h: History, next: Manifest, now: nat)
    requires Inv(s, h) && Allowed(s, Begin(next, now))
    ensures Inv(BeginStep(s, next, now), TrackBegin(s, h, next, now))
  {
    hide SlotBytes, Lesser, Good, ScanPair, Storable, Typed, Clamp, Encode, Stamp, Payload;
    var p := s.process;
    var m := Stamp(p.current, next, now);
    if Encode(m).Ok? {
      StampStorable(p.current, next, now);
      if h.failed {
        Emptied(s.live, p.slot, p.current);
      } else {
        SameSequence(p.current, h.written.value.1);
        OtherReplaced(s.live, h.written, p.slot.Other(), []) by { EmptyIsLesser(); }
      }
    }
  }

  lemma SameSequence(a: Manifest, b: Manifest)
    requires Clamp(a) == Clamp(b)
    ensures a.sequence == b.sequence
  {
    hide ClampEntries;
    assert Clamp(a).sequence == Clamp(b).sequence;
  }

  lemma Emptied(p: Pair, slot: Slot, z: Manifest)
    requires Storable(z) && p.Get(slot) == SlotBytes(z)
    ensures Good(p.Put(slot.Other(), []), Some((slot, z)))
  {
    hide Storable, SlotBytes;
  }

  lemma EmptyIsLesser()
    ensures Lesser([], 0)
  {
  }

  lemma StampStorable(current: Manifest, next: Manifest, now: nat)
    requires Storable(current) && current.sequence + 1 < U64 && Typed(next) && now < U64
    requires |Payload(Stamp(current, next, now))| < U64 && Encode(Stamp(current, next, now)).Ok?
    ensures Storable(Stamp(current, next, now)) && Stamp(current, next, now).sequence == current.sequence + 1
  {
    hide Payload, Valid, EntriesTyped;
  }

  lemma TopStorable(p: Pair, top: Option<(Slot, Manifest)>)
    requires Good(p, top) && top.Some?
    ensures Storable(top.value.1)
  {
  }

  lemma WriteOk(s: Disk, h: History, kept: Option<nat>)
    requires Inv(s, h) && Allowed(s, Write(kept))
    ensures Inv(WriteStep(s, kept), Track(s, h, Write(kept)))
  {
    hide Storable, Lesser, Good, ScanPair, Clamp, Block.EncodeBlock, Payload;
    var m := s.process.phase.next;
    var target := s.process.slot.Other();
    var bytes := SlotBytes(m);
    NewTop(s.live, h.written, target, m);
    if kept.Some? {
      if kept.value < |bytes| {
        CutIsLesser(m, kept.value, 0);
        OtherReplaced(s.live, h.written, target, bytes[..kept.value]);
      } else {
        assert bytes[..|bytes|] == bytes;
      }
    }
  }

  lemma FirstInv()
    ensures Inv(Blank, NoHistory)
  {
  }

  lemma {:induction false} EveryRun(steps: seq<Step>)
    requires RunOf(steps).Some?
    ensures var (s, h) := RunOf(steps).value; Inv(s, h)
    decreases |steps|
  {
    hide Inv, Next, Track, Allowed;
    if steps == [] {
      FirstInv();
    } else {
      var n := |steps| - 1;
      EveryRun(steps[..n]);
      var (s, h) := RunOf(steps[..n]).value;
      StepOk(s, h, steps[n]);
    }
  }

  // ----- What every run guarantees -----

  /**
    In every reachable state a scan chooses the manifest last written whole; a commit that
    has returned is never lost; and a loss of power brings back exactly the last of those.
  */
  lemma LastWrittenWins(steps: seq<Step>)
    requires RunOf(steps).Some?
    ensures var (s, h) := RunOf(steps).value; var scan := ScanPair(s.live);
      && (h.written.Some? ==> scan.chosen == Some((h.written.value.0, Clamp(h.written.value.1))))
      && (h.written.None? ==> scan.chosen == None)
      && (h.committed.Some? ==> scan.chosen.Some? && scan.chosen.value.1.sequence >= h.committed.value.1.sequence)
      && (h.committed.Some? ==> ScanPair(s.durable).chosen == Some((h.committed.value.0, Clamp(h.committed.value.1))))
  {
    hide RunOf, Good, ScanPair;
    var (s, h) := RunOf(steps).value;
    EveryRun(steps);
    ScanChooses(s.live, h.written);
    ScanChooses(s.durable, h.committed);
  }

  /**
    Between commits, the slot the next one will empty is the one `next_slot` names, never the
    authoritative one, if and only if this process's last commit did not fail at its sync.
  */
  lemma TargetIsNeverAuthoritative(steps: seq<Step>)
    requires RunOf(steps).Some? && RunOf(steps).value.0.process.Up? && RunOf(steps).value.0.process.phase.Idle?
    ensures var (s, h) := RunOf(steps).value; ScanPair(s.live).NextSlot() == s.process.slot.Other() <==> !h.failed
  {
    hide RunOf, Good, ScanPair, Storable, SlotBytes, Clamp;
    var (s, h) := RunOf(steps).value;
    EveryRun(steps);
    ScanChooses(s.live, h.written);
  }

  /** While a commit is under way its target is empty, and a scan still chooses the slot it came from. */
  lemma CommitSparesTheOther(steps: seq<Step>)
    requires RunOf(steps).Some? && RunOf(steps).value.0.process.Up? && RunOf(steps).value.0.process.phase.Truncated?
    ensures var (s, h) := RunOf(steps).value;
      && s.live.Get(s.process.slot.Other()) == []
      && (h.written.Some? ==> ScanPair(s.live).NextSlot() == s.process.slot.Other())
  {
    hide RunOf, Good, ScanPair, Storable, SlotBytes, Clamp;
    var (s, h) := RunOf(steps).value;
    EveryRun(steps);
    ScanChooses(s.live, h.written);
  }

  function ChosenSeq(p: Pair): nat {
    match ScanPair(p).chosen
    case None => 0
    case Some((_, m)) => m.sequence
  }

  /** A commit retried after a failed sync empties the slot that commit had filled. */
  predicate Retries(h: History, step: Step) {
    step.Begin? && h.failed
  }

  /**
    The chosen sequence never falls below the last commit that returned, and falls at all only
    by a loss of power or by retrying a commit whose sync failed.
  */
  lemma SequenceNeverGoesBack(steps: seq<Step>, step: Step)
    requires RunOf(steps).Some? && Allowed(RunOf(steps).value.0, step)
    ensures var (s, h) := RunOf(steps).value; var t := Next(s, step); var g := Track(s, h, step);
      && Seq(h.committed) <= Seq(g.committed) <= ChosenSeq(t.live)
      && (step.PowerLoss? ==> ChosenSeq(t.live) == Seq(h.committed))
      && (!step.PowerLoss? && !Retries(h, step) ==> ChosenSeq(s.live) <= ChosenSeq(t.live))
  {
    hide RunOf, Good, ScanPair, Storable, SlotBytes, Next, Encode;
    var (s, h) := RunOf(steps).value;
    EveryRun(steps);
    StepOk(s, h, step);
    ScanChooses(s.live, h.written);
    var t, g := Next(s, step), Track(s, h, step);
    ScanChooses(t.live, g.written);
  }

  /** Three steps further, a commit has failed at its sync and the process is as it was. */
  lemma CommitFails(steps: seq<Step>, next: Manifest, now: nat)
    requires RunOf(steps).Some? && Allowed(RunOf(steps).value.0, Begin(next, now))
    requires Encode(Stamp(RunOf(steps).value.0.process.current, next, now)).Ok?
    ensures var (s, h) := RunOf(steps).value; var m := Stamp(s.process.current, next, now);
      var run := steps + [Begin(next, now)] + [Write(None)] + [SyncFails];
      && RunOf(run).Some? && RunOf(run).value.0.process == s.process
      && RunOf(run).value.1.written == Some((s.process.slot.Other(), m)) && RunOf(run).value.1.failed
      && RunOf(run).value.1.committed == h.committed
  {
    hide RunOf, SlotBytes, Encode, Typed, Payload, Storable;
    var a := steps + [Begin(next, now)];
    RunGrows(steps, Begin(next, now));
    RunGrows(a, Write(None));
    RunGrows(a + [Write(None)], SyncFails);
  }

  /**
    Retrying after a failed sync empties the slot a scan would choose, and takes the chosen
    sequence back to that of the manifest the process still believes in.
  */
  lemma RetryEmptiesTheChosen(s: Disk, h: History, next: Manifest, now: nat)
    requires Inv(s, h) && h.failed && Allowed(s, Begin(next, now)) && Encode(Stamp(s.process.current, next, now)).Ok?
    ensures ScanPair(s.live).NextSlot() == s.process.slot
    ensures var after := BeginStep(s, next, now).live;
      after.Get(s.process.slot.Other()) == [] && ChosenSeq(after) == s.process.current.sequence < ChosenSeq(s.live)
  {
    hide SlotBytes, Encode, Typed, Payload, Storable, Good, ScanPair, Stamp, ClampEntries;
    ScanChooses(s.live, h.written);
    BeginOk(s, h, next, now);
    ScanChooses(BeginStep(s, next, now).live, TrackBegin(s, h, next, now).written);
  }

  /** Such a run: the first two commits of a database are enough. */
  lemma FailedSyncHappens(uuid: seq<Byte>, now: nat) returns (run: seq<Step>)
    requires |uuid| == 16 && now < U64
    ensures RunOf(run).Some? && RunOf(run).value.1.failed && Allowed(RunOf(run).value.0, Begin(First(uuid, now), now))
    ensures var s := RunOf(run).value.0; var after := BeginStep(s, First(uuid, now), now).live;
      && ScanPair(s.live).NextSlot() == s.process.slot
      && after.Get(s.process.slot.Other()) == [] && ChosenSeq(after) < ChosenSeq(s.live)
  {
    hide SlotBytes, RunOf, Encode, Payload, Typed, Stamp;
    var none: seq<Step> := [];
    RunNone(none);
    RunGrows(none, Create(uuid, now));
    RunGrows(none + [Create(uuid, now)], Write(None));
    var steps := none + [Create(uuid, now)] + [Write(None)] + [Finish];
    RunGrows(none + [Create(uuid, now)] + [Write(None)], Finish);
    SecondFits(uuid, now);
    var m := First(uuid, now);
    CommitFails(steps, m, now);
    run := steps + [Begin(m, now)] + [Write(None)] + [SyncFails];
    EveryRun(run);
    var (s, h) := RunOf(run).value;
    hide Inv, Next, Track;
    RetryEmptiesTheChosen(s, h, m, now);
  }

  lemma SecondFits(uuid: seq<Byte>, now: nat)
    requires |uuid| == 16 && now < U64
    ensures var m := First(uuid, now);
      Typed(m) && |Payload(Stamp(m, m, now))| < U64 && Encode(Stamp(m, m, now)).Ok?
  {
    var m := Stamp(First(uuid, now), First(uuid, now), now);
    assert |Payload(m)| == 49;
  }

  // ----- What a commit stores -----

  /** The manifest a reader should find: what was committed, one sequence on, in the same database. */
  ghost predicate Stores(found: Option<(Slot, Manifest)>, slot: Slot, before: Manifest, next: Manifest, now: nat) {
    && found.Some? && found.value.0 == slot
    && found.value.1.entries == ClampEntries(next.entries) && found.value.1.updated == now
    && found.value.1.uuid == before.uuid && found.value.1.created == before.created
    && found.value.1.sequence == before.sequence + 1
  }

  /**
    From every state the protocol can be in, a commit that is not interrupted is what a scan
    finds afterwards, in the files as they are and as a loss of power would leave them.
  */
  lemma CommitStores(s: Disk, h: History, next: Manifest, now: nat)
    requires Inv(s, h) && Allowed(s, Begin(next, now)) && Encode(Stamp(s.process.current, next, now)).Ok?
    ensures var t := Uninterrupted(s, next, now); var p := s.process;
      && t.process == Up(Stamp(p.current, next, now), p.slot.Other(), Idle)
      && Stores(ScanPair(t.live).chosen, p.slot.Other(), p.current, next, now)
      && Stores(ScanPair(t.durable).chosen, p.slot.Other(), p.current, next, now)
  {
    StampIs(s, next, now);
    hide *;
    var hc := CommitSteps(s, h, next, now);
    var m := Stamp(s.process.current, next, now);
    Newest(Uninterrupted(s, next, now), hc);
    StoresStamped(s.process.slot.Other(), m, s.process.current, next, now);
  }

  /** The fields a commit fills in, and the entries it is given. */
  lemma StampIs(s: Disk, next: Manifest, now: nat)
    requires Allowed(s, Begin(next, now))
    ensures var m := Stamp(s.process.current, next, now); var p := s.process.current;
      m.entries == next.entries && m.updated == now && m.uuid == p.uuid && m.created == p.created && m.sequence == p.sequence + 1
  {
    hide Payload, Typed;
  }

  lemma StoresStamped(slot: Slot, m: Manifest, before: Manifest, next: Manifest, now: nat)
    requires m.entries == next.entries && m.updated == now && m.uuid == before.uuid && m.created == before.created
    requires m.sequence == before.sequence + 1
    ensures Stores(Some((slot, Clamp(m))), slot, before, next, now)
  {
    hide ClampEntries;
  }

  lemma CommitSteps(s: Disk, h: History, next: Manifest, now: nat) returns (after: History)
    requires Inv(s, h) && Allowed(s, Begin(next, now)) && Encode(Stamp(s.process.current, next, now)).Ok?
    ensures var t := Uninterrupted(s, next, now); var m := Stamp(s.process.current, next, now); var slot := s.process.slot.Other();
      && Inv(t, after) && t.process == Up(m, slot, Idle) && after.written == after.committed == Some((slot, m))
  {
    hide Inv, Encode, SlotBytes, Storable, Typed, Payload, Stamp, TrackBegin, Valid;
    var m, p := Stamp(s.process.current, next, now), s.process;
    BeginOk(s, h, next, now);
    var a, ha := BeginStep(s, next, now), TrackBegin(s, h, next, now);
    assert a.process == Up(p.current, p.slot, Truncated(m));
    hide BeginStep;
    after := WriteAndFinish(a, ha, m);
  }

  lemma WriteAndFinish(s: Disk, h: History, m: Manifest) returns (after: History)
    requires Inv(s, h) && s.process.Up? && s.process.phase == Truncated(m)
    ensures var t := FinishStep(WriteStep(s, None)); var slot := s.process.slot.Other();
      && Inv(t, after) && t.process == Up(m, slot, Idle) && after.written == after.committed == Some((slot, m))
  {
    hide Inv, SlotBytes;
    WriteOk(s, h, None);
    var b, hb := WriteStep(s, None), Track(s, h, Write(None));
    assert b.process == Up(s.process.current, s.process.slot, Written(m));
    FinishOk(b, hb);
    after := Track(b, hb, Finish);
  }

  lemma Newest(s: Disk, h: History)
    requires Inv(s, h) && h.committed.Some? && h.written == h.committed
    ensures ScanPair(s.live).chosen == Some((h.committed.value.0, Clamp(h.committed.value.1)))
    ensures ScanPair(s.durable).chosen == Some((h.committed.value.0, Clamp(h.committed.value.1)))
  {
    hide Good, ScanPair, Clamp;
    ScanChooses(s.live, h.written);
    ScanChooses(s.durable, h.committed);
  }

  /** A database just created holds an empty manifest, first of its sequence, under the identity it was given. */
  lemma CreationStores(uuid: seq<Byte>, now: nat)
    requires |uuid| == 16 && now < U64
    ensures var run := [Create(uuid, now), Write(None), Finish];
      && RunOf(run).Some?
      && ScanPair(RunOf(run).value.0.live).chosen == Some((A, Manifest(1, uuid, now, now, [])))
      && ScanPair(RunOf(run).value.0.durable).chosen == Some((A, Manifest(1, uuid, now, now, [])))
  {
    hide SlotBytes, RunOf, ScanPair;
    var none: seq<Step> := [];
    RunNone(none);
    RunGrows(none, Create(uuid, now));
    RunGrows(none + [Create(uuid, now)], Write(None));
    var run := none + [Create(uuid, now)] + [Write(None)] + [Finish];
    RunGrows(none + [Create(uuid, now)] + [Write(None)], Finish);
    assert run == [Create(uuid, now), Write(None), Finish];
    EveryRun(run);
    var (s, h) := RunOf(run).value;
    hide Inv;
    Newest(s, h);
  }

  // ----- When the database can be opened -----

  /** Loading fails: something is there and none of it is readable. */
  predicate Unreadable(s: Disk) {
    s.live != Pair([], []) && ScanPair(s.live).chosen == None
  }

  /** The database is unreadable exactly when its very first manifest was cut short. */
  lemma UnreadableExactly(steps: seq<Step>)
    requires RunOf(steps).Some?
    ensures var (s, h) := RunOf(steps).value; Unreadable(s) <==> h.written.None? && s.live != Pair([], [])
  {
    hide RunOf, Good, ScanPair;
    var (s, h) := RunOf(steps).value;
    EveryRun(steps);
    ScanChooses(s.live, h.written);
  }

  /** A crash inside the first write, past its first byte, leaves no intact slot. */
  lemma TornCreation(uuid: seq<Byte>, now: nat, k: nat)
    requires |uuid| == 16 && now < U64 && 0 < k < |SlotBytes(First(uuid, now))|
    ensures var steps := [Create(uuid, now), Write(Some(k))]; RunOf(steps).Some? && Unreadable(RunOf(steps).value.0)
  {
    hide SlotBytes, RunOf;
    var none: seq<Step> := [];
    var one := [Create(uuid, now)];
    RunNone(none);
    assert none + one == one && one + [Write(Some(k))] == [Create(uuid, now), Write(Some(k))];
    RunGrows(none, Create(uuid, now));
    RunGrows(one, Write(Some(k)));
    UnreadableExactly([Create(uuid, now), Write(Some(k))]);
    assert |SlotBytes(First(uuid, now))[..k]| == k;
  }

  lemma RunNone(steps: seq<Step>)
    requires steps == []
    ensures RunOf(steps) == Some((Blank, NoHistory))
  {
  }

  lemma RunGrows(steps: seq<Step>, step: Step)
    requires RunOf(steps).Some? && Allowed(RunOf(steps).value.0, step)
    ensures var (s, h) := RunOf(steps).value; RunOf(steps + [step]) == Some((Next(s, step), Track(s, h, step)))
  {
    hide Next, Track, Allowed;
    assert (steps + [step])[..|steps|] == steps;
  }

  /** At the top of the sequence range two slots can tie, and then the older one in slot A is chosen. */
  lemma TieGoesToA(older: Manifest, newer: Manifest)
    requires Storable(older) && Storable(newer) && older.sequence == newer.sequence
    ensures ScanPair(Pair(SlotBytes(older), SlotBytes(newer))).chosen == Some((A, Clamp(older)))
  {
    hide Storable, SlotBytes, Examine, ClampEntries;
    ReadWhole(older);
    ReadWhole(newer);
  }
}
