/** The row directory: a fixed-width entry per row, then a heap of ids (segment.rs). */
module Directory {
  import opened Prelude
  import opened Bytes
  import opened Cursor
  import Block

  const PREFIX: nat := 16
  const ENTRY: nat := 24

  /** `invNorm` is a float as its four bytes. */
  datatype RowEntry = RowEntry(metaOffset: nat, metaLen: nat, invNorm: seq<Byte>, idOffset: nat, idLen: nat, flags: nat)

  predicate Finite32(bits: seq<Byte>) {
    |bits| == 4 && !(bits[3] % 128 == 127 && bits[2] >= 128)
  }

  predicate EntryTyped(e: RowEntry) {
    && e.metaOffset < U64 && e.metaLen < U32 && Finite32(e.invNorm)
    && e.idOffset < U32 && e.idLen < U16 && e.flags < U16
  }

  predicate EntriesTyped(es: seq<RowEntry>) {
    forall i :: 0 <= i < |es| ==> EntryTyped(es[i])
  }

  // ----- Writing -----

  datatype Writing = Writing(entries: seq<RowEntry>, heap: seq<Byte>)

  function Push(w: Writing, id: seq<Byte>, metaOffset: nat, metaLen: nat, invNorm: seq<Byte>): Result<Writing, FormatError> {
    if |id| >= U16 || |w.heap| >= U32 || !Finite32(invNorm) || |w.entries| >= U32 then Err(Malformed)
    else Ok(Writing(w.entries + [RowEntry(metaOffset, metaLen, invNorm, |w.heap|, |id|, 0)], w.heap + id))
  }

  function EntryBytes(e: RowEntry): seq<Byte> {
    Le(e.metaOffset, 8) + (Le(e.metaLen, 4) + (e.invNorm + (Le(e.idOffset, 4) + (Le(e.idLen, 2) + Le(e.flags, 2)))))
  }

  function EntriesBytes(es: seq<RowEntry>): seq<Byte> {
    if es == [] then [] else EntryBytes(es[0]) + EntriesBytes(es[1..])
  }

  /** The counts are cast to 32 bits as they are written. */
  function Payload(w: Writing): seq<Byte> {
    Le(|w.entries|, 4) + (Le(PREFIX + |w.entries| * ENTRY, 4) + (Zeros(8) + (EntriesBytes(w.entries) + w.heap)))
  }

  function Finish(w: Writing): seq<Byte> {
    Block.EncodeBlock(Block.Directory, Payload(w))
  }

  // ----- Reading -----

  datatype Directory = Directory(entries: seq<Byte>, heap: seq<Byte>, rows: nat)

  function ReadEntry(b: seq<Byte>, at: nat): Option<RowEntry> {
    if at + ENTRY > |b| || !Finite32(b[at + 12..at + 16]) then None
    else Some(RowEntry(At(b, at, 8), At(b, at + 8, 4), b[at + 12..at + 16], At(b, at + 16, 4), At(b, at + 20, 2), At(b, at + 22, 2)))
  }

  function EntryOf(d: Directory, i: nat): Option<RowEntry> {
    ReadEntry(d.entries, i * ENTRY)
  }

  function IdOf(d: Directory, i: nat): Option<seq<Byte>> {
    match EntryOf(d, i)
    case None => None
    case Some(e) => if e.idOffset + e.idLen <= |d.heap| then Some(d.heap[e.idOffset..e.idOffset + e.idLen]) else None
  }

  predicate RowOk(d: Directory, i: nat) {
    EntryOf(d, i).Some? && EntryOf(d, i).value.idOffset + EntryOf(d, i).value.idLen <= |d.heap|
  }

  function ReadPayload(b: seq<Byte>): Result<Directory, FormatError> {
    var (rows, p) :- ReadUint(b, 0, 4);
    var (heapOffset, q) :- ReadUint(b, p, 4);
    var (_, r) :- ReadReserved(b, q, 8);
    var expected := PREFIX + rows * ENTRY;
    if heapOffset != expected then Err(Malformed)
    else if expected > |b| then Err(LengthExceedsInput)
    else
      var d := Directory(b[PREFIX..expected], b[expected..], rows);
      if forall i :: 0 <= i < rows ==> RowOk(d, i) then Ok(d)
      else Err(if exists i :: 0 <= i < rows && EntryOf(d, i).None? then Malformed else LengthExceedsInput)
  }

  function Open(b: seq<Byte>): Result<Directory, FormatError> {
    var payload :- Block.DecodeBlock(b, Block.Directory);
    ReadPayload(payload)
  }

  // ----- Proof -----

  lemma EntryLength(e: RowEntry)
    requires EntryTyped(e)
    ensures |EntryBytes(e)| == ENTRY
  {
  }

  lemma EntryBack(b: seq<Byte>, at: nat, e: RowEntry)
    requires EntryTyped(e) && Holds(b, at, EntryBytes(e))
    ensures ReadEntry(b, at) == Some(e)
  {
    hide Holds, Le, At, Pow256, Finite32;
    Powers();
    EntryLength(e);
    HoldsMeans(b, at, EntryBytes(e));
    var f5 := Le(e.idLen, 2) + Le(e.flags, 2);
    var f4 := Le(e.idOffset, 4) + f5;
    var f3 := e.invNorm + f4;
    ReadBack(b, at, e.metaOffset, 8, Le(e.metaLen, 4) + f3);
    ReadBack(b, at + 8, e.metaLen, 4, f3);
    assert |e.invNorm| == 4 by { FourBytes(e.invNorm); }
    HoldsParts(b, at + 12, e.invNorm, f4);
    HoldsMeans(b, at + 12, e.invNorm);
    ReadBack(b, at + 16, e.idOffset, 4, f5);
    ReadBack(b, at + 20, e.idLen, 2, Le(e.flags, 2));
    HoldsLe(b, at + 22, e.flags, 2);
  }

  lemma FourBytes(bits: seq<Byte>)
    requires Finite32(bits)
    ensures |bits| == 4
  {
  }

  lemma {:induction false} EntriesLength(es: seq<RowEntry>)
    requires EntriesTyped(es)
    ensures |EntriesBytes(es)| == ENTRY * |es|
  {
    hide EntryBytes, EntryTyped;
    if es != [] {
      EntryLength(es[0]);
      EntriesLength(es[1..]);
    }
  }

  lemma {:induction false} EntriesHold(b: seq<Byte>, at: nat, es: seq<RowEntry>, i: nat)
    requires EntriesTyped(es) && i < |es| && Holds(b, at, EntriesBytes(es))
    ensures Holds(b, at + i * ENTRY, EntryBytes(es[i]))
    decreases |es|
  {
    hide EntryBytes, EntryTyped, Holds;
    HoldsParts(b, at, EntryBytes(es[0]), EntriesBytes(es[1..]));
    EntryLength(es[0]);
    if i > 0 {
      EntriesHold(b, at + ENTRY, es[1..], i - 1);
    }
  }

  /** Each entry's range of the heap is that row's id. */
  ghost predicate Names(w: Writing, ids: seq<seq<Byte>>) {
    && |w.entries| == |ids| && EntriesTyped(w.entries)
    && forall i :: 0 <= i < |ids| ==> Named(w.entries[i], w.heap, ids[i])
  }

  ghost predicate Named(e: RowEntry, heap: seq<Byte>, id: seq<Byte>) {
    e.idLen == |id| && Holds(heap, e.idOffset, id)
  }

  lemma NamedGrows(e: RowEntry, heap: seq<Byte>, id: seq<Byte>, more: seq<Byte>)
    requires Named(e, heap, id)
    ensures Named(e, heap + more, id)
  {
    assert (heap + more)[e.idOffset..e.idOffset + |id|] == heap[e.idOffset..e.idOffset + |id|];
  }

  lemma PushNames(w: Writing, ids: seq<seq<Byte>>, id: seq<Byte>, metaOffset: nat, metaLen: nat, invNorm: seq<Byte>)
    requires Names(w, ids) && metaOffset < U64 && metaLen < U32 && Push(w, id, metaOffset, metaLen, invNorm).Ok?
    ensures Names(Push(w, id, metaOffset, metaLen, invNorm).value, ids + [id])
  {
    hide Named, Finite32;
    var v := Push(w, id, metaOffset, metaLen, invNorm).value;
    forall i | 0 <= i < |ids| ensures Named(v.entries[i], v.heap, ids[i]) {
      NamedGrows(w.entries[i], w.heap, ids[i], id);
    }
    assert Named(v.entries[|ids|], v.heap, id) by { NewlyNamed(v.entries[|ids|], w.heap, id); }
  }

  lemma NewlyNamed(e: RowEntry, heap: seq<Byte>, id: seq<Byte>)
    requires e.idLen == |id| && e.idOffset == |heap|
    ensures Named(e, heap + id, id)
  {
    assert (heap + id)[|heap|..|heap| + |id|] == id;
  }

  lemma PayloadParts(b: seq<Byte>, w: Writing)
    requires EntriesTyped(w.entries)
    ensures var n := |w.entries|;
      Holds(b, 0, Payload(w)) <==>
        && Holds(b, 0, Le(n, 4)) && Holds(b, 4, Le(PREFIX + n * ENTRY, 4)) && Holds(b, 8, Zeros(8))
        && Holds(b, PREFIX, EntriesBytes(w.entries)) && Holds(b, PREFIX + n * ENTRY, w.heap)
    ensures |Payload(w)| == PREFIX + |w.entries| * ENTRY + |w.heap|
  {
    hide Holds, Le, Zeros, EntriesBytes, EntryTyped;
    var n := |w.entries|;
    var es := EntriesBytes(w.entries);
    EntriesLength(w.entries);
    HoldsParts(b, 0, Le(n, 4), Le(PREFIX + n * ENTRY, 4) + (Zeros(8) + (es + w.heap)));
    HoldsParts(b, 4, Le(PREFIX + n * ENTRY, 4), Zeros(8) + (es + w.heap));
    HoldsParts(b, 8, Zeros(8), es + w.heap);
    HoldsParts(b, PREFIX, es, w.heap);
  }

  /** The directory a reader should get. */
  function Opened(w: Writing): Directory {
    Directory(EntriesBytes(w.entries), w.heap, |w.entries|)
  }

  lemma OpenedRow(w: Writing, ids: seq<seq<Byte>>, i: nat)
    requires Names(w, ids) && i < |ids|
    ensures EntryOf(Opened(w), i) == Some(w.entries[i]) && IdOf(Opened(w), i) == Some(ids[i]) && RowOk(Opened(w), i)
  {
    hide EntriesBytes, ReadEntry, EntryTyped;
    var d := Opened(w);
    WholeHolds(d.entries);
    EntriesHold(d.entries, 0, w.entries, i);
    EntryBack(d.entries, i * ENTRY, w.entries[i]);
    assert Named(w.entries[i], w.heap, ids[i]);
    HoldsMeans(w.heap, w.entries[i].idOffset, ids[i]);
  }

  /** What was written opens, and answers every row with its entry and its id. */
  lemma DirectoryBack(w: Writing, ids: seq<seq<Byte>>)
    requires Names(w, ids) && PREFIX + |ids| * ENTRY < U32 && |w.heap| < U64 - U32
    ensures Open(Finish(w)) == Ok(Opened(w))
    ensures forall i :: 0 <= i < |ids| ==> EntryOf(Opened(w), i) == Some(w.entries[i]) && IdOf(Opened(w), i) == Some(ids[i])
  {
    hide Payload, Block.EncodeBlock, Block.DecodeBlock, Holds, ReadPayload, Opened, EntryOf, IdOf, EntriesTyped;
    forall i | 0 <= i < |ids| ensures EntryOf(Opened(w), i) == Some(w.entries[i]) && IdOf(Opened(w), i) == Some(ids[i]) {
      OpenedRow(w, ids, i);
    }
    PayloadParts(Payload(w), w);
    WholeHolds(Finish(w));
    Block.BlockBack(Finish(w), Block.Directory, Payload(w));
    PayloadBack(w, ids);
  }

  lemma PayloadBack(w: Writing, ids: seq<seq<Byte>>)
    requires Names(w, ids) && PREFIX + |ids| * ENTRY < U32
    ensures ReadPayload(Payload(w)) == Ok(Opened(w))
  {
    hide Payload, Holds, EntryOf, EntriesTyped, ReadUint, ReadReserved, Le, Zeros, Pow256, EntriesBytes, RowOk;
    Powers();
    var b, n := Payload(w), |ids|;
    var end := PREFIX + n * ENTRY;
    WholeHolds(b);
    PayloadParts(b, w);
    UintExactly(b, 0, 4, n, 4);
    UintExactly(b, 4, 4, end, 8);
    ReservedExactly(b, 8, 8, 16);
    EntriesLength(w.entries);
    HoldsMeans(b, PREFIX, EntriesBytes(w.entries));
    HoldsMeans(b, end, w.heap);
    assert b[end..] == b[end..end + |w.heap|];
    forall i | 0 <= i < n ensures RowOk(Opened(w), i) {
      OpenedRow(w, ids, i);
    }
  }

  /**
    The heap's offset is cast to 32 bits unchecked, so what was written opens if and only if
    that offset fits.
  */
  lemma OpensExactly(w: Writing, ids: seq<seq<Byte>>)
    requires Names(w, ids) && |ids| < U32 && |w.heap| < U64 - 100 * U32
    ensures Open(Finish(w)).Ok? <==> PREFIX + |ids| * ENTRY < U32
  {
    hide Payload, Block.EncodeBlock, Block.DecodeBlock, Holds, ReadPayload, EntriesTyped, Le, Zeros, Pow256, EntriesBytes;
    if PREFIX + |ids| * ENTRY < U32 {
      DirectoryBack(w, ids);
    } else {
      PayloadParts(Payload(w), w);
      WholeHolds(Finish(w));
      Block.BlockBack(Finish(w), Block.Directory, Payload(w));
      TooManyRows(w, ids);
    }
  }

  lemma TooManyRows(w: Writing, ids: seq<seq<Byte>>)
    requires Names(w, ids) && |ids| < U32 && PREFIX + |ids| * ENTRY >= U32
    ensures ReadPayload(Payload(w)).Err?
  {
    hide Payload, Holds, EntriesTyped, ReadUint, Le, Zeros, Pow256, EntriesBytes, ReadReserved, RowOk;
    Powers();
    var b, n := Payload(w), |ids|;
    WholeHolds(b);
    PayloadParts(b, w);
    UintExactly(b, 0, 4, n, 4);
    if ReadUint(b, 4, 4).Ok? {
      var (v, q) := ReadUint(b, 4, 4).value;
      UintExactly(b, 4, 4, v, q);
    }
  }

  /** Any directory `open` accepts answers the id of every row in range. */
  lemma AcceptedAnswers(b: seq<Byte>, i: nat)
    requires Open(b).Ok? && i < Open(b).value.rows
    ensures EntryOf(Open(b).value, i).Some? && IdOf(Open(b).value, i).Some?
  {
    hide Block.DecodeBlock, ReadUint, ReadReserved, EntryOf;
    assert RowOk(Open(b).value, i);
  }

  class DirectoryWriter {
    var entries: seq<RowEntry>
    var heap: seq<Byte>

    ghost function State(): Writing
      reads this
    {
      Writing(entries, heap)
    }

    constructor ()
      ensures State() == Writing([], [])
    {
      entries, heap := [], [];
    }

    /** The heap has grown even when the row count is what refuses the row. */
    method PushRow(id: seq<Byte>, metaOffset: nat, metaLen: nat, invNorm: seq<Byte>) returns (r: Result<nat, FormatError>)
      modifies this
      ensures r.Ok? <==> Push(old(State()), id, metaOffset, metaLen, invNorm).Ok?
      ensures r.Ok? ==> r.value == |old(entries)| && State() == Push(old(State()), id, metaOffset, metaLen, invNorm).value
      ensures r.Err? ==> entries == old(entries)
    {
      if |id| >= U16 || |heap| >= U32 || !Finite32(invNorm) {
        return Err(Malformed);
      }
      var idOffset := |heap|;
      heap := heap + id;
      if |entries| >= U32 {
        return Err(Malformed);
      }
      r := Ok(|entries|);
      entries := entries + [RowEntry(metaOffset, metaLen, invNorm, idOffset, |id|, 0)];
    }
  }
}
