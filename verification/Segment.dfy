/** A segment's three files, written row by row and read back row by row. */
module Segment {
  import opened Prelude
  import opened Bytes
  import Vectors
  import Directory
  import MetaBlock
  import Cursor
  import Block

  datatype Row = Row(vector: seq<Byte>, id: seq<Byte>, record: MetaBlock.MetaRecord, invNorm: seq<Byte>)

  /** What the three writers hold. */
  datatype Writers = Writers(vectors: seq<seq<Byte>>, directory: Directory.Writing, meta: seq<Byte>)

  const Fresh: Writers := Writers([], Directory.Writing([], []), [])

  /** One row through all three: its record before its entry, so the directory knows where that landed. */
  function Push(w: Writers, stride: nat, row: Row): Result<Writers, Cursor.FormatError> {
    if |row.vector| != stride then Err(Cursor.Malformed)
    else
      var (meta, offset, len) :- MetaBlock.Push(w.meta, row.record);
      var directory :- Directory.Push(w.directory, row.id, offset, len, row.invNorm);
      Ok(Writers(w.vectors + [row.vector], directory, meta))
  }

  function PushAll(stride: nat, rows: seq<Row>): Result<Writers, Cursor.FormatError> {
    if rows == [] then Ok(Fresh)
    else
      var w :- PushAll(stride, rows[..|rows| - 1]);
      Push(w, stride, rows[|rows| - 1])
  }

  function Ids(rows: seq<Row>): (r: seq<seq<Byte>>)
    ensures |r| == |rows| && forall i :: 0 <= i < |rows| ==> r[i] == rows[i].id
  {
    seq(|rows|, i requires 0 <= i < |rows| => rows[i].id)
  }

  function VectorsOf(rows: seq<Row>): (r: seq<seq<Byte>>)
    ensures |r| == |rows| && forall i :: 0 <= i < |rows| ==> r[i] == rows[i].vector
  {
    seq(|rows|, i requires 0 <= i < |rows| => rows[i].vector)
  }

  ghost predicate RowsTyped(rows: seq<Row>) {
    forall i :: 0 <= i < |rows| ==> MetaBlock.Typed(rows[i].record)
  }

  /** What the writers hold after pushing `rows`. */
  ghost predicate Written(w: Writers, stride: nat, rows: seq<Row>) {
    && w.vectors == VectorsOf(rows) && Vectors.AllLong(w.vectors, stride)
    && Directory.Names(w.directory, Ids(rows))
    && forall i :: 0 <= i < |rows| ==> MetaBlock.Recorded(w.meta, w.directory.entries[i], rows[i].record)
  }

  lemma PushWrites(w: Writers, stride: nat, rows: seq<Row>, row: Row)
    requires Written(w, stride, rows) && MetaBlock.Typed(row.record) && |w.meta| < U64 && Push(w, stride, row).Ok?
    ensures Written(Push(w, stride, row).value, stride, rows + [row])
  {
    hide MetaBlock.Typed, MetaBlock.Push, MetaBlock.Recorded, Directory.Named, Directory.EntriesTyped;
    var all := rows + [row];
    var (meta, offset, len) := MetaBlock.Push(w.meta, row.record).value;
    var d := Directory.Push(w.directory, row.id, offset, len, row.invNorm).value;
    var e := Directory.RowEntry(offset, len, row.invNorm, |w.directory.heap|, |row.id|, 0);
    MetaBlock.PushRecords(w.meta, row.record, e);
    Directory.PushNames(w.directory, Ids(rows), row.id, offset, len, row.invNorm);
    assert Ids(all) == Ids(rows) + [row.id] && VectorsOf(all) == VectorsOf(rows) + [row.vector];
    forall i | 0 <= i < |rows| ensures MetaBlock.Recorded(meta, d.entries[i], all[i].record) {
      MetaBlock.RecordedGrows(w.meta, w.directory.entries[i], rows[i].record, meta[|w.meta|..]);
      assert w.meta + meta[|w.meta|..] == meta;
    }
    assert d.entries[|rows|] == e;
  }

  /** What any successful pushes leave, and how large it can be. */
  lemma {:induction false} EveryPush(stride: nat, rows: seq<Row>)
    requires RowsTyped(rows) && PushAll(stride, rows).Ok?
    ensures Written(PushAll(stride, rows).value, stride, rows)
    ensures |PushAll(stride, rows).value.meta| <= |rows| * U32 && |rows| <= U32
    ensures |PushAll(stride, rows).value.directory.heap| < U32 + U16
    decreases |rows|
  {
    hide MetaBlock.Typed, Push, Written;
    if rows == [] {
      NothingWritten(stride);
    } else {
      var n := |rows| - 1;
      EveryPush(stride, rows[..n]);
      var w := PushAll(stride, rows[..n]).value;
      PushGrows(w, stride, rows[..n], rows[n]);
      PushWrites(w, stride, rows[..n], rows[n]);
      assert rows == rows[..n] + [rows[n]];
    }
  }

  lemma NothingWritten(stride: nat)
    ensures Written(Fresh, stride, [])
  {
    assert Ids([]) == [] && VectorsOf([]) == [];
  }

  lemma PushGrows(w: Writers, stride: nat, rows: seq<Row>, row: Row)
    requires Written(w, stride, rows) && Push(w, stride, row).Ok? && |w.meta| <= |rows| * U32
    ensures |rows| < U32 && |w.meta| < U64 && |Push(w, stride, row).value.meta| <= (|rows| + 1) * U32
    ensures |Push(w, stride, row).value.directory.heap| < U32 + U16
  {
    hide MetaBlock.Encode, MetaBlock.Recorded, Directory.Named, Directory.EntriesTyped;
    assert |w.directory.entries| == |rows|;
  }

  /**
    After any pushes that succeed, within the directory's 32-bit offsets, the three files
    open and row `i` reads back as the `i`-th vector, id and record.
  */
  lemma SegmentReadsBack(stride: nat, rows: seq<Row>)
    requires stride > 0 && RowsTyped(rows) && PushAll(stride, rows).Ok?
    requires Directory.PREFIX + |rows| * Directory.ENTRY < U32 && |rows| * stride + Vectors.PAD < U64
    ensures var w := PushAll(stride, rows).value;
      && Vectors.Open(Vectors.Finish(Vectors.Concat(w.vectors)), stride).Ok?
      && Directory.Open(Directory.Finish(w.directory)).Ok?
      && MetaBlock.Open(MetaBlock.Finish(w.meta)).Ok?
      && var v := Vectors.Open(Vectors.Finish(Vectors.Concat(w.vectors)), stride).value;
         var d := Directory.Open(Directory.Finish(w.directory)).value;
         var m := MetaBlock.Open(MetaBlock.Finish(w.meta)).value;
         && v.rows == |rows| && d.rows == |rows|
         && forall i :: 0 <= i < |rows| ==>
              && Vectors.RowAt(v, i) == Some(rows[i].vector)
              && Directory.IdOf(d, i) == Some(rows[i].id)
              && Directory.EntryOf(d, i).Some?
              && MetaBlock.RecordOf(m, Directory.EntryOf(d, i).value) == Ok(rows[i].record)
  {
    hide PushAll, Vectors.Open, Vectors.Finish, Vectors.Concat, Vectors.RowAt, Directory.Open, Directory.Finish,
      Directory.IdOf, Directory.EntryOf, MetaBlock.RecordOf, MetaBlock.Typed;
    EveryPush(stride, rows);
    var w := PushAll(stride, rows).value;
    Vectors.ConcatLength(w.vectors, stride);
    Vectors.RowsBack(w.vectors, stride);
    Directory.DirectoryBack(w.directory, Ids(rows));
    MetaBack(w.meta);
    forall i | 0 <= i < |rows| ensures MetaBlock.RecordOf(w.meta, w.directory.entries[i]) == Ok(rows[i].record) {
      assert MetaBlock.Recorded(w.meta, w.directory.entries[i], rows[i].record);
    }
  }

  lemma MetaBack(payload: seq<Byte>)
    requires |payload| < U64
    ensures MetaBlock.Open(MetaBlock.Finish(payload)) == Ok(payload)
  {
    hide Holds;
    var b := MetaBlock.Finish(payload);
    WholeHolds(b);
    Block.BlockBack(b, Block.Metadata, payload);
  }
}
