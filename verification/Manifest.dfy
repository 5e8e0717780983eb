/** The database root record: its bytes and its validity rules (manifest.rs). */
module Manifest {
  import opened Prelude
  import opened Bytes
  import opened Cursor
  import Block
  import Varint

  datatype SegmentRef = SegmentRef(id: nat, rows: nat, delGeneration: nat)

  datatype Counts = Counts(snapshot: Option<nat>, lastWal: nat, live: nat, total: nat)

  datatype Entry = Entry(name: seq<Byte>, segments: seq<SegmentRef>, counts: Counts)

  datatype Manifest = Manifest(sequence: nat, uuid: seq<Byte>, created: nat, updated: nat, entries: seq<Entry>)

  // ----- What the types and `validate` require -----

  /** Values within the widths the source's types have. */
  predicate SegTyped(s: SegmentRef) {
    s.id < U64 && s.rows < U32 && s.delGeneration < U32
  }

  predicate CountsTyped(c: Counts) {
    (c.snapshot.Some? ==> c.snapshot.value < U64) && c.lastWal < U64 && c.live < U64 && c.total < U64
  }

  predicate SegsTyped(ss: seq<SegmentRef>) {
    forall i :: 0 <= i < |ss| ==> SegTyped(ss[i])
  }

  predicate EntryTyped(e: Entry) {
    Utf8(e.name) && |e.name| < U64 && |e.segments| < U64 && SegsTyped(e.segments) && CountsTyped(e.counts)
  }

  predicate EntriesTyped(es: seq<Entry>) {
    forall i :: 0 <= i < |es| ==> EntryTyped(es[i])
  }

  predicate Typed(m: Manifest) {
    m.sequence < U64 && |m.uuid| == 16 && m.created < U64 && m.updated < U64 && |m.entries| < U64 && EntriesTyped(m.entries)
  }

  function RowsOf(ss: seq<SegmentRef>): nat {
    if ss == [] then 0 else ss[0].rows + RowsOf(ss[1..])
  }

  predicate EntryValid(e: Entry) {
    && e.name != []
    && (forall i :: 0 < i < |e.segments| ==> e.segments[i - 1].id < e.segments[i].id)
    && e.counts.total == RowsOf(e.segments)
    && e.counts.live <= e.counts.total
  }

  predicate Valid(m: Manifest) {
    && (forall i, j :: 0 <= i < j < |m.entries| ==> m.entries[i].name != m.entries[j].name)
    && forall i :: 0 <= i < |m.entries| ==> EntryValid(m.entries[i])
  }

  function Names(es: seq<Entry>): (r: seq<seq<Byte>>)
    ensures |r| == |es| && forall i :: 0 <= i < |es| ==> r[i] == es[i].name
  {
    seq(|es|, i requires 0 <= i < |es| => es[i].name)
  }

  lemma {:induction false} RisingFar(ss: seq<SegmentRef>, i: nat, j: nat)
    requires i < j < |ss| && forall k :: 0 < k < |ss| ==> ss[k - 1].id < ss[k].id
    ensures ss[i].id < ss[j].id
    decreases j
  {
    assert ss[j - 1].id < ss[j].id;
    if i < j - 1 {
      RisingFar(ss, i, j - 1);
    }
  }

  ghost predicate Rising(ss: seq<SegmentRef>) {
    forall i, j :: 0 <= i < j < |ss| ==> ss[i].id < ss[j].id
  }

  lemma RisingExactly(ss: seq<SegmentRef>)
    ensures Rising(ss) <==> forall k :: 0 < k < |ss| ==> ss[k - 1].id < ss[k].id
  {
    if forall k :: 0 < k < |ss| ==> ss[k - 1].id < ss[k].id {
      forall i, j | 0 <= i < j < |ss|
        ensures ss[i].id < ss[j].id
      {
        RisingFar(ss, i, j);
      }
    }
  }

  /**
    What is written and accepted: as many names as collections and none of them empty, segment
    ids rising throughout, and each collection's total the sum of its segments' rows and no
    smaller than what lives.
  */
  lemma ValidExactly(m: Manifest)
    ensures Valid(m) <==>
      && |Members(Names(m.entries))| == |m.entries| && [] !in Names(m.entries)
      && forall e :: e in m.entries ==> Rising(e.segments) && e.counts.live <= e.counts.total == RowsOf(e.segments)
  {
    hide RowsOf, Members, Rising;
    DistinctExactly(Names(m.entries));
    forall e | e in m.entries
      ensures EntryValid(e) <==> e.name != [] && Rising(e.segments) && e.counts.live <= e.counts.total == RowsOf(e.segments)
    {
      RisingExactly(e.segments);
    }
    assert [] in Names(m.entries) <==> exists i :: 0 <= i < |m.entries| && m.entries[i].name == [];
    assert Distinct(Names(m.entries)) <==>
      forall i, j :: 0 <= i < j < |m.entries| ==> m.entries[i].name != m.entries[j].name;
  }

  // ----- Bytes -----

  /** Absent is zero, `n` is `n + 1`; the largest id saturates. */
  function SnapshotCode(s: Option<nat>): nat {
    match s
    case None => 0
    case Some(id) => Min(id + 1, U64 - 1)
  }

  function SegBytes(s: SegmentRef): seq<Byte> {
    Varint.Encode(s.id) + (Le(s.rows, 4) + Varint.Encode(s.delGeneration))
  }

  function SegsBytes(ss: seq<SegmentRef>): seq<Byte> {
    if ss == [] then [] else SegBytes(ss[0]) + SegsBytes(ss[1..])
  }

  function CountsBytes(c: Counts): seq<Byte> {
    Varint.Encode(SnapshotCode(c.snapshot))
    + (Varint.Encode(c.lastWal) + (Varint.Encode(c.live) + (Varint.Encode(c.total) + Zeros(4))))
  }

  function EntryBytes(e: Entry): seq<Byte> {
    Blob(e.name) + (Varint.Encode(|e.segments|) + (SegsBytes(e.segments) + CountsBytes(e.counts)))
  }

  function EntriesBytes(es: seq<Entry>): seq<Byte> {
    if es == [] then [] else EntryBytes(es[0]) + EntriesBytes(es[1..])
  }

  function Payload(m: Manifest): seq<Byte> {
    Le(m.sequence, 8) + (m.uuid + (Le(m.created, 8) + (Le(m.updated, 8)
    + (Varint.Encode(|m.entries|) + (EntriesBytes(m.entries) + Zeros(8))))))
  }

  function Encode(m: Manifest): Result<seq<Byte>, FormatError> {
    if Valid(m) then Ok(Block.EncodeBlock(Block.Manifest, Payload(m))) else Err(Malformed)
  }

  // ----- Decoding -----

  function ReadSeg(b: seq<Byte>, at: nat): Read<SegmentRef> {
    var (id, p) :- ReadVarint(b, at);
    var (rows, q) :- ReadUint(b, p, 4);
    var (generation, end) :- ReadVarint(b, q);
    if generation < U32 then Ok((SegmentRef(id, rows, generation), end)) else Err(Malformed)
  }

  function ReadSegs(b: seq<Byte>, at: nat, n: nat): Read<seq<SegmentRef>>
    decreases n
  {
    if n == 0 then Ok(([], at))
    else
      var (s, p) :- ReadSeg(b, at);
      var (ss, end) :- ReadSegs(b, p, n - 1);
      Ok(([s] + ss, end))
  }

  function ReadCounts(b: seq<Byte>, at: nat): Read<Counts> {
    var (code, p) :- ReadVarint(b, at);
    var (lastWal, q) :- ReadVarint(b, p);
    var (live, r) :- ReadVarint(b, q);
    var (total, s) :- ReadVarint(b, r);
    var (_, end) :- ReadReserved(b, s, 4);
    Ok((Counts(if code == 0 then None else Some(code - 1), lastWal, live, total), end))
  }

  function ReadEntry(b: seq<Byte>, at: nat): Read<Entry> {
    var (name, p) :- ReadString(b, at);
    var (n, q) :- ReadCount(b, p, 6);
    var (segments, r) :- ReadSegs(b, q, n);
    var (counts, end) :- ReadCounts(b, r);
    Ok((Entry(name, segments, counts), end))
  }

  function ReadEntries(b: seq<Byte>, at: nat, n: nat): Read<seq<Entry>>
    decreases n
  {
    if n == 0 then Ok(([], at))
    else
      var (e, p) :- ReadEntry(b, at);
      var (es, end) :- ReadEntries(b, p, n - 1);
      Ok(([e] + es, end))
  }

  function ReadTail(b: seq<Byte>, at: nat): Read<seq<Entry>> {
    var (n, p) :- ReadCount(b, at, 8);
    var (entries, q) :- ReadEntries(b, p, n);
    var (_, end) :- ReadReserved(b, q, 8);
    Ok((entries, end))
  }

  function ReadPayload(b: seq<Byte>): Result<Manifest, FormatError> {
    var (sequence, p) :- ReadUint(b, 0, 8);
    var (uuid, q) :- ReadBytes(b, p, 16);
    var (created, r) :- ReadUint(b, q, 8);
    var (updated, s) :- ReadUint(b, r, 8);
    var (entries, end) :- ReadTail(b, s);
    var m := Manifest(sequence, uuid, created, updated, entries);
    if end == |b| && Valid(m) then Ok(m) else Err(Malformed)
  }

  function Decode(b: seq<Byte>): Result<Manifest, FormatError> {
    var payload :- Block.DecodeBlock(b, Block.Manifest);
    ReadPayload(payload)
  }

  // ----- Each part decodes exactly when it is that part's bytes -----

  lemma SegExactly(b: seq<Byte>, at: nat, s: SegmentRef, end: nat)
    ensures ReadSeg(b, at) == Ok((s, end)) <==> SegTyped(s) && Holds(b, at, SegBytes(s)) && end == at + |SegBytes(s)|
  {
    hide Holds, ReadVarint, ReadUint, Varint.Encode, Le, Pow256;
    Powers();
    var i, r, g := Varint.Encode(s.id), Le(s.rows, 4), Varint.Encode(s.delGeneration);
    HoldsParts(b, at, i, r + g);
    var p := at + |i|;
    HoldsParts(b, p, r, g);
    VarintExactly(b, at, s.id, p);
    UintExactly(b, p, 4, s.rows, p + 4);
    VarintExactly(b, p + 4, s.delGeneration, end);
    if ReadSeg(b, at) == Ok((s, end)) {
      var (x, p') := ReadVarint(b, at).value;
      VarintExactly(b, at, x, p');
      var (y, q') := ReadUint(b, p', 4).value;
      UintExactly(b, p', 4, y, q');
      var (z, e) := ReadVarint(b, q').value;
      VarintExactly(b, q', z, e);
      assert x == s.id && y == s.rows && z == s.delGeneration && e == end;
    }
  }

  lemma {:induction false} SegsExactly(b: seq<Byte>, at: nat, n: nat, ss: seq<SegmentRef>, end: nat)
    requires at <= |b|
    ensures ReadSegs(b, at, n) == Ok((ss, end)) <==>
      |ss| == n && SegsTyped(ss) && Holds(b, at, SegsBytes(ss)) && end == at + |SegsBytes(ss)|
    decreases n
  {
    hide Holds, ReadSeg, SegBytes, SegTyped;
    if n == 0 {
      HoldsMeans(b, at, []);
    } else {
      if ReadSegs(b, at, n) == Ok((ss, end)) {
        SegsSound(b, at, n);
      }
      if |ss| == n && SegsTyped(ss) && Holds(b, at, SegsBytes(ss)) && end == at + |SegsBytes(ss)| {
        var p := at + |SegBytes(ss[0])|;
        HoldsParts(b, at, SegBytes(ss[0]), SegsBytes(ss[1..]));
        HoldsMeans(b, at, SegBytes(ss[0]));
        SegExactly(b, at, ss[0], p);
        SegsExactly(b, p, n - 1, ss[1..], end);
        assert ss == [ss[0]] + ss[1..];
      }
    }
  }

  lemma {:induction false} SegsSound(b: seq<Byte>, at: nat, n: nat)
    requires at <= |b| && ReadSegs(b, at, n).Ok?
    ensures var (ss, end) := ReadSegs(b, at, n).value;
      |ss| == n && SegsTyped(ss) && Holds(b, at, SegsBytes(ss)) && end == at + |SegsBytes(ss)|
    decreases n
  {
    hide Holds, ReadSeg, SegBytes, SegTyped;
    if n == 0 {
      HoldsMeans(b, at, []);
    } else {
      var (s, p) := ReadSeg(b, at).value;
      SegExactly(b, at, s, p);
      HoldsMeans(b, at, SegBytes(s));
      SegsSound(b, p, n - 1);
      var more := ReadSegs(b, p, n - 1).value.0;
      assert ([s] + more)[1..] == more;
      HoldsParts(b, at, SegBytes(s), SegsBytes(more));
    }
  }

  lemma {:induction false} SegsLength(ss: seq<SegmentRef>)
    ensures |SegsBytes(ss)| >= 6 * |ss|
  {
    hide Varint.Encode, Le;
    if ss != [] {
      SegsLength(ss[1..]);
    }
  }

  lemma CountsSound(b: seq<Byte>, at: nat)
    requires ReadCounts(b, at).Ok?
    ensures var (c, end) := ReadCounts(b, at).value;
      CountsTyped(c) && c.snapshot != Some(U64 - 1) && Holds(b, at, CountsBytes(c)) && end == at + |CountsBytes(c)|
  {
    hide Holds, ReadVarint, Varint.Encode, Zeros, ReadReserved;
    var (c, end) := ReadCounts(b, at).value;
    var (code, p) := ReadVarint(b, at).value;
    VarintExactly(b, at, code, p);
    var (lastWal, q) := ReadVarint(b, p).value;
    VarintExactly(b, p, lastWal, q);
    var (live, r) := ReadVarint(b, q).value;
    VarintExactly(b, q, live, r);
    var (total, s) := ReadVarint(b, r).value;
    VarintExactly(b, r, total, s);
    assert ReadReserved(b, s, 4) == Ok(((), end)) by { UnitRead(b, s, 4); }
    ReservedExactly(b, s, 4, end);
    assert c == Counts(if code == 0 then None else Some(code - 1), lastWal, live, total);
    assert SnapshotCode(c.snapshot) == code;
    CountsParts(b, at, c);
  }

  lemma CountsParts(b: seq<Byte>, at: nat, c: Counts)
    ensures var e0 := Varint.Encode(SnapshotCode(c.snapshot)); var e1 := Varint.Encode(c.lastWal);
      var e2 := Varint.Encode(c.live); var e3 := Varint.Encode(c.total);
      Holds(b, at, CountsBytes(c)) <==>
        && Holds(b, at, e0) && Holds(b, at + |e0|, e1) && Holds(b, at + |e0| + |e1|, e2)
        && Holds(b, at + |e0| + |e1| + |e2|, e3) && Holds(b, at + |e0| + |e1| + |e2| + |e3|, Zeros(4))
  {
    hide Holds, Varint.Encode, Zeros;
    var e0, e1 := Varint.Encode(SnapshotCode(c.snapshot)), Varint.Encode(c.lastWal);
    var e2, e3 := Varint.Encode(c.live), Varint.Encode(c.total);
    HoldsParts(b, at, e0, e1 + (e2 + (e3 + Zeros(4))));
    HoldsParts(b, at + |e0|, e1, e2 + (e3 + Zeros(4)));
    HoldsParts(b, at + |e0| + |e1|, e2, e3 + Zeros(4));
    HoldsParts(b, at + |e0| + |e1| + |e2|, e3, Zeros(4));
  }

  /** What counts read back as: an id at the very top of the range comes back one lower. */
  function ClampCounts(c: Counts): Counts {
    c.(snapshot := if c.snapshot == Some(U64 - 1) then Some(U64 - 2) else c.snapshot)
  }

  lemma CountsComplete(b: seq<Byte>, at: nat, c: Counts)
    requires CountsTyped(c) && Holds(b, at, CountsBytes(c))
    ensures ReadCounts(b, at) == Ok((ClampCounts(c), at + |CountsBytes(c)|))
  {
    hide Holds, ReadVarint, Varint.Encode, Zeros, ReadReserved;
    CountsParts(b, at, c);
    var p := at + |Varint.Encode(SnapshotCode(c.snapshot))|;
    VarintExactly(b, at, SnapshotCode(c.snapshot), p);
    var q := p + |Varint.Encode(c.lastWal)|;
    VarintExactly(b, p, c.lastWal, q);
    var r := q + |Varint.Encode(c.live)|;
    VarintExactly(b, q, c.live, r);
    var s := r + |Varint.Encode(c.total)|;
    VarintExactly(b, r, c.total, s);
    ReservedExactly(b, s, 4, s + 4);
  }

  function ClampEntry(e: Entry): Entry {
    e.(counts := ClampCounts(e.counts))
  }

  lemma EntryParts(b: seq<Byte>, at: nat, e: Entry)
    ensures var n := Blob(e.name); var k := Varint.Encode(|e.segments|); var ss := SegsBytes(e.segments);
      Holds(b, at, EntryBytes(e)) <==>
        && Holds(b, at, n) && Holds(b, at + |n|, k) && Holds(b, at + |n| + |k|, ss)
        && Holds(b, at + |n| + |k| + |ss|, CountsBytes(e.counts))
  {
    hide Holds, Blob, Varint.Encode, SegsBytes, CountsBytes;
    var n, k, ss, c := Blob(e.name), Varint.Encode(|e.segments|), SegsBytes(e.segments), CountsBytes(e.counts);
    HoldsParts(b, at, n, k + (ss + c));
    HoldsParts(b, at + |n|, k, ss + c);
    HoldsParts(b, at + |n| + |k|, ss, c);
  }

  /** No snapshot id at the very top of the range. */
  predicate Plain(e: Entry) {
    e.counts.snapshot != Some(U64 - 1)
  }

  lemma EntrySound(b: seq<Byte>, at: nat)
    requires ReadEntry(b, at).Ok?
    ensures var (e, end) := ReadEntry(b, at).value;
      EntryTyped(e) && Plain(e) && Holds(b, at, EntryBytes(e)) && end == at + |EntryBytes(e)|
  {
    hide Holds, Blob, Varint.Encode, SegsBytes, CountsBytes, ReadString, ReadCount, ReadSegs, ReadCounts, Utf8, SegsTyped, CountsTyped;
    var (e, end) := ReadEntry(b, at).value;
    var (name, p) := ReadString(b, at).value;
    StringExactly(b, at, name, p);
    var (n, q) := ReadCount(b, p, 6).value;
    CountReads(b, p, 6, n, q);
    HoldsMeans(b, p, Varint.Encode(n));
    SegsSound(b, q, n);
    var (segments, r) := ReadSegs(b, q, n).value;
    CountsSound(b, r);
    assert e.name == name && e.segments == segments && e.counts == ReadCounts(b, r).value.0;
    EntryParts(b, at, e);
  }

  lemma EntryComplete(b: seq<Byte>, at: nat, e: Entry)
    requires EntryTyped(e) && Holds(b, at, EntryBytes(e))
    ensures ReadEntry(b, at) == Ok((ClampEntry(e), at + |EntryBytes(e)|))
  {
    hide Holds, Blob, Varint.Encode, SegsBytes, CountsBytes, ReadString, ReadCount, ReadSegs, ReadCounts, Utf8, SegsTyped, CountsTyped;
    EntryParts(b, at, e);
    var p := at + |Blob(e.name)|;
    StringExactly(b, at, e.name, p);
    var n := |e.segments|;
    var q := p + |Varint.Encode(n)|;
    SegsLength(e.segments);
    HoldsMeans(b, q, SegsBytes(e.segments));
    CountReads(b, p, 6, n, q);
    var r := q + |SegsBytes(e.segments)|;
    SegsExactly(b, q, n, e.segments, r);
    CountsComplete(b, r, e.counts);
  }

  lemma EntryLength(e: Entry)
    ensures |EntryBytes(e)| >= 8
  {
    hide Blob, Varint.Encode, SegsBytes;
    assert |Blob(e.name)| >= 1;
  }

  lemma {:induction false} EntriesLength(es: seq<Entry>)
    ensures |EntriesBytes(es)| >= 8 * |es|
  {
    hide EntryBytes;
    if es != [] {
      EntryLength(es[0]);
      EntriesLength(es[1..]);
    }
  }

  function ClampEntries(es: seq<Entry>): (r: seq<Entry>)
    ensures |r| == |es| && forall i :: 0 <= i < |es| ==> r[i] == ClampEntry(es[i])
  {
    if es == [] then [] else [ClampEntry(es[0])] + ClampEntries(es[1..])
  }

  predicate AllPlain(es: seq<Entry>) {
    forall i :: 0 <= i < |es| ==> Plain(es[i])
  }

  lemma {:induction false} EntriesSound(b: seq<Byte>, at: nat, n: nat)
    requires at <= |b| && ReadEntries(b, at, n).Ok?
    ensures var (es, end) := ReadEntries(b, at, n).value;
      |es| == n && EntriesTyped(es) && AllPlain(es) && Holds(b, at, EntriesBytes(es)) && end == at + |EntriesBytes(es)|
    decreases n
  {
    hide Holds, ReadEntry, EntryBytes, EntryTyped, Plain;
    if n == 0 {
      HoldsMeans(b, at, []);
    } else {
      var (e, p) := ReadEntry(b, at).value;
      EntrySound(b, at);
      HoldsMeans(b, at, EntryBytes(e));
      EntriesSound(b, p, n - 1);
      var more := ReadEntries(b, p, n - 1).value.0;
      assert ([e] + more)[1..] == more;
      HoldsParts(b, at, EntryBytes(e), EntriesBytes(more));
    }
  }

  lemma {:induction false} EntriesComplete(b: seq<Byte>, at: nat, es: seq<Entry>)
    requires EntriesTyped(es) && Holds(b, at, EntriesBytes(es))
    ensures ReadEntries(b, at, |es|) == Ok((ClampEntries(es), at + |EntriesBytes(es)|))
    decreases |es|
  {
    hide Holds, ReadEntry, EntryBytes, EntryTyped, ClampEntry;
    if es != [] {
      var p := at + |EntryBytes(es[0])|;
      HoldsParts(b, at, EntryBytes(es[0]), EntriesBytes(es[1..]));
      EntryComplete(b, at, es[0]);
      EntriesComplete(b, p, es[1..]);
    }
  }

  function TailBytes(es: seq<Entry>): seq<Byte> {
    Varint.Encode(|es|) + (EntriesBytes(es) + Zeros(8))
  }

  lemma TailParts(b: seq<Byte>, at: nat, es: seq<Entry>)
    ensures var k := Varint.Encode(|es|); var body := EntriesBytes(es);
      Holds(b, at, TailBytes(es)) <==> Holds(b, at, k) && Holds(b, at + |k|, body) && Holds(b, at + |k| + |body|, Zeros(8))
  {
    hide Holds, Varint.Encode, EntriesBytes, Zeros;
    var k, body := Varint.Encode(|es|), EntriesBytes(es);
    HoldsParts(b, at, k, body + Zeros(8));
    HoldsParts(b, at + |k|, body, Zeros(8));
  }

  lemma TailSound(b: seq<Byte>, at: nat)
    requires ReadTail(b, at).Ok?
    ensures var (es, end) := ReadTail(b, at).value;
      |es| < U64 && EntriesTyped(es) && AllPlain(es) && Holds(b, at, TailBytes(es)) && end == at + |TailBytes(es)|
  {
    hide Holds, Varint.Encode, EntriesBytes, Zeros, ReadCount, ReadEntries, ReadReserved, EntriesTyped, AllPlain;
    var (es, end) := ReadTail(b, at).value;
    var (n, p) := ReadCount(b, at, 8).value;
    CountReads(b, at, 8, n, p);
    HoldsMeans(b, at, Varint.Encode(n));
    EntriesSound(b, p, n);
    var (entries, q) := ReadEntries(b, p, n).value;
    assert ReadReserved(b, q, 8) == Ok(((), end)) by { UnitRead(b, q, 8); }
    ReservedExactly(b, q, 8, end);
    assert es == entries;
    TailParts(b, at, es);
  }

  lemma TailComplete(b: seq<Byte>, at: nat, es: seq<Entry>)
    requires |es| < U64 && EntriesTyped(es) && Holds(b, at, TailBytes(es))
    ensures ReadTail(b, at) == Ok((ClampEntries(es), at + |TailBytes(es)|))
  {
    hide Holds, Varint.Encode, EntriesBytes, Zeros, ReadCount, ReadEntries, ReadReserved, EntriesTyped, ClampEntries;
    TailParts(b, at, es);
    var p := at + |Varint.Encode(|es|)|;
    EntriesLength(es);
    HoldsMeans(b, p, EntriesBytes(es));
    CountReads(b, at, 8, |es|, p);
    EntriesComplete(b, p, es);
    var q := p + |EntriesBytes(es)|;
    ReservedExactly(b, q, 8, q + 8);
  }

  /** What a manifest reads back as. */
  function Clamp(m: Manifest): Manifest {
    m.(entries := ClampEntries(m.entries))
  }

  lemma PayloadParts(b: seq<Byte>, m: Manifest)
    requires |m.uuid| == 16
    ensures Holds(b, 0, Payload(m)) <==>
        && Holds(b, 0, Le(m.sequence, 8)) && Holds(b, 8, m.uuid) && Holds(b, 24, Le(m.created, 8))
        && Holds(b, 32, Le(m.updated, 8)) && Holds(b, 40, TailBytes(m.entries))
    ensures |Payload(m)| == 40 + |TailBytes(m.entries)|
  {
    hide Holds, Le, EntriesBytes, Varint.Encode, Zeros;
    var t := TailBytes(m.entries);
    HoldsParts(b, 0, Le(m.sequence, 8), m.uuid + (Le(m.created, 8) + (Le(m.updated, 8) + t)));
    HoldsParts(b, 8, m.uuid, Le(m.created, 8) + (Le(m.updated, 8) + t));
    HoldsParts(b, 24, Le(m.created, 8), Le(m.updated, 8) + t);
    HoldsParts(b, 32, Le(m.updated, 8), t);
  }

  lemma PayloadSound(b: seq<Byte>, m: Manifest)
    requires ReadPayload(b) == Ok(m)
    ensures Typed(m) && Valid(m) && AllPlain(m.entries) && b == Payload(m)
  {
    hide Holds, Le, Pow256, TailBytes, ReadUint, ReadTail, Valid, EntriesTyped, AllPlain, Payload;
    Powers();
    var (sequence, p) := ReadUint(b, 0, 8).value;
    UintExactly(b, 0, 8, sequence, p);
    var (uuid, q) := ReadBytes(b, p, 16).value;
    HoldsMeans(b, p, uuid);
    var (created, r) := ReadUint(b, q, 8).value;
    UintExactly(b, q, 8, created, r);
    var (updated, s) := ReadUint(b, r, 8).value;
    UintExactly(b, r, 8, updated, s);
    var (entries, end) := ReadTail(b, s).value;
    TailSound(b, s);
    assert m == Manifest(sequence, uuid, created, updated, entries);
    PayloadParts(b, m);
    HoldsMeans(b, 0, Payload(m));
  }

  lemma PayloadComplete(m: Manifest)
    requires Typed(m) && Valid(m)
    ensures ReadPayload(Payload(m)) == Ok(Clamp(m))
  {
    hide Holds, Le, Pow256, TailBytes, ReadUint, ReadTail, Valid, EntriesTyped, Payload, ClampEntries;
    Powers();
    var b := Payload(m);
    WholeHolds(b);
    PayloadParts(b, m);
    UintExactly(b, 0, 8, m.sequence, 8);
    HoldsMeans(b, 8, m.uuid);
    UintExactly(b, 24, 8, m.created, 32);
    UintExactly(b, 32, 8, m.updated, 40);
    TailComplete(b, 40, m.entries);
    ClampValid(m);
  }

  lemma ClampValid(m: Manifest)
    ensures Valid(Clamp(m)) <==> Valid(m)
  {
    var es, cs := m.entries, ClampEntries(m.entries);
    assert forall i :: 0 <= i < |es| ==> cs[i].name == es[i].name && (EntryValid(cs[i]) <==> EntryValid(es[i]));
  }

  lemma ClampPlain(m: Manifest)
    ensures Clamp(m) == m <==> AllPlain(m.entries)
  {
    var es, cs := m.entries, ClampEntries(m.entries);
    if AllPlain(es) {
      assert forall i :: 0 <= i < |es| ==> cs[i] == es[i];
      assert cs == es;
    }
    if cs == es {
      forall i | 0 <= i < |es| ensures Plain(es[i]) {
        assert cs[i] == ClampEntry(es[i]);
      }
    }
  }

  /** A payload decodes to `m` exactly when it is `m`'s payload: what is accepted re-encodes to itself. */
  lemma PayloadExactly(b: seq<Byte>, m: Manifest)
    ensures ReadPayload(b) == Ok(m) <==> Typed(m) && Valid(m) && AllPlain(m.entries) && b == Payload(m)
  {
    hide ReadPayload, Payload, Typed, Valid, AllPlain;
    if ReadPayload(b) == Ok(m) {
      PayloadSound(b, m);
    }
    if Typed(m) && Valid(m) && AllPlain(m.entries) && b == Payload(m) {
      PayloadComplete(m);
      ClampPlain(m);
    }
  }

  /** An encoded manifest, whatever follows it, decodes to itself, its top snapshot ids lowered by one. */
  lemma DecodeEncoded(m: Manifest, b: seq<Byte>)
    requires Typed(m) && Valid(m) && |Payload(m)| < U64 && Holds(b, 0, Encode(m).value)
    ensures Decode(b) == Ok(Clamp(m))
  {
    hide ReadPayload, Payload, Typed, Valid, Block.DecodeBlock, Block.EncodeBlock, Holds;
    Block.BlockBack(b, Block.Manifest, Payload(m));
    PayloadComplete(m);
  }

  /**
    A manifest that can be encoded survives the round trip if and only if no collection's
    snapshot id is the largest 64-bit number.
  */
  lemma RoundTripExactly(m: Manifest)
    requires Typed(m) && Valid(m) && |Payload(m)| < U64
    ensures Decode(Encode(m).value) == Ok(m) <==> AllPlain(m.entries)
  {
    hide Decode, Encode, Payload, Typed, Valid, Holds, AllPlain;
    assert Encode(m).Ok? by { EncodesValid(m); }
    WholeHolds(Encode(m).value);
    DecodeEncoded(m, Encode(m).value);
    ClampPlain(m);
  }

  lemma EncodesValid(m: Manifest)
    requires Valid(m)
    ensures Encode(m) == Ok(Block.EncodeBlock(Block.Manifest, Payload(m)))
  {
  }

  lemma ClampEntryBytes(e: Entry)
    ensures EntryBytes(ClampEntry(e)) == EntryBytes(e) && (EntryTyped(e) ==> EntryTyped(ClampEntry(e)))
  {
    hide Blob, Varint.Encode, SegsBytes, Utf8, SegsTyped;
    assert SnapshotCode(ClampCounts(e.counts).snapshot) == SnapshotCode(e.counts.snapshot);
  }

  lemma {:induction false} ClampEntriesBytes(es: seq<Entry>)
    ensures EntriesBytes(ClampEntries(es)) == EntriesBytes(es) && (EntriesTyped(es) ==> EntriesTyped(ClampEntries(es)))
  {
    hide EntryBytes, EntryTyped, ClampEntry;
    if es != [] {
      ClampEntryBytes(es[0]);
      ClampEntriesBytes(es[1..]);
      var rest := ClampEntries(es[1..]);
      assert ClampEntries(es)[1..] == rest;
      if EntriesTyped(es) {
        assert EntriesTyped(es[1..]) && EntryTyped(es[0]);
        assert forall i :: 0 < i < |es| ==> ClampEntries(es)[i] == rest[i - 1];
      }
    }
  }

  /** Lowering the top snapshot ids changes no byte of what is written. */
  lemma ClampSameBytes(m: Manifest)
    ensures Payload(Clamp(m)) == Payload(m) && (Typed(m) ==> Typed(Clamp(m)))
  {
    hide EntriesBytes, Varint.Encode, Le, Zeros, ClampEntries, EntriesTyped;
    ClampEntriesBytes(m.entries);
  }
}
