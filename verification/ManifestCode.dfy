/** Checking, writing and reading a manifest with the loops manifest.rs has. */
module ManifestCode {
  import opened Prelude
  import opened Bytes
  import opened Cursor
  import opened Manifest
  import Block
  import Varint

  // ----- Validate -----

  method Validate(m: Manifest) returns (ok: bool)
    ensures ok == Valid(m)
  {
    hide EntryValid;
    var names: set<seq<Byte>> := {};
    for i := 0 to |m.entries|
      invariant forall n :: n in names <==> exists j :: 0 <= j < i && m.entries[j].name == n
      invariant forall j, k :: 0 <= j < k < i ==> m.entries[j].name != m.entries[k].name
    {
      if m.entries[i].name in names {
        return false;
      }
      names := names + {m.entries[i].name};
    }
    for i := 0 to |m.entries|
      invariant forall j :: 0 <= j < i ==> EntryValid(m.entries[j])
    {
      var fine := ValidateEntry(m.entries[i]);
      if !fine {
        return false;
      }
    }
    ok := true;
  }

  method ValidateEntry(e: Entry) returns (ok: bool)
    ensures ok == EntryValid(e)
  {
    if e.name == [] {
      return false;
    }
    var last: Option<nat> := None;
    for i := 0 to |e.segments|
      invariant last == if i == 0 then None else Some(e.segments[i - 1].id)
      invariant forall j :: 0 < j < i ==> e.segments[j - 1].id < e.segments[j].id
    {
      if last.Some? && e.segments[i].id <= last.value {
        return false;
      }
      last := Some(e.segments[i].id);
    }
    var rows := 0;
    assert e.segments[0..] == e.segments;
    for i := 0 to |e.segments|
      invariant rows + RowsOf(e.segments[i..]) == RowsOf(e.segments)
    {
      assert e.segments[i..][1..] == e.segments[i + 1..];
      rows := rows + e.segments[i].rows;
    }
    ok := e.counts.total == rows && e.counts.live <= e.counts.total;
  }

  // ----- Encode -----

  method EncodeManifest(m: Manifest) returns (r: Result<seq<Byte>, FormatError>)
    ensures r == Encode(m)
  {
    hide Valid, EntriesBytes, Varint.Encode, Le, Block.EncodeBlock, Zeros;
    var ok := Validate(m);
    if !ok {
      return Err(Malformed);
    }
    var w := new Writer();
    w.Uint(m.sequence, 8);
    w.Raw(m.uuid);
    w.Uint(m.created, 8);
    w.Uint(m.updated, 8);
    w.PutVarint(|m.entries|);
    ghost var head := w.buf;
    assert EntriesBytes(m.entries[..0]) == [] by { NoBytes(); }
    for i := 0 to |m.entries|
      invariant w.buf == head + EntriesBytes(m.entries[..i])
    {
      WriteEntry(m.entries[i], w);
      EntriesSnoc(m.entries, i);
    }
    assert m.entries[..|m.entries|] == m.entries;
    w.Raw(Zeros(8));
    assert w.buf == Payload(m);
    r := Ok(Block.EncodeBlock(Block.Manifest, w.buf));
  }

  lemma EntriesCons(e: Entry, es: seq<Entry>)
    ensures EntriesBytes([e] + es) == EntryBytes(e) + EntriesBytes(es)
  {
    hide EntryBytes;
    assert ([e] + es)[1..] == es;
  }

  lemma {:induction false} EntriesSnoc(es: seq<Entry>, i: nat)
    requires i < |es|
    ensures EntriesBytes(es[..i + 1]) == EntriesBytes(es[..i]) + EntryBytes(es[i])
    decreases i
  {
    hide EntryBytes, EntriesBytes;
    NoBytes();
    if i == 0 {
      assert es[..1] == [es[0]] + [] && es[..0] == [];
      EntriesCons(es[0], []);
      assert EntryBytes(es[0]) + [] == [] + EntryBytes(es[0]);
    } else {
      var more := es[1..];
      assert es[..i + 1] == [es[0]] + more[..i] && es[..i] == [es[0]] + more[..i - 1];
      EntriesSnoc(more, i - 1);
      EntriesCons(es[0], more[..i]);
      EntriesCons(es[0], more[..i - 1]);
      Associate(EntryBytes(es[0]), EntriesBytes(more[..i - 1]), EntryBytes(es[i]));
    }
  }

  lemma SegsCons(s: SegmentRef, ss: seq<SegmentRef>)
    ensures SegsBytes([s] + ss) == SegBytes(s) + SegsBytes(ss)
  {
    hide SegBytes;
    assert ([s] + ss)[1..] == ss;
  }

  lemma {:induction false} SegsSnoc(ss: seq<SegmentRef>, i: nat)
    requires i < |ss|
    ensures SegsBytes(ss[..i + 1]) == SegsBytes(ss[..i]) + SegBytes(ss[i])
    decreases i
  {
    hide SegBytes, SegsBytes;
    NoBytes();
    if i == 0 {
      assert ss[..1] == [ss[0]] + [] && ss[..0] == [];
      SegsCons(ss[0], []);
      assert SegBytes(ss[0]) + [] == [] + SegBytes(ss[0]);
    } else {
      var more := ss[1..];
      assert ss[..i + 1] == [ss[0]] + more[..i] && ss[..i] == [ss[0]] + more[..i - 1];
      SegsSnoc(more, i - 1);
      SegsCons(ss[0], more[..i]);
      SegsCons(ss[0], more[..i - 1]);
      Associate(SegBytes(ss[0]), SegsBytes(more[..i - 1]), SegBytes(ss[i]));
    }
  }

  method WriteEntry(e: Entry, w: Writer)
    modifies w
    ensures w.buf == old(w.buf) + EntryBytes(e)
  {
    hide SegBytes, SegsBytes, Varint.Encode, Le, Blob, Zeros;
    w.PutBlob(e.name);
    w.PutVarint(|e.segments|);
    ghost var head := w.buf;
    assert SegsBytes(e.segments[..0]) == [] by { NoBytes(); }
    for i := 0 to |e.segments|
      invariant w.buf == head + SegsBytes(e.segments[..i])
    {
      WriteSeg(e.segments[i], w);
      SegsSnoc(e.segments, i);
    }
    assert e.segments[..|e.segments|] == e.segments;
    ghost var before := w.buf;
    WriteCounts(e.counts, w);
    assert w.buf == old(w.buf) + EntryBytes(e);
  }

  lemma NoBytes()
    ensures SegsBytes([]) == [] && EntriesBytes([]) == []
  {
  }

  method WriteSeg(s: SegmentRef, w: Writer)
    modifies w
    ensures w.buf == old(w.buf) + SegBytes(s)
  {
    hide Varint.Encode, Le;
    w.PutVarint(s.id);
    w.Uint(s.rows, 4);
    w.PutVarint(s.delGeneration);
  }

  method WriteCounts(c: Counts, w: Writer)
    modifies w
    ensures w.buf == old(w.buf) + CountsBytes(c)
  {
    hide Varint.Encode, Zeros;
    match c.snapshot {
      case None => w.PutVarint(0);
      case Some(id) => w.PutVarint(Min(id + 1, U64 - 1));
    }
    w.PutVarint(c.lastWal);
    w.PutVarint(c.live);
    w.PutVarint(c.total);
    w.Raw(Zeros(4));
  }

  // ----- Decode -----

  /** What remains to be read, after `xs`. */
  function Onto<T>(xs: seq<T>, rest: Read<seq<T>>): Read<seq<T>> {
    match rest
    case Ok((ys, end)) => Ok((xs + ys, end))
    case Err(e) => Err(e)
  }

  method TakeReserved(r: Reader, n: nat) returns (u: Result<(), FormatError>)
    requires r.Valid()
    modifies r
    ensures r.Valid() && Agrees(ReadReserved(r.buf, old(r.pos), n), u, r.pos)
  {
    var s :- r.Take(n);
    for i := 0 to |s|
      invariant forall j :: 0 <= j < i ==> s[j] == 0
    {
      if s[i] != 0 {
        return Err(Malformed);
      }
    }
    u := Ok(());
  }

  method TakeSeg(r: Reader) returns (s: Result<SegmentRef, FormatError>)
    requires r.Valid()
    modifies r
    ensures r.Valid() && Agrees(ReadSeg(r.buf, old(r.pos)), s, r.pos)
  {
    hide ReadVarint, At;
    var id :- r.TakeVarint();
    var rows :- r.Uint(4);
    var generation :- r.TakeVarint();
    s := if generation < U32 then Ok(SegmentRef(id, rows, generation)) else Err(Malformed);
  }

  method TakeSegs(r: Reader, n: nat) returns (ss: Result<seq<SegmentRef>, FormatError>)
    requires r.Valid()
    modifies r
    ensures r.Valid() && Agrees(ReadSegs(r.buf, old(r.pos), n), ss, r.pos)
  {
    hide ReadSeg;
    ghost var start := r.pos;
    var segments := [];
    OntoEnds(ReadSegs(r.buf, start, n), segments, start);
    for i := 0 to n
      invariant r.Valid() && ReadSegs(r.buf, start, n) == Onto(segments, ReadSegs(r.buf, r.pos, n - i))
    {
      var s :- TakeSeg(r);
      OntoOne(segments, s, ReadSegs(r.buf, r.pos, n - i - 1));
      segments := segments + [s];
    }
    OntoEnds(ReadSegs(r.buf, start, n), segments, r.pos);
    ss := Ok(segments);
  }

  lemma OntoEnds<T>(all: Read<seq<T>>, xs: seq<T>, at: nat)
    ensures Onto([], all) == all && Onto(xs, Ok(([], at))) == Ok((xs, at))
  {
    assert xs + [] == xs;
    match all
    case Ok((ys, end)) => assert [] + ys == ys;
    case Err(_) =>
  }

  lemma OntoOne<T>(xs: seq<T>, x: T, rest: Read<seq<T>>)
    ensures Onto(xs + [x], rest) == Onto(xs, Onto([x], rest))
  {
    if rest.Ok? {
      assert xs + [x] + rest.value.0 == xs + ([x] + rest.value.0);
    }
  }

  method TakeCounts(r: Reader) returns (c: Result<Counts, FormatError>)
    requires r.Valid()
    modifies r
    ensures r.Valid() && Agrees(ReadCounts(r.buf, old(r.pos)), c, r.pos)
  {
    hide ReadVarint, ReadReserved;
    var code :- r.TakeVarint();
    var lastWal :- r.TakeVarint();
    var live :- r.TakeVarint();
    var total :- r.TakeVarint();
    var _ :- TakeReserved(r, 4);
    c := Ok(Counts(if code == 0 then None else Some(code - 1), lastWal, live, total));
  }

  method TakeEntry(r: Reader) returns (e: Result<Entry, FormatError>)
    requires r.Valid()
    modifies r
    ensures r.Valid() && Agrees(ReadEntry(r.buf, old(r.pos)), e, r.pos)
  {
    hide ReadString, ReadCount, ReadSegs, ReadCounts;
    var name :- r.TakeString();
    var n :- r.TakeCount(6);
    var segments :- TakeSegs(r, n);
    var counts :- TakeCounts(r);
    e := Ok(Entry(name, segments, counts));
  }

  method TakeEntries(r: Reader, n: nat) returns (es: Result<seq<Entry>, FormatError>)
    requires r.Valid()
    modifies r
    ensures r.Valid() && Agrees(ReadEntries(r.buf, old(r.pos), n), es, r.pos)
  {
    hide ReadEntry;
    ghost var start := r.pos;
    var entries := [];
    OntoEnds(ReadEntries(r.buf, start, n), entries, start);
    for i := 0 to n
      invariant r.Valid() && ReadEntries(r.buf, start, n) == Onto(entries, ReadEntries(r.buf, r.pos, n - i))
    {
      var e :- TakeEntry(r);
      OntoOne(entries, e, ReadEntries(r.buf, r.pos, n - i - 1));
      entries := entries + [e];
    }
    OntoEnds(ReadEntries(r.buf, start, n), entries, r.pos);
    es := Ok(entries);
  }

  method DecodeManifest(bytes: seq<Byte>) returns (r: Result<Manifest, FormatError>)
    ensures r == Decode(bytes)
  {
    hide Block.DecodeBlock, At, ReadEntries, ReadCount, ReadReserved, Valid;
    var payload :- Block.DecodeBlock(bytes, Block.Manifest);
    var rd := new Reader(payload);
    var sequence :- rd.Uint(8);
    var uuid :- rd.Take(16);
    var created :- rd.Uint(8);
    var updated :- rd.Uint(8);
    var n :- rd.TakeCount(8);
    var entries :- TakeEntries(rd, n);
    var _ :- TakeReserved(rd, 8);
    if rd.pos != |payload| {
      return Err(Malformed);
    }
    var m := Manifest(sequence, uuid, created, updated, entries);
    var ok := Validate(m);
    r := if ok then Ok(m) else Err(Malformed);
  }
}
