/** Metadata records: optional metadata and content per row, addressed by the directory (segment.rs). */
module MetaBlock {
  import opened Prelude
  import opened Bytes
  import opened Cursor
  import opened Value
  import ValueRead
  import ValueWrite
  import Block
  import Directory

  datatype MetaRecord = MetaRecord(metadata: Option<Value>, content: Option<seq<Byte>>)

  const NOTHING: MetaRecord := MetaRecord(None, None)

  function Flags(r: MetaRecord): Byte {
    (if r.metadata.Some? then 1 else 0) + (if r.content.Some? then 2 else 0)
  }

  /** The optional parts, each length-prefixed when present. */
  function PartBytes(part: Option<seq<Byte>>): seq<Byte> {
    if part.Some? then Cursor.Blob(part.value) else []
  }

  function Encode(r: MetaRecord): Result<seq<Byte>, FormatError> {
    if r.metadata.Some? then
      var encoded :- ValueWrite.Encode(r.metadata.value);
      Ok([Flags(r)] + (PartBytes(Some(encoded)) + PartBytes(r.content)))
    else Ok([Flags(r)] + (PartBytes(None) + PartBytes(r.content)))
  }

  function ReadPart(b: seq<Byte>, at: nat, present: bool): Read<Option<seq<Byte>>> {
    if present then
      var (s, p) :- ReadBlob(b, at);
      Ok((Some(s), p))
    else Ok((None, at))
  }

  function Decode(b: seq<Byte>): Result<MetaRecord, FormatError> {
    if b == [] then Ok(NOTHING)
    else if b[0] >= 4 then Err(Malformed)
    else
      var (encoded, p) :- ReadPart(b, 1, b[0] % 2 == 1);
      if encoded.Some? then
        var v :- ValueRead.Decode(encoded.value);
        var (content, end) :- ReadPart(b, p, b[0] >= 2);
        if end == |b| then Ok(MetaRecord(Some(v), content)) else Err(Malformed)
      else
        var (content, end) :- ReadPart(b, p, b[0] >= 2);
        if end == |b| then Ok(MetaRecord(None, content)) else Err(Malformed)
  }

  ghost predicate Typed(r: MetaRecord) {
    && (r.metadata.Some? ==> ValueWrite.Typed(r.metadata.value))
    && (r.content.Some? ==> |r.content.value| < U64)
  }

  lemma PartBack(b: seq<Byte>, at: nat, part: Option<seq<Byte>>)
    requires Holds(b, at, PartBytes(part)) && (part.Some? ==> |part.value| < U64)
    ensures ReadPart(b, at, part.Some?) == Ok((part, at + |PartBytes(part)|))
  {
    hide Holds, ReadBlob;
    if part.Some? {
      BlobExactly(b, at, part.value, at + |PartBytes(part)|);
    }
  }

  /** A record reads back from its bytes. */
  lemma RecordBack(r: MetaRecord)
    requires Typed(r) && Encode(r).Ok? && |Encode(r).value| < U64
    ensures Encode(r).value != [] && Decode(Encode(r).value) == Ok(r)
  {
    hide Holds, PartBytes, ReadPart, ValueWrite.Encode, ValueRead.Decode, ValueWrite.Typed;
    var b := Encode(r).value;
    var first: Option<seq<Byte>> := None;
    if r.metadata.Some? {
      ValueWrite.RoundTrip(r.metadata.value);
      first := Some(ValueWrite.Encode(r.metadata.value).value);
    }
    var p := PartBytes(first);
    assert b == [Flags(r)] + (p + PartBytes(r.content));
    WholeHolds(b);
    HoldsParts(b, 0, [Flags(r)], p + PartBytes(r.content));
    HoldsParts(b, 1, p, PartBytes(r.content));
    PartLength(first);
    PartBack(b, 1, first);
    PartBack(b, 1 + |p|, r.content);
  }

  lemma PartLength(part: Option<seq<Byte>>)
    ensures part.Some? ==> |part.value| < |PartBytes(part)|
  {
  }

  /** The first byte of an accepted record says which parts it has, and nothing else. */
  lemma FlagsExactly(b: seq<Byte>)
    requires Decode(b).Ok?
    ensures var r := Decode(b).value;
      if b == [] then r == NOTHING
      else b[0] == (if r.metadata.Some? then 1 else 0) + (if r.content.Some? then 2 else 0)
  {
    hide ReadBlob, ValueRead.Decode;
  }

  // ----- The file -----

  /** Append a record: where it landed and its length; an empty one takes no bytes. */
  function Push(payload: seq<Byte>, r: MetaRecord): Result<(seq<Byte>, nat, nat), FormatError> {
    if r == NOTHING then Ok((payload, |payload|, 0))
    else
      var encoded :- Encode(r);
      if |encoded| < U32 then Ok((payload + encoded, |payload|, |encoded|)) else Err(Malformed)
  }

  function Finish(payload: seq<Byte>): seq<Byte> {
    Block.EncodeBlock(Block.Metadata, payload)
  }

  function Open(b: seq<Byte>): Result<seq<Byte>, FormatError> {
    Block.OpenBlock(b, Block.Metadata)
  }

  function RecordOf(payload: seq<Byte>, e: Directory.RowEntry): Result<MetaRecord, FormatError> {
    if e.metaLen == 0 then Ok(NOTHING)
    else if e.metaOffset + e.metaLen > |payload| then Err(LengthExceedsInput)
    else Decode(payload[e.metaOffset..e.metaOffset + e.metaLen])
  }

  /** The record a range of the payload holds. */
  ghost predicate Recorded(payload: seq<Byte>, e: Directory.RowEntry, r: MetaRecord) {
    RecordOf(payload, e) == Ok(r)
  }

  lemma RecordedGrows(payload: seq<Byte>, e: Directory.RowEntry, r: MetaRecord, more: seq<Byte>)
    requires Recorded(payload, e, r)
    ensures Recorded(payload + more, e, r)
  {
    hide Decode;
    if e.metaLen != 0 {
      assert (payload + more)[e.metaOffset..e.metaOffset + e.metaLen] == payload[e.metaOffset..e.metaOffset + e.metaLen];
    }
  }

  lemma PushRecords(payload: seq<Byte>, r: MetaRecord, e: Directory.RowEntry)
    requires Typed(r) && Push(payload, r).Ok?
    requires e.metaOffset == Push(payload, r).value.1 && e.metaLen == Push(payload, r).value.2
    ensures Recorded(Push(payload, r).value.0, e, r) && payload <= Push(payload, r).value.0
    ensures e.metaOffset == |payload| && e.metaLen < U32
  {
    hide Encode, Decode, Typed;
    if r != NOTHING {
      var s := Encode(r).value;
      RecordBack(r);
      assert (payload + s)[|payload|..|payload| + |s|] == s;
    }
  }

  class MetaWriter {
    var payload: seq<Byte>

    constructor ()
      ensures payload == []
    {
      payload := [];
    }

    method PushRecord(r: MetaRecord) returns (at: Result<(nat, nat), FormatError>)
      modifies this
      ensures match Push(old(payload), r)
        case Ok((grown, offset, len)) => at == Ok((offset, len)) && payload == grown
        case Err(e) => at == Err(e) && payload == old(payload)
    {
      hide Encode;
      if r.metadata.None? && r.content.None? {
        return Ok((|payload|, 0));
      }
      var encoded :- Encode(r);
      var offset := |payload|;
      if |encoded| >= U32 {
        return Err(Malformed);
      }
      payload := payload + encoded;
      at := Ok((offset, |encoded|));
    }
  }
}
