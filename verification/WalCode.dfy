/** Writing, reading and scanning log frames step by step, as wal.rs does. */
module WalCode {
  import opened Prelude
  import opened Bytes
  import opened Cursor
  import opened Wal
  import Crc32c
  import Varint

  /** Append one frame, framing and all; a body over the limit writes nothing. */
  method AppendTo(f: Frame, out: Writer) returns (r: Result<(), FormatError>)
    modifies out
    ensures |BodyBytes(f)| <= MAX_BODY ==> r == Ok(()) && out.buf == old(out.buf) + FrameBytes(f)
    ensures |BodyBytes(f)| > MAX_BODY ==> r == Err(Malformed) && out.buf == old(out.buf)
  {
    hide BodyBytes, Le, Crc32c.Checksum;
    var body := WriteBody(f);
    if |body| > MAX_BODY {
      return Err(Malformed);
    }
    var crc := Crc32c.Crc(body);
    out.Uint(|body|, 4);
    out.Uint(crc, 4);
    out.Raw(body);
    Associate(old(out.buf), Le(|body|, 4), Le(crc, 4) + body);
    Associate(old(out.buf) + Le(|body|, 4), Le(crc, 4), body);
    r := Ok(());
  }

  method WriteBody(f: Frame) returns (body: seq<Byte>)
    ensures body == BodyBytes(f)
  {
    hide OpBytes, Varint.Encode;
    var w := new Writer();
    w.PutVarint(f.sequence);
    w.PutVarint(f.txn);
    w.Raw([OpCode(f.op)]);
    WriteOp(f.op, w);
    body := w.buf;
  }

  method WriteOp(op: Op, w: Writer)
    modifies w
    ensures w.buf == old(w.buf) + OpBytes(op)
  {
    hide Blob, Varint.Encode;
    match op
    case Put(id, vector, metadata, content) =>
      w.PutBlob(id);
      w.PutBlob(vector);
      w.PutBlob(metadata);
      match content {
        case None => w.Raw([0]);
        case Some(c) =>
          w.Raw([1]);
          w.PutBlob(c);
      }
    case Delete(id) => w.PutBlob(id);
    case Commit(n) => w.PutVarint(n);
  }

  method DecodeAt(bytes: seq<Byte>) returns (r: Result<(Frame, nat), FormatError>)
    ensures r == DecodeFrame(bytes)
  {
    hide DecodeBody, Crc32c.Checksum, At;
    var rd := new Reader(bytes);
    var len :- rd.Uint(4);
    var crc :- rd.Uint(4);
    if len > MAX_BODY {
      return Err(LengthExceedsInput);
    }
    var body :- rd.Take(len);
    var computed := Crc32c.Crc(body);
    if computed != crc {
      return Err(ChecksumMismatch);
    }
    var f :- TakeBody(body);
    r := Ok((f, FRAME_HEADER + len));
  }

  method TakeBody(body: seq<Byte>) returns (r: Result<Frame, FormatError>)
    ensures r == DecodeBody(body)
  {
    hide ReadOp, ReadVarint, At;
    var b := new Reader(body);
    var sequence :- b.TakeVarint();
    var txn :- b.TakeVarint();
    var code :- b.Uint(1);
    var op :- TakeOp(b, code);
    r := if b.pos == |body| then Ok(Frame(sequence, txn, op)) else Err(Malformed);
  }

  method TakeOp(b: Reader, code: nat) returns (r: Result<Op, FormatError>)
    requires b.Valid()
    modifies b
    ensures b.Valid() && Agrees(ReadOp(b.buf, old(b.pos), code), r, b.pos)
  {
    hide ReadBlob, ReadVarint, At;
    if code == 1 {
      var id :- b.TakeBlob();
      var vector :- b.TakeBlob();
      var metadata :- b.TakeBlob();
      var flag :- b.Uint(1);
      if flag == 0 {
        r := Ok(Put(id, vector, metadata, None));
      } else if flag == 1 {
        var c :- b.TakeBlob();
        r := Ok(Put(id, vector, metadata, Some(c)));
      } else {
        r := Err(Malformed);
      }
    } else if code == 2 {
      var id :- b.TakeBlob();
      r := Ok(Delete(id));
    } else if code == 3 {
      var n :- b.TakeVarint();
      r := Ok(Commit(n));
    } else {
      r := Err(Malformed);
    }
  }

  lemma NothingYet(s: Scan)
    ensures After([], 0, s) == s
  {
  }

  lemma FoundAll(fs: seq<Frame>, n: nat, tail: Tail)
    ensures After(fs, n, Scan([], tail, 0)) == Scan(fs, tail, n)
  {
  }

  /** Read every frame, stopping at the first that does not decode. */
  method ScanAll(bytes: seq<Byte>) returns (s: Scan)
    ensures s == ScanLog(bytes)
  {
    hide DecodeFrame, ScanLog, After;
    var frames, offset := [], 0;
    NothingYet(ScanLog(bytes));
    assert bytes[0..] == bytes;
    while true
      invariant offset <= |bytes|
      invariant ScanLog(bytes) == After(frames, offset, ScanLog(bytes[offset..]))
      decreases |bytes| - offset
    {
      var rest := bytes[offset..];
      ScanStep(rest);
      if rest == [] {
        FoundAll(frames, offset, Clean);
        return Scan(frames, Clean, offset);
      }
      var d := DecodeAt(rest);
      match d
      case Err(Truncated) =>
        FoundAll(frames, offset, Torn);
        return Scan(frames, Torn, offset);
      case Err(e) =>
        FoundAll(frames, offset, Corrupt(e));
        return Scan(frames, Corrupt(e), offset);
      case Ok((f, n)) =>
        assert rest[n..] == bytes[offset + n..];
        AfterAfter(frames, offset, f, n, ScanLog(rest[n..]));
        frames, offset := frames + [f], offset + n;
    }
  }

  /** The frames of standalone operations and of transactions whose commit is present. */
  method CommittedOf(fs: seq<Frame>) returns (kept: seq<Frame>)
    ensures kept == Committed(fs)
  {
    hide Keep, CommittedTxns;
    var txns := CollectTxns(fs);
    kept := [];
    NothingKept(txns);
    for i := 0 to |fs|
      invariant kept == Keep(fs[..i], txns)
    {
      KeepSplit(fs[..i], [fs[i]], txns);
      KeepOne(fs[i], txns);
      assert fs[..i + 1] == fs[..i] + [fs[i]];
      if !fs[i].op.Commit? && (fs[i].txn == 0 || fs[i].txn in txns) {
        kept := kept + [fs[i]];
      }
    }
    assert fs[..|fs|] == fs;
  }

  method CollectTxns(fs: seq<Frame>) returns (txns: seq<nat>)
    ensures txns == CommittedTxns(fs)
  {
    hide CommittedTxns;
    txns := [];
    NothingKept(txns);
    for i := 0 to |fs|
      invariant txns == CommittedTxns(fs[..i])
    {
      TxnsSplit(fs[..i], [fs[i]]);
      TxnsOne(fs[i]);
      assert fs[..i + 1] == fs[..i] + [fs[i]];
      if fs[i].op.Commit? {
        txns := txns + [fs[i].txn];
      }
    }
    assert fs[..|fs|] == fs;
  }
}
