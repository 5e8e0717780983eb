/** Write-ahead log frames and the scan that reads them back (wal.rs). */
module Wal {
  import opened Prelude
  import opened Bytes
  import opened Cursor
  import Crc32c
  import BitString
  import Varint

  const MAX_BODY: nat := 64 * 1024 * 1024
  const FRAME_HEADER: nat := 8

  datatype Op =
    | Put(id: seq<Byte>, vector: seq<Byte>, metadata: seq<Byte>, content: Option<seq<Byte>>)
    | Delete(id: seq<Byte>)
    | Commit(opCount: nat)

  /** `txn` zero marks a standalone operation. */
  datatype Frame = Frame(sequence: nat, txn: nat, op: Op)

  // ----- Bytes of a frame -----

  function OpCode(op: Op): Byte {
    match op
    case Put(_, _, _, _) => 1
    case Delete(_) => 2
    case Commit(_) => 3
  }

  function ContentBytes(content: Option<seq<Byte>>): seq<Byte> {
    match content
    case None => [0]
    case Some(c) => [1] + Blob(c)
  }

  function OpBytes(op: Op): seq<Byte> {
    match op
    case Put(id, vector, metadata, content) => Blob(id) + (Blob(vector) + (Blob(metadata) + ContentBytes(content)))
    case Delete(id) => Blob(id)
    case Commit(n) => Varint.Encode(n)
  }

  function BodyBytes(f: Frame): seq<Byte> {
    Varint.Encode(f.sequence) + (Varint.Encode(f.txn) + ([OpCode(f.op)] + OpBytes(f.op)))
  }

  /** Numbers and lengths within 64 bits, as the source's types have them. */
  predicate OpTyped(op: Op) {
    match op
    case Put(id, vector, metadata, content) =>
      |id| < U64 && |vector| < U64 && |metadata| < U64 && (content.Some? ==> |content.value| < U64)
    case Delete(id) => |id| < U64
    case Commit(n) => n < U64
  }

  /** A frame `append_to` accepts. */
  predicate FrameOk(f: Frame) {
    f.sequence < U64 && f.txn < U64 && OpTyped(f.op) && |BodyBytes(f)| <= MAX_BODY
  }

  function FrameBytes(f: Frame): (r: seq<Byte>)
    ensures |r| == FRAME_HEADER + |BodyBytes(f)|
  {
    var body := BodyBytes(f);
    Le(|body|, 4) + (Le(Crc32c.Checksum(body), 4) + body)
  }

  function AllBytes(fs: seq<Frame>): seq<Byte> {
    if fs == [] then [] else FrameBytes(fs[0]) + AllBytes(fs[1..])
  }

  // ----- Decoding -----

  function ReadContent(b: seq<Byte>, at: nat): Read<Option<seq<Byte>>> {
    var (flag, p) :- ReadUint(b, at, 1);
    if flag == 0 then Ok((None, p))
    else if flag == 1 then
      var (c, q) :- ReadBlob(b, p);
      Ok((Some(c), q))
    else Err(Malformed)
  }

  function ReadOp(b: seq<Byte>, at: nat, code: nat): Read<Op> {
    if code == 1 then
      var (id, p) :- ReadBlob(b, at);
      var (vector, q) :- ReadBlob(b, p);
      var (metadata, r) :- ReadBlob(b, q);
      var (content, end) :- ReadContent(b, r);
      Ok((Put(id, vector, metadata, content), end))
    else if code == 2 then
      var (id, end) :- ReadBlob(b, at);
      Ok((Delete(id), end))
    else if code == 3 then
      var (n, end) :- ReadVarint(b, at);
      Ok((Commit(n), end))
    else Err(Malformed)
  }

  function DecodeBody(b: seq<Byte>): Result<Frame, FormatError> {
    var (sequence, p) :- ReadVarint(b, 0);
    var (txn, q) :- ReadVarint(b, p);
    var (code, r) :- ReadUint(b, q, 1);
    var (op, end) :- ReadOp(b, r, code);
    if end == |b| then Ok(Frame(sequence, txn, op)) else Err(Malformed)
  }

  /** One frame off the front of `b`, and its length. */
  function DecodeFrame(b: seq<Byte>): Result<(Frame, nat), FormatError> {
    var (len, _) :- ReadUint(b, 0, 4);
    var (crc, _) :- ReadUint(b, 4, 4);
    if len > MAX_BODY then Err(LengthExceedsInput)
    else
      var (body, end) :- ReadBytes(b, FRAME_HEADER, len);
      if Crc32c.Checksum(body) != crc then Err(ChecksumMismatch)
      else
        var f :- DecodeBody(body);
        Ok((f, end))
  }

  // ----- A body decodes exactly when it is one -----

  lemma ContentExactly(b: seq<Byte>, at: nat, c: Option<seq<Byte>>, end: nat)
    ensures ReadContent(b, at) == Ok((c, end)) <==>
      (c.Some? ==> |c.value| < U64) && Holds(b, at, ContentBytes(c)) && end == at + |ContentBytes(c)|
  {
    hide Holds, ReadUint, ReadBlob, Blob;
    if ReadContent(b, at) == Ok((c, end)) {
      OneByte(b, at);
    }
    match c
    case None =>
      ByteExactly(b, at, 0, []);
      HoldsMeans(b, at + 1, []);
      HoldsMeans(b, at, [0]);
    case Some(s) =>
      ByteExactly(b, at, 1, Blob(s));
      BlobExactly(b, at + 1, s, end);
      if ReadContent(b, at) == Ok((c, end)) {
        var (x, q) := ReadBlob(b, at + 1).value;
        assert x == s && q == end;
      }
  }

  lemma PutExactly(b: seq<Byte>, at: nat, op: Op, end: nat)
    requires op.Put?
    ensures ReadOp(b, at, 1) == Ok((op, end)) <==> OpTyped(op) && Holds(b, at, OpBytes(op)) && end == at + |OpBytes(op)|
  {
    hide Holds, ReadBlob, Blob, ReadContent, ContentBytes;
    var c := ContentBytes(op.content);
    var m := Blob(op.metadata) + c;
    var v := Blob(op.vector) + m;
    HoldsParts(b, at, Blob(op.id), v);
    var p := at + |Blob(op.id)|;
    HoldsParts(b, p, Blob(op.vector), m);
    var q := p + |Blob(op.vector)|;
    HoldsParts(b, q, Blob(op.metadata), c);
    var r := q + |Blob(op.metadata)|;
    BlobExactly(b, at, op.id, p);
    BlobExactly(b, p, op.vector, q);
    BlobExactly(b, q, op.metadata, r);
    ContentExactly(b, r, op.content, end);
    if ReadOp(b, at, 1) == Ok((op, end)) {
      var (id, p') := ReadBlob(b, at).value;
      BlobExactly(b, at, id, p');
      var (vector, q') := ReadBlob(b, p').value;
      BlobExactly(b, p', vector, q');
      var (metadata, r') := ReadBlob(b, q').value;
      BlobExactly(b, q', metadata, r');
      var (content, e) := ReadContent(b, r').value;
      ContentExactly(b, r', content, e);
      assert id == op.id && vector == op.vector && metadata == op.metadata && content == op.content;
    }
    if OpTyped(op) && Holds(b, at, OpBytes(op)) && end == at + |OpBytes(op)| {
      assert ReadBlob(b, at) == Ok((op.id, p));
      assert ReadBlob(b, p) == Ok((op.vector, q));
      assert ReadBlob(b, q) == Ok((op.metadata, r));
      assert ReadContent(b, r) == Ok((op.content, end));
    }
  }

  lemma OpExactly(b: seq<Byte>, at: nat, op: Op, end: nat)
    ensures ReadOp(b, at, OpCode(op)) == Ok((op, end)) <==> OpTyped(op) && Holds(b, at, OpBytes(op)) && end == at + |OpBytes(op)|
  {
    match op
    case Put(_, _, _, _) => PutExactly(b, at, op, end);
    case Delete(id) =>
      hide Holds, ReadBlob, Blob;
      BlobExactly(b, at, id, end);
    case Commit(n) =>
      hide Holds, ReadVarint, Varint.Encode;
      VarintExactly(b, at, n, end);
  }

  lemma CodeOf(b: seq<Byte>, at: nat, code: nat)
    requires ReadOp(b, at, code).Ok?
    ensures code == OpCode(ReadOp(b, at, code).value.0)
  {
  }

  lemma BodyExactly(b: seq<Byte>, f: Frame)
    ensures DecodeBody(b) == Ok(f) <==> f.sequence < U64 && f.txn < U64 && OpTyped(f.op) && b == BodyBytes(f)
  {
    hide Holds, ReadVarint, ReadUint, ReadOp, Varint.Encode, OpBytes, OpTyped;
    var s, t, o := Varint.Encode(f.sequence), Varint.Encode(f.txn), [OpCode(f.op)] + OpBytes(f.op);
    var body := BodyBytes(f);
    var p, q := |s|, |s| + |t|;
    HoldsParts(b, 0, s, t + o);
    HoldsParts(b, p, t, o);
    VarintExactly(b, 0, f.sequence, p);
    VarintExactly(b, p, f.txn, q);
    ByteExactly(b, q, OpCode(f.op), OpBytes(f.op));
    OpExactly(b, q + 1, f.op, |b|);
    if DecodeBody(b) == Ok(f) {
      var (x, p') := ReadVarint(b, 0).value;
      VarintExactly(b, 0, x, p');
      var (y, q') := ReadVarint(b, p').value;
      VarintExactly(b, p', y, q');
      OneByte(b, q');
      CodeOf(b, q' + 1, ReadUint(b, q', 1).value.0);
      HoldsMeans(b, 0, body);
      assert b == body;
    }
    if b == body {
      WholeHolds(b);
    }
  }

  /** A frame decodes off the front exactly when the front is that frame's bytes. */
  lemma FrameExactly(b: seq<Byte>, f: Frame, n: nat)
    ensures DecodeFrame(b) == Ok((f, n)) <==> FrameOk(f) && n == |FrameBytes(f)| && Holds(b, 0, FrameBytes(f))
  {
    hide Holds, ReadUint, ReadBytes, DecodeBody, BodyBytes, Crc32c.Checksum, Le, Pow256, OpTyped;
    Powers();
    if DecodeFrame(b) == Ok((f, n)) {
      FrameSound(b);
    }
    if FrameOk(f) && n == |FrameBytes(f)| && Holds(b, 0, FrameBytes(f)) {
      FrameComplete(b, f);
    }
  }

  lemma FrameSound(b: seq<Byte>)
    requires DecodeFrame(b).Ok?
    ensures var (f, n) := DecodeFrame(b).value; FrameOk(f) && n == |FrameBytes(f)| && Holds(b, 0, FrameBytes(f))
  {
    hide Holds, ReadUint, DecodeBody, BodyBytes, Crc32c.Checksum, Le, Pow256, OpTyped;
    Powers();
    var (f, n) := DecodeFrame(b).value;
    var (len, p) := ReadUint(b, 0, 4).value;
    var (crc, q) := ReadUint(b, 4, 4).value;
    UintExactly(b, 0, 4, len, p);
    UintExactly(b, 4, 4, crc, q);
    var body := ReadBytes(b, FRAME_HEADER, len).value.0;
    BodyExactly(body, f);
    HoldsMeans(b, FRAME_HEADER, body);
    HoldsParts(b, 4, Le(crc, 4), body);
    HoldsParts(b, 0, Le(len, 4), Le(crc, 4) + body);
  }

  lemma FrameComplete(b: seq<Byte>, f: Frame)
    requires FrameOk(f) && Holds(b, 0, FrameBytes(f))
    ensures DecodeFrame(b) == Ok((f, |FrameBytes(f)|))
  {
    hide Holds, ReadUint, DecodeBody, BodyBytes, Crc32c.Checksum, Le, Pow256, OpTyped;
    Powers();
    var body := BodyBytes(f);
    var crc := Crc32c.Checksum(body);
    Crc32c.ChecksumFits(body);
    HoldsParts(b, 0, Le(|body|, 4), Le(crc, 4) + body);
    HoldsParts(b, 4, Le(crc, 4), body);
    UintExactly(b, 0, 4, |body|, 4);
    UintExactly(b, 4, 4, crc, 8);
    HoldsMeans(b, FRAME_HEADER, body);
    BodyExactly(body, f);
  }

  /** Any strict prefix of a frame reads as cut short. */
  lemma CutFrame(b: seq<Byte>, f: Frame)
    requires FrameOk(f) && |b| < |FrameBytes(f)| && b == FrameBytes(f)[..|b|]
    ensures DecodeFrame(b) == Err(Truncated)
  {
    hide DecodeBody, BodyBytes, Crc32c.Checksum, Le, Pow256, OpTyped, Holds, FromLe;
    Powers();
    var whole := FrameBytes(f);
    WholeHolds(whole);
    FrameComplete(whole, f);
    var body := BodyBytes(f);
    UintExactly(whole, 0, 4, |body|, 4);
    HoldsParts(whole, 0, Le(|body|, 4), Le(Crc32c.Checksum(body), 4) + body);
    if |b| >= 8 {
      assert b[0..4] == whole[0..4] && b[4..8] == whole[4..8];
    }
  }

  // ----- Scanning -----

  datatype Tail = Clean | Torn | Corrupt(reason: FormatError)

  /** `valid` is where the readable frames end; a torn or corrupt frame begins there. */
  datatype Scan = Scan(frames: seq<Frame>, tail: Tail, valid: nat)

  /** What a scan finds once `fs` have been read off the front. */
  function After(fs: seq<Frame>, n: nat, s: Scan): Scan {
    Scan(fs + s.frames, s.tail, n + s.valid)
  }

  function ScanLog(b: seq<Byte>): Scan
    decreases |b|
  {
    if b == [] then Scan([], Clean, 0)
    else
      match DecodeFrame(b)
      case Err(Truncated) => Scan([], Torn, 0)
      case Err(e) => Scan([], Corrupt(e), 0)
      case Ok((f, n)) =>
        FrameFits(b);
        After([f], n, ScanLog(b[n..]))
  }

  /** One frame further. */
  lemma AfterAfter(fs: seq<Frame>, n: nat, f: Frame, m: nat, s: Scan)
    ensures After(fs, n, After([f], m, s)) == After(fs + [f], n + m, s)
  {
    Associate(fs, [f], s.frames);
  }

  lemma ScanStep(b: seq<Byte>)
    ensures b == [] ==> ScanLog(b) == Scan([], Clean, 0)
    ensures b != [] && DecodeFrame(b).Err? ==>
      ScanLog(b) == Scan([], if DecodeFrame(b).error == Truncated then Torn else Corrupt(DecodeFrame(b).error), 0)
    ensures b != [] && DecodeFrame(b).Ok? ==>
      (var (f, n) := DecodeFrame(b).value; 0 < n <= |b| && ScanLog(b) == After([f], n, ScanLog(b[n..])))
  {
    hide DecodeFrame;
    if DecodeFrame(b).Ok? {
      FrameFits(b);
    }
  }

  lemma FrameFits(b: seq<Byte>)
    requires DecodeFrame(b).Ok?
    ensures var (f, n) := DecodeFrame(b).value; 0 < n <= |b| && FrameOk(f) && b[..n] == FrameBytes(f)
  {
    hide DecodeFrame, FrameOk, BodyBytes;
    var (f, n) := DecodeFrame(b).value;
    FrameSound(b);
    HoldsMeans(b, 0, FrameBytes(f));
    assert b[0..n] == b[..n];
  }

  ghost predicate FramesOk(fs: seq<Frame>) {
    forall i :: 0 <= i < |fs| ==> FrameOk(fs[i])
  }

  lemma Join(b: seq<Byte>, n: nat, m: nat)
    requires n + m <= |b|
    ensures b[..n] + b[n..][..m] == b[..n + m]
  {
  }

  lemma AllBytesCons(f: Frame, fs: seq<Frame>)
    ensures AllBytes([f] + fs) == FrameBytes(f) + AllBytes(fs)
  {
    hide FrameBytes;
    assert ([f] + fs)[1..] == fs;
  }

  lemma {:induction false} ScanSound(b: seq<Byte>)
    ensures var s := ScanLog(b);
      && s.valid <= |b| && FramesOk(s.frames) && AllBytes(s.frames) == b[..s.valid]
      && (s.tail == Clean <==> s.valid == |b|)
    decreases |b|
  {
    hide DecodeFrame, FrameOk, FrameBytes;
    if b != [] && DecodeFrame(b).Ok? {
      hide AllBytes;
      var (f, n) := DecodeFrame(b).value;
      FrameFits(b);
      ScanSound(b[n..]);
      var r := ScanLog(b[n..]);
      AllBytesCons(f, r.frames);
      Join(b, n, r.valid);
    }
  }

  lemma ScanOne(f: Frame, rest: seq<Byte>)
    requires FrameOk(f)
    ensures ScanLog(FrameBytes(f) + rest) == After([f], |FrameBytes(f)|, ScanLog(rest))
  {
    hide DecodeFrame, FrameOk, BodyBytes, Holds;
    var one := FrameBytes(f);
    var b := one + rest;
    assert b[0..|one|] == one && b[|one|..] == rest;
    HoldsMeans(b, 0, one);
    FrameComplete(b, f);
  }

  /** Scanning whole frames and then whatever follows them. */
  lemma {:induction false} ScanFrames(fs: seq<Frame>, rest: seq<Byte>)
    requires FramesOk(fs)
    ensures ScanLog(AllBytes(fs) + rest) == After(fs, |AllBytes(fs)|, ScanLog(rest))
    decreases |fs|
  {
    hide FrameOk, FrameBytes, ScanLog;
    if fs == [] {
      assert AllBytes(fs) + rest == rest;
    } else {
      hide AllBytes;
      var f, more := fs[0], AllBytes(fs[1..]);
      assert fs == [f] + fs[1..];
      ScanFrames(fs[1..], rest);
      ScanOne(f, more + rest);
      AllBytesCons(f, fs[1..]);
      Associate(FrameBytes(f), more, rest);
      Associate([f], fs[1..], ScanLog(rest).frames);
    }
  }

  /**
    For any bytes at all: the frames returned encode to exactly the valid prefix, and
    scanning that prefix again is clean and returns the same frames.
  */
  lemma ScanIsExact(b: seq<Byte>)
    ensures var s := ScanLog(b);
      && s.valid <= |b| && AllBytes(s.frames) == b[..s.valid] && FramesOk(s.frames)
      && (s.tail == Clean <==> s.valid == |b|)
      && ScanLog(b[..s.valid]) == Scan(s.frames, Clean, s.valid)
  {
    hide AllBytes;
    ScanSound(b);
    WholeLog(ScanLog(b).frames);
  }

  /** A log of whole frames scans clean, to those frames. */
  lemma WholeLog(fs: seq<Frame>)
    requires FramesOk(fs)
    ensures ScanLog(AllBytes(fs)) == Scan(fs, Clean, |AllBytes(fs)|)
  {
    hide AllBytes, FrameOk;
    ScanFrames(fs, []);
    assert AllBytes(fs) + [] == AllBytes(fs);
  }

  /** How many of `fs` lie wholly within their first `k` bytes. */
  function Whole(fs: seq<Frame>, k: nat): (m: nat)
    ensures m <= |fs|
  {
    if fs == [] || k < |FrameBytes(fs[0])| then 0 else 1 + Whole(fs[1..], k - |FrameBytes(fs[0])|)
  }

  /** A log of whole frames, cut anywhere, keeps exactly the frames still whole and is never corrupt. */
  lemma CutLog(fs: seq<Frame>, k: nat)
    requires FramesOk(fs) && k <= |AllBytes(fs)|
    ensures var m := Whole(fs, k); var s := ScanLog(AllBytes(fs)[..k]);
      && |AllBytes(fs[..m])| <= k && (m < |fs| ==> k < |AllBytes(fs[..m + 1])|)
      && s.frames == fs[..m] && s.valid == |AllBytes(fs[..m])|
      && s.tail == if k == |AllBytes(fs[..m])| then Clean else Torn
  {
    hide FrameOk, AllBytes, DecodeFrame, FrameBytes, Whole;
    var rest := Cut(fs, k);
    ScanFrames(fs[..Whole(fs, k)], rest);
  }

  lemma AllBytesPrefix(fs: seq<Frame>, m: nat)
    requires 0 < m <= |fs|
    ensures AllBytes(fs[..m]) == FrameBytes(fs[0]) + AllBytes(fs[1..][..m - 1])
  {
    assert fs[..m][1..] == fs[1..][..m - 1];
  }

  /** Where a cut falls: whole frames, then a strict prefix of the next. */
  lemma {:induction false} Cut(fs: seq<Frame>, k: nat) returns (rest: seq<Byte>)
    requires FramesOk(fs) && k <= |AllBytes(fs)|
    ensures var m := Whole(fs, k);
      && AllBytes(fs)[..k] == AllBytes(fs[..m]) + rest && FramesOk(fs[..m])
      && |AllBytes(fs[..m])| <= k && (m < |fs| ==> k < |AllBytes(fs[..m + 1])|)
      && (rest == [] || DecodeFrame(rest) == Err(Truncated))
    decreases |fs|
  {
    hide FrameOk, FrameBytes, DecodeFrame;
    hide AllBytes;
    if fs == [] {
      NoBytes();
      return [];
    }
    if k < |FrameBytes(fs[0])| {
      rest := FrameBytes(fs[0])[..k];
      CutFirst(fs, k);
    } else {
      var j := Whole(fs[1..], k - |FrameBytes(fs[0])|);
      CutSum(fs, k);
      rest := Cut(fs[1..], k - |FrameBytes(fs[0])|);
      AllBytesPrefix(fs, j + 1);
      if j + 1 < |fs| {
        AllBytesPrefix(fs, j + 2);
      }
      Associate(FrameBytes(fs[0]), AllBytes(fs[1..][..j]), rest);
    }
  }

  lemma CutFirst(fs: seq<Frame>, k: nat)
    requires fs != [] && FrameOk(fs[0]) && k < |FrameBytes(fs[0])|
    ensures AllBytes(fs)[..k] == AllBytes(fs[..0]) + FrameBytes(fs[0])[..k] && k < |AllBytes(fs[..1])|
    ensures k > 0 ==> DecodeFrame(FrameBytes(fs[0])[..k]) == Err(Truncated)
  {
    hide FrameBytes, FrameOk, DecodeFrame, AllBytes;
    var one, more := FrameBytes(fs[0]), AllBytes(fs[1..]);
    assert fs == [fs[0]] + fs[1..] && fs[..1] == [fs[0]] + [] && fs[..0] == [];
    AllBytesCons(fs[0], fs[1..]);
    AllBytesCons(fs[0], []);
    PrefixOfSum(one, more, k);
    assert AllBytes([]) == [] by { NoBytes(); }
    CutFrame(one[..k], fs[0]);
  }

  lemma PrefixOfSum(p: seq<Byte>, q: seq<Byte>, k: nat)
    requires k <= |p|
    ensures (p + q)[..k] == p[..k] == [] + p[..k]
  {
  }

  lemma NoBytes()
    ensures AllBytes([]) == []
  {
  }

  lemma CutSum(fs: seq<Frame>, k: nat)
    requires fs != [] && |FrameBytes(fs[0])| <= k <= |AllBytes(fs)|
    ensures k - |FrameBytes(fs[0])| <= |AllBytes(fs[1..])|
    ensures AllBytes(fs)[..k] == FrameBytes(fs[0]) + AllBytes(fs[1..])[..k - |FrameBytes(fs[0])|]
  {
    hide FrameBytes;
  }

  /** A frame wholly present with a matching checksum can still be called torn: eight zero bytes are. */
  lemma ZeroesReadAsTorn()
    ensures ScanLog([0, 0, 0, 0, 0, 0, 0, 0]) == Scan([], Torn, 0)
  {
    var b: seq<Byte> := [0, 0, 0, 0, 0, 0, 0, 0];
    var z: seq<Byte> := [0, 0, 0, 0];
    assert b[0..4] == z && b[4..8] == z;
    assert FromLe(z) == 0 by {
      assert z[1..] == [0, 0, 0];
      assert z[1..][1..] == [0, 0];
      assert z[1..][1..][1..] == [0];
    }
    EmptyChecksum();
    assert b[8..8] == [];
    assert DecodeBody([]) == Err(Truncated);
    assert DecodeFrame(b) == Err(Truncated);
  }

  lemma EmptyChecksum()
    ensures Crc32c.Checksum([]) == 0
  {
    assert Crc32c.Reference([]) == Crc32c.ZERO;
    AllZero(32);
  }

  lemma {:induction false} AllZero(k: nat)
    ensures BitString.FromBits(BitString.Off(k)) == 0
  {
    if k > 0 {
      AllZero(k - 1);
      assert BitString.Off(k)[1..] == BitString.Off(k - 1);
    }
  }

  // ----- Committed work -----

  function CommittedTxns(fs: seq<Frame>): seq<nat> {
    if fs == [] then []
    else (if fs[0].op.Commit? then [fs[0].txn] else []) + CommittedTxns(fs[1..])
  }

  function Keep(fs: seq<Frame>, txns: seq<nat>): seq<Frame> {
    if fs == [] then []
    else (if !fs[0].op.Commit? && (fs[0].txn == 0 || fs[0].txn in txns) then [fs[0]] else []) + Keep(fs[1..], txns)
  }

  /** Operations to replay. */
  function Committed(fs: seq<Frame>): seq<Frame> {
    Keep(fs, CommittedTxns(fs))
  }

  lemma NothingKept(txns: seq<nat>)
    ensures Keep([], txns) == [] && CommittedTxns([]) == []
  {
  }

  lemma TxnsOne(f: Frame)
    ensures CommittedTxns([f]) == if f.op.Commit? then [f.txn] else []
  {
    assert [f][1..] == [];
  }

  lemma KeepOne(f: Frame, txns: seq<nat>)
    ensures Keep([f], txns) == if !f.op.Commit? && (f.txn == 0 || f.txn in txns) then [f] else []
  {
    assert [f][1..] == [];
  }

  lemma TxnsCons(f: Frame, fs: seq<Frame>)
    ensures CommittedTxns([f] + fs) == CommittedTxns([f]) + CommittedTxns(fs)
  {
    TxnsOne(f);
    assert ([f] + fs)[1..] == fs;
  }

  lemma KeepCons(f: Frame, fs: seq<Frame>, txns: seq<nat>)
    ensures Keep([f] + fs, txns) == Keep([f], txns) + Keep(fs, txns)
  {
    KeepOne(f, txns);
    assert ([f] + fs)[1..] == fs;
  }

  lemma {:induction false} TxnsSplit(a: seq<Frame>, b: seq<Frame>)
    ensures CommittedTxns(a + b) == CommittedTxns(a) + CommittedTxns(b)
  {
    if a == [] {
      assert a + b == b;
    } else {
      hide CommittedTxns;
      Rest(a, b);
      TxnsSplit(a[1..], b);
      TxnsCons(a[0], a[1..] + b);
      TxnsCons(a[0], a[1..]);
      Associate(CommittedTxns([a[0]]), CommittedTxns(a[1..]), CommittedTxns(b));
    }
  }

  lemma {:induction false} KeepSplit(a: seq<Frame>, b: seq<Frame>, txns: seq<nat>)
    ensures Keep(a + b, txns) == Keep(a, txns) + Keep(b, txns)
  {
    if a == [] {
      assert a + b == b;
    } else {
      hide Keep;
      Rest(a, b);
      KeepSplit(a[1..], b, txns);
      KeepCons(a[0], a[1..] + b, txns);
      KeepCons(a[0], a[1..], txns);
      Associate(Keep([a[0]], txns), Keep(a[1..], txns), Keep(b, txns));
    }
  }

  lemma {:induction false} BytesSplit(a: seq<Frame>, b: seq<Frame>)
    ensures AllBytes(a + b) == AllBytes(a) + AllBytes(b)
  {
    if a == [] {
      assert a + b == b;
    } else {
      hide AllBytes, FrameBytes;
      Rest(a, b);
      BytesSplit(a[1..], b);
      AllBytesCons(a[0], a[1..] + b);
      AllBytesCons(a[0], a[1..]);
      Associate(FrameBytes(a[0]), AllBytes(a[1..]), AllBytes(b));
    }
  }
}
