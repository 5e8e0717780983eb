/**
  Exactly when a scan calls the end of a log torn.  A frame that is wholly present, its
  checksum matching, is called torn too when its body ends where a number or a code byte
  is due.
*/
module WalTorn {
  import opened Prelude
  import opened Bytes
  import opened Cursor
  import opened Wal
  import Crc32c
  import Varint

  // ----- A body as the pieces a reader takes -----

  datatype Piece = Number(v: nat) | Code(x: Byte) | Contents(s: seq<Byte>)

  function BlobPieces(s: seq<Byte>, more: seq<Piece>): seq<Piece> {
    [Number(|s|)] + ([Contents(s)] + more)
  }

  function ContentPieces(content: Option<seq<Byte>>): seq<Piece> {
    match content
    case None => [Code(0)]
    case Some(c) => [Code(1)] + BlobPieces(c, [])
  }

  function OpPieces(op: Op): seq<Piece> {
    match op
    case Put(id, vector, metadata, content) =>
      BlobPieces(id, BlobPieces(vector, BlobPieces(metadata, ContentPieces(content))))
    case Delete(id) => BlobPieces(id, [])
    case Commit(n) => [Number(n)]
  }

  function Pieces(f: Frame): seq<Piece> {
    [Number(f.sequence)] + ([Number(f.txn)] + ([Code(OpCode(f.op))] + OpPieces(f.op)))
  }

  function PieceBytes(p: Piece): seq<Byte> {
    match p
    case Number(v) => Varint.Encode(v)
    case Code(x) => [x]
    case Contents(s) => s
  }

  ghost predicate BodyTyped(f: Frame) {
    f.sequence < U64 && f.txn < U64 && OpTyped(f.op)
  }

  /**
    `s` is the first of the pieces, whole, and then ends where a number or a code byte is
    due: within the number, or before the byte.  Ending within contents does not qualify.
  */
  ghost predicate EndsAtHead(s: seq<Byte>, ps: seq<Piece>)
    decreases |ps|
  {
    ps != []
    && ((ps[0].Number? && Varint.Unended(s))
        || (ps[0].Code? && s == [])
        || (PieceBytes(ps[0]) <= s && EndsAtHead(s[|PieceBytes(ps[0])|..], ps[1..])))
  }

  lemma HeadCons(s: seq<Byte>, p: Piece, ps: seq<Piece>)
    ensures EndsAtHead(s, [p] + ps) <==>
      || (p.Number? && Varint.Unended(s)) || (p.Code? && s == [])
      || (PieceBytes(p) <= s && EndsAtHead(s[|PieceBytes(p)|..], ps))
  {
    hide PieceBytes, Varint.Unended;
    assert ([p] + ps)[1..] == ps;
  }

  // ----- One read, forwards and backwards -----

  lemma RestAfter(b: seq<Byte>, at: nat, piece: seq<Byte>)
    requires at <= |b|
    ensures piece <= b[at..] <==> Holds(b, at, piece)
    ensures piece <= b[at..] ==> b[at..][|piece|..] == b[at + |piece|..]
  {
    if piece <= b[at..] {
      assert b[at..at + |piece|] == b[at..][..|piece|];
    }
    if Holds(b, at, piece) {
      assert b[at..][..|piece|] == b[at..at + |piece|];
    }
  }

  lemma NumberTorn(b: seq<Byte>, at: nat)
    requires at <= |b|
    ensures ReadVarint(b, at) == Err(Truncated) <==> Varint.Unended(b[at..])
  {
    hide Varint.Decode, Varint.Unended;
    Varint.TruncatedExactly(b[at..]);
  }

  lemma NumberStep(b: seq<Byte>, at: nat, v: nat, ps: seq<Piece>)
    requires at <= |b| && v < U64
    ensures EndsAtHead(b[at..], [Number(v)] + ps) ==>
      || ReadVarint(b, at) == Err(Truncated)
      || (var p := at + |Varint.Encode(v)|; ReadVarint(b, at) == Ok((v, p)) && p <= |b| && EndsAtHead(b[p..], ps))
  {
    hide ReadVarint, Varint.Encode, Varint.Unended, EndsAtHead, Holds;
    var e := Varint.Encode(v);
    HeadCons(b[at..], Number(v), ps);
    NumberTorn(b, at);
    RestAfter(b, at, e);
    VarintExactly(b, at, v, at + |e|);
    HoldsMeans(b, at, e);
  }

  lemma NumberBack(b: seq<Byte>, at: nat, ps: seq<Piece>)
    requires at <= |b| && ReadVarint(b, at).Ok?
    ensures var (v, p) := ReadVarint(b, at).value;
      v < U64 && p <= |b| && (EndsAtHead(b[p..], ps) ==> EndsAtHead(b[at..], [Number(v)] + ps))
  {
    hide ReadVarint, Varint.Encode, Varint.Unended, EndsAtHead, Holds;
    var (v, p) := ReadVarint(b, at).value;
    var e := Varint.Encode(v);
    VarintExactly(b, at, v, p);
    HoldsMeans(b, at, e);
    RestAfter(b, at, e);
    HeadCons(b[at..], Number(v), ps);
  }

  lemma CodeStep(b: seq<Byte>, at: nat, x: Byte, ps: seq<Piece>)
    requires at <= |b|
    ensures EndsAtHead(b[at..], [Code(x)] + ps) ==>
      || ReadUint(b, at, 1) == Err(Truncated)
      || (ReadUint(b, at, 1) == Ok((x, at + 1)) && at + 1 <= |b| && EndsAtHead(b[at + 1..], ps))
  {
    hide EndsAtHead, Holds;
    HeadCons(b[at..], Code(x), ps);
    RestAfter(b, at, [x]);
    ByteExactly(b, at, x, []);
    HoldsMeans(b, at, [x]);
  }

  lemma CodeBack(b: seq<Byte>, at: nat, ps: seq<Piece>)
    requires at <= |b| && ReadUint(b, at, 1).Ok?
    ensures var (x, p) := ReadUint(b, at, 1).value;
      x < 256 && p == at + 1 <= |b| && (EndsAtHead(b[p..], ps) ==> EndsAtHead(b[at..], [Code(x)] + ps))
  {
    OneByte(b, at);
    hide EndsAtHead, Holds, ReadUint;
    var (x, p) := ReadUint(b, at, 1).value;
    ByteExactly(b, at, x, []);
    HoldsMeans(b, at, [x]);
    RestAfter(b, at, [x]);
    HeadCons(b[at..], Code(x), ps);
  }

  lemma BlobStep(b: seq<Byte>, at: nat, s: seq<Byte>, ps: seq<Piece>)
    requires at <= |b| && |s| < U64
    ensures EndsAtHead(b[at..], BlobPieces(s, ps)) ==>
      || ReadBlob(b, at) == Err(Truncated)
      || (var p := at + |Blob(s)|; ReadBlob(b, at) == Ok((s, p)) && p <= |b| && EndsAtHead(b[p..], ps))
  {
    hide ReadVarint, Varint.Encode, Varint.Unended, EndsAtHead, Holds;
    if EndsAtHead(b[at..], BlobPieces(s, ps)) {
      NumberStep(b, at, |s|, [Contents(s)] + ps);
      if ReadVarint(b, at).Ok? {
        var p := at + |Varint.Encode(|s|)|;
        HeadCons(b[p..], Contents(s), ps);
        RestAfter(b, p, s);
        HoldsMeans(b, p, s);
      }
    }
  }

  lemma BlobBack(b: seq<Byte>, at: nat, ps: seq<Piece>)
    requires at <= |b| && ReadBlob(b, at).Ok?
    ensures var (s, p) := ReadBlob(b, at).value;
      |s| < U64 && p <= |b| && (EndsAtHead(b[p..], ps) ==> EndsAtHead(b[at..], BlobPieces(s, ps)))
  {
    hide ReadVarint, Varint.Encode, Varint.Unended, EndsAtHead, Holds;
    var (s, p) := ReadBlob(b, at).value;
    var (len, q) := ReadVarint(b, at).value;
    NumberBack(b, at, [Contents(s)] + ps);
    HoldsMeans(b, q, s);
    RestAfter(b, q, s);
    HeadCons(b[q..], Contents(s), ps);
  }

  /** A length that has not ended tears any blob. */
  lemma BlobTorn(b: seq<Byte>, at: nat, s: seq<Byte>, ps: seq<Piece>)
    requires at <= |b| && ReadBlob(b, at) == Err(Truncated)
    ensures EndsAtHead(b[at..], BlobPieces(s, ps))
  {
    hide ReadVarint, Varint.Encode, Varint.Unended, EndsAtHead;
    NumberTorn(b, at);
    HeadCons(b[at..], Number(|s|), [Contents(s)] + ps);
  }

  lemma CodeTorn(b: seq<Byte>, at: nat, x: Byte, ps: seq<Piece>)
    requires at <= |b| && ReadUint(b, at, 1) == Err(Truncated)
    ensures EndsAtHead(b[at..], [Code(x)] + ps)
  {
    hide EndsAtHead;
    HeadCons(b[at..], Code(x), ps);
  }

  // ----- Content, operation, body -----

  lemma ContentCut(b: seq<Byte>, at: nat, content: Option<seq<Byte>>)
    requires at <= |b| && (content.Some? ==> |content.value| < U64) && EndsAtHead(b[at..], ContentPieces(content))
    ensures ReadContent(b, at) == Err(Truncated)
  {
    hide ReadBlob, ReadUint, Blob;
    match content
    case None =>
      assert [Code(0)] + [] == [Code(0)];
      CodeStep(b, at, 0, []);
    case Some(c) =>
      CodeStep(b, at, 1, BlobPieces(c, []));
      if ReadUint(b, at, 1).Ok? {
        BlobStep(b, at + 1, c, []);
      }
  }

  lemma ContentTorn(b: seq<Byte>, at: nat) returns (content: Option<seq<Byte>>)
    requires at <= |b| && ReadContent(b, at) == Err(Truncated)
    ensures (content.Some? ==> |content.value| < U64) && EndsAtHead(b[at..], ContentPieces(content))
  {
    hide ReadBlob, ReadUint, EndsAtHead;
    content := None;
    if ReadUint(b, at, 1).Err? {
      CodeTorn(b, at, 0, []);
      assert [Code(0)] + [] == [Code(0)];
    } else {
      content := Some([]);
      CodeBack(b, at, BlobPieces([], []));
      BlobTorn(b, at + 1, [], []);
    }
  }

  lemma OpCut(b: seq<Byte>, at: nat, op: Op)
    requires at <= |b| && OpTyped(op) && EndsAtHead(b[at..], OpPieces(op))
    ensures ReadOp(b, at, OpCode(op)) == Err(Truncated)
  {
    hide ReadBlob, ReadVarint, ReadContent, Blob, BlobPieces, EndsAtHead, ContentPieces;
    match op
    case Put(id, vector, metadata, content) =>
      var m := BlobPieces(metadata, ContentPieces(content));
      BlobStep(b, at, id, BlobPieces(vector, m));
      if ReadBlob(b, at).Ok? {
        var p := at + |Blob(id)|;
        BlobStep(b, p, vector, m);
        if ReadBlob(b, p).Ok? {
          var q := p + |Blob(vector)|;
          BlobStep(b, q, metadata, ContentPieces(content));
          if ReadBlob(b, q).Ok? {
            ContentCut(b, q + |Blob(metadata)|, content);
          }
        }
      }
    case Delete(id) =>
      BlobStep(b, at, id, []);
      NothingDue(b, at + |Blob(id)|);
    case Commit(n) =>
      assert [Number(n)] + [] == [Number(n)];
      NumberStep(b, at, n, []);
      NothingDue(b, at + |Varint.Encode(n)|);
  }

  lemma NothingDue(b: seq<Byte>, at: nat)
    ensures at <= |b| ==> !EndsAtHead(b[at..], [])
  {
  }

  lemma PutTorn(b: seq<Byte>, at: nat) returns (op: Op)
    requires at <= |b| && ReadOp(b, at, 1) == Err(Truncated)
    ensures op.Put? && OpTyped(op) && EndsAtHead(b[at..], OpPieces(op))
  {
    hide ReadBlob, ReadContent, BlobPieces, EndsAtHead, ContentPieces;
    op := Put([], [], [], None);
    if ReadBlob(b, at).Err? {
      BlobTorn(b, at, [], BlobPieces([], BlobPieces([], ContentPieces(None))));
      return;
    }
    var (id, p) := ReadBlob(b, at).value;
    op := Put(id, [], [], None);
    BlobBack(b, at, BlobPieces([], BlobPieces([], ContentPieces(None))));
    if ReadBlob(b, p).Err? {
      BlobTorn(b, p, [], BlobPieces([], ContentPieces(None)));
      return;
    }
    var (vector, q) := ReadBlob(b, p).value;
    op := Put(id, vector, [], None);
    BlobBack(b, p, BlobPieces([], ContentPieces(None)));
    BlobBack(b, at, BlobPieces(vector, BlobPieces([], ContentPieces(None))));
    if ReadBlob(b, q).Err? {
      BlobTorn(b, q, [], ContentPieces(None));
      return;
    }
    var (metadata, r) := ReadBlob(b, q).value;
    BlobBack(b, q, []);
    var content := ContentTorn(b, r);
    op := Put(id, vector, metadata, content);
    BlobBack(b, q, ContentPieces(content));
    BlobBack(b, p, BlobPieces(metadata, ContentPieces(content)));
    BlobBack(b, at, BlobPieces(vector, BlobPieces(metadata, ContentPieces(content))));
  }

  lemma OpTorn(b: seq<Byte>, at: nat, code: nat) returns (op: Op)
    requires at <= |b| && ReadOp(b, at, code) == Err(Truncated)
    ensures OpCode(op) == code && OpTyped(op) && EndsAtHead(b[at..], OpPieces(op))
  {
    hide ReadBlob, ReadVarint, ReadContent, EndsAtHead;
    if code == 1 {
      op := PutTorn(b, at);
    } else if code == 2 {
      op := Delete([]);
      BlobTorn(b, at, [], []);
    } else {
      op := Commit(0);
      NumberTorn(b, at);
      HeadCons(b[at..], Number(0), []);
      assert [Number(0)] + [] == [Number(0)];
    }
  }

  lemma BodyCut(b: seq<Byte>, f: Frame)
    requires BodyTyped(f) && EndsAtHead(b, Pieces(f))
    ensures DecodeBody(b) == Err(Truncated)
  {
    hide ReadVarint, ReadUint, ReadOp, EndsAtHead, OpPieces, OpTyped, Varint.Encode;
    assert b[0..] == b;
    var t := [Code(OpCode(f.op))] + OpPieces(f.op);
    NumberStep(b, 0, f.sequence, [Number(f.txn)] + t);
    if ReadVarint(b, 0).Ok? {
      var p := |Varint.Encode(f.sequence)|;
      NumberStep(b, p, f.txn, t);
      if ReadVarint(b, p).Ok? {
        var q := p + |Varint.Encode(f.txn)|;
        CodeStep(b, q, OpCode(f.op), OpPieces(f.op));
        if ReadUint(b, q, 1).Ok? {
          OpCut(b, q + 1, f.op);
        }
      }
    }
  }

  lemma BodyTorn(b: seq<Byte>) returns (f: Frame)
    requires DecodeBody(b) == Err(Truncated)
    ensures BodyTyped(f) && EndsAtHead(b, Pieces(f))
  {
    hide ReadVarint, ReadUint, ReadOp, EndsAtHead, OpPieces, Varint.Encode, Varint.Unended;
    assert b[0..] == b;
    f := Frame(0, 0, Commit(0));
    var c := [Code(3)] + OpPieces(f.op);
    if ReadVarint(b, 0).Err? {
      NumberTorn(b, 0);
      HeadCons(b, Number(0), [Number(0)] + c);
      return;
    }
    var (sequence, p) := ReadVarint(b, 0).value;
    f := Frame(sequence, 0, Commit(0));
    NumberBack(b, 0, [Number(0)] + c);
    if ReadVarint(b, p).Err? {
      NumberTorn(b, p);
      HeadCons(b[p..], Number(0), c);
      return;
    }
    var (txn, q) := ReadVarint(b, p).value;
    f := Frame(sequence, txn, Commit(0));
    NumberBack(b, p, c);
    NumberBack(b, 0, [Number(txn)] + c);
    if ReadUint(b, q, 1).Err? {
      CodeTorn(b, q, 3, OpPieces(Commit(0)));
      return;
    }
    var code := ReadUint(b, q, 1).value.0;
    CodeBack(b, q, []);
    var op := OpTorn(b, q + 1, code);
    f := Frame(sequence, txn, op);
    CodeBack(b, q, OpPieces(op));
    NumberBack(b, p, [Code(code)] + OpPieces(op));
    NumberBack(b, 0, [Number(txn)] + ([Code(code)] + OpPieces(op)));
  }

  /**
    A body is reported truncated exactly when it is the first pieces of some operation's
    frame and then ends where a number or a code byte is due.
  */
  lemma BodyTruncatedExactly(body: seq<Byte>)
    ensures DecodeBody(body) == Err(Truncated) <==> exists f :: BodyTyped(f) && EndsAtHead(body, Pieces(f))
  {
    hide DecodeBody, BodyTyped, EndsAtHead, Pieces;
    if DecodeBody(body) == Err(Truncated) {
      var f := BodyTorn(body);
    }
    if f :| BodyTyped(f) && EndsAtHead(body, Pieces(f)) {
      BodyCut(body, f);
    }
  }

  // ----- The tail of a log -----

  /** Too few bytes for the eight of framing, or for the body they announce. */
  predicate TooShort(b: seq<Byte>) {
    |b| < FRAME_HEADER || (At(b, 0, 4) <= MAX_BODY && |b| < FRAME_HEADER + At(b, 0, 4))
  }

  /** Framing, body and a checksum that matches. */
  predicate Sealed(b: seq<Byte>) {
    && |b| >= FRAME_HEADER && At(b, 0, 4) <= MAX_BODY && |b| >= FRAME_HEADER + At(b, 0, 4)
    && Crc32c.Checksum(b[FRAME_HEADER..FRAME_HEADER + At(b, 0, 4)]) == At(b, 4, 4)
  }

  lemma FrameTruncatedExactly(b: seq<Byte>)
    ensures DecodeFrame(b) == Err(Truncated) <==>
      || TooShort(b)
      || (Sealed(b) && DecodeBody(b[FRAME_HEADER..FRAME_HEADER + At(b, 0, 4)]) == Err(Truncated))
  {
    hide DecodeBody, Crc32c.Checksum, FromLe;
  }

  lemma {:induction false} TailDecides(b: seq<Byte>)
    ensures var s := ScanLog(b);
      s.valid <= |b| && var rest := b[s.valid..];
      && (s.tail == Torn <==> rest != [] && DecodeFrame(rest) == Err(Truncated))
      && (rest != [] ==> DecodeFrame(rest).Err?)
    decreases |b|
  {
    hide DecodeFrame, ScanLog, FrameOk;
    ScanStep(b);
    if b == [] || DecodeFrame(b).Err? {
      assert b[0..] == b;
    } else {
      var n := DecodeFrame(b).value.1;
      TailDecides(b[n..]);
      var s := ScanLog(b[n..]);
      assert b[n..][s.valid..] == b[n + s.valid..];
    }
  }

  /**
    For any bytes: the log is called torn exactly when what follows the valid frames is too
    short for a frame, or is a whole frame, its checksum matching, whose body ends where a
    number or a code byte is due.
  */
  lemma TornExactly(b: seq<Byte>)
    ensures ScanLog(b).valid <= |b|
    ensures var rest := b[ScanLog(b).valid..];
      ScanLog(b).tail == Torn <==>
        rest != []
        && (|| TooShort(rest)
            || (Sealed(rest)
                && exists f :: BodyTyped(f) && EndsAtHead(rest[FRAME_HEADER..FRAME_HEADER + At(rest, 0, 4)], Pieces(f))))
  {
    hide DecodeFrame, ScanLog, DecodeBody, BodyTyped, EndsAtHead, Pieces, At, Crc32c.Checksum;
    TailDecides(b);
    var rest := b[ScanLog(b).valid..];
    FrameTruncatedExactly(rest);
    if Sealed(rest) {
      BodyTruncatedExactly(rest[FRAME_HEADER..FRAME_HEADER + At(rest, 0, 4)]);
    }
  }
}
