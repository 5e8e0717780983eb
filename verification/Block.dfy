/**
  Checksummed blocks: a self-checking 32-byte header, the payload, and the payload's
  checksum (header.rs, block.rs).
*/
module Block {
  import opened Prelude
  import opened Bytes
  import opened Cursor
  import opened Crc32c

  datatype FileKind = Manifest | Catalog | Wal | Vectors | Directory | Metadata | Deleted | Index

  const MAGIC_PREFIX: seq<Byte> := [86, 68, 66, 49]
  const HEADER_LEN: nat := 32
  const CRC_COVERS: nat := 24
  const TRAILER_LEN: nat := 4
  const FORMAT_VERSION: nat := 2
  const MIN_READABLE_VERSION: nat := 1
  const KNOWN_FLAGS: nat := 4

  function Tag(kind: FileKind): (r: seq<Byte>)
    ensures |r| == 4
  {
    match kind
    case Manifest => [77, 65, 78, 73]
    case Catalog => [67, 65, 84, 76]
    case Wal => [87, 65, 76, 0]
    case Vectors => [86, 69, 67, 0]
    case Directory => [68, 73, 82, 0]
    case Metadata => [77, 69, 84, 65]
    case Deleted => [68, 69, 76, 0]
    case Index => [73, 68, 88, 0]
  }

  function FromTag(tag: seq<Byte>): Option<FileKind> {
    if tag == Tag(Manifest) then Some(Manifest)
    else if tag == Tag(Catalog) then Some(Catalog)
    else if tag == Tag(Wal) then Some(Wal)
    else if tag == Tag(Vectors) then Some(Vectors)
    else if tag == Tag(Directory) then Some(Directory)
    else if tag == Tag(Metadata) then Some(Metadata)
    else if tag == Tag(Deleted) then Some(Deleted)
    else if tag == Tag(Index) then Some(Index)
    else None
  }

  lemma TagBack(kind: FileKind)
    ensures FromTag(Tag(kind)) == Some(kind)
  {
    assert Tag(Manifest)[0] == 77 && Tag(Manifest)[1] == 65;
    match kind
    case Manifest =>
    case Catalog => assert Tag(kind)[0] != 77;
    case Wal => assert Tag(kind)[0] == 87 && Tag(Catalog)[0] == 67;
    case Vectors => assert Tag(kind)[0] == 86 && Tag(Catalog)[0] == 67 && Tag(Wal)[0] == 87;
    case Directory =>
      assert Tag(kind)[0] == 68 && Tag(kind)[1] == 73 && Tag(Catalog)[0] == 67 && Tag(Wal)[0] == 87 && Tag(Vectors)[0] == 86;
    case Metadata =>
      assert Tag(kind)[0] == 77 && Tag(kind)[1] == 69 && Tag(Catalog)[0] == 67 && Tag(Wal)[0] == 87 && Tag(Vectors)[0] == 86 && Tag(Directory)[0] == 68;
    case Deleted =>
      assert Tag(kind)[0] == 68 && Tag(kind)[1] == 69 && Tag(Catalog)[0] == 67 && Tag(Wal)[0] == 87 && Tag(Vectors)[0] == 86
             && Tag(Directory)[1] == 73 && Tag(Metadata)[0] == 77;
    case Index =>
      assert Tag(kind)[0] == 73 && Tag(Catalog)[0] == 67 && Tag(Wal)[0] == 87 && Tag(Vectors)[0] == 86
             && Tag(Directory)[0] == 68 && Tag(Metadata)[0] == 77 && Tag(Deleted)[0] == 68;
  }

  // ----- Header -----

  datatype Header = Header(kind: FileKind, headerLen: nat, payloadLen: nat)

  /** The fields the header checksum covers. */
  function Covered(kind: FileKind, payloadLen: nat): (r: seq<Byte>)
    ensures |r| == CRC_COVERS
  {
    MAGIC_PREFIX + (Tag(kind) + (Le(FORMAT_VERSION, 2) + (Le(0, 2) + (Le(HEADER_LEN, 4) + Le(payloadLen, 8)))))
  }

  function EncodeHeader(kind: FileKind, payloadLen: nat): (r: seq<Byte>)
    ensures |r| == HEADER_LEN
  {
    var c := Covered(kind, payloadLen);
    c + (Le(Checksum(c), 4) + Le(0, 4))
  }

  function DecodeHeader(b: seq<Byte>): Result<Header, FormatError> {
    if |b| < 8 then Err(Truncated)
    else if b[..4] != MAGIC_PREFIX then Err(BadMagic)
    else if FromTag(b[4..8]) == None then Err(Malformed)
    else if |b| < CRC_COVERS + 4 then Err(Truncated)
    else if At(b, CRC_COVERS, 4) != Checksum(b[..CRC_COVERS]) then Err(ChecksumMismatch)
    else if !(MIN_READABLE_VERSION <= At(b, 8, 2) <= FORMAT_VERSION) then Err(UnsupportedVersion)
    else if At(b, 10, 2) >= KNOWN_FLAGS then Err(Malformed)
    else if At(b, 12, 4) < HEADER_LEN then Err(Malformed)
    else if |b| < HEADER_LEN then Err(Truncated)
    else if b[28..32] != [0, 0, 0, 0] then Err(Malformed)
    else Ok(Header(FromTag(b[4..8]).value, At(b, 12, 4), At(b, 16, 8)))
  }

  // ----- Block -----

  function EncodeBlock(kind: FileKind, payload: seq<Byte>): (r: seq<Byte>)
    ensures |r| == HEADER_LEN + |payload| + TRAILER_LEN
  {
    EncodeHeader(kind, |payload|) + (payload + Le(Checksum(payload), 4))
  }

  /** Where the payload starts and how long it is. */
  function Locate(b: seq<Byte>, kind: FileKind): Result<(nat, nat), FormatError> {
    var h :- DecodeHeader(b);
    if h.kind != kind then Err(BadMagic)
    else if |b| < h.headerLen + h.payloadLen + TRAILER_LEN then Err(Truncated)
    else Ok((h.headerLen, h.payloadLen))
  }

  /** The payload, its checksum unverified. */
  function OpenBlock(b: seq<Byte>, kind: FileKind): Result<seq<Byte>, FormatError> {
    var (start, len) :- Locate(b, kind);
    if start + len <= |b| then Ok(b[start..start + len]) else Err(Truncated)
  }

  /** The payload, verified. */
  function DecodeBlock(b: seq<Byte>, kind: FileKind): Result<seq<Byte>, FormatError> {
    var (start, len) :- Locate(b, kind);
    if start + len + TRAILER_LEN > |b| then Err(Truncated)
    else if At(b, start + len, 4) != Checksum(b[start..start + len]) then Err(ChecksumMismatch)
    else Ok(b[start..start + len])
  }

  // ----- What was written reads back -----

  /** The header fields of a buffer that starts with an encoded header. */
  lemma HeaderFields(b: seq<Byte>, kind: FileKind, n: nat)
    requires n < U64 && Holds(b, 0, Covered(kind, n))
    ensures |b| >= CRC_COVERS && b[..4] == MAGIC_PREFIX && b[4..8] == Tag(kind)
    ensures At(b, 8, 2) == FORMAT_VERSION && At(b, 10, 2) == 0 && At(b, 12, 4) == HEADER_LEN && At(b, 16, 8) == n
  {
    hide Holds, Le, At, Pow256, Tag;
    Powers();
    var f5 := Le(HEADER_LEN, 4) + Le(n, 8);
    var f4 := Le(0, 2) + f5;
    var f3 := Le(FORMAT_VERSION, 2) + f4;
    HoldsParts(b, 0, MAGIC_PREFIX, Tag(kind) + f3);
    HoldsParts(b, 4, Tag(kind), f3);
    HoldsMeans(b, 0, MAGIC_PREFIX);
    HoldsMeans(b, 4, Tag(kind));
    ReadBack(b, 8, FORMAT_VERSION, 2, f4);
    ReadBack(b, 10, 0, 2, f5);
    ReadBack(b, 12, HEADER_LEN, 4, Le(n, 8));
    HoldsLe(b, 16, n, 8);
    assert b[0..4] == b[..4];
  }

  lemma HeaderBack(b: seq<Byte>, kind: FileKind, n: nat)
    requires n < U64 && Holds(b, 0, EncodeHeader(kind, n))
    ensures DecodeHeader(b) == Ok(Header(kind, HEADER_LEN, n))
  {
    hide Holds, Le, At, Pow256, Tag, FromTag, Checksum, Covered;
    var c := Covered(kind, n);
    HoldsParts(b, 0, c, Le(Checksum(c), 4) + Le(0, 4));
    HeaderFields(b, kind, n);
    TagBack(kind);
    ChecksumFits(c);
    Powers();
    ReadBack(b, CRC_COVERS, Checksum(c), 4, Le(0, 4));
    HoldsMeans(b, 28, Le(0, 4));
    HoldsMeans(b, 0, c);
    assert b[0..CRC_COVERS] == b[..CRC_COVERS];
    ZeroWord();
  }

  lemma ZeroWord()
    ensures Le(0, 4) == [0, 0, 0, 0]
  {
    assert Le(0, 2) == [0, 0];
  }

  /** A block reads back, whatever follows it. */
  lemma BlockBack(b: seq<Byte>, kind: FileKind, payload: seq<Byte>)
    requires |payload| < U64 && Holds(b, 0, EncodeBlock(kind, payload))
    ensures Locate(b, kind) == Ok((HEADER_LEN, |payload|))
    ensures OpenBlock(b, kind) == Ok(payload) && DecodeBlock(b, kind) == Ok(payload)
  {
    hide Holds, Le, At, Pow256, EncodeHeader, DecodeHeader, Checksum;
    var n := |payload|;
    HoldsParts(b, 0, EncodeHeader(kind, n), payload + Le(Checksum(payload), 4));
    HeaderBack(b, kind, n);
    HoldsParts(b, HEADER_LEN, payload, Le(Checksum(payload), 4));
    HoldsMeans(b, HEADER_LEN, payload);
    ChecksumFits(payload);
    Powers();
    HoldsLe(b, HEADER_LEN + n, Checksum(payload), 4);
  }

  /** Every strict prefix of a block is recognised as cut short. */
  lemma CutBlock(kind: FileKind, payload: seq<Byte>, k: nat)
    requires |payload| < U64 && k < |EncodeBlock(kind, payload)|
    ensures DecodeBlock(EncodeBlock(kind, payload)[..k], kind) == Err(Truncated)
  {
    hide EncodeHeader, Le, At, Pow256, Checksum, FromTag, DecodeHeader;
    var whole := EncodeBlock(kind, payload);
    var b := whole[..k];
    var h := EncodeHeader(kind, |payload|);
    assert whole[..HEADER_LEN] == h;
    if k >= HEADER_LEN {
      assert b[0..HEADER_LEN] == h;
      HoldsMeans(b, 0, h);
      HeaderBack(b, kind, |payload|);
    } else {
      assert b == h[..k];
      CutHeader(kind, |payload|, k);
    }
  }

  lemma CutHeader(kind: FileKind, n: nat, k: nat)
    requires n < U64 && k < HEADER_LEN
    ensures DecodeHeader(EncodeHeader(kind, n)[..k]) == Err(Truncated)
  {
    hide Le, Pow256, Checksum, FromTag, Tag, Covered, Holds;
    var h := EncodeHeader(kind, n);
    var c := Covered(kind, n);
    var b := h[..k];
    WholeHolds(h);
    HoldsParts(h, 0, c, Le(Checksum(c), 4) + Le(0, 4));
    HeaderFields(h, kind, n);
    ChecksumFits(c);
    Powers();
    ReadBack(h, CRC_COVERS, Checksum(c), 4, Le(0, 4));
    TagBack(kind);
    if k >= 8 {
      assert b[..4] == h[..4] && b[4..8] == h[4..8];
    }
    if k >= CRC_COVERS + 4 {
      assert b[..CRC_COVERS] == c;
      assert b[24..28] == h[24..28] && b[8..10] == h[8..10] && b[10..12] == h[10..12] && b[12..16] == h[12..16];
    }
  }

  // ----- Damage -----

  /** Slices of near strings are near. */
  lemma NearSlice(p: seq<Byte>, q: seq<Byte>, at: nat, lo: nat, hi: nat) returns (a: nat)
    requires Near(p, q, at) && lo <= hi <= |p|
    ensures |q| == |p| && Near(p[lo..hi], q[lo..hi], a)
  {
    a := if at >= lo then at - lo else 0;
  }

  /** Data followed by a checksum that matches it. */
  ghost predicate Sealed(s: seq<Byte>) {
    |s| >= 4 && At(s, |s| - 4, 4) == Checksum(s[..|s| - 4])
  }

  /** Sealed data damaged within four consecutive bytes is no longer sealed. */
  lemma SealBroken(p: seq<Byte>, q: seq<Byte>, at: nat)
    requires Sealed(p) && Near(p, q, at) && p != q
    ensures !Sealed(q)
  {
    hide Checksum, Process;
    var n := |p| - 4;
    assert p == p[..n] + p[n..] && q == q[..n] + q[n..];
    assert p[n..n + 4] == p[n..] && q[n..n + 4] == q[n..];
    NearMissDetected(p[..n], p[n..], q[..n], q[n..], at);
  }

  lemma AcceptedIsSealed(b: seq<Byte>, kind: FileKind)
    requires DecodeBlock(b, kind).Ok? && Locate(b, kind).value.0 == HEADER_LEN
    ensures var len := Locate(b, kind).value.1; HEADER_LEN + len + 4 <= |b| && Sealed(b[HEADER_LEN..HEADER_LEN + len + 4])
  {
    hide Checksum, DecodeHeader;
    var len := Locate(b, kind).value.1;
    var s := b[HEADER_LEN..HEADER_LEN + len + 4];
    assert s[|s| - 4..|s| - 4 + 4] == b[HEADER_LEN + len..HEADER_LEN + len + 4];
    assert s[..|s| - 4] == b[HEADER_LEN..HEADER_LEN + len];
  }

  lemma HeaderIsSealed(b: seq<Byte>)
    requires DecodeHeader(b).Ok?
    ensures |b| >= 32 && Sealed(b[..28]) && b[28..32] == [0, 0, 0, 0]
  {
    hide Checksum, FromTag;
    assert b[..28][24..28] == b[24..28] && b[..28][..24] == b[..24];
  }

  /** A header is a function of its first 32 bytes. */
  lemma HeaderLocal(p: seq<Byte>, q: seq<Byte>)
    requires |p| >= 32 && |q| >= 32 && p[..32] == q[..32]
    ensures DecodeHeader(p) == DecodeHeader(q)
  {
    hide Checksum, FromTag, FromLe;
    var h := p[..32];
    assert p[..4] == h[..4] && q[..4] == h[..4] && p[4..8] == h[4..8] && q[4..8] == h[4..8];
    assert p[..24] == h[..24] && q[..24] == h[..24] && p[24..28] == h[24..28] && q[24..28] == h[24..28];
    assert p[8..10] == h[8..10] && q[8..10] == h[8..10] && p[10..12] == h[10..12] && q[10..12] == h[10..12];
    assert p[12..16] == h[12..16] && q[12..16] == h[12..16] && p[16..24] == h[16..24] && q[16..24] == h[16..24];
    assert p[28..32] == h[28..32] && q[28..32] == h[28..32];
  }

  lemma HeaderDamage(p: seq<Byte>, b: seq<Byte>, at: nat)
    requires DecodeHeader(p).Ok? && Near(p, b, at) && |p| >= 32 && b[..32] != p[..32]
    ensures DecodeHeader(b).Err?
  {
    hide DecodeHeader, Sealed, Near;
    HeaderIsSealed(p);
    if DecodeHeader(b).Ok? {
      HeaderIsSealed(b);
      var a := NearSlice(p, b, at, 0, 28);
      assert p[0..28] == p[..28] && b[0..28] == b[..28];
      assert p[..32] == p[..28] + p[28..32] && b[..32] == b[..28] + b[28..32];
      SealBroken(p[..28], b[..28], a);
    }
  }

  /** With the header intact, damage to payload or trailer is a checksum mismatch. */
  lemma BodyDamage(kind: FileKind, payload: seq<Byte>, b: seq<Byte>, at: nat)
    requires |payload| < U64 && Near(EncodeBlock(kind, payload), b, at) && b != EncodeBlock(kind, payload)
    requires |b| >= 32 && b[..32] == EncodeBlock(kind, payload)[..32]
    ensures DecodeBlock(b, kind) == Err(ChecksumMismatch)
  {
    hide EncodeBlock, DecodeHeader, Sealed, Near, Checksum;
    var p := EncodeBlock(kind, payload);
    WholeHolds(p);
    BlockBack(p, kind, payload);
    AcceptedIsSealed(p, kind);
    HeaderLocal(p, b);
    var end := HEADER_LEN + |payload| + 4;
    var a := NearSlice(p, b, at, 32, end);
    assert p == p[..32] + p[32..end] && b == b[..32] + b[32..end];
    SealBroken(p[32..end], b[32..end], a);
    if DecodeBlock(b, kind).Ok? {
      AcceptedIsSealed(b, kind);
    }
  }

  /**
    Damage confined to four consecutive bytes anywhere in a block, header and trailer
    included, is rejected.
  */
  lemma DamageDetected(kind: FileKind, payload: seq<Byte>, b: seq<Byte>, at: nat)
    requires |payload| < U64 && Near(EncodeBlock(kind, payload), b, at) && b != EncodeBlock(kind, payload)
    ensures DecodeBlock(b, kind).Err?
  {
    hide EncodeBlock, DecodeHeader;
    var p := EncodeBlock(kind, payload);
    if b[..32] == p[..32] {
      BodyDamage(kind, payload, b, at);
    } else {
      WholeHolds(p);
      BlockBack(p, kind, payload);
      HeaderDamage(p, b, at);
    }
  }
}
