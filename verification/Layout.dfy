/**
  Where things are in the stored files, by byte offset and literal value: what keeps a file
  written by one release readable by another.
*/
module Layout {
  import opened Prelude
  import opened Bytes
  import opened Cursor
  import Crc32c
  import Varint
  import Block
  import Wal
  import Value
  import Manifest
  import Vectors
  import Directory
  import Tombstones
  import Snapshot
  import GraphSpec
  import FilterInput
  import Search

  /** The `k` bytes at `at` are the number `v`, least significant first. */
  ghost predicate Field(b: seq<Byte>, at: nat, k: nat, v: nat) {
    at + k <= |b| && b[at..at + k] == Le(v, k)
  }

  lemma FieldHeld(b: seq<Byte>, at: nat, k: nat, v: nat, rest: seq<Byte>)
    requires Holds(b, at, Le(v, k) + rest)
    ensures Field(b, at, k, v) && Holds(b, at + k, rest)
  {
    HoldsParts(b, at, Le(v, k), rest);
  }

  lemma PieceHeld(b: seq<Byte>, at: nat, piece: seq<Byte>, rest: seq<Byte>)
    requires Holds(b, at, piece + rest)
    ensures at + |piece| <= |b| && b[at..at + |piece|] == piece && Holds(b, at + |piece|, rest)
  {
    HoldsParts(b, at, piece, rest);
  }

  /** A number has its least significant byte first. */
  lemma NumberLayout(v: nat, k: nat)
    ensures Le(v, k + 1) == [v % 256] + Le(v / 256, k) && Le(v, 0) == []
  {
  }

  /** A variable-length number has seven bits a byte, low bits first, all bytes but the last marked. */
  lemma VarintLayout(x: nat, y: nat)
    requires x < 128 && 0 < y
    ensures Varint.Encode(x) == [x] && Varint.Encode(x + 128 * y) == [128 + x] + Varint.Encode(y)
  {
    assert (x + 128 * y) / 128 == y && (x + 128 * y) % 128 == x;
  }

  function Name(kind: Block.FileKind): seq<Byte> {
    match kind
    case Manifest => ['M' as int, 'A' as int, 'N' as int, 'I' as int]
    case Catalog => ['C' as int, 'A' as int, 'T' as int, 'L' as int]
    case Wal => ['W' as int, 'A' as int, 'L' as int, 0]
    case Vectors => ['V' as int, 'E' as int, 'C' as int, 0]
    case Directory => ['D' as int, 'I' as int, 'R' as int, 0]
    case Metadata => ['M' as int, 'E' as int, 'T' as int, 'A' as int]
    case Deleted => ['D' as int, 'E' as int, 'L' as int, 0]
    case Index => ['I' as int, 'D' as int, 'X' as int, 0]
  }

  /** A block: a 32-byte header closed by its own checksum, the payload, and the payload's checksum. */
  lemma BlockLayout(kind: Block.FileKind, payload: seq<Byte>)
    ensures var b := Block.EncodeBlock(kind, payload); var n := |payload|;
      && |b| == 32 + n + 4
      && b[0..4] == ['V' as int, 'D' as int, 'B' as int, '1' as int] && b[4..8] == Name(kind)
      && Field(b, 8, 2, 2) && Field(b, 10, 2, 0) && Field(b, 12, 4, 32) && Field(b, 16, 8, n)
      && Field(b, 24, 4, Crc32c.Checksum(b[..24])) && Field(b, 28, 4, 0)
      && b[32..32 + n] == payload && Field(b, 32 + n, 4, Crc32c.Checksum(payload))
  {
    var b := Block.EncodeBlock(kind, payload);
    var c, n := Block.Covered(kind, |payload|), |payload|;
    NameIsTag(kind);
    hide Le, Crc32c.Checksum, Name, Block.Tag, Holds, Field;
    WholeHolds(b);
    var tail := payload + Le(Crc32c.Checksum(payload), 4);
    HoldsParts(b, 0, Block.EncodeHeader(kind, n), tail);
    PieceHeld(b, 32, payload, Le(Crc32c.Checksum(payload), 4));
    LastField(b, 32 + n, 4, Crc32c.Checksum(payload));
    HoldsParts(b, 0, c, Le(Crc32c.Checksum(c), 4) + Le(0, 4));
    HeldSlice(b, 0, c);
    assert b[..24] == c;
    FieldHeld(b, 24, 4, Crc32c.Checksum(c), Le(0, 4));
    LastField(b, 28, 4, 0);
    CoveredHeld(b, kind, n);
  }

  lemma NameIsTag(kind: Block.FileKind)
    ensures Name(kind) == Block.Tag(kind)
  {
  }

  lemma LastField(b: seq<Byte>, at: nat, k: nat, v: nat)
    requires Holds(b, at, Le(v, k))
    ensures Field(b, at, k, v)
  {
  }

  lemma CoveredHeld(b: seq<Byte>, kind: Block.FileKind, n: nat)
    requires Holds(b, 0, Block.Covered(kind, n))
    ensures |b| >= 24 && b[0..4] == ['V' as int, 'D' as int, 'B' as int, '1' as int] && b[4..8] == Block.Tag(kind)
    ensures Field(b, 8, 2, 2) && Field(b, 10, 2, 0) && Field(b, 12, 4, 32) && Field(b, 16, 8, n)
  {
    hide Le, Block.Tag, Holds, Field;
    var f2, f1 := Le(32, 4) + Le(n, 8), Le(0, 2) + (Le(32, 4) + Le(n, 8));
    PieceHeld(b, 0, Block.MAGIC_PREFIX, Block.Tag(kind) + (Le(2, 2) + f1));
    PieceHeld(b, 4, Block.Tag(kind), Le(2, 2) + f1);
    FieldHeld(b, 8, 2, 2, f1);
    FieldHeld(b, 10, 2, 0, f2);
    FieldHeld(b, 12, 4, 32, Le(n, 8));
    LastField(b, 16, 8, n);
  }

  /**
    The headers accepted: the magic and a known kind, version 1 or 2, no flag but the lowest
    two, a length of at least 32, the checksum over the first 24 bytes, and four zero bytes.
  */
  lemma HeaderExactly(b: seq<Byte>, kind: Block.FileKind, start: nat, len: nat)
    ensures Block.DecodeHeader(b) == Ok(Block.Header(kind, start, len)) <==>
      && |b| >= 32 && b[..4] == ['V' as int, 'D' as int, 'B' as int, '1' as int] && b[4..8] == Name(kind)
      && At(b, 8, 2) in {1, 2} && At(b, 10, 2) in {0, 1, 2, 3} && At(b, 12, 4) == start >= 32 && At(b, 16, 8) == len
      && At(b, 24, 4) == Crc32c.Checksum(b[..24]) && b[28..32] == [0, 0, 0, 0]
  {
    if |b| >= 8 {
      TagExactly(b[4..8], kind);
    }
    hide At, Crc32c.Checksum, Block.FromTag, Name;
  }

  lemma TagExactly(tag: seq<Byte>, kind: Block.FileKind)
    ensures Block.FromTag(tag) == Some(kind) <==> tag == Name(kind)
  {
    NameIsTag(kind);
    Block.TagBack(kind);
    hide Block.Tag;
  }

  /** A frame: the body's length, its checksum, the body. */
  lemma FrameLayout(f: Wal.Frame)
    ensures var b := Wal.FrameBytes(f); var body := Wal.BodyBytes(f);
      Field(b, 0, 4, |body|) && Field(b, 4, 4, Crc32c.Checksum(body)) && b[8..] == body
  {
    hide Le, Crc32c.Checksum, Holds, Field;
    var b, body := Wal.FrameBytes(f), Wal.BodyBytes(f);
    WholeHolds(b);
    FieldHeld(b, 0, 4, |body|, Le(Crc32c.Checksum(body), 4) + body);
    FieldHeld(b, 4, 4, Crc32c.Checksum(body), body);
    HeldSlice(b, 8, body);
  }

  /** A length-prefixed piece. */
  function Prefixed(s: seq<Byte>): seq<Byte> {
    Varint.Encode(|s|) + s
  }

  /** A frame's body: its sequence and batch, then 1 and a document, 2 and an id, or 3 and a count. */
  lemma BodyLayout(sequence: nat, txn: nat, id: seq<Byte>, vector: seq<Byte>, metadata: seq<Byte>, content: seq<Byte>, n: nat)
    ensures var head := Varint.Encode(sequence) + Varint.Encode(txn);
      && Wal.BodyBytes(Wal.Frame(sequence, txn, Wal.Delete(id))) == head + [2] + Prefixed(id)
      && Wal.BodyBytes(Wal.Frame(sequence, txn, Wal.Commit(n))) == head + [3] + Varint.Encode(n)
      && Wal.BodyBytes(Wal.Frame(sequence, txn, Wal.Put(id, vector, metadata, None)))
         == head + [1] + Prefixed(id) + Prefixed(vector) + Prefixed(metadata) + [0]
      && Wal.BodyBytes(Wal.Frame(sequence, txn, Wal.Put(id, vector, metadata, Some(content))))
         == head + [1] + Prefixed(id) + Prefixed(vector) + Prefixed(metadata) + [1] + Prefixed(content)
  {
    hide Varint.Encode;
    var h, i, v, m := Varint.Encode(sequence), Prefixed(id), Prefixed(vector), Prefixed(metadata);
    var t := Varint.Encode(txn);
    Regroup(h, t, [2], i, []);
    Regroup(h, t, [3], Varint.Encode(n), []);
    Regroup(h, t, [1], i, v + (m + [0]));
    Regroup(h, t, [1], i, v + (m + ([1] + Prefixed(content))));
    hide Prefixed;
    Associate(h + t + [1] + i, v, m + [0]);
    Associate(h + t + [1] + i + v, m, [0]);
    Associate(h + t + [1] + i, v, m + ([1] + Prefixed(content)));
    Associate(h + t + [1] + i + v, m, [1] + Prefixed(content));
    Associate(h + t + [1] + i + v + m, [1], Prefixed(content));
  }

  lemma Regroup(a: seq<Byte>, b: seq<Byte>, c: seq<Byte>, d: seq<Byte>, e: seq<Byte>)
    ensures a + (b + (c + (d + e))) == a + b + c + d + e
    ensures e == [] ==> a + (b + (c + d)) == a + b + c + d
  {
    Associate(a, b, c + (d + e));
    Associate(a + b, c, d + e);
    Associate(a + b + c, d, e);
    assert e == [] ==> d + e == d && a + b + c + d + e == a + b + c + d;
  }

  /** The tag each kind of value is stored under. */
  lemma ValueLayout(i: Varint.I64, s: seq<Byte>, items: seq<Value.Tree>, fields: seq<Value.Field>)
    ensures Value.TreeBytes(Value.Leaf(Value.Null)) == [0]
    ensures Value.TreeBytes(Value.Leaf(Value.Bool(false))) == [1] && Value.TreeBytes(Value.Leaf(Value.Bool(true))) == [2]
    ensures Value.TreeBytes(Value.Leaf(Value.I64(i))) == [3] + Varint.Encode(if i >= 0 then 2 * i else -2 * i - 1)
    ensures Value.TreeBytes(Value.Leaf(Value.F64(s))) == [4] + s
    ensures Value.TreeBytes(Value.Leaf(Value.Str(s))) == [5] + Prefixed(s)
    ensures Value.TreeBytes(Value.Leaf(Value.Blob(s))) == [6] + Prefixed(s)
    ensures Value.TreeBytes(Value.Items(items))[0] == 7
    ensures Value.TreeBytes(Value.Fields(false, fields))[0] == 8 && Value.TreeBytes(Value.Fields(true, fields))[0] == 9
  {
  }

  /** A double or a float is finite when its bits, the sign aside, are below those of infinity. */
  lemma FloatLayout(double: seq<Byte>, float: seq<Byte>)
    requires |double| == 8 && |float| == 4
    ensures Value.Finite(double) <==> (double[6] as int) + 256 * (double[7] as int % 128) < 0x7FF0
    ensures Directory.Finite32(float) <==> (float[2] as int) + 256 * (float[3] as int % 128) < 0x7F80
  {
  }

  /** The limits the code holds to. */
  lemma Limits()
    ensures Value.MAX_DEPTH == 16 && Value.INDEX_MIN_ENTRIES == 8 && Value.MAX_OFFSET == 65535
    ensures Wal.MAX_BODY == 67_108_864 && GraphSpec.MAX_LEVEL == 16 && Snapshot.MIN_BYTES_PER_NODE == 10 && FilterInput.MAX_NESTING == 32
    ensures Search.SCAN_STRIDE == 1024 && Search.GRAPH_STRIDE == 256
  {
  }

  /** The manifest's fixed fields, and its eight reserved bytes at the end. */
  lemma ManifestLayout(m: Manifest.Manifest)
    requires |m.uuid| == 16
    ensures var b := Manifest.Payload(m);
      && |b| >= 48 && Field(b, 0, 8, m.sequence) && b[8..24] == m.uuid && Field(b, 24, 8, m.created) && Field(b, 32, 8, m.updated)
      && b[40..] == Varint.Encode(|m.entries|) + (Manifest.EntriesBytes(m.entries) + Zeros(8))
  {
    hide Le, Varint.Encode, Holds, Field, Manifest.EntriesBytes;
    var b := Manifest.Payload(m);
    WholeHolds(b);
    var rest := Varint.Encode(|m.entries|) + (Manifest.EntriesBytes(m.entries) + Zeros(8));
    FieldHeld(b, 0, 8, m.sequence, m.uuid + (Le(m.created, 8) + (Le(m.updated, 8) + rest)));
    PieceHeld(b, 8, m.uuid, Le(m.created, 8) + (Le(m.updated, 8) + rest));
    FieldHeld(b, 24, 8, m.created, Le(m.updated, 8) + rest);
    FieldHeld(b, 32, 8, m.updated, rest);
    HeldSlice(b, 40, rest);
    assert |b| == 40 + |rest|;
  }

  /** Vector data starts 64 bytes into its file. */
  lemma VectorLayout(data: seq<Byte>)
    ensures var b := Vectors.Finish(data); |b| == 64 + |data| + 4 && b[64..64 + |data|] == data
  {
    hide Crc32c.Checksum;
    var payload := Zeros(32) + data;
    BlockLayout(Block.Vectors, payload);
    hide Block.EncodeBlock, Field;
    var b := Vectors.Finish(data);
    assert b[32..32 + |payload|][32..] == b[64..64 + |data|];
  }

  /** A row's directory entry: 24 bytes, each field at its place. */
  lemma DirectoryLayout(e: Directory.RowEntry)
    requires |e.invNorm| == 4
    ensures var b := Directory.EntryBytes(e);
      && |b| == 24 && Field(b, 0, 8, e.metaOffset) && Field(b, 8, 4, e.metaLen) && b[12..16] == e.invNorm
      && Field(b, 16, 4, e.idOffset) && Field(b, 20, 2, e.idLen) && Field(b, 22, 2, e.flags)
  {
    hide Le, Holds, Field;
    var b := Directory.EntryBytes(e);
    WholeHolds(b);
    var f2 := Le(e.idLen, 2) + Le(e.flags, 2);
    var f1 := Le(e.idOffset, 4) + f2;
    FieldHeld(b, 0, 8, e.metaOffset, Le(e.metaLen, 4) + (e.invNorm + f1));
    FieldHeld(b, 8, 4, e.metaLen, e.invNorm + f1);
    PieceHeld(b, 12, e.invNorm, f1);
    FieldHeld(b, 16, 4, e.idOffset, f2);
    FieldHeld(b, 20, 2, e.idLen, Le(e.flags, 2));
    LastField(b, 22, 2, e.flags);
  }

  /** A bitmap: its row count and generation, eight zero bytes, then a word for every 64 rows. */
  lemma BitmapLayout(t: Tombstones.Bitmap)
    ensures var b := Tombstones.Payload(t);
      && Field(b, 0, 4, t.rows) && Field(b, 4, 4, t.generation) && b[8..16] == Zeros(8)
      && b[16..] == Tombstones.WordsBytes(t.words)
  {
    hide Le, Holds, Field, Tombstones.WordsBytes;
    var b, words := Tombstones.Payload(t), Tombstones.WordsBytes(t.words);
    WholeHolds(b);
    FieldHeld(b, 0, 4, t.rows, Le(t.generation, 4) + (Zeros(8) + words));
    FieldHeld(b, 4, 4, t.generation, Zeros(8) + words);
    PieceHeld(b, 8, Zeros(8), words);
    HeldSlice(b, 16, words);
  }

  /** A saved graph's first bytes: the letters HNSW as a number, the layout version, then what it was built with. */
  lemma SnapshotLayout(g: GraphSpec.Graph, p: GraphSpec.Params)
    ensures var b := Snapshot.EncodeHeader(g, p);
      && Field(b, 0, 4, 0x484E5357) && Field(b, 4, 2, 1)
      && Field(b, 6, 2, match g.metric case Some(Cosine) => 1 case Some(L2) => 2 case Some(Dot) => 3 case None => 0)
      && Field(b, 8, 4, g.dimension) && Field(b, 12, 4, p.m) && Field(b, 16, 4, p.efConstruction) && Field(b, 20, 8, p.seed)
      && Field(b, 28, 4, |g.rows|) && Field(b, 32, 4, |g.layers|)
      && Field(b, 36, 1, if g.entry.Some? then 1 else 0) && Field(b, 37, 4, if g.entry.Some? then g.entry.value else 0)
  {
    hide Le, Holds, Field;
    var b := Snapshot.EncodeHeader(g, p);
    WholeHolds(b);
    var code := Snapshot.MetricCode(g.metric);
    var f9 := Le(if g.entry.Some? then g.entry.value else 0, 4);
    var f8 := Le(if g.entry.Some? then 1 else 0, 1) + f9;
    var f7 := Le(|g.layers|, 4) + f8;
    var f6 := Le(|g.rows|, 4) + f7;
    var f5 := Le(p.seed, 8) + f6;
    var f4 := Le(p.efConstruction, 4) + f5;
    var f3 := Le(p.m, 4) + f4;
    var f2 := Le(g.dimension, 4) + f3;
    var f1 := Le(code, 2) + f2;
    FieldHeld(b, 0, 4, 0x484E5357, Le(1, 2) + f1);
    FieldHeld(b, 4, 2, 1, f1);
    FieldHeld(b, 6, 2, code, f2);
    FieldHeld(b, 8, 4, g.dimension, f3);
    FieldHeld(b, 12, 4, p.m, f4);
    FieldHeld(b, 16, 4, p.efConstruction, f5);
    FieldHeld(b, 20, 8, p.seed, f6);
    FieldHeld(b, 28, 4, |g.rows|, f7);
    FieldHeld(b, 32, 4, |g.layers|, f8);
    FieldHeld(b, 36, 1, if g.entry.Some? then 1 else 0, f9);
    LastField(b, 37, 4, if g.entry.Some? then g.entry.value else 0);
  }
}
