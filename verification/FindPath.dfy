/**
  Lazy lookup (value.rs, `find_path`): decode only the value at a dotted path, walking or
  binary-searching the encoded maps.  On everything the decoder accepts it answers what
  decoding in full and looking the path up would.
*/
module FindPath {
  import opened Prelude
  import opened Bytes
  import opened Cursor
  import opened Value
  import opened ValueRead
  import opened ValueSkip
  import opened ValueCode
  import Varint

  // ----- The simple lookup (metadata.rs, `get_path`) -----

  const DOT: Byte := 46

  function Split(path: seq<Byte>): (r: seq<seq<Byte>>)
    ensures |r| > 0
  {
    if path == [] then [[]]
    else
      var rest := Split(path[1..]);
      if path[0] == DOT then [[]] + rest else [[path[0]] + rest[0]] + rest[1..]
  }

  function Get(entries: seq<Entry>, key: seq<Byte>): Option<Value> {
    if entries == [] then None
    else if entries[0].key == key then Some(entries[0].value)
    else Get(entries[1..], key)
  }

  /** Descend through maps, segment by segment. */
  function Lookup(v: Value, segments: seq<seq<Byte>>): Option<Value>
    decreases |segments|
  {
    if segments == [] then Some(v)
    else if !v.Map? then None
    else
      match Get(v.entries, segments[0])
      case None => None
      case Some(inner) => Lookup(inner, segments[1..])
  }

  function GetPath(v: Value, path: seq<Byte>): Option<Value> {
    Lookup(v, Split(path))
  }

  ghost predicate Undotted(s: seq<Byte>) {
    forall i :: 0 <= i < |s| ==> s[i] != '.' as int
  }

  /** The segments with a full stop between each two. */
  function Join(segments: seq<seq<Byte>>): seq<Byte>
    requires segments != []
  {
    if |segments| == 1 then segments[0] else segments[0] + ['.' as int] + Join(segments[1..])
  }

  lemma {:induction false} SplitKey(key: seq<Byte>)
    requires Undotted(key)
    ensures Split(key) == [key]
  {
    if key != [] {
      SplitKey(key[1..]);
      assert key == [key[0]] + key[1..];
    }
  }

  lemma {:induction false} SplitFirst(key: seq<Byte>, rest: seq<Byte>)
    requires Undotted(key)
    ensures Split(key + ['.' as int] + rest) == [key] + Split(rest)
    decreases |key|
  {
    var path := key + ['.' as int] + rest;
    if key == [] {
      assert path[1..] == rest;
    } else {
      SplitFirst(key[1..], rest);
      assert path[1..] == key[1..] + ['.' as int] + rest;
      assert key == [key[0]] + key[1..];
    }
  }

  ghost predicate AllUndotted(segments: seq<seq<Byte>>) {
    forall i :: 0 <= i < |segments| ==> Undotted(segments[i])
  }

  /** Splitting gives the one list of segments without full stops that joins to the path. */
  lemma {:induction false} SplitsExactly(path: seq<Byte>, segments: seq<seq<Byte>>)
    requires segments != []
    ensures Split(path) == segments <==> AllUndotted(segments) && Join(segments) == path
  {
    SplitJoins(path);
    if AllUndotted(segments) && Join(segments) == path {
      JoinSplits(segments);
    }
  }

  lemma {:induction false} JoinSplits(segments: seq<seq<Byte>>)
    requires segments != [] && AllUndotted(segments)
    ensures Split(Join(segments)) == segments
    decreases |segments|
  {
    if |segments| == 1 {
      SplitKey(segments[0]);
    } else {
      JoinSplits(segments[1..]);
      SplitFirst(segments[0], Join(segments[1..]));
    }
  }

  lemma {:induction false} SplitJoins(path: seq<Byte>)
    ensures AllUndotted(Split(path)) && Join(Split(path)) == path
  {
    if path != [] {
      var rest := Split(path[1..]);
      SplitJoins(path[1..]);
      assert path == [path[0]] + path[1..];
      if path[0] == DOT {
        assert Split(path)[1..] == rest;
      } else {
        assert Split(path)[1..] == rest[1..];
      }
    }
  }

  ghost predicate DistinctKeys(entries: seq<Entry>) {
    forall i, j :: 0 <= i < j < |entries| ==> entries[i].key != entries[j].key
  }

  /** In a map a key answers with the value it was entered with, and with nothing otherwise. */
  lemma {:induction false} GetExactly(entries: seq<Entry>, key: seq<Byte>, value: Value)
    requires DistinctKeys(entries)
    ensures Get(entries, key) == Some(value) <==> Entry(key, value) in entries
    ensures Get(entries, key) == None <==> forall i :: 0 <= i < |entries| ==> entries[i].key != key
  {
    if entries != [] {
      GetExactly(entries[1..], key, value);
      if Entry(key, value) in entries && entries[0].key == key {
        assert entries[0] == Entry(key, value);
      }
    }
  }

  /** A path descends by its first key, and answers nothing at a value that is no map. */
  lemma PathDescends(v: Value, key: seq<Byte>, rest: seq<Byte>)
    requires Undotted(key)
    ensures GetPath(v, key) == if v.Map? then Get(v.entries, key) else None
    ensures GetPath(v, key + ['.' as int] + rest) ==
      (if v.Map? && Get(v.entries, key).Some? then GetPath(Get(v.entries, key).value, rest) else None)
  {
    SplitKey(key);
    SplitFirst(key, rest);
    hide Split;
    assert [key][1..] == [] && [key][0] == key;
    assert Lookup(v, [key]) == if v.Map? then Get(v.entries, key) else None;
    assert ([key] + Split(rest))[1..] == Split(rest);
  }

  // ----- Fields by key -----

  ghost predicate Absent(fields: seq<Field>, key: seq<Byte>) {
    forall i :: 0 <= i < |fields| ==> fields[i].key != key
  }

  lemma {:induction false} GetAbsent(fields: seq<Field>, key: seq<Byte>)
    requires Absent(fields, key)
    ensures Get(EraseFields(fields), key) == None
  {
    if fields != [] {
      GetAbsent(fields[1..], key);
      assert EraseFields(fields)[1..] == EraseFields(fields[1..]);
    }
  }

  lemma {:induction false} GetPresent(fields: seq<Field>, i: nat)
    requires i < |fields| && Ascending(fields)
    ensures Get(EraseFields(fields), fields[i].key) == Some(Erase(fields[i].tree))
    decreases |fields|
  {
    var rest := fields[1..];
    assert EraseFields(fields)[1..] == EraseFields(rest);
    if i > 0 {
      AscendingFar(fields, 0, i);
      LessTotal(fields[0].key, fields[i].key);
      hide Less;
      assert Ascending(rest) by {
        forall k | 0 < k < |rest|
          ensures Less(rest[k - 1].key, rest[k].key)
        {
          assert Less(fields[k].key, fields[k + 1].key);
        }
      }
      GetPresent(rest, i - 1);
    }
  }

  /** Past a key that is too large, or before one that is too small, the key is absent. */
  lemma Beyond(fields: seq<Field>, i: nat, j: nat, key: seq<Byte>)
    requires Ascending(fields) && i < |fields| && j < |fields|
    requires (Less(fields[i].key, key) && j <= i) || (Less(key, fields[i].key) && i <= j)
    ensures fields[j].key != key
    ensures j <= i && Less(fields[i].key, key) ==> Less(fields[j].key, key)
    ensures i <= j && Less(key, fields[i].key) ==> Less(key, fields[j].key)
  {
    LessTotal(key, key);
    if j < i {
      AscendingFar(fields, j, i);
      if Less(fields[i].key, key) {
        LessTransitive(fields[j].key, fields[i].key, key);
      }
    } else if i < j {
      AscendingFar(fields, i, j);
      if Less(key, fields[i].key) {
        LessTransitive(key, fields[i].key, fields[j].key);
      }
    }
  }

  // ----- Where fields and table entries sit -----

  lemma {:induction false} FieldAt(b: seq<Byte>, at: nat, fields: seq<Field>, from: nat, i: nat)
    requires Holds(b, at, FieldsBytes(fields)) && i < |fields|
    ensures Offsets(fields, from)[i] >= from
    ensures Holds(b, at + Offsets(fields, from)[i] - from, FieldBytes(fields[i]))
    decreases |fields|
  {
    hide Holds, FieldBytes;
    HoldsParts(b, at, FieldBytes(fields[0]), FieldsBytes(fields[1..]));
    if i > 0 {
      var n := |FieldBytes(fields[0])|;
      FieldAt(b, at + n, fields[1..], from + n, i - 1);
    }
  }

  lemma {:induction false} TableAt(b: seq<Byte>, at: nat, offsets: seq<nat>, i: nat)
    requires Holds(b, at, TableBytes(offsets)) && i < |offsets| && offsets[i] <= MAX_OFFSET
    ensures at + 2 * i + 2 <= |b| && At(b, at + 2 * i, 2) == offsets[i]
    decreases |offsets|
  {
    hide Holds, At;
    assert Pow256(2) == 65536;
    if i == 0 {
      ReadBack(b, at, offsets[0], 2, TableBytes(offsets[1..]));
    } else {
      HoldsParts(b, at, Le(offsets[0], 2), TableBytes(offsets[1..]));
      TableAt(b, at + 2, offsets[1..], i - 1);
    }
  }

  /** A field's key and value, read off its position. */
  lemma FieldParts(b: seq<Byte>, at: nat, f: Field)
    requires Holds(b, at, FieldBytes(f)) && |f.key| < U64
    ensures ReadBlob(b, at) == Ok((f.key, at + |Cursor.Blob(f.key)|))
    ensures Holds(b, at + |Cursor.Blob(f.key)|, TreeBytes(f.tree))
  {
    hide Holds, Cursor.Blob, TreeBytes, ReadBlob;
    HoldsParts(b, at, Cursor.Blob(f.key), TreeBytes(f.tree));
    BlobExactly(b, at, f.key, at + |Cursor.Blob(f.key)|);
  }

  // ----- Searching one map -----

  /** What is known of the map under the reader when the buffer is one the decoder accepts. */
  ghost predicate MapHere(b: seq<Byte>, at: nat, depth: nat, fields: seq<Field>) {
    && FieldsOk(fields, depth, None) && Holds(b, at, FieldsBytes(fields))
  }

  /** A search result is right: absent, or standing on the value of the field `at`. */
  ghost predicate Found(b: seq<Byte>, pos: nat, fields: seq<Field>, key: seq<Byte>, found: bool, at: nat) {
    if found then at < |fields| && fields[at].key == key && Holds(b, pos, TreeBytes(fields[at].tree))
    else Absent(fields, key)
  }

  /** The linear walk: keys ascend, so it stops at the first key past the one wanted. */
  method Walk(r: Reader, count: nat, wanted: seq<Byte>, ghost good: bool, ghost fields: seq<Field>, ghost depth: nat)
    returns (res: Result<bool, FormatError>, ghost at: nat)
    requires r.Valid() && (good ==> MapHere(r.buf, r.pos, depth, fields) && count == |fields| && depth >= 1)
    modifies r
    ensures r.Valid()
    ensures good ==> res.Ok? && Found(r.buf, r.pos, fields, wanted, res.value, at)
  {
    hide Holds, ReadBlob, TreeOk, TreeBytes, Utf8, Less, Skip, ReadTree;
    at := 0;
    assert good ==> fields[0..] == fields;
    for i := 0 to count
      invariant r.Valid()
      invariant good ==> Holds(r.buf, r.pos, FieldsBytes(fields[i..]))
      invariant good ==> forall k :: 0 <= k < i ==> Less(fields[k].key, wanted)
    {
      ghost var start := r.pos;
      if good {
        assert fields[i..][0] == fields[i] && fields[i..][1..] == fields[i + 1..];
        HoldsParts(r.buf, start, FieldBytes(fields[i]), FieldsBytes(fields[i + 1..]));
        FieldParts(r.buf, start, fields[i]);
      }
      var key := r.TakeBlob();
      if key.Err? {
        return Err(key.error), 0;
      }
      ghost var mid := r.pos;
      if key.value == wanted {
        return Ok(true), i;
      }
      if !Less(key.value, wanted) {
        if good {
          LessTotal(key.value, wanted);
          forall j | 0 <= j < |fields|
            ensures fields[j].key != wanted
          {
            if j < i {
              LessTotal(fields[j].key, wanted);
            } else {
              Beyond(fields, i, j, wanted);
            }
          }
        }
        return Ok(false), 0;
      }
      if good {
        SkipHeld(r.buf, mid, depth, fields[i].tree);
      }
      var skipped := SkipValue(r, 1);
      if skipped.Err? {
        return Err(skipped.error), 0;
      }
    }
    if good {
      forall j | 0 <= j < |fields|
        ensures fields[j].key != wanted
      {
        LessTotal(fields[j].key, wanted);
      }
    }
    res := Ok(false);
  }

  /** Skipping, from the top, a tree that is held. */
  lemma SkipHeld(b: seq<Byte>, at: nat, depth: nat, t: Tree)
    requires TreeOk(t, depth) && depth >= 1 && Holds(b, at, TreeBytes(t))
    ensures Skip(b, at, 1) == Ok(at + |TreeBytes(t)|)
  {
    hide Holds, TreeOk, TreeBytes, Skip, ReadTree;
    TreeOkShallower(t, depth, 1);
    ReadTreeComplete(b, at, 1, t);
    SkipsWhatDecodes(b, at, 1);
  }

  /** A probe's answer is right: absent, or the offset of the field `at`. */
  ghost predicate Probed(fields: seq<Field>, key: seq<Byte>, off: Option<nat>, at: nat) {
    if off.Some? then at < |fields| && fields[at].key == key && off.value == Offsets(fields, 0)[at]
    else Absent(fields, key)
  }

  /** The binary search over the offset table. */
  method Probe(r: Reader, count: nat, table: nat, wanted: seq<Byte>, ghost good: bool, ghost fields: seq<Field>, ghost depth: nat)
    returns (res: Result<Option<nat>, FormatError>, ghost at: nat)
    requires r.Valid() && table + 2 * count == r.pos
    requires good ==> MapHere(r.buf, r.pos, depth, fields) && count == |fields| && TableStands(r.buf, Some(table), Offsets(fields, 0))
    ensures good ==> res.Ok? && (res.value.None? <==> Absent(fields, wanted))
    ensures good ==> res.Ok? && Probed(fields, wanted, res.value, at)
  {
    hide Holds, ReadBlob, TreeOk, TreeBytes, Utf8, Less, At, Offsets;
    at := 0;
    var lo, hi := 0, count;
    while lo < hi
      invariant 0 <= lo <= hi <= count
      invariant good ==> forall k :: 0 <= k < lo ==> Less(fields[k].key, wanted)
      invariant good ==> forall k :: hi <= k < count ==> Less(wanted, fields[k].key)
    {
      var mid := lo + (hi - lo) / 2;
      var off := At(r.buf, table + 2 * mid, 2);
      ghost var where := r.pos + off;
      if good {
        TableAt(r.buf, table, Offsets(fields, 0), mid);
        FieldAt(r.buf, r.pos, fields, 0, mid);
        HeldWithin(r.buf, where, fields[mid]);
        FieldParts(r.buf, where, fields[mid]);
      }
      if off > |r.buf| - r.pos {
        return Err(Malformed), 0;
      }
      var probe := new Reader(r.buf);
      probe.pos := r.pos + off;
      var key := probe.TakeBlob();
      if key.Err? {
        return Err(key.error), 0;
      }
      if key.value == wanted {
        return Ok(Some(off)), mid;
      } else if Less(key.value, wanted) {
        if good {
          forall k | 0 <= k <= mid
            ensures Less(fields[k].key, wanted)
          {
            Beyond(fields, mid, k, wanted);
          }
        }
        lo := mid + 1;
      } else {
        if good {
          LessTotal(key.value, wanted);
          forall k | mid <= k < count
            ensures Less(wanted, fields[k].key)
          {
            Beyond(fields, mid, k, wanted);
          }
        }
        hi := mid;
      }
    }
    if good {
      forall j | 0 <= j < |fields|
        ensures fields[j].key != wanted
      {
        LessTotal(fields[j].key, wanted);
      }
    }
    res := Ok(None);
  }

  lemma HeldWithin(b: seq<Byte>, at: nat, f: Field)
    requires Holds(b, at, FieldBytes(f))
    ensures at <= |b|
  {
  }

  // ----- The descent -----

  /** What opening a held tree reads: its tag, and for a map its count and where its parts are. */
  lemma LeafOpened(b: seq<Byte>, at: nat, depth: nat, t: Tree)
    requires TreeOk(t, depth) && Holds(b, at, TreeBytes(t)) && !t.Fields?
    ensures ReadUint(b, at, 1).Ok? && ReadUint(b, at, 1).value.0 <= 7
  {
    hide Holds, ReadUint, Varint.Encode, ItemsBytes, LeafBody;
    match t
    case Leaf(v) => ByteExactly(b, at, LeafTag(v), LeafBody(v));
    case Items(items) => ByteExactly(b, at, 7, Varint.Encode(|items|) + ItemsBytes(items));
  }

  lemma PlainOpened(b: seq<Byte>, at: nat, depth: nat, fields: seq<Field>)
    requires TreeOk(Fields(false, fields), depth) && Holds(b, at, TreeBytes(Fields(false, fields)))
    ensures ReadUint(b, at, 1) == Ok((8, at + 1))
    ensures ReadCount(b, at + 1, 2) == Ok((|fields|, at + 1 + |Varint.Encode(|fields|)|))
    ensures MapHere(b, at + 1 + |Varint.Encode(|fields|)|, depth + 1, fields)
  {
    hide Holds, ReadUint, ReadCount, Varint.Encode, FieldsBytes, Utf8, Less, Offsets;
    ByteExactly(b, at, 8, Varint.Encode(|fields|) + FieldsBytes(fields));
    CountExactly(b, at + 1, 2, |fields|, FieldsBytes(fields));
  }

  lemma IndexedOpened(b: seq<Byte>, at: nat, depth: nat, fields: seq<Field>)
    requires TreeOk(Fields(true, fields), depth) && Holds(b, at, TreeBytes(Fields(true, fields)))
    ensures ReadUint(b, at, 1) == Ok((9, at + 1))
    ensures var q := at + 1 + |Varint.Encode(|fields|)|;
      && ReadCount(b, at + 1, 4) == Ok((|fields|, q))
      && q + 2 * |fields| <= |b|
      && TableStands(b, Some(q), Offsets(fields, 0)) && MapHere(b, q + 2 * |fields|, depth + 1, fields)
  {
    hide Holds, ReadUint, ReadCount, Varint.Encode, FieldsBytes, Utf8, Less, Offsets, TableBytes;
    var table := TableBytes(Offsets(fields, 0));
    ByteExactly(b, at, 9, Varint.Encode(|fields|) + (table + FieldsBytes(fields)));
    CountExactly(b, at + 1, 4, |fields|, table + FieldsBytes(fields));
    var q := at + 1 + |Varint.Encode(|fields|)|;
    HoldsParts(b, q, table, FieldsBytes(fields));
    HoldsMeans(b, q, table);
  }

  /** Where the descent stands: a held tree, and the segments it still has to follow. */
  ghost predicate Standing(b: seq<Byte>, pos: nat, depth: nat, cur: Tree, left: seq<seq<Byte>>, answer: Option<Value>) {
    && depth >= 1 && TreeOk(cur, depth) && Holds(b, pos, TreeBytes(cur))
    && Lookup(Erase(cur), left) == answer
  }

  /** Search the map under the reader for `wanted`, leaving the reader on its value. */
  method FindField(r: Reader, wanted: seq<Byte>, ghost good: bool, ghost cur: Tree, ghost depth: nat)
    returns (res: Result<bool, FormatError>, ghost at: nat)
    requires r.Valid() && (good ==> depth >= 1 && TreeOk(cur, depth) && Holds(r.buf, r.pos, TreeBytes(cur)))
    modifies r
    ensures r.Valid()
    ensures good ==> res.Ok? && if cur.Fields? then Found(r.buf, r.pos, cur.fields, wanted, res.value, at) else !res.value
  {
    hide Holds, ReadUint, ReadCount, TreeOk, TreeBytes, MapHere, TableStands, Utf8, Less, Offsets, Varint.Encode, ReadBlob;
    at := 0;
    ghost var start := r.pos;
    if good {
      if cur.Fields? {
        if cur.indexed {
          IndexedOpened(r.buf, start, depth, cur.fields);
        } else {
          PlainOpened(r.buf, start, depth, cur.fields);
        }
      } else {
        LeafOpened(r.buf, start, depth, cur);
      }
    }
    ghost var fields := if good && cur.Fields? then cur.fields else [];
    var tag := r.Uint(1);
    if tag.Err? {
      return Err(tag.error), 0;
    }
    if tag.value == 8 {
      var count := r.TakeCount(2);
      if count.Err? {
        return Err(count.error), 0;
      }
      res, at := Walk(r, count.value, wanted, good, fields, depth + 1);
    } else if tag.value == 9 {
      var count := r.TakeCount(4);
      if count.Err? {
        return Err(count.error), 0;
      }
      var table := r.pos;
      var skipped := r.Take(2 * count.value);
      if skipped.Err? {
        return Err(skipped.error), 0;
      }
      res, at := FindIndexed(r, count.value, table, wanted, good, fields, depth + 1);
    } else {
      res := Ok(false);
    }
  }

  method FindIndexed(r: Reader, count: nat, table: nat, wanted: seq<Byte>, ghost good: bool, ghost fields: seq<Field>, ghost depth: nat)
    returns (res: Result<bool, FormatError>, ghost at: nat)
    requires r.Valid() && table + 2 * count == r.pos
    requires good ==> MapHere(r.buf, r.pos, depth, fields) && count == |fields| && TableStands(r.buf, Some(table), Offsets(fields, 0))
    modifies r
    ensures r.Valid()
    ensures good ==> res.Ok? && Found(r.buf, r.pos, fields, wanted, res.value, at)
  {
    hide Holds, TreeOk, TreeBytes, TableStands, Utf8, Less, Offsets, ReadBlob;
    var hit;
    hit, at := Probe(r, count, table, wanted, good, fields, depth);
    if hit.Err? {
      return Err(hit.error), 0;
    }
    if hit.value == None {
      return Ok(false), 0;
    }
    if good {
      FieldAt(r.buf, r.pos, fields, 0, at);
      HeldWithin(r.buf, r.pos + hit.value.value, fields[at]);
      FieldParts(r.buf, r.pos + hit.value.value, fields[at]);
    }
    var moved := r.Take(hit.value.value);
    if moved.Err? {
      return Err(moved.error), 0;
    }
    var key := r.TakeBlob();
    if key.Err? {
      return Err(key.error), 0;
    }
    res := Ok(true);
  }

  lemma Descended(fields: seq<Field>, at: nat, indexed: bool, left: seq<seq<Byte>>, depth: nat)
    requires left != [] && TreeOk(Fields(indexed, fields), depth) && at < |fields| && fields[at].key == left[0]
    ensures Lookup(Erase(Fields(indexed, fields)), left) == Lookup(Erase(fields[at].tree), left[1..])
    ensures TreeOk(fields[at].tree, depth + 1)
  {
    hide Utf8, Less, Offsets, Get;
    GetPresent(fields, at);
  }

  lemma NotDescended(cur: Tree, left: seq<seq<Byte>>, depth: nat)
    requires left != [] && TreeOk(cur, depth) && (cur.Fields? ==> Absent(cur.fields, left[0]))
    ensures Lookup(Erase(cur), left) == None
  {
    if cur.Fields? {
      GetAbsent(cur.fields, left[0]);
    }
  }

  lemma ReadHeld(b: seq<Byte>, at: nat, depth: nat, t: Tree)
    requires TreeOk(t, depth) && depth >= 1 && Holds(b, at, TreeBytes(t))
    ensures ReadTree(b, at, 1) == Ok((t, at + |TreeBytes(t)|))
  {
    hide Holds, TreeOk, TreeBytes, ReadTree;
    TreeOkShallower(t, depth, 1);
    ReadTreeComplete(b, at, 1, t);
  }

  /**
    Find the value at a dotted path.  On every buffer the decoder accepts and every path
    but the empty one, the answer is the one a full decode and a lookup would give.
  */
  method Run(bytes: seq<Byte>, path: seq<Byte>) returns (res: Result<Option<Value>, FormatError>)
    ensures bytes == [] || path == [] ==> res == Ok(None)
    ensures path != [] && Decode(bytes).Ok? ==> res == Ok(GetPath(Decode(bytes).value, path))
  {
    hide Holds, TreeOk, TreeBytes, ReadTree, Erase, Lookup, Absent, Split;
    if bytes == [] || path == [] {
      assert bytes == [] ==> !Decode(bytes).Ok? by {
        if bytes == [] && Decode(bytes).Ok? {
          ReadTreeSound(bytes, 0, 1);
          HoldsMeans(bytes, 0, TreeBytes(ReadTree(bytes, 0, 1).value.0));
        }
      }
      return Ok(None);
    }
    var r := new Reader(bytes);
    var segments := Split(path);
    ghost var good := Decode(bytes).Ok?;
    ghost var answer := if good then GetPath(Decode(bytes).value, path) else None;
    ghost var cur: Tree, depth: nat := Leaf(Null), 1;
    if good {
      ReadTreeSound(bytes, 0, 1);
      cur := ReadTree(bytes, 0, 1).value.0;
    }
    var k := 0;
    assert segments[0..] == segments;
    while k < |segments|
      invariant 0 <= k < |segments| && r.Valid() && fresh(r) && r.buf == bytes
      invariant good ==> Standing(bytes, r.pos, depth, cur, segments[k..], answer)
      decreases |segments| - k
    {
      ghost var left := segments[k..];
      assert left[0] == segments[k] && left[1..] == segments[k + 1..];
      ghost var at: nat;
      var found;
      found, at := FindField(r, segments[k], good, cur, depth);
      if found.Err? {
        return Err(found.error);
      }
      if !found.value {
        if good {
          NotDescended(cur, left, depth);
        }
        return Ok(None);
      }
      if good {
        Descended(cur.fields, at, cur.indexed, left, depth);
        cur, depth := cur.fields[at].tree, depth + 1;
        ReadHeld(bytes, r.pos, depth, cur);
      }
      if k + 1 == |segments| {
        assert left[1..] == [];
        LookupNothing(cur);
        var v := ReadValue(r, 1);
        if v.Err? {
          return Err(v.error);
        }
        return Ok(Some(v.value));
      }
      k := k + 1;
    }
    res := Ok(None);
  }

  lemma LookupNothing(t: Tree)
    ensures Lookup(Erase(t), []) == Some(Erase(t))
  {
  }

  /** With the empty path the two differ exactly on maps holding an empty key. */
  lemma EmptyPathExactly(v: Value)
    ensures GetPath(v, []) == None <==> !(v.Map? && Get(v.entries, []).Some?)
  {
    var only: seq<seq<Byte>> := [[]];
    assert Split([]) == only && only[1..] == [];
    if v.Map? && Get(v.entries, []).Some? {
      assert Lookup(Get(v.entries, []).value, []) == Some(Get(v.entries, []).value);
    }
  }

  /** Skipping is laxer than decoding: it walks past an infinite float that decoding refuses. */
  lemma SkipAcceptsMore()
    ensures exists b :: Skip(b, 0, 1) == Ok(|b|) && Decode(b).Err?
  {
    var b: seq<Byte> := [4, 0, 0, 0, 0, 0, 0, 240, 127];
    assert b[0..1] == [4] && FromLe([4]) == 4 by {
      assert [4][1..] == [];
    }
    assert b[1..9] == [0, 0, 0, 0, 0, 0, 240, 127];
    assert ReadUint(b, 0, 1) == Ok((4, 1));
    assert Skip(b, 0, 1) == Ok(|b|) && Decode(b).Err?;
  }
}
