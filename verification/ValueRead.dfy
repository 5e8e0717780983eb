/**
  Decoding (value.rs, `read_at_depth`): reading accepts exactly the bytes of allowed trees,
  and returns the tree.
*/
module ValueRead {
  import opened Prelude
  import opened Bytes
  import opened Cursor
  import opened Value
  import Varint

  // ----- Reading as a function of buffer and position -----

  function ReadLeaf(b: seq<Byte>, at: nat, tag: nat): Read<Value> {
    if tag == 0 then Ok((Null, at))
    else if tag == 1 then Ok((Bool(false), at))
    else if tag == 2 then Ok((Bool(true), at))
    else if tag == 3 then
      var (u, p) :- ReadVarint(b, at);
      VarintExactly(b, at, u, p);
      Ok((I64(Varint.Unzigzag(u)), p))
    else if tag == 4 then
      var (bits, p) :- ReadBytes(b, at, 8);
      if Finite(bits) then Ok((F64(bits), p)) else Err(Malformed)
    else if tag == 5 then
      var (s, p) :- ReadString(b, at);
      Ok((Str(s), p))
    else if tag == 6 then
      var (s, p) :- ReadBlob(b, at);
      Ok((Value.Blob(s), p))
    else Err(Malformed)
  }

  function ReadTree(b: seq<Byte>, at: nat, depth: nat): Read<Tree>
    decreases MAX_DEPTH + 1 - depth, 0
  {
    if depth > MAX_DEPTH then Err(Malformed)
    else
      var (tag, p) :- ReadUint(b, at, 1);
      if tag == 7 then
        var (count, q) :- ReadCount(b, p, 1);
        var (items, end) :- ReadItems(b, q, count, depth + 1);
        Ok((Items(items), end))
      else if tag == 8 || tag == 9 then
        var (count, q) :- ReadCount(b, p, if tag == 9 then 4 else 2);
        if tag == 9 && count < INDEX_MIN_ENTRIES then Err(Malformed)
        else if tag == 9 then
          var (_, base) :- ReadBytes(b, q, 2 * count);
          var (fields, end) :- ReadFields(b, base, count, depth + 1, Some(q), base, None);
          Ok((Fields(true, fields), end))
        else
          var (fields, end) :- ReadFields(b, q, count, depth + 1, None, q, None);
          Ok((Fields(false, fields), end))
      else
        var (v, end) :- ReadLeaf(b, p, tag);
        Ok((Leaf(v), end))
  }

  function ReadItems(b: seq<Byte>, at: nat, count: nat, depth: nat): Read<seq<Tree>>
    decreases MAX_DEPTH + 1 - depth, count + 1
  {
    if count == 0 then Ok(([], at))
    else
      var (t, p) :- ReadTree(b, at, depth);
      var (rest, end) :- ReadItems(b, p, count - 1, depth);
      Ok(([t] + rest, end))
  }

  /**
    `count` fields.  `slot` is where the next table entry is, if there is a table, and
    `base` is where the first field started; `prev` is the key before.
  */
  function ReadFields(b: seq<Byte>, at: nat, count: nat, depth: nat, slot: Option<nat>, base: nat, prev: Option<seq<Byte>>): Read<seq<Field>>
    decreases MAX_DEPTH + 1 - depth, count + 1
  {
    if count == 0 then Ok(([], at))
    else if slot.Some? && !(slot.value + 2 <= |b| && At(b, slot.value, 2) == at - base) then Err(Malformed)
    else
      var (key, p) :- ReadString(b, at);
      if prev.Some? && !Less(prev.value, key) then Err(Malformed)
      else
        var (t, q) :- ReadTree(b, p, depth);
        var (rest, end) :- ReadFields(b, q, count - 1, depth, NextSlot(slot), base, Some(key));
        Ok(([Field(key, t)] + rest, end))
  }

  function NextSlot(slot: Option<nat>): Option<nat> {
    if slot.Some? then Some(slot.value + 2) else None
  }

  // ----- Leaves -----

  /** The leaf `v` of tag `tag` was read from `at` up to `end`. */
  ghost predicate LeafStands(b: seq<Byte>, at: nat, tag: Byte, v: Value, end: nat) {
    && LeafOk(v) && LeafTag(v) == tag
    && Holds(b, at + 1, LeafBody(v)) && end == at + 1 + |LeafBody(v)|
  }

  lemma I64Sound(b: seq<Byte>, at: nat)
    requires ReadLeaf(b, at + 1, 3).Ok?
    ensures LeafStands(b, at, 3, ReadLeaf(b, at + 1, 3).value.0, ReadLeaf(b, at + 1, 3).value.1)
  {
    hide Holds, ReadVarint, Varint.Encode;
    var (u, p) := ReadVarint(b, at + 1).value;
    VarintExactly(b, at + 1, u, p);
    Varint.ZigzagBijective(Varint.Unzigzag(u), u);
  }

  lemma F64Sound(b: seq<Byte>, at: nat)
    requires ReadLeaf(b, at + 1, 4).Ok?
    ensures LeafStands(b, at, 4, ReadLeaf(b, at + 1, 4).value.0, ReadLeaf(b, at + 1, 4).value.1)
  {
    hide Holds;
    HoldsMeans(b, at + 1, ReadLeaf(b, at + 1, 4).value.0.bits);
  }

  lemma StrSound(b: seq<Byte>, at: nat)
    requires ReadLeaf(b, at + 1, 5).Ok?
    ensures LeafStands(b, at, 5, ReadLeaf(b, at + 1, 5).value.0, ReadLeaf(b, at + 1, 5).value.1)
  {
    hide Holds, ReadString, Cursor.Blob, Utf8;
    var (s, p) := ReadString(b, at + 1).value;
    StringExactly(b, at + 1, s, p);
  }

  lemma BlobSound(b: seq<Byte>, at: nat)
    requires ReadLeaf(b, at + 1, 6).Ok?
    ensures LeafStands(b, at, 6, ReadLeaf(b, at + 1, 6).value.0, ReadLeaf(b, at + 1, 6).value.1)
  {
    hide Holds, ReadBlob, Cursor.Blob;
    var (s, p) := ReadBlob(b, at + 1).value;
    BlobExactly(b, at + 1, s, p);
  }

  lemma LeafBodySound(b: seq<Byte>, at: nat, tag: Byte)
    requires at + 1 <= |b| && ReadLeaf(b, at + 1, tag).Ok?
    ensures LeafStands(b, at, tag, ReadLeaf(b, at + 1, tag).value.0, ReadLeaf(b, at + 1, tag).value.1)
  {
    if tag == 3 {
      I64Sound(b, at);
    } else if tag == 4 {
      F64Sound(b, at);
    } else if tag == 5 {
      StrSound(b, at);
    } else if tag == 6 {
      BlobSound(b, at);
    } else {
      hide Holds, ReadVarint, ReadString, ReadBlob, Utf8;
      HoldsMeans(b, at + 1, []);
    }
  }

  lemma LeafSound(b: seq<Byte>, at: nat, tag: Byte)
    requires ReadUint(b, at, 1) == Ok((tag, at + 1)) && ReadLeaf(b, at + 1, tag).Ok?
    ensures var (v, end) := ReadLeaf(b, at + 1, tag).value;
            LeafOk(v) && Holds(b, at, LeafBytes(v)) && end == at + |LeafBytes(v)|
  {
    LeafBodySound(b, at, tag);
    hide Holds, ReadLeaf, LeafBody;
    ByteExactly(b, at, tag, LeafBody(ReadLeaf(b, at + 1, tag).value.0));
  }

  lemma LeafComplete(b: seq<Byte>, at: nat, v: Value)
    requires LeafOk(v) && Holds(b, at, LeafBytes(v))
    ensures ReadUint(b, at, 1) == Ok((LeafTag(v), at + 1))
    ensures ReadLeaf(b, at + 1, LeafTag(v)) == Ok((v, at + |LeafBytes(v)|))
  {
    hide Holds, ReadVarint, ReadString, ReadBlob, ReadUint, Varint.Encode, Cursor.Blob, Utf8;
    ByteExactly(b, at, LeafTag(v), LeafBody(v));
    match v
    case Null =>
    case Bool(_) =>
    case I64(i) =>
      var u := Varint.Zigzag(i);
      VarintExactly(b, at + 1, u, at + 1 + |Varint.Encode(u)|);
      Varint.ZigzagBijective(i, u);
    case F64(bits) =>
      HoldsMeans(b, at + 1, bits);
    case Str(text) =>
      StringExactly(b, at + 1, text, at + 1 + |Cursor.Blob(text)|);
    case Blob(bytes) =>
      BlobExactly(b, at + 1, bytes, at + 1 + |Cursor.Blob(bytes)|);
  }

  // ----- What is accepted is the bytes of an allowed tree -----

  ghost predicate Stands(b: seq<Byte>, at: nat, depth: nat, t: Tree, end: nat) {
    TreeOk(t, depth) && Holds(b, at, TreeBytes(t)) && end == at + |TreeBytes(t)|
  }

  ghost predicate ItemsStand(b: seq<Byte>, at: nat, depth: nat, items: seq<Tree>, end: nat) {
    && (forall i :: 0 <= i < |items| ==> TreeOk(items[i], depth))
    && Holds(b, at, ItemsBytes(items)) && end == at + |ItemsBytes(items)|
  }

  /** Keys in order after `prev`, each text, each with an allowed tree. */
  ghost predicate FieldsOk(fields: seq<Field>, depth: nat, prev: Option<seq<Byte>>) {
    && Ascending(fields)
    && (prev.Some? && fields != [] ==> Less(prev.value, fields[0].key))
    && (forall i :: 0 <= i < |fields| ==>
          Utf8(fields[i].key) && |fields[i].key| < U64 && TreeOk(fields[i].tree, depth))
  }

  ghost predicate TableStands(b: seq<Byte>, slot: Option<nat>, offsets: seq<nat>) {
    slot.Some? ==> Holds(b, slot.value, TableBytes(offsets)) && forall i :: 0 <= i < |offsets| ==> offsets[i] <= MAX_OFFSET
  }

  ghost predicate FieldsStand(b: seq<Byte>, at: nat, depth: nat, slot: Option<nat>, base: nat, prev: Option<seq<Byte>>, fields: seq<Field>, end: nat) {
    && FieldsOk(fields, depth, prev)
    && Holds(b, at, FieldsBytes(fields)) && end == at + |FieldsBytes(fields)|
    && base <= at && TableStands(b, slot, Offsets(fields, at - base))
  }

  lemma FieldsOkTail(fields: seq<Field>, depth: nat, prev: Option<seq<Byte>>)
    requires fields != []
    ensures FieldsOk(fields, depth, prev) <==>
      && Utf8(fields[0].key) && |fields[0].key| < U64 && TreeOk(fields[0].tree, depth)
      && (prev.Some? ==> Less(prev.value, fields[0].key))
      && FieldsOk(fields[1..], depth, Some(fields[0].key))
  {
    hide Utf8, Less, TreeOk;
    var rest := fields[1..];
    if FieldsOk(rest, depth, Some(fields[0].key)) {
      forall i | 0 < i < |fields|
        ensures Less(fields[i - 1].key, fields[i].key)
      {
        assert fields[i] == rest[i - 1];
        if i > 1 { assert fields[i - 1] == rest[i - 2]; }
      }
    }
    if FieldsOk(fields, depth, prev) {
      forall i | 0 < i < |rest|
        ensures Less(rest[i - 1].key, rest[i].key)
      {
        assert fields[i + 1] == rest[i] && fields[i] == rest[i - 1];
      }
    }
  }

  lemma CountExactly(b: seq<Byte>, at: nat, per: nat, count: nat, rest: seq<Byte>)
    requires per > 0 && |rest| >= per * count && count < U64
    ensures Holds(b, at, Varint.Encode(count) + rest) ==>
      ReadCount(b, at, per) == Ok((count, at + |Varint.Encode(count)|)) && Holds(b, at + |Varint.Encode(count)|, rest)
  {
    hide Varint.Encode, ReadVarint;
    HoldsParts(b, at, Varint.Encode(count), rest);
    VarintExactly(b, at, count, at + |Varint.Encode(count)|);
    if Holds(b, at, Varint.Encode(count) + rest) {
      var left := |b| - (at + |Varint.Encode(count)|);
      DivideBound(count, per, left);
    }
  }

  lemma DivideBound(count: nat, per: nat, left: nat)
    requires per > 0 && per * count <= left
    ensures count <= left / per
  {
    var q := left / per;
    assert left == per * q + left % per && per * (q + 1) == per * q + per;
    if q + 1 <= count {
      Scale(q + 1, count, per);
    }
  }

  lemma Scale(a: nat, b: nat, k: nat)
    requires a <= b
    ensures k * a <= k * b
  {
  }

  lemma CountSound(b: seq<Byte>, at: nat, per: nat)
    requires per > 0 && ReadCount(b, at, per).Ok?
    ensures var (count, p) := ReadCount(b, at, per).value;
            count < U64 && Holds(b, at, Varint.Encode(count)) && p == at + |Varint.Encode(count)| && p <= |b|
  {
    hide Varint.Encode, ReadVarint, Holds;
    var (count, p) := ReadVarint(b, at).value;
    VarintExactly(b, at, count, p);
  }

  // ----- Soundness -----

  lemma {:induction false} ReadTreeSound(b: seq<Byte>, at: nat, depth: nat)
    requires ReadTree(b, at, depth).Ok?
    ensures Stands(b, at, depth, ReadTree(b, at, depth).value.0, ReadTree(b, at, depth).value.1)
    decreases MAX_DEPTH + 1 - depth, 1
  {
    OneByte(b, at);
    var tag: Byte := ReadUint(b, at, 1).value.0;
    if tag == 7 {
      ArraySound(b, at, depth);
    } else if tag == 8 {
      PlainMapSound(b, at, depth);
    } else if tag == 9 {
      IndexedMapSound(b, at, depth);
    } else {
      hide ReadUint, ReadLeaf, Holds, LeafBytes;
      LeafSound(b, at, tag);
    }
  }

  lemma {:induction false} ArraySound(b: seq<Byte>, at: nat, depth: nat)
    requires ReadTree(b, at, depth).Ok? && ReadUint(b, at, 1) == Ok((7, at + 1))
    ensures Stands(b, at, depth, ReadTree(b, at, depth).value.0, ReadTree(b, at, depth).value.1)
    decreases MAX_DEPTH + 1 - depth, 0
  {
    hide ReadCount, ReadItems, Holds, Varint.Encode, ReadUint, ItemsBytes;
    var (count, q) := ReadCount(b, at + 1, 1).value;
    CountSound(b, at + 1, 1);
    ReadItemsSound(b, q, count, depth + 1);
    var items := ReadItems(b, q, count, depth + 1).value.0;
    HoldsParts(b, at + 1, Varint.Encode(count), ItemsBytes(items));
    ByteExactly(b, at, 7, Varint.Encode(count) + ItemsBytes(items));
  }

  lemma {:induction false} PlainMapSound(b: seq<Byte>, at: nat, depth: nat)
    requires ReadTree(b, at, depth).Ok? && ReadUint(b, at, 1) == Ok((8, at + 1))
    ensures Stands(b, at, depth, ReadTree(b, at, depth).value.0, ReadTree(b, at, depth).value.1)
    decreases MAX_DEPTH + 1 - depth, 0
  {
    hide ReadCount, ReadFields, Holds, Varint.Encode, ReadUint, FieldsBytes, Utf8, Less, Offsets;
    var (count, q) := ReadCount(b, at + 1, 2).value;
    CountSound(b, at + 1, 2);
    ReadFieldsSound(b, q, count, depth + 1, None, q, None);
    var fields := ReadFields(b, q, count, depth + 1, None, q, None).value.0;
    HoldsParts(b, at + 1, Varint.Encode(count), FieldsBytes(fields));
    ByteExactly(b, at, 8, Varint.Encode(count) + FieldsBytes(fields));
  }

  lemma {:induction false} IndexedMapSound(b: seq<Byte>, at: nat, depth: nat)
    requires ReadTree(b, at, depth).Ok? && ReadUint(b, at, 1) == Ok((9, at + 1))
    ensures Stands(b, at, depth, ReadTree(b, at, depth).value.0, ReadTree(b, at, depth).value.1)
    decreases MAX_DEPTH + 1 - depth, 0
  {
    hide ReadCount, ReadFields, Holds, Varint.Encode, ReadUint, FieldsBytes, Utf8, Less, Offsets, TableBytes;
    var (count, q) := ReadCount(b, at + 1, 4).value;
    CountSound(b, at + 1, 4);
    var base := q + 2 * count;
    ReadFieldsSound(b, base, count, depth + 1, Some(q), base, None);
    var fields := ReadFields(b, base, count, depth + 1, Some(q), base, None).value.0;
    var table := TableBytes(Offsets(fields, 0));
    HoldsParts(b, q, table, FieldsBytes(fields));
    HoldsParts(b, at + 1, Varint.Encode(count), table + FieldsBytes(fields));
    ByteExactly(b, at, 9, Varint.Encode(count) + (table + FieldsBytes(fields)));
  }

  lemma {:induction false} ReadItemsSound(b: seq<Byte>, at: nat, count: nat, depth: nat)
    requires ReadItems(b, at, count, depth).Ok? && at <= |b|
    ensures var (items, end) := ReadItems(b, at, count, depth).value;
            |items| == count && ItemsStand(b, at, depth, items, end)
    decreases MAX_DEPTH + 1 - depth, count + 1
  {
    hide ReadTree, Holds, TreeOk, TreeBytes;
    if count == 0 {
      HoldsMeans(b, at, []);
    } else {
      var (t, p) := ReadTree(b, at, depth).value;
      ReadTreeSound(b, at, depth);
      HoldsMeans(b, at, TreeBytes(t));
      ReadItemsSound(b, p, count - 1, depth);
      var rest := ReadItems(b, p, count - 1, depth).value.0;
      var items := [t] + rest;
      assert items[1..] == rest;
      HoldsParts(b, at, TreeBytes(t), ItemsBytes(rest));
    }
  }

  lemma {:induction false} ReadFieldsSound(b: seq<Byte>, at: nat, count: nat, depth: nat, slot: Option<nat>, base: nat, prev: Option<seq<Byte>>)
    requires ReadFields(b, at, count, depth, slot, base, prev).Ok? && base <= at <= |b|
    requires slot.Some? ==> slot.value <= |b|
    ensures var (fields, end) := ReadFields(b, at, count, depth, slot, base, prev).value;
            |fields| == count && FieldsStand(b, at, depth, slot, base, prev, fields, end)
    decreases MAX_DEPTH + 1 - depth, count + 1
  {
    hide ReadTree, ReadString, Holds, TreeOk, TreeBytes, Utf8, Less, Cursor.Blob, At;
    if count == 0 {
      HoldsMeans(b, at, []);
      if slot.Some? {
        HoldsMeans(b, slot.value, []);
      }
      return;
    }
    var (key, p) := ReadString(b, at).value;
    StringExactly(b, at, key, p);
    var (t, q) := ReadTree(b, p, depth).value;
    ReadTreeSound(b, p, depth);
    HoldsMeans(b, p, TreeBytes(t));
    var f := Field(key, t);
    ReadFieldsSound(b, q, count - 1, depth, NextSlot(slot), base, Some(key));
    var rest := ReadFields(b, q, count - 1, depth, NextSlot(slot), base, Some(key)).value.0;
    var fields := [f] + rest;
    assert fields[1..] == rest;
    HoldsParts(b, at, Cursor.Blob(key), TreeBytes(t));
    HoldsParts(b, at, FieldBytes(f), FieldsBytes(rest));
    FieldsOkTail(fields, depth, prev);
    if slot.Some? {
      TableEntrySound(b, slot.value, at - base, Offsets(rest, q - base));
    }
  }

  lemma TableEntrySound(b: seq<Byte>, slot: nat, offset: nat, rest: seq<nat>)
    requires slot + 2 <= |b| && At(b, slot, 2) == offset && TableStands(b, Some(slot + 2), rest)
    ensures TableStands(b, Some(slot), [offset] + rest)
  {
    hide At, Holds;
    var all := [offset] + rest;
    assert all[1..] == rest;
    assert Pow256(2) == 65536;
    UintExactly(b, slot, 2, offset, slot + 2);
    HoldsParts(b, slot, Le(offset, 2), TableBytes(rest));
  }

  // ----- Completeness -----

  lemma {:induction false} ReadTreeComplete(b: seq<Byte>, at: nat, depth: nat, t: Tree)
    requires TreeOk(t, depth) && Holds(b, at, TreeBytes(t))
    ensures ReadTree(b, at, depth) == Ok((t, at + |TreeBytes(t)|))
    decreases t, 0
  {
    hide ReadTree, TreeOk, TreeBytes, Holds;
    match t
    case Leaf(v) => LeafTreeComplete(b, at, depth, v);
    case Items(items) => ArrayComplete(b, at, depth, items);
    case Fields(indexed, fields) =>
      if indexed {
        IndexedMapComplete(b, at, depth, fields);
      } else {
        PlainMapComplete(b, at, depth, fields);
      }
  }

  lemma LeafTreeComplete(b: seq<Byte>, at: nat, depth: nat, v: Value)
    requires TreeOk(Leaf(v), depth) && Holds(b, at, TreeBytes(Leaf(v)))
    ensures ReadTree(b, at, depth) == Ok((Leaf(v), at + |TreeBytes(Leaf(v))|))
  {
    hide ReadUint, ReadLeaf, Holds, LeafBytes, LeafTag;
    LeafComplete(b, at, v);
  }

  lemma {:induction false} ArrayComplete(b: seq<Byte>, at: nat, depth: nat, items: seq<Tree>)
    requires TreeOk(Items(items), depth) && Holds(b, at, TreeBytes(Items(items)))
    ensures ReadTree(b, at, depth) == Ok((Items(items), at + |TreeBytes(Items(items))|))
    decreases items, 2
  {
    hide ReadCount, ReadItems, Holds, Varint.Encode, ReadUint, ItemsBytes;
    var rest := Varint.Encode(|items|) + ItemsBytes(items);
    ByteExactly(b, at, 7, rest);
    CountExactly(b, at + 1, 1, |items|, ItemsBytes(items));
    ReadItemsComplete(b, at + 1 + |Varint.Encode(|items|)|, depth + 1, items);
  }

  lemma {:induction false} PlainMapComplete(b: seq<Byte>, at: nat, depth: nat, fields: seq<Field>)
    requires TreeOk(Fields(false, fields), depth) && Holds(b, at, TreeBytes(Fields(false, fields)))
    ensures ReadTree(b, at, depth) == Ok((Fields(false, fields), at + |TreeBytes(Fields(false, fields))|))
    decreases fields, 2
  {
    hide ReadCount, ReadFields, Holds, Varint.Encode, ReadUint, FieldsBytes, Utf8, Less, Offsets;
    ByteExactly(b, at, 8, Varint.Encode(|fields|) + FieldsBytes(fields));
    CountExactly(b, at + 1, 2, |fields|, FieldsBytes(fields));
    var q := at + 1 + |Varint.Encode(|fields|)|;
    ReadFieldsComplete(b, q, depth + 1, None, q, None, fields);
  }

  lemma {:induction false} IndexedMapComplete(b: seq<Byte>, at: nat, depth: nat, fields: seq<Field>)
    requires TreeOk(Fields(true, fields), depth) && Holds(b, at, TreeBytes(Fields(true, fields)))
    ensures ReadTree(b, at, depth) == Ok((Fields(true, fields), at + |TreeBytes(Fields(true, fields))|))
    decreases fields, 2
  {
    hide ReadCount, ReadFields, Holds, Varint.Encode, ReadUint, FieldsBytes, Utf8, Less, Offsets, TableBytes;
    var table := TableBytes(Offsets(fields, 0));
    ByteExactly(b, at, 9, Varint.Encode(|fields|) + (table + FieldsBytes(fields)));
    CountExactly(b, at + 1, 4, |fields|, table + FieldsBytes(fields));
    var q := at + 1 + |Varint.Encode(|fields|)|;
    HoldsParts(b, q, table, FieldsBytes(fields));
    HoldsMeans(b, q, table);
    ReadFieldsComplete(b, q + |table|, depth + 1, Some(q), q + |table|, None, fields);
  }

  lemma {:induction false} ReadItemsComplete(b: seq<Byte>, at: nat, depth: nat, items: seq<Tree>)
    requires ItemsStand(b, at, depth, items, at + |ItemsBytes(items)|)
    ensures ReadItems(b, at, |items|, depth) == Ok((items, at + |ItemsBytes(items)|))
    decreases items, 1
  {
    hide ReadTree, Holds, TreeOk, TreeBytes;
    if items != [] {
      var rest := items[1..];
      HoldsParts(b, at, TreeBytes(items[0]), ItemsBytes(rest));
      ReadTreeComplete(b, at, depth, items[0]);
      ReadItemsComplete(b, at + |TreeBytes(items[0])|, depth, rest);
      assert items == [items[0]] + rest;
    }
  }

  lemma {:induction false} ReadFieldsComplete(b: seq<Byte>, at: nat, depth: nat, slot: Option<nat>, base: nat, prev: Option<seq<Byte>>, fields: seq<Field>)
    requires FieldsStand(b, at, depth, slot, base, prev, fields, at + |FieldsBytes(fields)|)
    ensures ReadFields(b, at, |fields|, depth, slot, base, prev) == Ok((fields, at + |FieldsBytes(fields)|))
    decreases fields, 1
  {
    hide ReadTree, ReadString, Holds, TreeOk, TreeBytes, Utf8, Less, Cursor.Blob, At;
    if fields != [] {
      var f, rest := fields[0], fields[1..];
      FieldsOkTail(fields, depth, prev);
      HoldsParts(b, at, FieldBytes(f), FieldsBytes(rest));
      HoldsParts(b, at, Cursor.Blob(f.key), TreeBytes(f.tree));
      var p := at + |Cursor.Blob(f.key)|;
      StringExactly(b, at, f.key, p);
      ReadTreeComplete(b, p, depth, f.tree);
      if slot.Some? {
        assert Offsets(fields, at - base)[0] == at - base;
        assert Offsets(fields, at - base) == [at - base] + Offsets(rest, at - base + |FieldBytes(f)|);
        TableEntryComplete(b, slot.value, at - base, Offsets(rest, at - base + |FieldBytes(f)|));
      }
      ReadFieldsComplete(b, at + |FieldBytes(f)|, depth, NextSlot(slot), base, Some(f.key), rest);
      assert fields == [f] + rest;
    }
  }

  lemma TableEntryComplete(b: seq<Byte>, slot: nat, offset: nat, rest: seq<nat>)
    requires TableStands(b, Some(slot), [offset] + rest)
    ensures slot + 2 <= |b| && At(b, slot, 2) == offset && TableStands(b, Some(slot + 2), rest)
  {
    hide At, Holds;
    var all := [offset] + rest;
    assert all[0] == offset && all[1..] == rest;
    assert forall i :: 0 <= i < |rest| ==> rest[i] == all[i + 1];
    assert Pow256(2) == 65536;
    ReadBack(b, slot, offset, 2, TableBytes(rest));
  }

  // ----- Decoding -----

  /** Decode a whole buffer: nothing may follow the value. */
  function Decode(b: seq<Byte>): Result<Value, FormatError> {
    match ReadTree(b, 0, 1)
    case Err(e) => Err(e)
    case Ok((t, end)) => if end == |b| then Ok(Erase(t)) else Err(Malformed)
  }

  /** The decoder accepts exactly the bytes of allowed trees, and yields the tree's value. */
  lemma DecodesExactly(b: seq<Byte>, v: Value)
    ensures Decode(b) == Ok(v) <==> exists t :: TreeOk(t, 1) && b == TreeBytes(t) && Erase(t) == v
  {
    hide ReadTree, TreeOk, TreeBytes, Erase;
    if Decode(b) == Ok(v) {
      ReadTreeSound(b, 0, 1);
      var (t, end) := ReadTree(b, 0, 1).value;
      HoldsMeans(b, 0, TreeBytes(t));
      assert b[0..|b|] == b;
      assert b == TreeBytes(t);
    }
    if t :| TreeOk(t, 1) && b == TreeBytes(t) && Erase(t) == v {
      WholeHolds(b);
      ReadTreeComplete(b, 0, 1, t);
    }
  }

  /** No two allowed trees share their bytes. */
  lemma BytesDetermineTree(t: Tree, u: Tree)
    requires TreeOk(t, 1) && TreeOk(u, 1) && TreeBytes(t) == TreeBytes(u)
    ensures t == u
  {
    hide ReadTree, TreeOk, TreeBytes, Holds;
    var b := TreeBytes(t);
    WholeHolds(b);
    ReadTreeComplete(b, 0, 1, t);
    ReadTreeComplete(b, 0, 1, u);
  }
}
