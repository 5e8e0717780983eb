/**
  What skipping accepts.  A `Lax` tree is a value as the skipper sees it: floats and text
  unchecked, keys in any order, an offset table holding anything.  Skipping accepts exactly
  the bytes of lax trees, and decoding exactly those of strict ones among them.
*/
module ValueLax {
  import opened Prelude
  import opened Bytes
  import opened Cursor
  import opened Value
  import opened ValueRead
  import opened ValueSkip
  import Varint

  datatype Lax =
    | Raw(value: Value)
    | RawItems(items: seq<Lax>)
    | RawFields(table: Option<seq<Byte>>, fields: seq<LaxField>)

  datatype LaxField = LaxField(key: seq<Byte>, tree: Lax)

  // ----- Bytes -----

  function LaxBytes(t: Lax): (r: seq<Byte>)
    ensures |r| > 0
    decreases t, 0
  {
    match t
    case Raw(v) => if IsLeaf(v) then LeafBytes(v) else [0]
    case RawItems(items) => [7] + (Varint.Encode(|items|) + LaxItemsBytes(items))
    case RawFields(None, fields) => [8] + (Varint.Encode(|fields|) + LaxFieldsBytes(fields))
    case RawFields(Some(table), fields) => [9] + (Varint.Encode(|fields|) + (table + LaxFieldsBytes(fields)))
  }

  function LaxItemsBytes(items: seq<Lax>): (r: seq<Byte>)
    ensures |r| >= |items|
    decreases items, 1
  {
    if items == [] then [] else LaxBytes(items[0]) + LaxItemsBytes(items[1..])
  }

  function LaxFieldBytes(f: LaxField): (r: seq<Byte>)
    ensures |r| >= 2
    decreases f, 1
  {
    Cursor.Blob(f.key) + LaxBytes(f.tree)
  }

  function LaxFieldsBytes(fields: seq<LaxField>): (r: seq<Byte>)
    ensures |r| >= 2 * |fields|
    decreases fields, 2
  {
    if fields == [] then [] else LaxFieldBytes(fields[0]) + LaxFieldsBytes(fields[1..])
  }

  /** Where each field starts, counted from the first. */
  function LaxOffsets(fields: seq<LaxField>, from: nat): (r: seq<nat>)
    ensures |r| == |fields|
  {
    if fields == [] then [] else [from] + LaxOffsets(fields[1..], from + |LaxFieldBytes(fields[0])|)
  }

  // ----- Lax and strict -----

  /** Sizes within 64 bits, a table of two bytes a field, nesting within the limit. */
  predicate LaxLeaf(v: Value) {
    match v
    case F64(bits) => |bits| == 8
    case Str(text) => |text| < U64
    case Blob(bytes) => |bytes| < U64
    case Array(_) => false
    case Map(_) => false
    case _ => true
  }

  ghost predicate LaxOk(t: Lax, depth: nat)
    decreases t
  {
    && depth <= MAX_DEPTH
    && match t
       case Raw(v) => LaxLeaf(v)
       case RawItems(items) => |items| < U64 && forall i :: 0 <= i < |items| ==> LaxOk(items[i], depth + 1)
       case RawFields(table, fields) =>
         && |fields| < U64 && (table.Some? ==> |table.value| == 2 * |fields|)
         && forall i :: 0 <= i < |fields| ==> |fields[i].key| < U64 && LaxOk(fields[i].tree, depth + 1)
  }

  /** Floats finite and text UTF-8. */
  predicate StrictLeaf(v: Value) {
    match v
    case F64(bits) => |bits| == 8 && Finite(bits)
    case Str(text) => Utf8(text)
    case _ => true
  }

  /** Wide enough to have a table, and the table says where each field starts. */
  ghost predicate TableRight(table: seq<Byte>, fields: seq<LaxField>) {
    && |fields| >= INDEX_MIN_ENTRIES && table == TableBytes(LaxOffsets(fields, 0))
    && forall i :: 0 <= i < |fields| ==> LaxOffsets(fields, 0)[i] <= MAX_OFFSET
  }

  /** Keys are text and strictly ascending. */
  ghost predicate KeysRight(fields: seq<LaxField>) {
    && (forall i :: 0 <= i < |fields| ==> Utf8(fields[i].key))
    && forall i :: 0 < i < |fields| ==> Less(fields[i - 1].key, fields[i].key)
  }

  ghost predicate Strict(t: Lax)
    decreases t
  {
    match t
    case Raw(v) => StrictLeaf(v)
    case RawItems(items) => forall i :: 0 <= i < |items| ==> Strict(items[i])
    case RawFields(table, fields) =>
      && KeysRight(fields) && (table.Some? ==> TableRight(table.value, fields))
      && forall i :: 0 <= i < |fields| ==> Strict(fields[i].tree)
  }

  // ----- Reading a lax tree: the skipper, keeping what it passes -----

  function SkimLeaf(b: seq<Byte>, at: nat, tag: nat): Read<Value> {
    if tag == 0 then Ok((Null, at))
    else if tag == 1 then Ok((Bool(false), at))
    else if tag == 2 then Ok((Bool(true), at))
    else if tag == 3 then
      var (u, p) :- ReadVarint(b, at);
      VarintExactly(b, at, u, p);
      Ok((I64(Varint.Unzigzag(u)), p))
    else if tag == 4 then
      var (bits, p) :- ReadBytes(b, at, 8);
      Ok((F64(bits), p))
    else if tag == 5 then
      var (s, p) :- ReadBlob(b, at);
      Ok((Str(s), p))
    else if tag == 6 then
      var (s, p) :- ReadBlob(b, at);
      Ok((Value.Blob(s), p))
    else Err(Malformed)
  }

  function Skim(b: seq<Byte>, at: nat, depth: nat): Read<Lax>
    decreases MAX_DEPTH + 1 - depth, 0
  {
    if depth > MAX_DEPTH then Err(Malformed)
    else
      var (tag, p) :- ReadUint(b, at, 1);
      if tag == 7 then
        var (count, q) :- ReadCount(b, p, 1);
        var (items, end) :- SkimItems(b, q, count, depth + 1);
        Ok((RawItems(items), end))
      else if tag == 8 then
        var (count, q) :- ReadCount(b, p, 2);
        var (fields, end) :- SkimFields(b, q, count, depth + 1);
        Ok((RawFields(None, fields), end))
      else if tag == 9 then
        var (count, q) :- ReadCount(b, p, 4);
        var (table, base) :- ReadBytes(b, q, 2 * count);
        var (fields, end) :- SkimFields(b, base, count, depth + 1);
        Ok((RawFields(Some(table), fields), end))
      else
        var (v, end) :- SkimLeaf(b, p, tag);
        Ok((Raw(v), end))
  }

  function SkimItems(b: seq<Byte>, at: nat, count: nat, depth: nat): Read<seq<Lax>>
    decreases MAX_DEPTH + 1 - depth, count + 1
  {
    if count == 0 then Ok(([], at))
    else
      var (t, p) :- Skim(b, at, depth);
      var (rest, end) :- SkimItems(b, p, count - 1, depth);
      Ok(([t] + rest, end))
  }

  function SkimFields(b: seq<Byte>, at: nat, count: nat, depth: nat): Read<seq<LaxField>>
    decreases MAX_DEPTH + 1 - depth, count + 1
  {
    if count == 0 then Ok(([], at))
    else
      var (key, p) :- ReadBlob(b, at);
      var (t, q) :- Skim(b, p, depth);
      var (rest, end) :- SkimFields(b, q, count - 1, depth);
      Ok(([LaxField(key, t)] + rest, end))
  }

  /** Where a read ends. */
  function End<T>(r: Read<T>): Result<nat, FormatError> {
    match r
    case Ok((_, end)) => Ok(end)
    case Err(e) => Err(e)
  }

  /** Skimming is skipping. */
  lemma {:induction false} SkipIsSkim(b: seq<Byte>, at: nat, depth: nat)
    ensures Skip(b, at, depth) == End(Skim(b, at, depth))
    decreases MAX_DEPTH + 1 - depth, 0
  {
    hide ReadUint, ReadVarint, ReadBlob, ReadBytes, ReadCount, SkipItems, SkimItems, SkipFields, SkimFields;
    if depth <= MAX_DEPTH && ReadUint(b, at, 1).Ok? {
      var (tag, p) := ReadUint(b, at, 1).value;
      var per := if tag == 7 then 1 else if tag == 8 then 2 else 4;
      if ReadCount(b, p, per).Ok? {
        var (count, q) := ReadCount(b, p, per).value;
        SkipItemsIsSkim(b, q, count, depth + 1);
        SkipFieldsIsSkim(b, q, count, depth + 1);
        if ReadBytes(b, q, 2 * count).Ok? {
          SkipFieldsIsSkim(b, ReadBytes(b, q, 2 * count).value.1, count, depth + 1);
        }
      }
    }
  }

  lemma {:induction false} SkipItemsIsSkim(b: seq<Byte>, at: nat, count: nat, depth: nat)
    ensures SkipItems(b, at, count, depth) == End(SkimItems(b, at, count, depth))
    decreases MAX_DEPTH + 1 - depth, count + 1
  {
    hide Skip, Skim;
    if count > 0 {
      SkipIsSkim(b, at, depth);
      if Skim(b, at, depth).Ok? {
        SkipItemsIsSkim(b, Skim(b, at, depth).value.1, count - 1, depth);
      }
    }
  }

  lemma {:induction false} SkipFieldsIsSkim(b: seq<Byte>, at: nat, count: nat, depth: nat)
    ensures SkipFields(b, at, count, depth) == End(SkimFields(b, at, count, depth))
    decreases MAX_DEPTH + 1 - depth, count + 1
  {
    hide Skip, Skim, ReadBlob;
    if count > 0 && ReadBlob(b, at).Ok? {
      var p := ReadBlob(b, at).value.1;
      SkipIsSkim(b, p, depth);
      if Skim(b, p, depth).Ok? {
        SkipFieldsIsSkim(b, Skim(b, p, depth).value.1, count - 1, depth);
      }
    }
  }

  // ----- Skimming accepts exactly the bytes of lax trees -----

  ghost predicate LeafHere(b: seq<Byte>, at: nat, tag: Byte, v: Value, end: nat) {
    && LaxLeaf(v) && LeafTag(v) == tag
    && Holds(b, at, LeafBody(v)) && end == at + |LeafBody(v)|
  }

  lemma SkimLeafSound(b: seq<Byte>, at: nat, tag: Byte)
    requires at <= |b| && SkimLeaf(b, at, tag).Ok?
    ensures LeafHere(b, at, tag, SkimLeaf(b, at, tag).value.0, SkimLeaf(b, at, tag).value.1)
  {
    hide Holds, ReadVarint, ReadBlob, Varint.Encode, Cursor.Blob;
    var (v, end) := SkimLeaf(b, at, tag).value;
    if tag == 3 {
      var (u, p) := ReadVarint(b, at).value;
      VarintExactly(b, at, u, p);
      Varint.ZigzagBijective(Varint.Unzigzag(u), u);
    } else if tag == 4 {
      HoldsMeans(b, at, v.bits);
    } else if tag == 5 {
      var (s, p) := ReadBlob(b, at).value;
      BlobExactly(b, at, s, p);
    } else if tag == 6 {
      var (s, p) := ReadBlob(b, at).value;
      BlobExactly(b, at, s, p);
    } else {
      HoldsMeans(b, at, []);
    }
  }

  lemma SkimLeafComplete(b: seq<Byte>, at: nat, v: Value)
    requires LaxLeaf(v) && Holds(b, at, LeafBody(v))
    ensures SkimLeaf(b, at, LeafTag(v)) == Ok((v, at + |LeafBody(v)|))
  {
    hide Holds, ReadVarint, ReadBlob, Varint.Encode, Cursor.Blob;
    match v
    case Null =>
    case Bool(_) =>
    case I64(i) =>
      var u := Varint.Zigzag(i);
      VarintExactly(b, at, u, at + |Varint.Encode(u)|);
      Varint.ZigzagBijective(i, u);
    case F64(bits) => HoldsMeans(b, at, bits);
    case Str(text) => BlobExactly(b, at, text, at + |Cursor.Blob(text)|);
    case Blob(bytes) => BlobExactly(b, at, bytes, at + |Cursor.Blob(bytes)|);
  }

  ghost predicate LaxHere(b: seq<Byte>, at: nat, depth: nat, t: Lax, end: nat) {
    LaxOk(t, depth) && Holds(b, at, LaxBytes(t)) && end == at + |LaxBytes(t)|
  }

  ghost predicate LaxItemsHere(b: seq<Byte>, at: nat, depth: nat, items: seq<Lax>, end: nat) {
    && (forall i :: 0 <= i < |items| ==> LaxOk(items[i], depth))
    && Holds(b, at, LaxItemsBytes(items)) && end == at + |LaxItemsBytes(items)|
  }

  ghost predicate LaxFieldsHere(b: seq<Byte>, at: nat, depth: nat, fields: seq<LaxField>, end: nat) {
    && (forall i :: 0 <= i < |fields| ==> |fields[i].key| < U64 && LaxOk(fields[i].tree, depth))
    && Holds(b, at, LaxFieldsBytes(fields)) && end == at + |LaxFieldsBytes(fields)|
  }

  lemma {:induction false} SkimSound(b: seq<Byte>, at: nat, depth: nat)
    requires Skim(b, at, depth).Ok?
    ensures LaxHere(b, at, depth, Skim(b, at, depth).value.0, Skim(b, at, depth).value.1)
    decreases MAX_DEPTH + 1 - depth, 1
  {
    OneByte(b, at);
    var tag: Byte := ReadUint(b, at, 1).value.0;
    if tag == 7 {
      SkimArraySound(b, at, depth);
    } else if tag == 8 {
      SkimPlainSound(b, at, depth);
    } else if tag == 9 {
      SkimIndexedSound(b, at, depth);
    } else {
      hide ReadUint, SkimLeaf, Holds, LeafBody;
      SkimLeafSound(b, at + 1, tag);
      ByteExactly(b, at, tag, LeafBody(SkimLeaf(b, at + 1, tag).value.0));
    }
  }

  lemma {:induction false} SkimArraySound(b: seq<Byte>, at: nat, depth: nat)
    requires Skim(b, at, depth).Ok? && ReadUint(b, at, 1) == Ok((7, at + 1))
    ensures LaxHere(b, at, depth, Skim(b, at, depth).value.0, Skim(b, at, depth).value.1)
    decreases MAX_DEPTH + 1 - depth, 0
  {
    hide ReadCount, SkimItems, Holds, Varint.Encode, ReadUint, LaxItemsBytes;
    var (count, q) := ReadCount(b, at + 1, 1).value;
    CountSound(b, at + 1, 1);
    SkimItemsSound(b, q, count, depth + 1);
    var items := SkimItems(b, q, count, depth + 1).value.0;
    HoldsParts(b, at + 1, Varint.Encode(count), LaxItemsBytes(items));
    ByteExactly(b, at, 7, Varint.Encode(count) + LaxItemsBytes(items));
  }

  lemma {:induction false} SkimPlainSound(b: seq<Byte>, at: nat, depth: nat)
    requires Skim(b, at, depth).Ok? && ReadUint(b, at, 1) == Ok((8, at + 1))
    ensures LaxHere(b, at, depth, Skim(b, at, depth).value.0, Skim(b, at, depth).value.1)
    decreases MAX_DEPTH + 1 - depth, 0
  {
    hide ReadCount, SkimFields, Holds, Varint.Encode, ReadUint, LaxFieldsBytes;
    var (count, q) := ReadCount(b, at + 1, 2).value;
    CountSound(b, at + 1, 2);
    SkimFieldsSound(b, q, count, depth + 1);
    var fields := SkimFields(b, q, count, depth + 1).value.0;
    HoldsParts(b, at + 1, Varint.Encode(count), LaxFieldsBytes(fields));
    ByteExactly(b, at, 8, Varint.Encode(count) + LaxFieldsBytes(fields));
  }

  lemma {:induction false} SkimIndexedSound(b: seq<Byte>, at: nat, depth: nat)
    requires Skim(b, at, depth).Ok? && ReadUint(b, at, 1) == Ok((9, at + 1))
    ensures LaxHere(b, at, depth, Skim(b, at, depth).value.0, Skim(b, at, depth).value.1)
    decreases MAX_DEPTH + 1 - depth, 0
  {
    hide ReadCount, SkimFields, Holds, Varint.Encode, ReadUint, LaxFieldsBytes;
    var (count, q) := ReadCount(b, at + 1, 4).value;
    CountSound(b, at + 1, 4);
    var (table, base) := ReadBytes(b, q, 2 * count).value;
    HoldsMeans(b, q, table);
    SkimFieldsSound(b, base, count, depth + 1);
    var fields := SkimFields(b, base, count, depth + 1).value.0;
    HoldsParts(b, q, table, LaxFieldsBytes(fields));
    HoldsParts(b, at + 1, Varint.Encode(count), table + LaxFieldsBytes(fields));
    ByteExactly(b, at, 9, Varint.Encode(count) + (table + LaxFieldsBytes(fields)));
  }

  lemma {:induction false} SkimItemsSound(b: seq<Byte>, at: nat, count: nat, depth: nat)
    requires SkimItems(b, at, count, depth).Ok? && at <= |b|
    ensures var (items, end) := SkimItems(b, at, count, depth).value;
            |items| == count && LaxItemsHere(b, at, depth, items, end)
    decreases MAX_DEPTH + 1 - depth, count + 1
  {
    hide Skim, Holds, LaxOk, LaxBytes;
    if count == 0 {
      HoldsMeans(b, at, []);
    } else {
      var (t, p) := Skim(b, at, depth).value;
      SkimSound(b, at, depth);
      HoldsMeans(b, at, LaxBytes(t));
      SkimItemsSound(b, p, count - 1, depth);
      var rest := SkimItems(b, p, count - 1, depth).value.0;
      assert ([t] + rest)[1..] == rest;
      HoldsParts(b, at, LaxBytes(t), LaxItemsBytes(rest));
    }
  }

  lemma {:induction false} SkimFieldsSound(b: seq<Byte>, at: nat, count: nat, depth: nat)
    requires SkimFields(b, at, count, depth).Ok? && at <= |b|
    ensures var (fields, end) := SkimFields(b, at, count, depth).value;
            |fields| == count && LaxFieldsHere(b, at, depth, fields, end)
    decreases MAX_DEPTH + 1 - depth, count + 1
  {
    hide Skim, ReadBlob, Holds, LaxOk, LaxBytes, Cursor.Blob;
    if count == 0 {
      HoldsMeans(b, at, []);
    } else {
      var (key, p) := ReadBlob(b, at).value;
      BlobExactly(b, at, key, p);
      var (t, q) := Skim(b, p, depth).value;
      SkimSound(b, p, depth);
      HoldsMeans(b, p, LaxBytes(t));
      var f := LaxField(key, t);
      SkimFieldsSound(b, q, count - 1, depth);
      var rest := SkimFields(b, q, count - 1, depth).value.0;
      assert ([f] + rest)[1..] == rest;
      HoldsParts(b, at, Cursor.Blob(key), LaxBytes(t));
      HoldsParts(b, at, LaxFieldBytes(f), LaxFieldsBytes(rest));
    }
  }

  lemma {:induction false} SkimComplete(b: seq<Byte>, at: nat, depth: nat, t: Lax)
    requires LaxOk(t, depth) && Holds(b, at, LaxBytes(t))
    ensures Skim(b, at, depth) == Ok((t, at + |LaxBytes(t)|))
    decreases t, 0
  {
    hide Skim, LaxOk, LaxBytes, Holds;
    match t
    case Raw(v) => SkimRawComplete(b, at, depth, v);
    case RawItems(items) => SkimArrayComplete(b, at, depth, items);
    case RawFields(None, fields) => SkimPlainComplete(b, at, depth, fields);
    case RawFields(Some(table), fields) => SkimIndexedComplete(b, at, depth, table, fields);
  }

  lemma SkimRawComplete(b: seq<Byte>, at: nat, depth: nat, v: Value)
    requires LaxOk(Raw(v), depth) && Holds(b, at, LaxBytes(Raw(v)))
    ensures Skim(b, at, depth) == Ok((Raw(v), at + |LaxBytes(Raw(v))|))
  {
    hide ReadUint, SkimLeaf, Holds, LeafBody, LeafTag;
    ByteExactly(b, at, LeafTag(v), LeafBody(v));
    SkimLeafComplete(b, at + 1, v);
  }

  lemma {:induction false} SkimArrayComplete(b: seq<Byte>, at: nat, depth: nat, items: seq<Lax>)
    requires LaxOk(RawItems(items), depth) && Holds(b, at, LaxBytes(RawItems(items)))
    ensures Skim(b, at, depth) == Ok((RawItems(items), at + |LaxBytes(RawItems(items))|))
    decreases items, 2
  {
    hide ReadCount, SkimItems, Holds, Varint.Encode, ReadUint, LaxItemsBytes;
    ByteExactly(b, at, 7, Varint.Encode(|items|) + LaxItemsBytes(items));
    CountExactly(b, at + 1, 1, |items|, LaxItemsBytes(items));
    SkimItemsComplete(b, at + 1 + |Varint.Encode(|items|)|, depth + 1, items);
  }

  lemma {:induction false} SkimPlainComplete(b: seq<Byte>, at: nat, depth: nat, fields: seq<LaxField>)
    requires LaxOk(RawFields(None, fields), depth) && Holds(b, at, LaxBytes(RawFields(None, fields)))
    ensures Skim(b, at, depth) == Ok((RawFields(None, fields), at + |LaxBytes(RawFields(None, fields))|))
    decreases fields, 2
  {
    hide ReadCount, SkimFields, Holds, Varint.Encode, ReadUint, LaxFieldsBytes;
    ByteExactly(b, at, 8, Varint.Encode(|fields|) + LaxFieldsBytes(fields));
    CountExactly(b, at + 1, 2, |fields|, LaxFieldsBytes(fields));
    SkimFieldsComplete(b, at + 1 + |Varint.Encode(|fields|)|, depth + 1, fields);
  }

  lemma {:induction false} SkimIndexedComplete(b: seq<Byte>, at: nat, depth: nat, table: seq<Byte>, fields: seq<LaxField>)
    requires LaxOk(RawFields(Some(table), fields), depth) && Holds(b, at, LaxBytes(RawFields(Some(table), fields)))
    ensures Skim(b, at, depth) == Ok((RawFields(Some(table), fields), at + |LaxBytes(RawFields(Some(table), fields))|))
    decreases fields, 2
  {
    hide ReadCount, SkimFields, Holds, Varint.Encode, ReadUint, LaxFieldsBytes;
    ByteExactly(b, at, 9, Varint.Encode(|fields|) + (table + LaxFieldsBytes(fields)));
    CountExactly(b, at + 1, 4, |fields|, table + LaxFieldsBytes(fields));
    var q := at + 1 + |Varint.Encode(|fields|)|;
    HoldsParts(b, q, table, LaxFieldsBytes(fields));
    HoldsMeans(b, q, table);
    SkimFieldsComplete(b, q + |table|, depth + 1, fields);
  }

  lemma {:induction false} SkimItemsComplete(b: seq<Byte>, at: nat, depth: nat, items: seq<Lax>)
    requires LaxItemsHere(b, at, depth, items, at + |LaxItemsBytes(items)|)
    ensures SkimItems(b, at, |items|, depth) == Ok((items, at + |LaxItemsBytes(items)|))
    decreases items, 1
  {
    hide Skim, Holds, LaxOk, LaxBytes;
    if items != [] {
      var rest := items[1..];
      HoldsParts(b, at, LaxBytes(items[0]), LaxItemsBytes(rest));
      SkimComplete(b, at, depth, items[0]);
      SkimItemsComplete(b, at + |LaxBytes(items[0])|, depth, rest);
      assert items == [items[0]] + rest;
    }
  }

  lemma {:induction false} SkimFieldsComplete(b: seq<Byte>, at: nat, depth: nat, fields: seq<LaxField>)
    requires LaxFieldsHere(b, at, depth, fields, at + |LaxFieldsBytes(fields)|)
    ensures SkimFields(b, at, |fields|, depth) == Ok((fields, at + |LaxFieldsBytes(fields)|))
    decreases fields, 1
  {
    hide Skim, ReadBlob, Holds, LaxOk, LaxBytes, Cursor.Blob;
    if fields != [] {
      var f, rest := fields[0], fields[1..];
      HoldsParts(b, at, LaxFieldBytes(f), LaxFieldsBytes(rest));
      HoldsParts(b, at, Cursor.Blob(f.key), LaxBytes(f.tree));
      var p := at + |Cursor.Blob(f.key)|;
      BlobExactly(b, at, f.key, p);
      SkimComplete(b, p, depth, f.tree);
      SkimFieldsComplete(b, at + |LaxFieldBytes(f)|, depth, rest);
      assert fields == [f] + rest;
    }
  }

  /** Skipping accepts a stretch of bytes exactly when it is the bytes of a lax tree. */
  lemma SkipsExactly(b: seq<Byte>, at: nat, depth: nat, end: nat)
    ensures Skip(b, at, depth) == Ok(end) <==>
      exists t :: LaxOk(t, depth) && Holds(b, at, LaxBytes(t)) && end == at + |LaxBytes(t)|
  {
    hide Skip, Skim, LaxOk, LaxBytes, Holds;
    SkipIsSkim(b, at, depth);
    if Skip(b, at, depth) == Ok(end) {
      SkimSound(b, at, depth);
    }
    if t :| LaxOk(t, depth) && Holds(b, at, LaxBytes(t)) && end == at + |LaxBytes(t)| {
      SkimComplete(b, at, depth, t);
    }
  }

  // ----- Decoding accepts exactly the strict ones -----

  /** A strict lax tree as the decoder returns it. */
  function Tighten(t: Lax): Tree
    decreases t, 0
  {
    match t
    case Raw(v) => Leaf(v)
    case RawItems(items) => Items(TightenItems(items))
    case RawFields(table, fields) => Fields(table.Some?, TightenFields(fields))
  }

  function TightenItems(items: seq<Lax>): (r: seq<Tree>)
    ensures |r| == |items|
    decreases items, 1
  {
    if items == [] then [] else [Tighten(items[0])] + TightenItems(items[1..])
  }

  function TightenFields(fields: seq<LaxField>): (r: seq<Field>)
    ensures |r| == |fields| && forall i :: 0 <= i < |r| ==> r[i].key == fields[i].key
    decreases fields, 1
  {
    if fields == [] then [] else [Field(fields[0].key, Tighten(fields[0].tree))] + TightenFields(fields[1..])
  }

  lemma {:induction false} TightenIsStrict(t: Lax, depth: nat)
    requires LaxOk(t, depth) && Strict(t)
    ensures TreeOk(Tighten(t), depth) && TreeBytes(Tighten(t)) == LaxBytes(t)
    decreases t, 0
  {
    hide Utf8, Less, Finite, LeafBytes, Varint.Encode, Offsets, LaxOffsets;
    match t
    case Raw(_) =>
    case RawItems(items) => TightenItemsStrict(items, depth + 1);
    case RawFields(table, fields) =>
      TightenFieldsStrict(fields, depth + 1);
      SameOffsets(fields, depth + 1, 0);
  }

  lemma {:induction false} TightenItemsStrict(items: seq<Lax>, depth: nat)
    requires forall i :: 0 <= i < |items| ==> LaxOk(items[i], depth) && Strict(items[i])
    ensures forall i :: 0 <= i < |items| ==> TreeOk(TightenItems(items)[i], depth)
    ensures ItemsBytes(TightenItems(items)) == LaxItemsBytes(items)
    decreases items, 1
  {
    hide LaxOk, Strict, TreeOk, Tighten, TreeBytes, LaxBytes;
    if items != [] {
      TightenIsStrict(items[0], depth);
      TightenItemsStrict(items[1..], depth);
      assert TightenItems(items)[1..] == TightenItems(items[1..]);
    }
  }

  ghost predicate FieldsStrict(fields: seq<LaxField>, depth: nat) {
    forall i :: 0 <= i < |fields| ==> LaxOk(fields[i].tree, depth) && Strict(fields[i].tree)
  }

  lemma {:induction false} TightenFieldsStrict(fields: seq<LaxField>, depth: nat)
    requires FieldsStrict(fields, depth)
    ensures forall i :: 0 <= i < |fields| ==> TreeOk(TightenFields(fields)[i].tree, depth)
    ensures FieldsBytes(TightenFields(fields)) == LaxFieldsBytes(fields)
    decreases fields, 1
  {
    hide LaxOk, Strict, TreeOk, Tighten, TreeBytes, LaxBytes, Cursor.Blob;
    if fields != [] {
      TightenIsStrict(fields[0].tree, depth);
      TightenFieldsStrict(fields[1..], depth);
      assert TightenFields(fields)[1..] == TightenFields(fields[1..]);
    }
  }

  lemma {:induction false} SameOffsets(fields: seq<LaxField>, depth: nat, from: nat)
    requires FieldsStrict(fields, depth)
    ensures Offsets(TightenFields(fields), from) == LaxOffsets(fields, from)
    decreases fields, 1
  {
    hide LaxOk, Strict, TreeOk, Tighten, TreeBytes, LaxBytes, Cursor.Blob;
    if fields != [] {
      TightenIsStrict(fields[0].tree, depth);
      assert TightenFields(fields)[1..] == TightenFields(fields[1..]);
      SameOffsets(fields[1..], depth, from + |LaxFieldBytes(fields[0])|);
    }
  }

  /** A decoded tree as the skipper sees it. */
  function Loosen(t: Tree): Lax
    decreases t, 0
  {
    match t
    case Leaf(v) => Raw(v)
    case Items(items) => RawItems(LoosenItems(items))
    case Fields(indexed, fields) =>
      RawFields(if indexed then Some(TableBytes(Offsets(fields, 0))) else None, LoosenFields(fields))
  }

  function LoosenItems(items: seq<Tree>): (r: seq<Lax>)
    ensures |r| == |items|
    decreases items, 1
  {
    if items == [] then [] else [Loosen(items[0])] + LoosenItems(items[1..])
  }

  function LoosenFields(fields: seq<Field>): (r: seq<LaxField>)
    ensures |r| == |fields| && forall i :: 0 <= i < |r| ==> r[i].key == fields[i].key
    decreases fields, 1
  {
    if fields == [] then [] else [LaxField(fields[0].key, Loosen(fields[0].tree))] + LoosenFields(fields[1..])
  }

  lemma {:induction false} LoosenIsStrict(t: Tree, depth: nat)
    requires TreeOk(t, depth)
    ensures LaxOk(Loosen(t), depth) && Strict(Loosen(t)) && LaxBytes(Loosen(t)) == TreeBytes(t)
    decreases t, 0
  {
    hide Utf8, Less, Finite, LeafBytes, Varint.Encode, Offsets, LaxOffsets, TableBytes;
    match t
    case Leaf(_) =>
    case Items(items) => LoosenItemsStrict(items, depth + 1);
    case Fields(indexed, fields) =>
      LoosenFieldsStrict(fields, depth + 1);
      LooseOffsets(fields, depth + 1, 0);
  }

  lemma {:induction false} LoosenItemsStrict(items: seq<Tree>, depth: nat)
    requires forall i :: 0 <= i < |items| ==> TreeOk(items[i], depth)
    ensures forall i :: 0 <= i < |items| ==> LaxOk(LoosenItems(items)[i], depth) && Strict(LoosenItems(items)[i])
    ensures LaxItemsBytes(LoosenItems(items)) == ItemsBytes(items)
    decreases items, 1
  {
    hide LaxOk, Strict, TreeOk, Loosen, TreeBytes, LaxBytes;
    if items != [] {
      LoosenIsStrict(items[0], depth);
      LoosenItemsStrict(items[1..], depth);
      assert LoosenItems(items)[1..] == LoosenItems(items[1..]);
    }
  }

  lemma {:induction false} LoosenFieldsStrict(fields: seq<Field>, depth: nat)
    requires forall i :: 0 <= i < |fields| ==> TreeOk(fields[i].tree, depth)
    ensures FieldsStrict(LoosenFields(fields), depth)
    ensures LaxFieldsBytes(LoosenFields(fields)) == FieldsBytes(fields)
    decreases fields, 1
  {
    hide LaxOk, Strict, TreeOk, Loosen, TreeBytes, LaxBytes, Cursor.Blob;
    if fields != [] {
      LoosenIsStrict(fields[0].tree, depth);
      LoosenFieldsStrict(fields[1..], depth);
      assert LoosenFields(fields)[1..] == LoosenFields(fields[1..]);
    }
  }

  lemma {:induction false} LooseOffsets(fields: seq<Field>, depth: nat, from: nat)
    requires forall i :: 0 <= i < |fields| ==> TreeOk(fields[i].tree, depth)
    ensures LaxOffsets(LoosenFields(fields), from) == Offsets(fields, from)
    decreases fields, 1
  {
    hide LaxOk, Strict, TreeOk, Loosen, TreeBytes, LaxBytes, Cursor.Blob;
    if fields != [] {
      LoosenIsStrict(fields[0].tree, depth);
      assert LoosenFields(fields)[1..] == LoosenFields(fields[1..]);
      LooseOffsets(fields[1..], depth, from + |FieldBytes(fields[0])|);
    }
  }

  /**
    Decoding succeeds exactly when skipping does and what was skipped is strict: floats
    finite, text and keys UTF-8, keys strictly ascending, and under the indexed tag at least
    eight entries and a right table.  It then returns that tree and stops in the same place.
  */
  lemma DecodesStrictly(b: seq<Byte>, at: nat, depth: nat)
    ensures Skip(b, at, depth) == End(Skim(b, at, depth))
    ensures ReadTree(b, at, depth).Ok? <==> Skip(b, at, depth).Ok? && Strict(Skim(b, at, depth).value.0)
    ensures ReadTree(b, at, depth).Ok? ==>
      ReadTree(b, at, depth) == Ok((Tighten(Skim(b, at, depth).value.0), Skip(b, at, depth).value))
  {
    hide Skip, Skim, LaxOk, LaxBytes, Holds, ReadTree, TreeOk, TreeBytes, Strict, Tighten;
    SkipIsSkim(b, at, depth);
    if ReadTree(b, at, depth).Ok? {
      var (t, end) := ReadTree(b, at, depth).value;
      ReadTreeSound(b, at, depth);
      LoosenIsStrict(t, depth);
      SkimComplete(b, at, depth, Loosen(t));
    }
    if Skim(b, at, depth).Ok? && Strict(Skim(b, at, depth).value.0) {
      var (t, end) := Skim(b, at, depth).value;
      SkimSound(b, at, depth);
      TightenIsStrict(t, depth);
      ReadTreeComplete(b, at, depth, Tighten(t));
    }
  }

  /** On whole buffers: the decoder accepts exactly the bytes of strict lax trees. */
  lemma DecodeIsStrictSkip(b: seq<Byte>)
    ensures Skip(b, 0, 1) == Ok(|b|) <==> exists t :: LaxOk(t, 1) && b == LaxBytes(t)
    ensures Decode(b).Ok? <==> exists t :: LaxOk(t, 1) && Strict(t) && b == LaxBytes(t)
  {
    hide Skip, Skim, LaxOk, LaxBytes, ReadTree, Strict, Tighten;
    SkipIsSkim(b, 0, 1);
    DecodesStrictly(b, 0, 1);
    if Skip(b, 0, 1) == Ok(|b|) {
      SkimSound(b, 0, 1);
      var t := Skim(b, 0, 1).value.0;
      HoldsMeans(b, 0, LaxBytes(t));
      assert b[0..|b|] == b;
      assert b == LaxBytes(t);
    }
    if t :| LaxOk(t, 1) && b == LaxBytes(t) {
      WholeHolds(b);
      SkimComplete(b, 0, 1, t);
    }
    if t :| LaxOk(t, 1) && Strict(t) && b == LaxBytes(t) {
      WholeHolds(b);
      SkimComplete(b, 0, 1, t);
    }
  }
}
