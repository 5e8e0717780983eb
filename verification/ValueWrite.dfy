/** Encoding (value.rs, `write_at_depth`), its inverse, and when re-encoding is the identity. */
module ValueWrite {
  import opened Prelude
  import opened Bytes
  import opened Cursor
  import opened Value
  import opened ValueRead
  import Varint

  // ----- Writing -----

  function Write(v: Value, depth: nat): Result<seq<Byte>, FormatError>
    decreases v, 0
  {
    if depth > MAX_DEPTH then Err(Malformed)
    else
      match v
      case Array(items) =>
        var body :- WriteItems(items, depth + 1);
        Ok([7] + (Varint.Encode(|items|) + body))
      case Map(entries) =>
        var (body, offsets) :- WriteEntries(entries, depth + 1, 0);
        if |entries| >= INDEX_MIN_ENTRIES && offsets != [] && offsets[|offsets| - 1] <= MAX_OFFSET then
          Ok([9] + (Varint.Encode(|entries|) + (TableBytes(offsets) + body)))
        else
          Ok([8] + (Varint.Encode(|entries|) + body))
      case F64(bits) => if |bits| == 8 && Finite(bits) then Ok(LeafBytes(v)) else Err(Malformed)
      case _ => Ok(LeafBytes(v))
  }

  function WriteItems(items: seq<Value>, depth: nat): Result<seq<Byte>, FormatError>
    decreases items, 1
  {
    if items == [] then Ok([])
    else
      var first :- Write(items[0], depth);
      var rest :- WriteItems(items[1..], depth);
      Ok(first + rest)
  }

  /** The entries' bytes, and where each starts when the first starts at `from`. */
  function WriteEntries(entries: seq<Entry>, depth: nat, from: nat): Result<(seq<Byte>, seq<nat>), FormatError>
    decreases entries, 1
  {
    if entries == [] then Ok(([], []))
    else
      var value :- Write(entries[0].value, depth);
      var one := Cursor.Blob(entries[0].key) + value;
      var (rest, offsets) :- WriteEntries(entries[1..], depth, from + |one|);
      Ok((one + rest, [from] + offsets))
  }

  function Encode(v: Value): Result<seq<Byte>, FormatError> {
    Write(v, 1)
  }

  // ----- What the types of the source guarantee of a value, and what encoding adds -----

  ghost predicate Typed(v: Value)
    decreases v
  {
    match v
    case F64(bits) => |bits| == 8
    case Str(text) => |text| < U64 && Utf8(text)
    case Blob(bytes) => |bytes| < U64
    case Array(items) => |items| < U64 && forall i :: 0 <= i < |items| ==> Typed(items[i])
    case Map(entries) =>
      && |entries| < U64
      && (forall i :: 0 < i < |entries| ==> Less(entries[i - 1].key, entries[i].key))
      && (forall i :: 0 <= i < |entries| ==>
            Utf8(entries[i].key) && |entries[i].key| < U64 && Typed(entries[i].value))
    case _ => true
  }

  ghost predicate AllFinite(v: Value)
    decreases v
  {
    match v
    case F64(bits) => |bits| == 8 && Finite(bits)
    case Array(items) => forall i :: 0 <= i < |items| ==> AllFinite(items[i])
    case Map(entries) => forall i :: 0 <= i < |entries| ==> AllFinite(entries[i].value)
    case _ => true
  }

  /** Every part nests within the limit when the value itself sits at `depth`. */
  ghost predicate Shallow(v: Value, depth: nat)
    decreases v
  {
    && depth <= MAX_DEPTH
    && match v
       case Array(items) => forall i :: 0 <= i < |items| ==> Shallow(items[i], depth + 1)
       case Map(entries) => forall i :: 0 <= i < |entries| ==> Shallow(entries[i].value, depth + 1)
       case _ => true
  }

  // ----- The tree the encoder writes -----

  function Canon(v: Value): Tree
    decreases v, 0
  {
    match v
    case Array(items) => Items(CanonItems(items))
    case Map(entries) =>
      var fields := CanonFields(entries);
      Fields(Indexable(fields), fields)
    case _ => Leaf(v)
  }

  function CanonItems(items: seq<Value>): (r: seq<Tree>)
    ensures |r| == |items|
    decreases items, 1
  {
    if items == [] then [] else [Canon(items[0])] + CanonItems(items[1..])
  }

  function CanonFields(entries: seq<Entry>): (r: seq<Field>)
    ensures |r| == |entries|
    decreases entries, 1
  {
    if entries == [] then [] else [Field(entries[0].key, Canon(entries[0].value))] + CanonFields(entries[1..])
  }

  /** Wide enough for a table, and small enough for sixteen-bit offsets. */
  predicate Indexable(fields: seq<Field>) {
    |fields| >= INDEX_MIN_ENTRIES && Offsets(fields, 0)[|fields| - 1] <= MAX_OFFSET
  }

  lemma {:induction false} CanonItemsAt(items: seq<Value>, i: nat)
    requires i < |items|
    ensures CanonItems(items)[i] == Canon(items[i])
    decreases i
  {
    if i > 0 {
      CanonItemsAt(items[1..], i - 1);
    }
  }

  lemma {:induction false} CanonFieldsAt(entries: seq<Entry>, i: nat)
    requires i < |entries|
    ensures CanonFields(entries)[i] == Field(entries[i].key, Canon(entries[i].value))
    decreases i
  {
    if i > 0 {
      CanonFieldsAt(entries[1..], i - 1);
    }
  }

  /** Offsets grow, so the last bounds them all. */
  lemma {:induction false} OffsetsGrow(fields: seq<Field>, from: nat, i: nat)
    requires i < |fields|
    ensures from <= Offsets(fields, from)[i] <= Offsets(fields, from)[|fields| - 1]
    decreases |fields|
  {
    if i > 0 {
      OffsetsGrow(fields[1..], from + |FieldBytes(fields[0])|, i - 1);
    } else if |fields| > 1 {
      OffsetsGrow(fields[1..], from + |FieldBytes(fields[0])|, 0);
    }
  }

  // ----- Writing writes the canonical tree -----

  lemma {:induction false} WritesCanon(v: Value, depth: nat)
    requires Typed(v) && Shallow(v, depth) && AllFinite(v)
    ensures Write(v, depth) == Ok(TreeBytes(Canon(v)))
    decreases v, 0
  {
    hide Varint.Encode, Utf8, Less, LeafBytes, Cursor.Blob;
    match v
    case Array(items) =>
      WritesItems(items, depth + 1);
    case Map(entries) =>
      WritesFields(entries, depth + 1, 0);
    case _ =>
  }

  lemma {:induction false} WritesItems(items: seq<Value>, depth: nat)
    requires forall i :: 0 <= i < |items| ==> Typed(items[i]) && Shallow(items[i], depth) && AllFinite(items[i])
    ensures WriteItems(items, depth) == Ok(ItemsBytes(CanonItems(items)))
    decreases items, 1
  {
    hide Typed, Shallow, AllFinite, Write, Canon, TreeBytes;
    if items != [] {
      WritesCanon(items[0], depth);
      WritesItems(items[1..], depth);
      assert CanonItems(items)[1..] == CanonItems(items[1..]);
    }
  }

  lemma {:induction false} WritesFields(entries: seq<Entry>, depth: nat, from: nat)
    requires forall i :: 0 <= i < |entries| ==>
      Typed(entries[i].value) && Shallow(entries[i].value, depth) && AllFinite(entries[i].value)
    ensures WriteEntries(entries, depth, from)
         == Ok((FieldsBytes(CanonFields(entries)), Offsets(CanonFields(entries), from)))
    decreases entries, 1
  {
    hide Typed, Shallow, AllFinite, Write, Canon, TreeBytes, Cursor.Blob;
    if entries != [] {
      var fields := CanonFields(entries);
      WritesCanon(entries[0].value, depth);
      assert fields[1..] == CanonFields(entries[1..]);
      WritesFields(entries[1..], depth, from + |FieldBytes(fields[0])|);
    }
  }

  /** Too deep, or not finite, somewhere: the encoder refuses. */
  lemma {:induction false} WriteRefuses(v: Value, depth: nat)
    requires !(Shallow(v, depth) && AllFinite(v))
    ensures Write(v, depth).Err?
    decreases v, 0
  {
    hide Varint.Encode, LeafBytes, TableBytes, Finite;
    match v
    case Array(items) =>
      if depth <= MAX_DEPTH {
        var i :| 0 <= i < |items| && !(Shallow(items[i], depth + 1) && AllFinite(items[i]));
        ItemsRefuse(items, depth + 1, i);
      }
    case Map(entries) =>
      if depth <= MAX_DEPTH {
        var i :| 0 <= i < |entries| && !(Shallow(entries[i].value, depth + 1) && AllFinite(entries[i].value));
        EntriesRefuse(entries, depth + 1, 0, i);
      }
    case _ =>
  }

  lemma {:induction false} ItemsRefuse(items: seq<Value>, depth: nat, i: nat)
    requires i < |items| && !(Shallow(items[i], depth) && AllFinite(items[i]))
    ensures WriteItems(items, depth).Err?
    decreases items, 1
  {
    hide Shallow, AllFinite, Write;
    if i == 0 {
      WriteRefuses(items[0], depth);
    } else {
      ItemsRefuse(items[1..], depth, i - 1);
    }
  }

  lemma {:induction false} EntriesRefuse(entries: seq<Entry>, depth: nat, from: nat, i: nat)
    requires i < |entries| && !(Shallow(entries[i].value, depth) && AllFinite(entries[i].value))
    ensures WriteEntries(entries, depth, from).Err?
    decreases entries, 1
  {
    hide Shallow, AllFinite, Write, Cursor.Blob;
    if i == 0 {
      WriteRefuses(entries[0].value, depth);
    } else if Write(entries[0].value, depth).Ok? {
      var one := Cursor.Blob(entries[0].key) + Write(entries[0].value, depth).value;
      EntriesRefuse(entries[1..], depth, from + |one|, i - 1);
    }
  }

  // ----- The canonical tree is allowed and stands for the value -----

  lemma {:induction false} CanonOk(v: Value, depth: nat)
    requires Typed(v) && Shallow(v, depth) && AllFinite(v)
    ensures TreeOk(Canon(v), depth) && Erase(Canon(v)) == v
    decreases v, 0
  {
    hide Utf8, Less, Offsets, Finite, ShapeOk;
    match v
    case Array(items) =>
      CanonItemsOk(items, depth + 1);
    case Map(entries) =>
      CanonFieldsOk(entries, depth + 1);
      CanonShapeOk(entries);
      hide CanonFields, EraseFields;
      forall i | 0 <= i < |entries| ensures TreeOk(CanonFields(entries)[i].tree, depth + 1) {
        CanonFieldsAt(entries, i);
      }
    case _ =>
  }

  /** Keys in order and of legal size, and every offset of an indexed map within its sixteen bits. */
  lemma CanonShapeOk(entries: seq<Entry>)
    requires |entries| < U64 && (forall i :: 0 < i < |entries| ==> Less(entries[i - 1].key, entries[i].key))
    requires forall i :: 0 <= i < |entries| ==> Utf8(entries[i].key) && |entries[i].key| < U64
    ensures ShapeOk(Indexable(CanonFields(entries)), CanonFields(entries))
  {
    hide Utf8, Less, Offsets, Canon, CanonFields;
    var fields := CanonFields(entries);
    forall i | 0 <= i < |fields|
      ensures Indexable(fields) ==> Offsets(fields, 0)[i] <= MAX_OFFSET
      ensures fields[i].key == entries[i].key
    {
      OffsetsGrow(fields, 0, i);
      CanonFieldsAt(entries, i);
    }
    forall i | 0 < i < |fields| ensures Less(fields[i - 1].key, fields[i].key) {
      CanonFieldsAt(entries, i);
      CanonFieldsAt(entries, i - 1);
    }
  }

  lemma {:induction false} CanonItemsOk(items: seq<Value>, depth: nat)
    requires forall i :: 0 <= i < |items| ==> Typed(items[i]) && Shallow(items[i], depth) && AllFinite(items[i])
    ensures forall i :: 0 <= i < |items| ==> TreeOk(CanonItems(items)[i], depth)
    ensures EraseItems(CanonItems(items)) == items
    decreases items, 1
  {
    hide Typed, Shallow, AllFinite, TreeOk, Canon, Erase;
    if items != [] {
      CanonOk(items[0], depth);
      CanonItemsOk(items[1..], depth);
      assert CanonItems(items)[1..] == CanonItems(items[1..]);
      assert items == [items[0]] + items[1..];
    }
  }

  lemma {:induction false} CanonFieldsOk(entries: seq<Entry>, depth: nat)
    requires forall i :: 0 <= i < |entries| ==>
      Typed(entries[i].value) && Shallow(entries[i].value, depth) && AllFinite(entries[i].value)
    ensures forall i :: 0 <= i < |entries| ==> TreeOk(CanonFields(entries)[i].tree, depth)
    ensures EraseFields(CanonFields(entries)) == entries
    decreases entries, 1
  {
    hide Typed, Shallow, AllFinite, TreeOk, Canon, Erase;
    if entries != [] {
      CanonOk(entries[0].value, depth);
      CanonFieldsOk(entries[1..], depth);
      assert CanonFields(entries)[1..] == CanonFields(entries[1..]);
      assert entries == [entries[0]] + entries[1..];
    }
  }

  /**
    A value encodes exactly when it nests within the limit and holds only finite floats,
    and then decoding gives it back.
  */
  lemma RoundTrip(v: Value)
    requires Typed(v)
    ensures Encode(v).Ok? <==> Shallow(v, 1) && AllFinite(v)
    ensures Encode(v).Ok? ==> Decode(Encode(v).value) == Ok(v)
  {
    hide Write, Decode, Typed, Shallow, AllFinite, TreeOk, TreeBytes, Canon, Erase;
    if Shallow(v, 1) && AllFinite(v) {
      WritesCanon(v, 1);
      CanonOk(v, 1);
      DecodesExactly(TreeBytes(Canon(v)), v);
    } else {
      WriteRefuses(v, 1);
    }
  }

  // ----- Depth as the source computes it -----

  function Depth(v: Value): (r: nat)
    ensures r >= 1
    decreases v, 0
  {
    match v
    case Array(items) => 1 + DepthOfItems(items)
    case Map(entries) => 1 + DepthOfEntries(entries)
    case _ => 1
  }

  function DepthOfItems(items: seq<Value>): nat
    decreases items, 1
  {
    if items == [] then 0 else Max(Depth(items[0]), DepthOfItems(items[1..]))
  }

  function DepthOfEntries(entries: seq<Entry>): nat
    decreases entries, 1
  {
    if entries == [] then 0 else Max(Depth(entries[0].value), DepthOfEntries(entries[1..]))
  }

  lemma {:induction false} ShallowIsDepth(v: Value, depth: nat)
    requires depth > 0
    ensures Shallow(v, depth) <==> depth - 1 + Depth(v) <= MAX_DEPTH
    decreases v, 0
  {
    match v
    case Array(items) => ItemsDepth(items, depth + 1);
    case Map(entries) => EntriesDepth(entries, depth + 1);
    case _ =>
  }

  lemma {:induction false} ItemsDepth(items: seq<Value>, depth: nat)
    requires depth > 1
    ensures (forall i :: 0 <= i < |items| ==> Shallow(items[i], depth)) <==> items == [] || depth - 1 + DepthOfItems(items) <= MAX_DEPTH
    decreases items, 1
  {
    hide Shallow, Depth;
    if items != [] {
      ShallowIsDepth(items[0], depth);
      ItemsDepth(items[1..], depth);
      assert forall i :: 0 < i < |items| ==> items[i] == items[1..][i - 1];
    }
  }

  lemma {:induction false} EntriesDepth(entries: seq<Entry>, depth: nat)
    requires depth > 1
    ensures (forall i :: 0 <= i < |entries| ==> Shallow(entries[i].value, depth)) <==> entries == [] || depth - 1 + DepthOfEntries(entries) <= MAX_DEPTH
    decreases entries, 1
  {
    hide Shallow, Depth;
    if entries != [] {
      ShallowIsDepth(entries[0].value, depth);
      EntriesDepth(entries[1..], depth);
      assert forall i :: 0 < i < |entries| ==> entries[i] == entries[1..][i - 1];
    }
  }

  // ----- Re-encoding what was decoded -----

  /** No map sits under the plain tag that the encoder would write with a table. */
  ghost predicate NoLegacyMap(t: Tree)
    decreases t
  {
    match t
    case Leaf(_) => true
    case Items(items) => forall i :: 0 <= i < |items| ==> NoLegacyMap(items[i])
    case Fields(indexed, fields) =>
      (!indexed ==> !Indexable(fields)) && forall i :: 0 <= i < |fields| ==> NoLegacyMap(fields[i].tree)
  }

  lemma {:induction false} EraseItemsAt(items: seq<Tree>, i: nat)
    requires i < |items|
    ensures EraseItems(items)[i] == Erase(items[i])
    decreases i
  {
    if i > 0 {
      EraseItemsAt(items[1..], i - 1);
    }
  }

  /** Every allowed tree stands for a value the encoder takes. */
  lemma {:induction false} ErasedEncodes(t: Tree, depth: nat)
    requires TreeOk(t, depth)
    ensures Typed(Erase(t)) && Shallow(Erase(t), depth) && AllFinite(Erase(t))
    decreases t
  {
    hide Utf8, Less, Offsets, Finite, EraseItems, EraseFields;
    match t
    case Leaf(_) =>
    case Items(items) =>
      forall i | 0 <= i < |items|
        ensures var v := EraseItems(items)[i]; Typed(v) && Shallow(v, depth + 1) && AllFinite(v)
      {
        EraseItemsAt(items, i);
        ErasedEncodes(items[i], depth + 1);
      }
    case Fields(_, fields) =>
      var entries := EraseFields(fields);
      forall i | 0 <= i < |fields|
        ensures var v := entries[i].value; Typed(v) && Shallow(v, depth + 1) && AllFinite(v)
        ensures entries[i].key == fields[i].key
        ensures i > 0 ==> Less(entries[i - 1].key, entries[i].key)
      {
        EraseFieldsAt(fields, i);
        ErasedEncodes(fields[i].tree, depth + 1);
        if i > 0 {
          EraseFieldsAt(fields, i - 1);
        }
      }
  }

  /** An allowed tree is the canonical one of its value exactly when it has no legacy map. */
  lemma {:induction false} CanonicalExactly(t: Tree, depth: nat)
    requires TreeOk(t, depth)
    ensures Canon(Erase(t)) == t <==> NoLegacyMap(t)
    decreases t, 0
  {
    hide Utf8, Less, Offsets, Finite;
    match t
    case Leaf(_) =>
    case Items(items) => CanonicalItems(items, depth + 1);
    case Fields(indexed, fields) =>
      CanonicalFields(fields, depth + 1);
      hide CanonFields, EraseFields;
      assert Canon(Erase(t)) == var f := CanonFields(EraseFields(fields)); Fields(Indexable(f), f);
      assert indexed ==> Indexable(fields);
  }

  lemma {:induction false} CanonicalItems(items: seq<Tree>, depth: nat)
    requires forall i :: 0 <= i < |items| ==> TreeOk(items[i], depth)
    ensures CanonItems(EraseItems(items)) == items <==> forall i :: 0 <= i < |items| ==> NoLegacyMap(items[i])
    decreases items, 1
  {
    hide TreeOk, Canon, Erase, NoLegacyMap;
    if items != [] {
      var rest := items[1..];
      CanonicalExactly(items[0], depth);
      CanonicalItems(rest, depth);
      assert EraseItems(items)[1..] == EraseItems(rest);
      Split(CanonItems(EraseItems(items)), items);
      assert forall i :: 0 < i < |items| ==> items[i] == rest[i - 1];
      assert forall i :: 0 <= i < |rest| ==> rest[i] == items[i + 1];
    }
  }

  lemma {:induction false} CanonicalFields(fields: seq<Field>, depth: nat)
    requires forall i :: 0 <= i < |fields| ==> TreeOk(fields[i].tree, depth)
    ensures CanonFields(EraseFields(fields)) == fields <==> forall i :: 0 <= i < |fields| ==> NoLegacyMap(fields[i].tree)
    decreases fields, 1
  {
    hide TreeOk, Canon, Erase, NoLegacyMap;
    if fields != [] {
      var rest := fields[1..];
      CanonicalExactly(fields[0].tree, depth);
      CanonicalFields(rest, depth);
      assert EraseFields(fields)[1..] == EraseFields(rest);
      Split(CanonFields(EraseFields(fields)), fields);
      assert forall i :: 0 < i < |fields| ==> fields[i] == rest[i - 1];
      assert forall i :: 0 <= i < |rest| ==> rest[i] == fields[i + 1];
    }
  }

  lemma Split<T>(a: seq<T>, b: seq<T>)
    requires a != [] && b != []
    ensures a == b <==> a[0] == b[0] && a[1..] == b[1..]
  {
    assert a == [a[0]] + a[1..] && b == [b[0]] + b[1..];
  }

  /**
    What was decoded always encodes again, to bytes that decode to the same value; and to
    the very same bytes exactly when they hold no wide map under the plain tag.
  */
  lemma Reencode(t: Tree)
    requires TreeOk(t, 1)
    ensures Decode(TreeBytes(t)) == Ok(Erase(t))
    ensures Encode(Erase(t)).Ok? && Decode(Encode(Erase(t)).value) == Ok(Erase(t))
    ensures Encode(Erase(t)) == Ok(TreeBytes(t)) <==> NoLegacyMap(t)
  {
    hide Write, Decode, Typed, Shallow, AllFinite, TreeOk, TreeBytes, Canon, Erase, NoLegacyMap;
    var v := Erase(t);
    DecodesExactly(TreeBytes(t), v);
    ErasedEncodes(t, 1);
    RoundTrip(v);
    WritesCanon(v, 1);
    CanonicalExactly(t, 1);
    CanonOk(v, 1);
    if TreeBytes(Canon(v)) == TreeBytes(t) {
      BytesDetermineTree(Canon(v), t);
    }
  }
}
