/**
  Metadata values and their encoded forms.  A `Tree` is a value together with the one
  choice the format leaves open, which of the two map tags each map was written under:
  files of the first format version hold wide maps under the plain tag.
*/
module Value {
  import opened Prelude
  import opened Bytes
  import opened Cursor
  import Varint

  const MAX_DEPTH: nat := 16
  const INDEX_MIN_ENTRIES: nat := 8
  const MAX_OFFSET: nat := 0xFFFF

  /** `F64` is its eight bytes; `Map` lists its entries in key order, as a `BTreeMap` does. */
  datatype Value =
    | Null
    | Bool(b: bool)
    | I64(i: Varint.I64)
    | F64(bits: seq<Byte>)
    | Str(text: seq<Byte>)
    | Blob(bytes: seq<Byte>)
    | Array(items: seq<Value>)
    | Map(entries: seq<Entry>)

  datatype Entry = Entry(key: seq<Byte>, value: Value)

  datatype Tree =
    | Leaf(value: Value)
    | Items(items: seq<Tree>)
    | Fields(indexed: bool, fields: seq<Field>)

  datatype Field = Field(key: seq<Byte>, tree: Tree)

  // ----- Key order -----

  /** Byte order, which for UTF-8 is code point order. */
  predicate Less(a: seq<Byte>, b: seq<Byte>)
    decreases |b|
  {
    b != [] && (a == [] || a[0] < b[0] || (a[0] == b[0] && Less(a[1..], b[1..])))
  }

  lemma {:induction false} LessTransitive(a: seq<Byte>, b: seq<Byte>, c: seq<Byte>)
    requires Less(a, b) && Less(b, c)
    ensures Less(a, c)
    decreases |c|
  {
    if a != [] && a[0] == b[0] == c[0] {
      LessTransitive(a[1..], b[1..], c[1..]);
    }
  }

  lemma {:induction false} LessTotal(a: seq<Byte>, b: seq<Byte>)
    ensures a == b || Less(a, b) || Less(b, a)
    ensures !(Less(a, b) && Less(b, a)) && !Less(a, a)
    decreases |a|
  {
    if a != [] {
      if b != [] && a[0] == b[0] {
        LessTotal(a[1..], b[1..]);
        assert a == [a[0]] + a[1..] && b == [b[0]] + b[1..];
      } else {
        LessTotal(a[1..], a[1..]);
      }
    }
  }

  /** The two agree up to somewhere, where the first ends or has the smaller byte. */
  ghost predicate FirstSmaller(a: seq<Byte>, b: seq<Byte>) {
    exists i :: 0 <= i < |b| && i <= |a| && a[..i] == b[..i] && (i == |a| || a[i] < b[i])
  }

  lemma {:induction false} LessExactly(a: seq<Byte>, b: seq<Byte>)
    ensures Less(a, b) <==> FirstSmaller(a, b)
    decreases |b|
  {
    if Less(a, b) {
      if a == [] || a[0] < b[0] {
        assert a[..0] == b[..0];
      } else {
        LessExactly(a[1..], b[1..]);
        var i :| 0 <= i < |b[1..]| && i <= |a[1..]| && a[1..][..i] == b[1..][..i] && (i == |a[1..]| || a[1..][i] < b[1..][i]);
        assert a[..i + 1] == [a[0]] + a[1..][..i] && b[..i + 1] == [b[0]] + b[1..][..i];
      }
    }
    if FirstSmaller(a, b) {
      var i :| 0 <= i < |b| && i <= |a| && a[..i] == b[..i] && (i == |a| || a[i] < b[i]);
      SmallerAt(a, b, i);
    }
  }

  lemma {:induction false} SmallerAt(a: seq<Byte>, b: seq<Byte>, i: nat)
    requires i < |b| && i <= |a| && a[..i] == b[..i] && (i == |a| || a[i] < b[i])
    ensures Less(a, b)
    decreases i
  {
    if i > 0 {
      assert a[0] == a[..i][0] == b[..i][0] == b[0];
      assert a[1..][..i - 1] == a[..i][1..] == b[..i][1..] == b[1..][..i - 1];
      SmallerAt(a[1..], b[1..], i - 1);
    }
  }

  ghost predicate Ascending(fields: seq<Field>) {
    forall i :: 0 < i < |fields| ==> Less(fields[i - 1].key, fields[i].key)
  }

  lemma {:induction false} AscendingFar(fields: seq<Field>, i: nat, j: nat)
    requires Ascending(fields) && i < j < |fields|
    ensures Less(fields[i].key, fields[j].key)
    decreases j
  {
    assert Less(fields[j - 1].key, fields[j].key);
    if i < j - 1 {
      AscendingFar(fields, i, j - 1);
      LessTransitive(fields[i].key, fields[j - 1].key, fields[j].key);
    }
  }

  // ----- Bytes of a tree -----

  predicate Finite(bits: seq<Byte>)
    requires |bits| == 8
  {
    !(bits[7] % 128 == 127 && bits[6] >= 240)
  }

  predicate IsLeaf(v: Value) {
    !v.Array? && !v.Map?
  }

  function LeafTag(v: Value): (r: Byte)
    requires IsLeaf(v)
    ensures r <= 6
  {
    match v
    case Null => 0
    case Bool(b) => if b then 2 else 1
    case I64(_) => 3
    case F64(_) => 4
    case Str(_) => 5
    case Blob(_) => 6
  }

  function LeafBody(v: Value): seq<Byte>
    requires IsLeaf(v)
  {
    match v
    case Null => []
    case Bool(_) => []
    case I64(i) => Varint.Encode(Varint.Zigzag(i))
    case F64(bits) => bits
    case Str(text) => Cursor.Blob(text)
    case Blob(bytes) => Cursor.Blob(bytes)
  }

  function LeafBytes(v: Value): (r: seq<Byte>)
    requires IsLeaf(v)
    ensures |r| > 0
  {
    [LeafTag(v)] + LeafBody(v)
  }

  /** A leaf the format can hold. */
  predicate LeafOk(v: Value) {
    match v
    case F64(bits) => |bits| == 8 && Finite(bits)
    case Str(text) => |text| < U64 && Utf8(text)
    case Blob(bytes) => |bytes| < U64
    case Array(_) => false
    case Map(_) => false
    case _ => true
  }

  function TreeBytes(t: Tree): (r: seq<Byte>)
    ensures |r| > 0
    decreases t, 0
  {
    match t
    case Leaf(v) => if IsLeaf(v) then LeafBytes(v) else [0]
    case Items(items) => [7] + (Varint.Encode(|items|) + ItemsBytes(items))
    case Fields(indexed, fields) =>
      if indexed then [9] + (Varint.Encode(|fields|) + (TableBytes(Offsets(fields, 0)) + FieldsBytes(fields)))
      else [8] + (Varint.Encode(|fields|) + FieldsBytes(fields))
  }

  function ItemsBytes(items: seq<Tree>): (r: seq<Byte>)
    ensures |r| >= |items|
    decreases items, 1
  {
    if items == [] then [] else TreeBytes(items[0]) + ItemsBytes(items[1..])
  }

  function FieldBytes(f: Field): (r: seq<Byte>)
    ensures |r| >= 2
    decreases f, 1
  {
    Cursor.Blob(f.key) + TreeBytes(f.tree)
  }

  function FieldsBytes(fields: seq<Field>): (r: seq<Byte>)
    ensures |r| >= 2 * |fields|
    decreases fields, 2
  {
    if fields == [] then [] else FieldBytes(fields[0]) + FieldsBytes(fields[1..])
  }

  /** Where each field starts, counted from the first. */
  function Offsets(fields: seq<Field>, from: nat): (r: seq<nat>)
    ensures |r| == |fields|
    decreases fields, 2
  {
    if fields == [] then [] else [from] + Offsets(fields[1..], from + |FieldBytes(fields[0])|)
  }

  function TableBytes(offsets: seq<nat>): (r: seq<Byte>)
    ensures |r| == 2 * |offsets|
  {
    if offsets == [] then [] else Le(offsets[0], 2) + TableBytes(offsets[1..])
  }

  // ----- Which trees the format allows -----

  /** Field keys and sizes, the fields' own trees aside. */
  ghost predicate ShapeOk(indexed: bool, fields: seq<Field>) {
    && |fields| < U64 && Ascending(fields)
    && (forall i :: 0 <= i < |fields| ==> Utf8(fields[i].key) && |fields[i].key| < U64)
    && (indexed ==> |fields| >= INDEX_MIN_ENTRIES
                    && forall i :: 0 <= i < |fields| ==> Offsets(fields, 0)[i] <= MAX_OFFSET)
  }

  ghost predicate TreeOk(t: Tree, depth: nat)
    decreases t
  {
    && depth <= MAX_DEPTH
    && match t
       case Leaf(v) => LeafOk(v)
       case Items(items) => |items| < U64 && forall i :: 0 <= i < |items| ==> TreeOk(items[i], depth + 1)
       case Fields(indexed, fields) =>
         ShapeOk(indexed, fields) && forall i :: 0 <= i < |fields| ==> TreeOk(fields[i].tree, depth + 1)
  }

  /** Read nearer the root, a tree is still allowed. */
  lemma {:induction false} TreeOkShallower(t: Tree, depth: nat, less: nat)
    requires TreeOk(t, depth) && less <= depth
    ensures TreeOk(t, less)
    decreases t
  {
    match t
    case Leaf(_) =>
    case Items(items) =>
      forall i | 0 <= i < |items|
        ensures TreeOk(items[i], less + 1)
      {
        TreeOkShallower(items[i], depth + 1, less + 1);
      }
    case Fields(_, fields) =>
      forall i | 0 <= i < |fields|
        ensures TreeOk(fields[i].tree, less + 1)
      {
        TreeOkShallower(fields[i].tree, depth + 1, less + 1);
      }
  }

  // ----- The value a tree stands for -----

  function Erase(t: Tree): Value
    decreases t, 0
  {
    match t
    case Leaf(v) => v
    case Items(items) => Array(EraseItems(items))
    case Fields(_, fields) => Map(EraseFields(fields))
  }

  function EraseItems(items: seq<Tree>): (r: seq<Value>)
    ensures |r| == |items|
    decreases items, 1
  {
    if items == [] then [] else [Erase(items[0])] + EraseItems(items[1..])
  }

  function EraseFields(fields: seq<Field>): (r: seq<Entry>)
    ensures |r| == |fields|
    decreases fields, 1
  {
    if fields == [] then [] else [Entry(fields[0].key, Erase(fields[0].tree))] + EraseFields(fields[1..])
  }

  lemma {:induction false} EraseFieldsAt(fields: seq<Field>, i: nat)
    requires i < |fields|
    ensures EraseFields(fields)[i] == Entry(fields[i].key, Erase(fields[i].tree))
    decreases i
  {
    if i > 0 {
      EraseFieldsAt(fields[1..], i - 1);
    }
  }
}
