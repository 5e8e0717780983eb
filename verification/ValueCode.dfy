/** The recursive reader and skipper driven by a `Reader`, as value.rs writes them. */
module ValueCode {
  import opened Prelude
  import opened Bytes
  import opened Cursor
  import opened Value
  import opened ValueRead
  import opened ValueSkip

  /** The reader did what the function says: the value of the tree, and its end. */
  ghost predicate Reads(spec: Read<Tree>, r: Result<Value, FormatError>, pos: nat) {
    match spec
    case Ok((t, end)) => r == Ok(Erase(t)) && pos == end
    case Err(e) => r == Err(e)
  }

  ghost predicate Skips(spec: Result<nat, FormatError>, r: Result<(), FormatError>, pos: nat) {
    match spec
    case Ok(end) => r == Ok(()) && pos == end
    case Err(e) => r == Err(e)
  }

  method ReadLeafValue(r: Reader, tag: nat) returns (v: Result<Value, FormatError>)
    requires r.Valid()
    modifies r
    ensures r.Valid() && Agrees(ReadLeaf(r.buf, old(r.pos), tag), v, r.pos)
  {
    hide ReadVarint, ReadString, ReadBlob;
    if tag == 0 {
      v := Ok(Null);
    } else if tag == 1 {
      v := Ok(Bool(false));
    } else if tag == 2 {
      v := Ok(Bool(true));
    } else if tag == 3 {
      var u :- r.TakeVarint();
      VarintExactly(r.buf, old(r.pos), u, r.pos);
      v := Ok(I64(ValueRead.Varint.Unzigzag(u)));
    } else if tag == 4 {
      var bits :- r.Take(8);
      v := if Finite(bits) then Ok(F64(bits)) else Err(Malformed);
    } else if tag == 5 {
      var s :- r.TakeString();
      v := Ok(Str(s));
    } else if tag == 6 {
      var s :- r.TakeBlob();
      v := Ok(Value.Blob(s));
    } else {
      v := Err(Malformed);
    }
  }

  /** Read one value. */
  method ReadValue(r: Reader, depth: nat) returns (v: Result<Value, FormatError>)
    requires r.Valid()
    modifies r
    ensures r.Valid() && Reads(ReadTree(r.buf, old(r.pos), depth), v, r.pos)
    decreases MAX_DEPTH + 1 - depth, 0
  {
    hide ReadUint, ReadCount, ReadItems, ReadFields, ReadLeaf;
    if depth > MAX_DEPTH {
      return Err(Malformed);
    }
    var tag :- r.Uint(1);
    if tag == 7 {
      var count :- r.TakeCount(1);
      v := ReadArray(r, count, depth + 1);
    } else if tag == 8 {
      var count :- r.TakeCount(2);
      v := ReadMap(r, count, depth + 1, None);
    } else if tag == 9 {
      var count :- r.TakeCount(4);
      if count < INDEX_MIN_ENTRIES {
        return Err(Malformed);
      }
      var table := r.pos;
      var _ :- r.Take(2 * count);
      v := ReadMap(r, count, depth + 1, Some(table));
    } else {
      v := ReadLeafValue(r, tag);
    }
  }

  ghost predicate ReadsItems(spec: Read<seq<Tree>>, v: Result<Value, FormatError>, pos: nat) {
    match spec
    case Ok((items, end)) => v == Ok(Array(EraseItems(items))) && pos == end
    case Err(e) => v == Err(e)
  }

  /** What a loop still to run makes of what it has so far. */
  ghost function AddItems(sofar: seq<Value>, rest: Read<seq<Tree>>): Result<(seq<Value>, nat), FormatError> {
    match rest
    case Ok((items, end)) => Ok((sofar + EraseItems(items), end))
    case Err(e) => Err(e)
  }

  method ReadArray(r: Reader, count: nat, depth: nat) returns (v: Result<Value, FormatError>)
    requires r.Valid()
    modifies r
    ensures r.Valid() && ReadsItems(ReadItems(r.buf, old(r.pos), count, depth), v, r.pos)
    decreases MAX_DEPTH + 1 - depth, 1
  {
    hide ReadTree, Erase;
    var items: seq<Value> := [];
    ghost var goal := AddItems([], ReadItems(r.buf, r.pos, count, depth));
    for i := 0 to count
      invariant r.Valid()
      invariant AddItems(items, ReadItems(r.buf, r.pos, count - i, depth)) == goal
    {
      ghost var spec := ReadItems(r.buf, r.pos, count - i, depth);
      ghost var at := r.pos;
      var item :- ReadValue(r, depth);
      ghost var t := ReadTree(r.buf, at, depth).value.0;
      AddOne(items, t, ReadItems(r.buf, r.pos, count - i - 1, depth));
      items := items + [item];
    }
    assert AddItems(items, ReadItems(r.buf, r.pos, 0, depth)) == Ok((items, r.pos)) by {
      assert items + [] == items;
    }
    v := Ok(Array(items));
    EmptyFirst(ReadItems(r.buf, old(r.pos), count, depth));
  }

  lemma EmptyFirst(rest: Read<seq<Tree>>)
    requires rest.Ok?
    ensures AddItems([], rest) == Ok((EraseItems(rest.value.0), rest.value.1))
  {
    assert [] + EraseItems(rest.value.0) == EraseItems(rest.value.0);
  }

  lemma AddOne(sofar: seq<Value>, t: Tree, rest: Read<seq<Tree>>)
    ensures rest.Ok? ==> AddItems(sofar, Ok(([t] + rest.value.0, rest.value.1))) == AddItems(sofar + [Erase(t)], rest)
  {
    if rest.Ok? {
      var items := [t] + rest.value.0;
      assert items[1..] == rest.value.0;
      assert sofar + ([Erase(t)] + EraseItems(rest.value.0)) == (sofar + [Erase(t)]) + EraseItems(rest.value.0);
    }
  }

  ghost predicate ReadsFields(spec: Read<seq<Field>>, v: Result<Value, FormatError>, pos: nat) {
    match spec
    case Ok((fields, end)) => v == Ok(Map(EraseFields(fields))) && pos == end
    case Err(e) => v == Err(e)
  }

  ghost function AddFields(sofar: seq<Entry>, rest: Read<seq<Field>>): Result<(seq<Entry>, nat), FormatError> {
    match rest
    case Ok((fields, end)) => Ok((sofar + EraseFields(fields), end))
    case Err(e) => Err(e)
  }

  lemma AddField(sofar: seq<Entry>, f: Field, rest: Read<seq<Field>>)
    ensures rest.Ok? ==>
      AddFields(sofar, Ok(([f] + rest.value.0, rest.value.1))) == AddFields(sofar + [Entry(f.key, Erase(f.tree))], rest)
  {
    if rest.Ok? {
      var fields := [f] + rest.value.0;
      var e := Entry(f.key, Erase(f.tree));
      assert fields[1..] == rest.value.0;
      assert sofar + ([e] + EraseFields(rest.value.0)) == (sofar + [e]) + EraseFields(rest.value.0);
    }
  }

  ghost function SlotAt(table: Option<nat>, i: nat): Option<nat> {
    if table.Some? then Some(table.value + 2 * i) else None
  }

  /** Read `count` entries; `table` is where the offset table starts, if there is one. */
  method ReadMap(r: Reader, count: nat, depth: nat, table: Option<nat>) returns (v: Result<Value, FormatError>)
    requires r.Valid()
    modifies r
    ensures r.Valid() && ReadsFields(ReadFields(r.buf, old(r.pos), count, depth, table, old(r.pos), None), v, r.pos)
    decreases MAX_DEPTH + 1 - depth, 1
  {
    hide ReadTree, ReadString, Erase, Less, At;
    var entries: seq<Entry> := [];
    var base := r.pos;
    var previous: Option<seq<Byte>> := None;
    ghost var all := ReadFields(r.buf, r.pos, count, depth, table, base, None);
    ghost var goal := AddFields([], all);
    for i := 0 to count
      invariant r.Valid() && base <= r.pos
      invariant AddFields(entries, ReadFields(r.buf, r.pos, count - i, depth, SlotAt(table, i), base, previous)) == goal
    {
      ghost var at := r.pos;
      if table.Some? {
        var slot := table.value + 2 * i;
        if slot + 2 > |r.buf| || At(r.buf, slot, 2) != r.pos - base {
          return Err(Malformed);
        }
      }
      var key :- r.TakeString();
      StringExactly(r.buf, at, key, r.pos);
      if previous.Some? && !Less(previous.value, key) {
        return Err(Malformed);
      }
      ghost var p := r.pos;
      var value :- ReadValue(r, depth);
      ghost var f := Field(key, ReadTree(r.buf, p, depth).value.0);
      AddField(entries, f, ReadFields(r.buf, r.pos, count - i - 1, depth, SlotAt(table, i + 1), base, Some(key)));
      entries := entries + [Entry(key, value)];
      previous := Some(key);
      TreeAdvances(r.buf, p, depth);
    }
    assert entries + [] == entries;
    v := Ok(Map(entries));
    if all.Ok? {
      assert [] + EraseFields(all.value.0) == EraseFields(all.value.0);
    }
  }

  lemma TreeAdvances(b: seq<Byte>, at: nat, depth: nat)
    requires ReadTree(b, at, depth).Ok?
    ensures ReadTree(b, at, depth).value.1 >= at
  {
    hide ReadTree, TreeOk, Holds, TreeBytes;
    ReadTreeSound(b, at, depth);
  }

  /** Decode a whole buffer. */
  method DecodeValue(bytes: seq<Byte>) returns (v: Result<Value, FormatError>)
    ensures v == Decode(bytes)
  {
    hide ReadTree, Erase;
    var r := new Reader(bytes);
    v := ReadValue(r, 1);
    if v.Ok? && r.Remaining() != 0 {
      v := Err(Malformed);
    }
  }

  // ----- Skipping -----

  /** Walk past one value. */
  method SkipValue(r: Reader, depth: nat) returns (s: Result<(), FormatError>)
    requires r.Valid()
    modifies r
    ensures r.Valid() && Skips(Skip(r.buf, old(r.pos), depth), s, r.pos)
    decreases MAX_DEPTH + 1 - depth, 0
  {
    hide ReadUint, ReadVarint, ReadBlob, ReadCount, SkipItems, SkipFields;
    if depth > MAX_DEPTH {
      return Err(Malformed);
    }
    var tag :- r.Uint(1);
    if tag <= 2 {
      s := Ok(());
    } else if tag == 3 {
      var _ :- r.TakeVarint();
      s := Ok(());
    } else if tag == 4 {
      var _ :- r.Take(8);
      s := Ok(());
    } else if tag == 5 || tag == 6 {
      var _ :- r.TakeBlob();
      s := Ok(());
    } else if tag == 7 {
      var count :- r.TakeCount(1);
      s := SkipArray(r, count, depth + 1);
    } else if tag == 8 {
      var count :- r.TakeCount(2);
      s := SkipMap(r, count, depth + 1);
    } else if tag == 9 {
      var count :- r.TakeCount(4);
      var _ :- r.Take(2 * count);
      s := SkipMap(r, count, depth + 1);
    } else {
      s := Err(Malformed);
    }
  }

  method SkipArray(r: Reader, count: nat, depth: nat) returns (s: Result<(), FormatError>)
    requires r.Valid()
    modifies r
    ensures r.Valid() && Skips(SkipItems(r.buf, old(r.pos), count, depth), s, r.pos)
    decreases MAX_DEPTH + 1 - depth, 1
  {
    hide Skip;
    for i := 0 to count
      invariant r.Valid()
      invariant SkipItems(r.buf, r.pos, count - i, depth) == SkipItems(r.buf, old(r.pos), count, depth)
    {
      var _ :- SkipValue(r, depth);
    }
    s := Ok(());
  }

  method SkipMap(r: Reader, count: nat, depth: nat) returns (s: Result<(), FormatError>)
    requires r.Valid()
    modifies r
    ensures r.Valid() && Skips(SkipFields(r.buf, old(r.pos), count, depth), s, r.pos)
    decreases MAX_DEPTH + 1 - depth, 1
  {
    hide Skip, ReadBlob;
    for i := 0 to count
      invariant r.Valid()
      invariant SkipFields(r.buf, r.pos, count - i, depth) == SkipFields(r.buf, old(r.pos), count, depth)
    {
      var _ :- r.TakeBlob();
      var _ :- SkipValue(r, depth);
    }
    s := Ok(());
  }
}
