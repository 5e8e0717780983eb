/** The recursive writer driven by a `Writer`, as value.rs writes it. */
module ValueEmit {
  import opened Prelude
  import opened Bytes
  import opened Cursor
  import opened Value
  import opened ValueWrite
  import Varint

  /** The writer refused exactly when the function does, and otherwise appended exactly its bytes. */
  ghost predicate Wrote(spec: Result<seq<Byte>, FormatError>, r: Result<(), FormatError>, was: seq<Byte>, now: seq<Byte>) {
    match spec
    case Ok(bytes) => r == Ok(()) && now == was + bytes
    case Err(e) => r == Err(e)
  }

  /** What a loop still to run makes of the bytes so far. */
  ghost function Grown(sofar: seq<Byte>, rest: Result<seq<Byte>, FormatError>): Result<seq<Byte>, FormatError> {
    if rest.Ok? then Ok(sofar + rest.value) else rest
  }

  lemma GrownLaws(sofar: seq<Byte>, one: seq<Byte>, rest: Result<seq<Byte>, FormatError>)
    ensures Grown(sofar, Grown(one, rest)) == Grown(sofar + one, rest)
    ensures Grown([], rest) == rest && Grown(sofar, Ok([])) == Ok(sofar)
  {
    assert sofar + [] == sofar;
    if rest.Ok? {
      Associate(sofar, one, rest.value);
      assert [] + rest.value == rest.value;
    }
  }

  type Entries = Result<(seq<Byte>, seq<nat>), FormatError>

  ghost function GrownBoth(sofar: seq<Byte>, offsets: seq<nat>, rest: Entries): Entries {
    if rest.Ok? then Ok((sofar + rest.value.0, offsets + rest.value.1)) else rest
  }

  lemma GrownBothLaws(sofar: seq<Byte>, offsets: seq<nat>, one: seq<Byte>, at: nat, rest: Entries)
    ensures GrownBoth(sofar, offsets, GrownBoth(one, [at], rest)) == GrownBoth(sofar + one, offsets + [at], rest)
    ensures GrownBoth([], [], rest) == rest && GrownBoth(sofar, offsets, Ok(([], []))) == Ok((sofar, offsets))
  {
    assert sofar + [] == sofar && offsets + [] == offsets;
    match rest
    case Ok((bytes, more)) =>
      Associate(sofar, one, bytes);
      Associate(offsets, [at], more);
      assert [] + bytes == bytes && [] + more == more;
    case Err(_) =>
  }

  method WriteValue(v: Value, w: Writer, depth: nat) returns (r: Result<(), FormatError>)
    modifies w
    ensures Wrote(Write(v, depth), r, old(w.buf), w.buf)
    decreases v, 0
  {
    hide LeafBytes, Finite, Varint.Encode, WriteItems, WriteEntries, TableBytes;
    if depth > MAX_DEPTH {
      return Err(Malformed);
    }
    match v
    case Array(items) =>
      w.Raw([7]);
      w.PutVarint(|items|);
      var _ :- WriteAll(items, w, depth + 1);
      r := Ok(());
    case Map(entries) => r := WriteMap(entries, w, depth);
    case F64(bits) =>
      if |bits| != 8 || !Finite(bits) {
        return Err(Malformed);
      }
      w.Raw(LeafBytes(v));
      r := Ok(());
    case _ =>
      w.Raw(LeafBytes(v));
      r := Ok(());
  }

  method WriteAll(items: seq<Value>, w: Writer, depth: nat) returns (r: Result<(), FormatError>)
    modifies w
    ensures Wrote(WriteItems(items, depth), r, old(w.buf), w.buf)
    decreases items, 1
  {
    hide Write;
    ghost var sofar: seq<Byte> := [];
    GrownLaws(sofar, [], WriteItems(items, depth));
    assert items[0..] == items;
    for i := 0 to |items|
      invariant w.buf == old(w.buf) + sofar
      invariant Grown(sofar, WriteItems(items[i..], depth)) == WriteItems(items, depth)
    {
      assert items[i..][1..] == items[i + 1..];
      ghost var spec := Write(items[i], depth);
      var _ :- WriteValue(items[i], w, depth);
      GrownLaws(sofar, spec.value, WriteItems(items[i + 1..], depth));
      Associate(old(w.buf), sofar, spec.value);
      sofar := sofar + spec.value;
    }
    GrownLaws(sofar, [], Ok([]));
    r := Ok(());
  }

  /** The entries into a buffer of their own, noting where each begins. */
  method WriteScratch(entries: seq<Entry>, scratch: Writer, depth: nat) returns (r: Result<seq<nat>, FormatError>)
    requires scratch.buf == []
    modifies scratch
    ensures match WriteEntries(entries, depth, 0)
      case Ok((bytes, offsets)) => r == Ok(offsets) && scratch.buf == bytes
      case Err(e) => r == Err(e)
    decreases entries, 1
  {
    hide Write, Cursor.Blob;
    var offsets: seq<nat> := [];
    GrownBothLaws([], [], [], 0, WriteEntries(entries, depth, 0));
    assert entries[0..] == entries;
    for i := 0 to |entries|
      invariant GrownBoth(scratch.buf, offsets, WriteEntries(entries[i..], depth, |scratch.buf|)) == WriteEntries(entries, depth, 0)
    {
      assert entries[i..][1..] == entries[i + 1..];
      ghost var was := scratch.buf;
      ghost var spec := Write(entries[i].value, depth);
      var at := |scratch.buf|;
      scratch.PutBlob(entries[i].key);
      var _ :- WriteValue(entries[i].value, scratch, depth);
      ghost var one := Cursor.Blob(entries[i].key) + spec.value;
      Associate(was, Cursor.Blob(entries[i].key), spec.value);
      GrownBothLaws(was, offsets, one, at, WriteEntries(entries[i + 1..], depth, at + |one|));
      offsets := offsets + [at];
    }
    GrownBothLaws(scratch.buf, offsets, [], 0, Ok(([], [])));
    r := Ok(offsets);
  }

  /** The bytes of the entries alone. */
  ghost function Body(spec: Entries): Result<seq<Byte>, FormatError> {
    match spec
    case Ok((bytes, _)) => Ok(bytes)
    case Err(e) => Err(e)
  }

  /** The entries straight into the output, no offsets kept. */
  method WriteFields(entries: seq<Entry>, w: Writer, depth: nat) returns (r: Result<(), FormatError>)
    modifies w
    ensures Wrote(Body(WriteEntries(entries, depth, 0)), r, old(w.buf), w.buf)
    decreases entries, 1
  {
    hide Write, Cursor.Blob;
    ghost var sofar: seq<Byte>, from: nat := [], 0;
    GrownLaws(sofar, [], Body(WriteEntries(entries, depth, 0)));
    assert entries[0..] == entries;
    for i := 0 to |entries|
      invariant w.buf == old(w.buf) + sofar
      invariant Grown(sofar, Body(WriteEntries(entries[i..], depth, from))) == Body(WriteEntries(entries, depth, 0))
    {
      assert entries[i..][1..] == entries[i + 1..];
      ghost var spec := Write(entries[i].value, depth);
      w.PutBlob(entries[i].key);
      var _ :- WriteValue(entries[i].value, w, depth);
      ghost var one := Cursor.Blob(entries[i].key) + spec.value;
      GrownLaws(sofar, one, Body(WriteEntries(entries[i + 1..], depth, from + |one|)));
      Appended(old(w.buf), sofar, Cursor.Blob(entries[i].key), spec.value);
      sofar, from := sofar + one, from + |one|;
    }
    GrownLaws(sofar, [], Ok([]));
    r := Ok(());
  }

  lemma Appended(a: seq<Byte>, b: seq<Byte>, c: seq<Byte>, d: seq<Byte>)
    ensures a + b + c + d == a + (b + (c + d))
  {
  }

  method WriteTable(offsets: seq<nat>, w: Writer)
    modifies w
    ensures w.buf == old(w.buf) + TableBytes(offsets)
  {
    hide Le;
    ghost var sofar: seq<Byte> := [];
    assert offsets[0..] == offsets;
    for i := 0 to |offsets|
      invariant w.buf == old(w.buf) + sofar && sofar + TableBytes(offsets[i..]) == TableBytes(offsets)
    {
      assert offsets[i..][1..] == offsets[i + 1..];
      w.Uint(offsets[i], 2);
      Associate(sofar, Le(offsets[i], 2), TableBytes(offsets[i + 1..]));
      sofar := sofar + Le(offsets[i], 2);
    }
  }

  /** A narrow map goes straight out; a wide one through a scratch buffer, behind its table if that fits. */
  method WriteMap(entries: seq<Entry>, w: Writer, depth: nat) returns (r: Result<(), FormatError>)
    requires depth <= MAX_DEPTH
    modifies w
    ensures Wrote(Write(Map(entries), depth), r, old(w.buf), w.buf)
    decreases entries, 2
  {
    hide Varint.Encode, WriteEntries, TableBytes, Cursor.Blob;
    if |entries| < INDEX_MIN_ENTRIES {
      w.Raw([8]);
      w.PutVarint(|entries|);
      var _ :- WriteFields(entries, w, depth + 1);
      return Ok(());
    }
    var scratch := new Writer();
    var offsets :- WriteScratch(entries, scratch, depth + 1);
    if offsets != [] && offsets[|offsets| - 1] <= MAX_OFFSET {
      w.Raw([9]);
      w.PutVarint(|entries|);
      WriteTable(offsets, w);
    } else {
      w.Raw([8]);
      w.PutVarint(|entries|);
    }
    w.Raw(scratch.buf);
    r := Ok(());
  }
}
