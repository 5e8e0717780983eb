/** Walking past a value without materialising it (value.rs, `skip_at_depth`). */
module ValueSkip {
  import opened Prelude
  import opened Bytes
  import opened Cursor
  import opened Value
  import opened ValueRead
  import Varint

  /** The position after one encoded value. */
  function Skip(b: seq<Byte>, at: nat, depth: nat): Result<nat, FormatError>
    decreases MAX_DEPTH + 1 - depth, 0
  {
    if depth > MAX_DEPTH then Err(Malformed)
    else
      var (tag, p) :- ReadUint(b, at, 1);
      if tag <= 2 then Ok(p)
      else if tag == 3 then
        var (_, q) :- ReadVarint(b, p);
        Ok(q)
      else if tag == 4 then
        var (_, q) :- ReadBytes(b, p, 8);
        Ok(q)
      else if tag == 5 || tag == 6 then
        var (_, q) :- ReadBlob(b, p);
        Ok(q)
      else if tag == 7 then
        var (count, q) :- ReadCount(b, p, 1);
        SkipItems(b, q, count, depth + 1)
      else if tag == 9 then
        var (count, q) :- ReadCount(b, p, 4);
        var (_, base) :- ReadBytes(b, q, 2 * count);
        SkipFields(b, base, count, depth + 1)
      else if tag == 8 then
        var (count, q) :- ReadCount(b, p, 2);
        SkipFields(b, q, count, depth + 1)
      else Err(Malformed)
  }

  function SkipItems(b: seq<Byte>, at: nat, count: nat, depth: nat): Result<nat, FormatError>
    decreases MAX_DEPTH + 1 - depth, count + 1
  {
    if count == 0 then Ok(at)
    else
      var p :- Skip(b, at, depth);
      SkipItems(b, p, count - 1, depth)
  }

  function SkipFields(b: seq<Byte>, at: nat, count: nat, depth: nat): Result<nat, FormatError>
    decreases MAX_DEPTH + 1 - depth, count + 1
  {
    if count == 0 then Ok(at)
    else
      var (_, p) :- ReadBlob(b, at);
      var q :- Skip(b, p, depth);
      SkipFields(b, q, count - 1, depth)
  }

  /** Skipping a value that would decode stops where decoding would. */
  lemma {:induction false} SkipsWhatDecodes(b: seq<Byte>, at: nat, depth: nat)
    requires ReadTree(b, at, depth).Ok?
    ensures Skip(b, at, depth) == Ok(ReadTree(b, at, depth).value.1)
    decreases MAX_DEPTH + 1 - depth, 0
  {
    hide ReadUint, ReadVarint, ReadBlob, ReadBytes, ReadCount, Utf8, Finite;
    var (tag, p) := ReadUint(b, at, 1).value;
    if tag == 7 {
      var (count, q) := ReadCount(b, p, 1).value;
      SkipsItems(b, q, count, depth + 1);
    } else if tag == 8 {
      var (count, q) := ReadCount(b, p, 2).value;
      SkipsFields(b, q, count, depth + 1, None, q, None);
    } else if tag == 9 {
      var (count, q) := ReadCount(b, p, 4).value;
      var base := ReadBytes(b, q, 2 * count).value.1;
      SkipsFields(b, base, count, depth + 1, Some(q), base, None);
    }
  }

  lemma {:induction false} SkipsItems(b: seq<Byte>, at: nat, count: nat, depth: nat)
    requires ReadItems(b, at, count, depth).Ok?
    ensures SkipItems(b, at, count, depth) == Ok(ReadItems(b, at, count, depth).value.1)
    decreases MAX_DEPTH + 1 - depth, count + 1
  {
    hide ReadTree, Skip;
    if count > 0 {
      SkipsWhatDecodes(b, at, depth);
      SkipsItems(b, ReadTree(b, at, depth).value.1, count - 1, depth);
    }
  }

  lemma {:induction false} SkipsFields(b: seq<Byte>, at: nat, count: nat, depth: nat, slot: Option<nat>, base: nat, prev: Option<seq<Byte>>)
    requires ReadFields(b, at, count, depth, slot, base, prev).Ok?
    ensures SkipFields(b, at, count, depth) == Ok(ReadFields(b, at, count, depth, slot, base, prev).value.1)
    decreases MAX_DEPTH + 1 - depth, count + 1
  {
    hide ReadTree, Skip, ReadBlob, Utf8, Less, At;
    if count > 0 {
      var (key, p) := ReadString(b, at).value;
      SkipsWhatDecodes(b, p, depth);
      SkipsFields(b, ReadTree(b, p, depth).value.1, count - 1, depth, NextSlot(slot), base, Some(key));
    }
  }
}
