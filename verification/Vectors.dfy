/** The vector file: equal rows back to back, starting 64 bytes in (segment.rs). */
module Vectors {
  import opened Prelude
  import opened Bytes
  import opened Cursor
  import Block

  const PAD: nat := 32

  function Concat(rows: seq<seq<Byte>>): seq<Byte> {
    if rows == [] then [] else rows[0] + Concat(rows[1..])
  }

  /** The padding counts as payload, so the checksum covers it too. */
  function Finish(data: seq<Byte>): seq<Byte> {
    Block.EncodeBlock(Block.Vectors, Zeros(PAD) + data)
  }

  datatype VectorBlock = VectorBlock(data: seq<Byte>, stride: nat, rows: nat)

  function Open(b: seq<Byte>, stride: nat): Result<VectorBlock, FormatError> {
    if stride == 0 then Err(Malformed)
    else
      var payload :- Block.OpenBlock(b, Block.Vectors);
      if |payload| < PAD then Err(Truncated)
      else
        var data := payload[PAD..];
        match RowCount(|data|, stride)
        case Some(n) => if n < U32 then Ok(VectorBlock(data, stride, n)) else Err(Malformed)
        case None => Err(Malformed)
  }

  /** How many rows fill `len` bytes, when some number of them does. */
  function RowCount(len: nat, stride: nat): (r: Option<nat>)
    requires stride > 0
  {
    if len % stride == 0 then Some(Quotient(len, stride)) else None
  }

  function Quotient(a: nat, b: nat): nat
    requires b > 0
  {
    a / b
  }

  function RowAt(v: VectorBlock, i: nat): Option<seq<Byte>> {
    var start := i * v.stride;
    if start + v.stride <= |v.data| then Some(v.data[start..start + v.stride]) else None
  }

  ghost predicate AllLong(rows: seq<seq<Byte>>, stride: nat) {
    forall i :: 0 <= i < |rows| ==> |rows[i]| == stride
  }

  lemma {:induction false} ConcatLength(rows: seq<seq<Byte>>, stride: nat)
    requires AllLong(rows, stride)
    ensures |Concat(rows)| == |rows| * stride
  {
    if rows != [] {
      ConcatLength(rows[1..], stride);
      assert |rows| * stride == stride + (|rows| - 1) * stride;
    }
  }

  lemma {:induction false} ConcatAt(rows: seq<seq<Byte>>, stride: nat, i: nat)
    requires AllLong(rows, stride) && i < |rows|
    ensures i * stride + stride <= |Concat(rows)| && Concat(rows)[i * stride..i * stride + stride] == rows[i]
  {
    if i > 0 {
      ConcatAt(rows[1..], stride, i - 1);
      var p := (i - 1) * stride;
      assert i * stride == stride + p;
      assert Concat(rows)[stride + p..stride + p + stride] == Concat(rows[1..])[p..p + stride];
    }
  }

  lemma Beyond(n: nat, i: nat, stride: nat)
    requires n <= i && stride > 0
    ensures i * stride + stride > n * stride
  {
    assert i * stride >= n * stride;
  }

  lemma Divides(a: nat, b: nat, q: int, r: int)
    requires b > 0 && a == q * b + r && 0 <= r < b
    ensures a / b == q && a % b == r
  {
    var d := a / b - q;
    assert a == (a / b) * b + a % b;
    assert d * b == r - a % b;
    Scales(d, b);
  }

  lemma Scales(d: int, b: int)
    requires b > 0
    ensures (d >= 1 ==> d * b >= b) && (d <= -1 ==> d * b <= 0 - b)
  {
  }

  lemma CountExactly(len: nat, stride: nat, n: nat)
    requires stride > 0
    ensures RowCount(len, stride) == Some(n) <==> len == n * stride
  {
    if len == n * stride {
      Divides(len, stride, n, 0);
    }
  }

  /** Every row written is read back at its index, and nothing past the last. */
  lemma RowsBack(rows: seq<seq<Byte>>, stride: nat)
    requires stride > 0 && AllLong(rows, stride) && |rows| < U32 && |Concat(rows)| + PAD < U64
    ensures Open(Finish(Concat(rows)), stride) == Ok(VectorBlock(Concat(rows), stride, |rows|))
    ensures var v := VectorBlock(Concat(rows), stride, |rows|);
      forall i: nat :: RowAt(v, i) == if i < |rows| then Some(rows[i]) else None
  {
    hide Concat, Block.EncodeBlock, Block.OpenBlock, Holds, RowCount, RowAt;
    var data := Concat(rows);
    var payload := Zeros(PAD) + data;
    var b := Finish(data);
    WholeHolds(b);
    Block.BlockBack(b, Block.Vectors, payload);
    assert payload[PAD..] == data;
    ConcatLength(rows, stride);
    CountExactly(|data|, stride, |rows|);
    var v := VectorBlock(data, stride, |rows|);
    forall i: nat ensures RowAt(v, i) == if i < |rows| then Some(rows[i]) else None {
      RowBack(rows, stride, i);
    }
  }

  lemma RowBack(rows: seq<seq<Byte>>, stride: nat, i: nat)
    requires stride > 0 && AllLong(rows, stride)
    ensures RowAt(VectorBlock(Concat(rows), stride, |rows|), i) == if i < |rows| then Some(rows[i]) else None
  {
    hide Concat;
    ConcatLength(rows, stride);
    if i < |rows| {
      ConcatAt(rows, stride, i);
    } else {
      Beyond(|rows|, i, stride);
    }
  }

  /** Any accepted file answers for exactly the rows it claims. */
  lemma AcceptedRows(b: seq<Byte>, stride: nat, i: nat)
    requires Open(b, stride).Ok?
    ensures RowAt(Open(b, stride).value, i).Some? <==> i < Open(b, stride).value.rows
  {
    hide Block.OpenBlock, RowCount;
    var v := Open(b, stride).value;
    var n := v.rows;
    CountExactly(|v.data|, stride, n);
    if i < n {
      assert (i + 1) * stride <= n * stride;
    } else {
      Beyond(n, i, stride);
    }
  }

  class VectorWriter {
    const stride: nat
    var rows: nat
    var data: seq<Byte>
    ghost var pushed: seq<seq<Byte>>

    ghost predicate Valid()
      reads this
    {
      stride > 0 && rows == Min(|pushed|, U32 - 1) && data == Concat(pushed) && AllLong(pushed, stride)
    }

    constructor (stride: nat)
      requires stride > 0
      ensures Valid() && this.stride == stride && pushed == []
    {
      this.stride, rows, data, pushed := stride, 0, [], [];
    }

    method PushRow(row: seq<Byte>) returns (r: Result<nat, FormatError>)
      requires Valid()
      modifies this
      ensures Valid()
      ensures r == if |row| == stride then Ok(Min(|old(pushed)|, U32 - 1)) else Err(Malformed)
      ensures pushed == old(pushed) + if |row| == stride then [row] else []
    {
      if |row| != stride {
        return Err(Malformed);
      }
      r := Ok(rows);
      ConcatSnoc(pushed, row);
      data := data + row;
      rows := Min(rows + 1, U32 - 1);
      pushed := pushed + [row];
    }
  }

  lemma {:induction false} ConcatSnoc(rows: seq<seq<Byte>>, row: seq<Byte>)
    ensures Concat(rows + [row]) == Concat(rows) + row
  {
    if rows == [] {
      assert [row][1..] == [] && rows + [row] == [row];
    } else {
      ConcatSnoc(rows[1..], row);
      assert (rows + [row])[1..] == rows[1..] + [row];
    }
  }
}
