/**
  The bounded reader every decoder goes through.  A read is a function of the buffer and a
  position; `Reader` is the object that keeps the position.
*/
module Cursor {
  import opened Prelude
  import opened Bytes
  import Varint

  /** Error kinds; offsets and message text are not modelled. */
  datatype FormatError =
    | Truncated | LengthExceedsInput | ChecksumMismatch | BadMagic | UnsupportedVersion | Malformed

  /** What was read and the position after it. */
  type Read<T> = Result<(T, nat), FormatError>

  function ReadBytes(b: seq<Byte>, at: nat, n: nat): Read<seq<Byte>> {
    if at + n <= |b| then Ok((b[at..at + n], at + n)) else Err(Truncated)
  }

  function ReadUint(b: seq<Byte>, at: nat, k: nat): Read<nat> {
    if at + k <= |b| then Ok((At(b, at, k), at + k)) else Err(Truncated)
  }

  function ReadVarint(b: seq<Byte>, at: nat): Read<nat> {
    match Varint.Decode(if at <= |b| then b[at..] else [])
    case Ok((v, n)) => Ok((v, at + n))
    case Err(Truncated) => Err(Truncated)
    case Err(_) => Err(Malformed)
  }

  function ReadBlob(b: seq<Byte>, at: nat): Read<seq<Byte>> {
    var (len, p) :- ReadVarint(b, at);
    if p + len <= |b| then Ok((b[p..p + len], p + len)) else Err(LengthExceedsInput)
  }

  function ReadString(b: seq<Byte>, at: nat): Read<seq<Byte>> {
    var (s, p) :- ReadBlob(b, at);
    if Utf8(s) then Ok((s, p)) else Err(Malformed)
  }

  function ReadReserved(b: seq<Byte>, at: nat, n: nat): Read<()> {
    var (s, p) :- ReadBytes(b, at, n);
    if exists i :: 0 <= i < |s| && s[i] != 0 then Err(Malformed) else Ok(((), p))
  }

  /** A count the bytes left could not hold is refused before anything is read. */
  function ReadCount(b: seq<Byte>, at: nat, perItem: nat): Read<nat>
    requires perItem > 0
  {
    var (count, p) :- ReadVarint(b, at);
    if p <= |b| && count <= (|b| - p) / perItem then Ok((count, p)) else Err(LengthExceedsInput)
  }

  function Zeros(n: nat): (r: seq<Byte>)
    ensures |r| == n
  {
    seq(n, _ => 0)
  }

  /** A length-prefixed byte string. */
  function Blob(s: seq<Byte>): (r: seq<Byte>)
    ensures |r| > |s|
  {
    Varint.Encode(|s|) + s
  }

  // ----- UTF-8, section 4 of RFC 3629 -----

  predicate Tail(s: seq<Byte>, i: nat) {
    i < |s| && 0x80 <= s[i] <= 0xBF
  }

  predicate TailIn(s: seq<Byte>, i: nat, lo: int, hi: int) {
    i < |s| && lo <= s[i] <= hi
  }

  predicate Utf8(s: seq<Byte>)
    decreases |s|
  {
    if s == [] then true
    else if s[0] <= 0x7F then Utf8(s[1..])
    else if 0xC2 <= s[0] <= 0xDF && Tail(s, 1) then Utf8(s[2..])
    else if s[0] == 0xE0 && TailIn(s, 1, 0xA0, 0xBF) && Tail(s, 2) then Utf8(s[3..])
    else if s[0] == 0xED && TailIn(s, 1, 0x80, 0x9F) && Tail(s, 2) then Utf8(s[3..])
    else if 0xE1 <= s[0] <= 0xEF && s[0] != 0xED && Tail(s, 1) && Tail(s, 2) then Utf8(s[3..])
    else if s[0] == 0xF0 && TailIn(s, 1, 0x90, 0xBF) && Tail(s, 2) && Tail(s, 3) then Utf8(s[4..])
    else if s[0] == 0xF4 && TailIn(s, 1, 0x80, 0x8F) && Tail(s, 2) && Tail(s, 3) then Utf8(s[4..])
    else if 0xF1 <= s[0] <= 0xF3 && Tail(s, 1) && Tail(s, 2) && Tail(s, 3) then Utf8(s[4..])
    else false
  }

  // ----- Reading succeeds exactly on what writing produces -----

  lemma UintExactly(b: seq<Byte>, at: nat, k: nat, v: nat, end: nat)
    ensures ReadUint(b, at, k) == Ok((v, end)) <==> v < Pow256(k) && Holds(b, at, Le(v, k)) && end == at + k
  {
    hide Le, FromLe, Pow256;
    if at + k <= |b| {
      FromLeRoundTrip(b[at..at + k]);
      if v < Pow256(k) {
        LeRoundTrip(v, k);
      }
    }
  }

  lemma VarintExactly(b: seq<Byte>, at: nat, v: nat, end: nat)
    ensures ReadVarint(b, at) == Ok((v, end)) <==>
            v < U64 && Holds(b, at, Varint.Encode(v)) && end == at + |Varint.Encode(v)|
  {
    var e := Varint.Encode(v);
    hide Varint.Encode, Varint.Decode;
    if at <= |b| {
      var rest := b[at..];
      Varint.DecodeExactly(rest, v, |e|);
      assert |e| <= |rest| ==> rest[..|e|] == b[at..at + |e|];
      if ReadVarint(b, at) == Ok((v, end)) {
        Varint.DecodeExactly(rest, v, end - at);
      }
    } else {
      NothingDecodes(v, end - at);
    }
  }

  lemma NothingDecodes(v: nat, n: int)
    ensures !Varint.Decode([]).Ok?
  {
  }

  lemma BlobExactly(b: seq<Byte>, at: nat, s: seq<Byte>, end: nat)
    ensures ReadBlob(b, at) == Ok((s, end)) <==> |s| < U64 && Holds(b, at, Blob(s)) && end == at + |Blob(s)|
  {
    hide Varint.Encode, Holds;
    HoldsParts(b, at, Varint.Encode(|s|), s);
    var p := at + |Varint.Encode(|s|)|;
    VarintExactly(b, at, |s|, p);
    HoldsMeans(b, p, s);
    if ReadBlob(b, at) == Ok((s, end)) {
      var (len, q) := ReadVarint(b, at).value;
      VarintExactly(b, at, len, q);
    }
  }

  lemma HoldsMeans(b: seq<Byte>, at: nat, s: seq<Byte>)
    ensures Holds(b, at, s) <==> at + |s| <= |b| && b[at..at + |s|] == s
  {
  }

  lemma StringExactly(b: seq<Byte>, at: nat, s: seq<Byte>, end: nat)
    ensures ReadString(b, at) == Ok((s, end)) <==>
            Utf8(s) && |s| < U64 && Holds(b, at, Blob(s)) && end == at + |Blob(s)|
  {
    hide Holds, Blob, Utf8;
    BlobExactly(b, at, s, end);
  }

  lemma ReservedExactly(b: seq<Byte>, at: nat, n: nat, end: nat)
    ensures ReadReserved(b, at, n) == Ok(((), end)) <==> Holds(b, at, Zeros(n)) && end == at + n
  {
    if at + n <= |b| {
      var s := b[at..at + n];
      if forall i :: 0 <= i < |s| ==> s[i] == 0 {
        assert s == Zeros(n);
      }
    }
  }

  lemma UnitRead(b: seq<Byte>, at: nat, n: nat)
    requires ReadReserved(b, at, n).Ok?
    ensures ReadReserved(b, at, n) == Ok(((), at + n))
  {
  }

  lemma OneByte(b: seq<Byte>, at: nat)
    requires ReadUint(b, at, 1).Ok?
    ensures 0 <= ReadUint(b, at, 1).value.0 < 256 && ReadUint(b, at, 1).value.1 == at + 1 <= |b|
  {
    assert Pow256(1) == 256;
    FromLeRoundTrip(b[at..at + 1]);
  }

  lemma ByteExactly(b: seq<Byte>, at: nat, x: Byte, rest: seq<Byte>)
    ensures Holds(b, at, [x] + rest) <==> ReadUint(b, at, 1) == Ok((x, at + 1)) && Holds(b, at + 1, rest)
    ensures rest == [] ==> [x] + rest == [x]
  {
    HoldsParts(b, at, [x], rest);
    assert Le(x, 1) == [x] by {
      assert Le(x / 256, 0) == [];
    }
    assert Pow256(1) == 256;
    UintExactly(b, at, 1, x, at + 1);
  }

  /** A count is read exactly when it is there and what is left could hold that many items. */
  lemma CountReads(b: seq<Byte>, at: nat, perItem: nat, n: nat, end: nat)
    requires perItem > 0
    ensures ReadCount(b, at, perItem) == Ok((n, end)) <==>
      n < U64 && Holds(b, at, Varint.Encode(n)) && end == at + |Varint.Encode(n)| && n <= (|b| - end) / perItem
  {
    hide Holds, ReadVarint, Varint.Encode;
    VarintExactly(b, at, n, end);
    HoldsMeans(b, at, Varint.Encode(n));
    if ReadCount(b, at, perItem) == Ok((n, end)) {
      var (x, p) := ReadVarint(b, at).value;
      assert x == n && p == end;
    }
  }

  // ----- The object -----

  class Reader {
    const buf: seq<Byte>
    var pos: nat

    ghost predicate Valid()
      reads this
    {
      pos <= |buf|
    }

    constructor (buf: seq<Byte>)
      ensures Valid() && this.buf == buf && pos == 0
    {
      this.buf, pos := buf, 0;
    }

    function Remaining(): nat
      reads this
      requires Valid()
    {
      |buf| - pos
    }

    /** Take exactly `n` bytes. */
    method Take(n: nat) returns (r: Result<seq<Byte>, FormatError>)
      requires Valid()
      modifies this
      ensures Valid() && Agrees(ReadBytes(buf, old(pos), n), r, pos)
    {
      if n > |buf| - pos {
        return Err(Truncated);
      }
      r := Ok(buf[pos..pos + n]);
      pos := pos + n;
    }

    method Uint(k: nat) returns (r: Result<nat, FormatError>)
      requires Valid()
      modifies this
      ensures Valid() && Agrees(ReadUint(buf, old(pos), k), r, pos)
    {
      var s :- Take(k);
      r := Ok(FromLe(s));
    }

    method TakeVarint() returns (r: Result<nat, FormatError>)
      requires Valid()
      modifies this
      ensures Valid() && Agrees(ReadVarint(buf, old(pos)), r, pos)
    {
      var d := Varint.DecodeU64(buf[pos..]);
      match d
      case Err(Truncated) => return Err(Truncated);
      case Err(_) => return Err(Malformed);
      case Ok((v, n)) =>
        VarintExactly(buf, pos, v, pos + n);
        r := Ok(v);
        pos := pos + n;
    }

    method TakeCount(perItem: nat) returns (r: Result<nat, FormatError>)
      requires Valid() && perItem > 0
      modifies this
      ensures Valid() && Agrees(ReadCount(buf, old(pos), perItem), r, pos)
    {
      hide ReadVarint;
      var count :- TakeVarint();
      r := if count <= Remaining() / perItem then Ok(count) else Err(LengthExceedsInput);
    }

    method TakeBlob() returns (r: Result<seq<Byte>, FormatError>)
      requires Valid()
      modifies this
      ensures Valid() && Agrees(ReadBlob(buf, old(pos)), r, pos)
    {
      var len :- TakeVarint();
      if len > |buf| - pos {
        return Err(LengthExceedsInput);
      }
      r := Take(len);
    }

    method TakeString() returns (r: Result<seq<Byte>, FormatError>)
      requires Valid()
      modifies this
      ensures Valid() && Agrees(ReadString(buf, old(pos)), r, pos)
    {
      var s :- TakeBlob();
      r := if Utf8(s) then Ok(s) else Err(Malformed);
    }
  }

  /** A growable byte sink. */
  class Writer {
    var buf: seq<Byte>

    constructor ()
      ensures buf == []
    {
      buf := [];
    }

    method Raw(s: seq<Byte>)
      modifies this
      ensures buf == old(buf) + s
    {
      buf := buf + s;
    }

    method Uint(v: nat, k: nat)
      modifies this
      ensures buf == old(buf) + Le(v, k)
    {
      Raw(Le(v, k));
    }

    method PutVarint(v: nat)
      modifies this
      ensures buf == old(buf) + Varint.Encode(v)
    {
      var r, _ := Varint.EncodeU64(v, buf);
      buf := r;
    }

    method PutBlob(s: seq<Byte>)
      modifies this
      ensures buf == old(buf) + Blob(s)
    {
      hide Varint.Encode;
      PutVarint(|s|);
      Raw(s);
    }
  }

  /** The object returned what the function reads, and on success stopped where it stops. */
  ghost predicate Agrees<T>(spec: Read<T>, r: Result<T, FormatError>, pos: nat) {
    match r
    case Ok(v) => spec == Ok((v, pos))
    case Err(e) => spec == Err(e)
  }
}
