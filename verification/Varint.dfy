/**
  LEB128 variable-length integers in their minimal form.  Adding a payload shifted past
  everything read so far is what the source's bitwise or does.
*/
module Varint {
  import opened Prelude
  import opened Bytes
  import opened BitString

  const MAX_LEN: nat := 10

  datatype VarintError = Truncated | Overflow | NonCanonical

  function Pow128(k: nat): (r: nat)
    ensures r > 0
  {
    if k == 0 then 1 else 128 * Pow128(k - 1)
  }

  /** The minimal encoding: seven bits a byte, low bits first, the high bit marking more. */
  function Encode(v: nat): (r: seq<Byte>)
    ensures |r| > 0
  {
    if v < 128 then [v] else [128 + v % 128] + Encode(v / 128)
  }

  function EncodedLen(v: nat): nat {
    if v < 128 then 1 else 1 + EncodedLen(v / 128)
  }

  lemma {:induction false} EncodedLenAgrees(v: nat)
    ensures EncodedLen(v) == |Encode(v)|
  {
    if v >= 128 {
      EncodedLenAgrees(v / 128);
    }
  }

  /** `payload << 7 * i`. */
  function Shifted(payload: nat, i: nat): nat {
    payload * Pow128(i)
  }

  /** The decoding loop, from byte `i` with `value` read so far. */
  function Scan(buf: seq<Byte>, i: nat, value: nat): Result<(nat, nat), VarintError>
    requires i <= |buf|
    decreases |buf| - i
  {
    if i == |buf| then Err(Truncated)
    else if i >= MAX_LEN then Err(Overflow)
    else
      var payload := buf[i] % 128;
      if i == 9 && payload > 1 then Err(Overflow)
      else
        var v := value + Shifted(payload, i);
        if buf[i] < 128 then
          if i > 0 && payload == 0 then Err(NonCanonical)
          else if EncodedLen(v) != i + 1 then Err(NonCanonical)
          else Ok((v, i + 1))
        else Scan(buf, i + 1, v)
  }

  function Decode(buf: seq<Byte>): Result<(nat, nat), VarintError> {
    Scan(buf, 0, 0)
  }

  // ----- Groups of bytes -----

  /** Bytes marked as continuing. */
  ghost predicate Continues(s: seq<Byte>) {
    forall i :: 0 <= i < |s| ==> s[i] >= 128
  }

  /** A whole group: every byte but the last continues. */
  ghost predicate Terminated(s: seq<Byte>) {
    s != [] && s[|s| - 1] < 128 && Continues(s[..|s| - 1])
  }

  ghost predicate Minimal(s: seq<Byte>) {
    Terminated(s) && (|s| > 1 ==> s[|s| - 1] != 0)
  }

  function Raw(s: seq<Byte>): nat {
    if s == [] then 0 else s[0] % 128 + 128 * Raw(s[1..])
  }

  lemma {:induction false} RawAppend(a: seq<Byte>, b: seq<Byte>)
    ensures Raw(a + b) == Raw(a) + Pow128(|a|) * Raw(b)
  {
    if a == [] {
      assert a + b == b;
    } else {
      assert (a + b)[0] == a[0] && (a + b)[1..] == a[1..] + b;
      RawAppend(a[1..], b);
      Distribute(128, Raw(a[1..]), Pow128(|a| - 1), Raw(b));
    }
  }

  lemma RawOne(s: seq<Byte>, b: Byte)
    ensures Raw(s + [b]) == Raw(s) + b % 128 * Pow128(|s|)
  {
    RawAppend(s, [b]);
    assert Raw([b]) == b % 128 by {
      assert [b][1..] == [];
    }
    hide Raw, Pow128;
    Commute(Pow128(|s|), b % 128);
  }

  lemma Commute(x: int, y: int)
    ensures x * y == y * x
  {
  }

  lemma AtLeastOnce(x: int, y: int)
    requires x >= 1 && y >= 0
    ensures x * y >= y
  {
  }

  lemma RawStep(s: seq<Byte>)
    requires s != []
    ensures Raw(s) / 128 == Raw(s[1..]) && Raw(s) % 128 == s[0] % 128
  {
  }

  lemma {:induction false} RawBound(s: seq<Byte>)
    ensures Raw(s) < Pow128(|s|)
  {
    if s != [] {
      RawBound(s[1..]);
    }
  }

  lemma {:induction false} EncodeIsMinimal(v: nat)
    ensures Minimal(Encode(v)) && Raw(Encode(v)) == v
    ensures v > 0 ==> Encode(v)[|Encode(v)| - 1] != 0
  {
    if v >= 128 {
      EncodeIsMinimal(v / 128);
      var e, r := Encode(v / 128), Encode(v);
      assert r[1..] == e;
      assert r[..|r| - 1] == [r[0]] + e[..|e| - 1];
    }
  }

  lemma MinimalTail(s: seq<Byte>)
    requires Minimal(s) && |s| > 1
    ensures Minimal(s[1..]) && s[0] >= 128
  {
    var t := s[1..];
    assert forall i :: 0 <= i < |t| - 1 ==> t[i] == s[..|s| - 1][i + 1];
    assert s[..|s| - 1][0] == s[0];
  }

  lemma MinimalOne(s: seq<Byte>)
    requires Minimal(s) && |s| == 1
    ensures s[0] < 128 && Raw(s) == s[0]
  {
    assert s[1..] == [];
  }

  lemma {:induction false} MinimalIsEncode(s: seq<Byte>)
    requires Minimal(s)
    ensures Encode(Raw(s)) == s
    ensures |s| > 1 ==> Raw(s) >= 128
  {
    if |s| > 1 {
      var t := s[1..];
      MinimalTail(s);
      MinimalIsEncode(t);
      assert Raw(t) > 0 by {
        if |t| == 1 {
          MinimalOne(t);
          assert t[0] == s[|s| - 1];
        }
      }
      RawStep(s);
      hide Raw, Minimal;
      assert s == [s[0]] + t;
    } else {
      MinimalOne(s);
      assert s == [s[0]];
    }
  }

  lemma Pow128Known()
    ensures Pow128(9) == 0x8000_0000_0000_0000 && Pow128(10) == 128 * 0x8000_0000_0000_0000
  {
    assert Pow128(3) == 0x20_0000;
    assert Pow128(6) == 128 * (128 * (128 * Pow128(3)));
    assert Pow128(9) == 128 * (128 * (128 * Pow128(6)));
  }

  lemma {:induction false} Pow128Grows(a: nat, b: nat)
    requires a <= b
    ensures Pow128(a) <= Pow128(b)
    decreases b
  {
    if a < b {
      Pow128Grows(a, b - 1);
    }
  }

  /** A minimal group of `n` bytes is at least as large as the smallest number needing them. */
  lemma {:induction false} MinimalIsLarge(s: seq<Byte>)
    requires Minimal(s) && |s| > 1
    ensures Raw(s) >= Pow128(|s| - 1)
  {
    var n := |s| - 1;
    assert s == s[..n] + [s[n]];
    RawOne(s[..n], s[n]);
    hide Raw, Pow128;
    AtLeastOnce(s[n] % 128, Pow128(n));
  }

  /** Within 64 bits: at most ten bytes, the tenth carrying one bit. */
  lemma FitsExactly(s: seq<Byte>)
    requires Minimal(s)
    ensures Raw(s) < U64 <==> |s| < MAX_LEN || (|s| == MAX_LEN && s[9] % 128 <= 1)
  {
    Pow128Known();
    RawBound(s);
    if |s| < MAX_LEN {
      Pow128Grows(|s|, 9);
    } else if |s| == MAX_LEN {
      assert s == s[..9] + [s[9]];
      RawOne(s[..9], s[9]);
      RawBound(s[..9]);
    } else {
      MinimalIsLarge(s);
      Pow128Grows(10, |s| - 1);
    }
  }

  // ----- What the loop decides -----

  lemma Extend(buf: seq<Byte>, i: nat)
    requires i < |buf|
    ensures buf[..i + 1] == buf[..i] + [buf[i]]
    ensures Raw(buf[..i + 1]) == Raw(buf[..i]) + Shifted(buf[i] % 128, i)
  {
    assert buf[..i + 1] == buf[..i] + [buf[i]];
    RawOne(buf[..i], buf[i]);
  }

  /** A group the loop stops on without complaint is minimal and fits. */
  lemma StopSound(buf: seq<Byte>, i: nat)
    requires i < |buf| && i < MAX_LEN && Continues(buf[..i]) && buf[i] < 128
    requires !(i == 9 && buf[i] % 128 > 1) && (i > 0 ==> buf[i] % 128 != 0)
    ensures Minimal(buf[..i + 1]) && Raw(buf[..i + 1]) < U64
  {
    hide Raw;
    assert buf[..i + 1][..i] == buf[..i];
    FitsExactly(buf[..i + 1]);
  }

  /** The loop accepts only minimal groups within 64 bits. */
  lemma {:induction false} ScanSound(buf: seq<Byte>, i: nat)
    requires i <= |buf| && Continues(buf[..i])
    ensures var r := Scan(buf, i, Raw(buf[..i]));
      r.Ok? ==> i < r.value.1 <= |buf| && Minimal(buf[..r.value.1]) && r.value.0 == Raw(buf[..r.value.1]) < U64
    decreases |buf| - i
  {
    hide Raw, EncodedLen, Minimal, Shifted;
    if i < |buf| && i < MAX_LEN && !(i == 9 && buf[i] % 128 > 1) {
      Extend(buf, i);
      if buf[i] >= 128 {
        assert Continues(buf[..i + 1]);
        ScanSound(buf, i + 1);
      } else if i == 0 || buf[i] % 128 != 0 {
        StopSound(buf, i);
      }
    }
  }

  /** The loop accepts every minimal group within 64 bits. */
  lemma {:induction false} ScanComplete(buf: seq<Byte>, i: nat, n: nat)
    requires i < n <= |buf| && Minimal(buf[..n]) && Raw(buf[..n]) < U64
    ensures Scan(buf, i, Raw(buf[..i])) == Ok((Raw(buf[..n]), n))
    decreases n - i
  {
    FitsExactly(buf[..n]);
    Extend(buf, i);
    hide Shifted, Raw;
    assert i < n - 1 ==> buf[..n][..n - 1][i] == buf[i];
    if i == n - 1 {
      MinimalIsEncode(buf[..n]);
      EncodedLenAgrees(Raw(buf[..n]));
    } else {
      ScanComplete(buf, i + 1, n);
    }
  }

  /**
    Decoding succeeds with value `v` and length `n` exactly when the first `n` bytes are
    the minimal encoding of `v` and `v` fits 64 bits.
  */
  lemma DecodeExactly(buf: seq<Byte>, v: nat, n: nat)
    ensures Decode(buf) == Ok((v, n)) <==> v < U64 && n <= |buf| && buf[..n] == Encode(v)
  {
    assert buf[..0] == [];
    ScanSound(buf, 0);
    if Decode(buf) == Ok((v, n)) {
      MinimalIsEncode(buf[..n]);
    }
    if v < U64 && n <= |buf| && buf[..n] == Encode(v) {
      EncodeIsMinimal(v);
      ScanComplete(buf, 0, n);
    }
  }

  /** Nothing but continuing bytes, not yet too many, is a truncated number. */
  lemma {:induction false} ScanTruncated(buf: seq<Byte>, i: nat, value: nat)
    requires i <= |buf| < MAX_LEN && Continues(buf[i..])
    ensures Scan(buf, i, value) == Err(Truncated)
    decreases |buf| - i
  {
    if i < |buf| {
      assert buf[i..][0] == buf[i] && buf[i..][1..] == buf[i + 1..];
      ScanTruncated(buf, i + 1, value + Shifted(buf[i] % 128, i));
    }
  }

  /** Every strict prefix of an encoding is truncated, never malformed. */
  lemma CutIsTruncated(v: nat, k: nat)
    requires v < U64 && k < |Encode(v)|
    ensures Decode(Encode(v)[..k]) == Err(Truncated)
  {
    var e := Encode(v);
    EncodeIsMinimal(v);
    FitsExactly(e);
    assert Continues(e[..k]) by {
      assert forall i :: 0 <= i < k ==> e[i] == e[..|e| - 1][i];
    }
    assert e[..k][0..] == e[..k];
    ScanTruncated(e[..k], 0, 0);
  }

  /** A number that has not ended: continuing bytes only, and not yet more than fit. */
  ghost predicate Unended(s: seq<Byte>) {
    Continues(s) && |s| <= MAX_LEN && (|s| == MAX_LEN ==> s[9] % 128 <= 1)
  }

  lemma ContinuesCons(x: Byte, s: seq<Byte>)
    ensures Continues([x] + s) <==> x >= 128 && Continues(s)
  {
    var t := [x] + s;
    assert t[0] == x && t[1..] == s;
    if Continues(t) {
      forall k | 0 <= k < |s| ensures s[k] >= 128 {
        assert t[k + 1] == s[k];
      }
    }
  }

  lemma {:induction false} ScanEnds(buf: seq<Byte>, i: nat, value: nat)
    requires i <= |buf| && i <= MAX_LEN
    ensures Scan(buf, i, value) == Err(Truncated) <==>
      Continues(buf[i..]) && |buf| <= MAX_LEN && (i < MAX_LEN == |buf| ==> buf[9] % 128 <= 1)
    decreases |buf| - i
  {
    hide EncodedLen, Shifted;
    if i < |buf| && i < MAX_LEN {
      ContinuesCons(buf[i], buf[i + 1..]);
      assert buf[i..] == [buf[i]] + buf[i + 1..];
      hide Continues;
      ScanEnds(buf, i + 1, value + Shifted(buf[i] % 128, i));
    }
  }

  /** Decoding reports truncation exactly on numbers that have not ended. */
  lemma TruncatedExactly(buf: seq<Byte>)
    ensures Decode(buf) == Err(Truncated) <==> Unended(buf)
  {
    hide Scan;
    assert buf[0..] == buf;
    ScanEnds(buf, 0, 0);
  }

  lemma UnendedExtends(s: seq<Byte>) returns (v: nat)
    requires Unended(s) && |s| < MAX_LEN
    ensures v < U64 && |s| < |Encode(v)| && s == Encode(v)[..|s|]
  {
    hide Raw, Encode;
    var t := s + [1];
    assert t[..|s|] == s && Minimal(t);
    FitsExactly(t);
    MinimalIsEncode(t);
    v := Raw(t);
  }

  lemma PrefixUnended(s: seq<Byte>, v: nat)
    requires v < U64 && |s| < |Encode(v)| && s == Encode(v)[..|s|]
    ensures Unended(s) && |s| < MAX_LEN
  {
    hide Raw, Encode;
    EncodeIsMinimal(v);
    var e := Encode(v);
    FitsExactly(e);
    assert s == e[..|e| - 1][..|s|];
  }

  /**
    Those shorter than ten bytes are the strict prefixes of encodings.  Ten continuing bytes
    begin no encoding, and are still reported truncated.
  */
  lemma UnendedExactly(s: seq<Byte>)
    ensures Unended(s) && |s| < MAX_LEN <==> exists v: nat :: v < U64 && |s| < |Encode(v)| && s == Encode(v)[..|s|]
  {
    hide Unended, Encode;
    if Unended(s) && |s| < MAX_LEN {
      var v := UnendedExtends(s);
    }
    if v: nat :| v < U64 && |s| < |Encode(v)| && s == Encode(v)[..|s|] {
      PrefixUnended(s, v);
    }
  }

  // ----- Zigzag -----

  type I64 = i: int | -0x8000_0000_0000_0000 <= i < 0x8000_0000_0000_0000

  /** Small magnitudes of either sign become small numbers. */
  function Zigzag(i: I64): (r: nat)
    ensures r < U64
  {
    if i >= 0 then 2 * i else -2 * i - 1
  }

  function Unzigzag(u: nat): (r: I64)
    requires u < U64
  {
    if u % 2 == 0 then u / 2 else -(u / 2) - 1
  }

  lemma ZigzagBijective(i: I64, u: nat)
    requires u < U64
    ensures Zigzag(i) == u <==> Unzigzag(u) == i
  {
  }

  const ALL_ONES: nat := 0xFFFF_FFFF_FFFF_FFFF

  /** Two's complement: the bits of a signed number read as unsigned, and back. */
  function AsU64(i: I64): (r: nat)
    ensures r < U64
  {
    if i >= 0 then i else i + U64
  }

  function AsI64(u: nat): I64
    requires u < U64
  {
    if u < U64 / 2 then u else u - U64
  }

  /** `(value << 1) ^ (value >> 63)`, the left shift dropping the top bit and the right one keeping the sign. */
  function ShiftXor(i: I64): nat {
    XorNumbers(2 * AsU64(i) % U64, AsU64(i / 0x8000_0000_0000_0000), 64)
  }

  /** `(value >> 1) ^ -(value & 1)`, on 64 bits. */
  function UnshiftXor(u: nat): nat
    requires u < U64
  {
    XorNumbers(u / 2, AsU64(-(u % 2)), 64)
  }

  /** Exclusive or with a sign: the number itself, or its complement. */
  lemma XorSign(u: nat, sign: nat)
    requires u < U64 && (sign == 0 || sign == ALL_ONES)
    ensures XorNumbers(u, sign, 64) == if sign == 0 then u else ALL_ONES - u
  {
    hide XorNumbers, Pow2;
    Pow2Wide();
    if sign == 0 {
      XorNothing(u, 64);
    } else {
      XorEverything(u, sign, 64);
    }
  }

  /** The shifts and exclusive ors of the source compute zigzag and its inverse. */
  lemma ZigzagIsShiftXor(i: I64, u: nat)
    requires u < U64
    ensures ShiftXor(i) == Zigzag(i)
    ensures UnshiftXor(u) < U64 && AsI64(UnshiftXor(u)) == Unzigzag(u)
  {
    hide XorNumbers;
    XorSign(2 * AsU64(i) % U64, AsU64(i / 0x8000_0000_0000_0000));
    XorSign(u / 2, AsU64(-(u % 2)));
  }

  // ----- The code -----

  method EncodedLength(value: nat) returns (len: nat)
    ensures len == |Encode(value)|
  {
    len := 1;
    var v: nat := value / 128;
    while v != 0
      invariant |Encode(value)| == if v == 0 then len else len + |Encode(v)|
      decreases v
    {
      len := len + 1;
      v := v / 128;
    }
  }

  method EncodeU64(value: nat, out: seq<Byte>) returns (r: seq<Byte>, written: nat)
    ensures r == out + Encode(value) && written == |Encode(value)|
  {
    var v := value;
    written := 0;
    r := out;
    var more := true;
    while more
      invariant more ==> r + Encode(v) == out + Encode(value) && written + |Encode(v)| == |Encode(value)|
      invariant !more ==> r == out + Encode(value) && written == |Encode(value)|
      decreases more, v
    {
      var byte := v % 128;
      ghost var before := Encode(v);
      v := v / 128;
      more := v != 0;
      if more {
        byte := byte + 128;
        assert r + before == (r + [byte]) + Encode(v);
      }
      r := r + [byte];
      written := written + 1;
    }
  }

  method DecodeU64(buf: seq<Byte>) returns (r: Result<(nat, nat), VarintError>)
    ensures r == Decode(buf)
  {
    hide EncodedLen, Shifted;
    var value: nat := 0;
    for i := 0 to |buf|
      invariant Scan(buf, i, value) == Decode(buf)
    {
      if i >= MAX_LEN {
        return Err(Overflow);
      }
      var payload := buf[i] % 128;
      if i == 9 && payload > 1 {
        return Err(Overflow);
      }
      value := value + Shifted(payload, i);
      if buf[i] < 128 {
        if i > 0 && payload == 0 {
          return Err(NonCanonical);
        }
        var len := EncodedLength(value);
        EncodedLenAgrees(value);
        if len != i + 1 {
          return Err(NonCanonical);
        }
        return Ok((value, i + 1));
      }
    }
    r := Err(Truncated);
  }
}
