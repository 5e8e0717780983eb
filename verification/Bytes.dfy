/** Bytes and little-endian integers. */
module Bytes {

  type Byte = b: int | 0 <= b < 256

  function Pow256(k: nat): (r: nat)
    ensures r > 0
  {
    if k == 0 then 1 else 256 * Pow256(k - 1)
  }

  /** The low `k` bytes of `v`, least significant first: what `to_le_bytes` of a cast yields. */
  function Le(v: nat, k: nat): (r: seq<Byte>)
    ensures |r| == k
    decreases k
  {
    if k == 0 then [] else [v % 256] + Le(v / 256, k - 1)
  }

  function FromLe(s: seq<Byte>): nat {
    if s == [] then 0 else s[0] + 256 * FromLe(s[1..])
  }

  lemma {:induction false} LeRoundTrip(v: nat, k: nat)
    requires v < Pow256(k)
    ensures FromLe(Le(v, k)) == v
    decreases k
  {
    if k > 0 {
      LeRoundTrip(v / 256, k - 1);
      assert Le(v, k)[1..] == Le(v / 256, k - 1);
    }
  }

  lemma {:induction false} FromLeRoundTrip(s: seq<Byte>)
    ensures FromLe(s) < Pow256(|s|) && Le(FromLe(s), |s|) == s
  {
    if s != [] {
      FromLeRoundTrip(s[1..]);
      FromLeStep(s);
      hide FromLe;
      assert s == [s[0]] + s[1..];
    }
  }

  lemma FromLeStep(s: seq<Byte>)
    requires s != []
    ensures FromLe(s) == s[0] + 256 * FromLe(s[1..])
    ensures FromLe(s) % 256 == s[0] && FromLe(s) / 256 == FromLe(s[1..])
  {
  }

  /** The `k`-byte integer at `at`. */
  function At(b: seq<Byte>, at: nat, k: nat): nat
    requires at + k <= |b|
  {
    FromLe(b[at..at + k])
  }

  /** `piece` sits in `b` at `at`. */
  ghost predicate Holds(b: seq<Byte>, at: nat, piece: seq<Byte>) {
    at + |piece| <= |b| && b[at..at + |piece|] == piece
  }

  lemma HoldsParts(b: seq<Byte>, at: nat, p: seq<Byte>, q: seq<Byte>)
    ensures Holds(b, at, p + q) <==> Holds(b, at, p) && Holds(b, at + |p|, q)
  {
    if Holds(b, at, p + q) {
      assert b[at..at + |p|] == b[at..at + |p + q|][..|p|];
      assert b[at + |p|..at + |p| + |q|] == b[at..at + |p + q|][|p|..];
    }
    if Holds(b, at, p) && Holds(b, at + |p|, q) {
      assert b[at..at + |p + q|] == b[at..at + |p|] + b[at + |p|..at + |p| + |q|];
    }
  }

  lemma HoldsLe(b: seq<Byte>, at: nat, v: nat, k: nat)
    requires Holds(b, at, Le(v, k)) && v < Pow256(k)
    ensures at + k <= |b| && At(b, at, k) == v
  {
    LeRoundTrip(v, k);
  }

  lemma WholeHolds(b: seq<Byte>)
    ensures Holds(b, 0, b)
  {
    assert b[0..|b|] == b;
  }

  lemma HeldSlice(b: seq<Byte>, at: nat, piece: seq<Byte>)
    requires Holds(b, at, piece)
    ensures at + |piece| <= |b| && b[at..at + |piece|] == piece
  {
  }

  /** Reading a `k`-byte integer off the front of what is held. */
  lemma ReadBack(b: seq<Byte>, at: nat, v: nat, k: nat, rest: seq<Byte>)
    requires Holds(b, at, Le(v, k) + rest) && v < Pow256(k)
    ensures at + k <= |b| && At(b, at, k) == v && Holds(b, at + k, rest)
  {
    HoldsParts(b, at, Le(v, k), rest);
    HoldsLe(b, at, v, k);
  }

  const U16: nat := 0x1_0000
  const U32: nat := 0x1_0000_0000
  const U64: nat := 0x1_0000_0000_0000_0000

  lemma Powers()
    ensures Pow256(1) == 256 && Pow256(2) == U16 && Pow256(4) == U32 && Pow256(8) == U64
  {
    assert Pow256(2) == 65536;
    assert Pow256(4) == 65536 * 65536;
    assert Pow256(8) == 256 * (256 * (256 * (256 * Pow256(4))));
  }
}
