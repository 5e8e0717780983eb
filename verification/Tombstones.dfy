/** A segment's live-row bitmap: 64 rows to a word, bit `r` set while row `r` lives (segment.rs). */
module Tombstones {
  import opened Prelude
  import opened Bytes
  import opened Cursor
  import opened BitString
  import Block

  // ----- One word, a bit at a time -----

  function Bit(w: nat, k: nat): bool {
    if k == 0 then w % 2 == 1 else Bit(w / 2, k - 1)
  }

  /** `w` with bit `k` off. */
  function Clear(w: nat, k: nat): nat {
    if k == 0 then w - w % 2 else w % 2 + 2 * Clear(w / 2, k - 1)
  }

  /** The low `n` bits of `w`. */
  function Low(w: nat, n: nat): nat {
    if n == 0 then 0 else w % 2 + 2 * Low(w / 2, n - 1)
  }

  function Ones(w: nat): nat {
    if w == 0 then 0 else w % 2 + Ones(w / 2)
  }

  const FULL: nat := 0xFFFF_FFFF_FFFF_FFFF

  function Trues(s: seq<bool>): nat {
    if s == [] then 0 else (if s[0] then 1 else 0) + Trues(s[1..])
  }

  lemma {:induction false} BitsAt(w: nat, n: nat, k: nat)
    requires k < n
    ensures ToBits(w, n)[k] == Bit(w, k)
    decreases n
  {
    if k > 0 {
      BitsAt(w / 2, n - 1, k - 1);
    }
  }

  /** Clearing a bit changes that bit alone, and a word never grows by it. */
  lemma {:induction false} ClearBits(w: nat, k: nat, n: nat)
    requires k < n
    ensures Clear(w, k) <= w && ToBits(Clear(w, k), n) == ToBits(w, n)[k := false]
    decreases k
  {
    if k > 0 {
      ClearBits(w / 2, k - 1, n - 1);
    }
  }

  lemma {:induction false} LowBits(w: nat, n: nat, m: nat)
    requires n <= m
    ensures forall k :: 0 <= k < m ==> ToBits(Low(w, n), m)[k] == (k < n && ToBits(w, m)[k])
    decreases m
  {
    if n > 0 {
      LowBits(w / 2, n - 1, m - 1);
    } else {
      ZeroBits(m);
    }
  }

  lemma {:induction false} ZeroBits(m: nat)
    ensures forall k :: 0 <= k < m ==> !ToBits(0, m)[k]
  {
    if m > 0 {
      ZeroBits(m - 1);
    }
  }

  lemma {:induction false} OnesCounts(w: nat, n: nat)
    requires w < Pow2(n)
    ensures Ones(w) == Trues(ToBits(w, n))
    decreases n
  {
    if n > 0 {
      OnesCounts(w / 2, n - 1);
      assert ToBits(w, n)[1..] == ToBits(w / 2, n - 1);
    }
  }

  lemma {:induction false} FullBits(n: nat, w: nat)
    requires w == Pow2(n) - 1
    ensures forall k :: 0 <= k < n ==> ToBits(w, n)[k]
    decreases n
  {
    if n > 0 {
      FullBits(n - 1, w / 2);
    }
  }

  lemma FullWord()
    ensures FULL == Pow2(64) - 1
  {
    Pow2Wide();
  }

  lemma {:induction false} LowFits(w: nat, n: nat)
    ensures Low(w, n) < Pow2(n) && (w < Pow2(n) <==> Low(w, n) == w)
    decreases n
  {
    if n > 0 {
      LowFits(w / 2, n - 1);
    }
  }

  lemma {:induction false} Pow2Grows(m: nat, n: nat)
    requires m <= n
    ensures Pow2(m) <= Pow2(n)
    decreases n
  {
    if m < n {
      Pow2Grows(m, n - 1);
    }
  }

  lemma {:induction false} TruesSplit(a: seq<bool>, b: seq<bool>)
    ensures Trues(a + b) == Trues(a) + Trues(b)
  {
    if a == [] {
      assert a + b == b;
    } else {
      TruesSplit(a[1..], b);
      assert (a + b)[1..] == a[1..] + b;
    }
  }

  lemma {:induction false} TruesNone(s: seq<bool>)
    requires forall k :: 0 <= k < |s| ==> !s[k]
    ensures Trues(s) == 0
  {
    if s != [] {
      TruesNone(s[1..]);
    }
  }

  lemma TruesUpdate(s: seq<bool>, k: nat)
    requires k < |s| && s[k]
    ensures Trues(s[k := false]) == Trues(s) - 1
  {
    var t := s[k := false];
    assert s == s[..k] + ([true] + s[k + 1..]) && t == s[..k] + ([false] + s[k + 1..]);
    TruesSplit(s[..k], [true] + s[k + 1..]);
    TruesSplit(s[..k], [false] + s[k + 1..]);
    assert ([true] + s[k + 1..])[1..] == s[k + 1..] && ([false] + s[k + 1..])[1..] == s[k + 1..];
  }

  // ----- The bitmap -----

  datatype Bitmap = Bitmap(rows: nat, generation: nat, words: seq<nat>)

  function Words(rows: nat): nat {
    (rows + 63) / 64
  }

  /** Words are 64 bits, there are as many as the rows need, and no bit lies past the last row. */
  ghost predicate Valid(t: Bitmap) {
    && t.rows < U32 && t.generation < U32 && |t.words| == Words(t.rows)
    && (forall i :: 0 <= i < |t.words| ==> t.words[i] < Pow2(64))
    && (t.rows % 64 != 0 ==> t.words[|t.words| - 1] < Pow2(t.rows % 64))
  }

  predicate IsLive(t: Bitmap, i: nat) {
    i < t.rows && i / 64 < |t.words| && Bit(t.words[i / 64], i % 64)
  }

  function LiveCount(words: seq<nat>): nat {
    if words == [] then 0 else Ones(words[0]) + LiveCount(words[1..])
  }

  function FreshWord(rows: nat, i: nat): nat {
    if i == Words(rows) - 1 && rows % 64 != 0 then Low(FULL, rows % 64) else FULL
  }

  function AllLive(rows: nat, generation: nat): Bitmap {
    Bitmap(rows, generation, seq(Words(rows), i requires 0 <= i < Words(rows) => FreshWord(rows, i)))
  }

  function Kill(t: Bitmap, i: nat): (Bitmap, bool) {
    if IsLive(t, i) then (t.(words := t.words[i / 64 := Clear(t.words[i / 64], i % 64)]), true) else (t, false)
  }

  /** Every row's answer, in order. */
  function Rows(t: Bitmap): (r: seq<bool>)
    ensures |r| == t.rows && forall i :: 0 <= i < t.rows ==> r[i] == IsLive(t, i)
  {
    seq(t.rows, i requires 0 <= i < t.rows => IsLive(t, i))
  }

  function Flat(words: seq<nat>): (r: seq<bool>)
    ensures |r| == 64 * |words|
  {
    if words == [] then [] else ToBits(words[0], 64) + Flat(words[1..])
  }

  lemma {:induction false} FlatAt(words: seq<nat>, i: nat)
    requires i < 64 * |words|
    ensures Flat(words)[i] == Bit(words[i / 64], i % 64)
  {
    hide ToBits, Bit;
    if i < 64 {
      BitsAt(words[0], 64, i);
    } else {
      FlatAt(words[1..], i - 64);
      assert (i - 64) / 64 == i / 64 - 1 && (i - 64) % 64 == i % 64;
      assert words[1..][i / 64 - 1] == words[i / 64];
    }
  }

  lemma {:induction false} FlatCounts(words: seq<nat>)
    requires forall i :: 0 <= i < |words| ==> words[i] < Pow2(64)
    ensures LiveCount(words) == Trues(Flat(words))
  {
    hide ToBits, Ones, Pow2;
    if words != [] {
      FlatCounts(words[1..]);
      OnesCounts(words[0], 64);
      TruesSplit(ToBits(words[0], 64), Flat(words[1..]));
    }
  }

  /** Bits past the last row are clear. */
  lemma TailClear(t: Bitmap, i: nat)
    requires Valid(t) && t.rows <= i < 64 * |t.words|
    ensures !Flat(t.words)[i]
  {
    hide ToBits, Bit, Pow2, Flat, Low;
    var used, last := t.rows % 64, |t.words| - 1;
    FlatAt(t.words, i);
    LastWord(t.rows, i, |t.words|);
    var w := t.words[last];
    LowFits(w, used);
    LowBits(w, used, 64);
    BitsAt(w, 64, i % 64);
  }

  lemma LastWord(rows: nat, i: nat, n: nat)
    requires n == Words(rows) && rows <= i < 64 * n
    ensures rows % 64 != 0 && i / 64 == n - 1 && i % 64 >= rows % 64
  {
  }

  /** The popcount is the number of rows that answer live. */
  lemma CountIsLiveRows(t: Bitmap)
    requires Valid(t)
    ensures LiveCount(t.words) == Trues(Rows(t))
  {
    hide Bit, Flat, Trues, LiveCount, Pow2;
    var f := Flat(t.words);
    FlatCounts(t.words);
    forall i: nat | i < t.rows ensures f[i] == Rows(t)[i] {
      FlatAt(t.words, i);
    }
    assert f[..t.rows] == Rows(t) && f == f[..t.rows] + f[t.rows..];
    TruesSplit(f[..t.rows], f[t.rows..]);
    forall k | 0 <= k < |f[t.rows..]| ensures !f[t.rows..][k] {
      TailClear(t, t.rows + k);
    }
    TruesNone(f[t.rows..]);
  }

  /** A kill keeps the bitmap valid, changes exactly its own row, and says whether it did. */
  lemma KillOne(t: Bitmap, i: nat)
    requires Valid(t)
    ensures var (u, changed) := Kill(t, i);
      && Valid(u) && u.rows == t.rows && u.generation == t.generation
      && changed == IsLive(t, i)
      && (forall j: nat :: IsLive(u, j) == (IsLive(t, j) && j != i))
      && LiveCount(u.words) == LiveCount(t.words) - if changed then 1 else 0
  {
    hide Bit, Trues, LiveCount, Pow2, Clear, ToBits;
    var (u, changed) := Kill(t, i);
    if changed {
      var w := t.words[i / 64];
      ClearBits(w, i % 64, 64);
      forall j: nat ensures IsLive(u, j) == (IsLive(t, j) && j != i) {
        if j < t.rows && j / 64 == i / 64 {
          BitsAt(w, 64, j % 64);
          BitsAt(Clear(w, i % 64), 64, j % 64);
          assert j != i ==> j % 64 != i % 64;
        }
      }
      CountIsLiveRows(t);
      CountIsLiveRows(u);
      TruesUpdate(Rows(t), i);
      assert Rows(u) == Rows(t)[i := false];
    }
  }

  /** A fresh bitmap is valid and every row in range is live. */
  lemma AllLiveOk(rows: nat, generation: nat)
    requires rows < U32 && generation < U32
    ensures var t := AllLive(rows, generation);
      Valid(t) && (forall i: nat :: IsLive(t, i) == (i < rows)) && LiveCount(t.words) == rows
  {
    hide Bit, Trues, LiveCount, Pow2, Low, ToBits;
    var t := AllLive(rows, generation);
    var full := FULL;
    FullWord();
    FullBits(64, full);
    LowFits(full, rows % 64);
    Pow2Grows(rows % 64, 64);
    LowBits(full, rows % 64, 64);
    forall i: nat ensures IsLive(t, i) == (i < rows) {
      if i < rows {
        BitsAt(full, 64, i % 64);
        BitsAt(Low(full, rows % 64), 64, i % 64);
      }
    }
    CountIsLiveRows(t);
    AllTrue(Rows(t));
  }

  lemma {:induction false} AllTrue(s: seq<bool>)
    requires forall k :: 0 <= k < |s| ==> s[k]
    ensures Trues(s) == |s|
  {
    if s != [] {
      AllTrue(s[1..]);
    }
  }

  // ----- Bytes -----

  function WordsBytes(words: seq<nat>): (r: seq<Byte>)
    ensures |r| == 8 * |words|
  {
    if words == [] then [] else Le(words[0], 8) + WordsBytes(words[1..])
  }

  function Payload(t: Bitmap): seq<Byte> {
    Le(t.rows, 4) + (Le(t.generation, 4) + (Zeros(8) + WordsBytes(t.words)))
  }

  function Encode(t: Bitmap): seq<Byte> {
    Block.EncodeBlock(Block.Deleted, Payload(t))
  }

  function ReadWords(b: seq<Byte>, at: nat, n: nat): Read<seq<nat>>
    decreases n
  {
    if n == 0 then Ok(([], at))
    else
      var (w, p) :- ReadUint(b, at, 8);
      var (rest, end) :- ReadWords(b, p, n - 1);
      Ok(([w] + rest, end))
  }

  function ReadPayload(b: seq<Byte>): Result<Bitmap, FormatError> {
    var (rows, p) :- ReadUint(b, 0, 4);
    var (generation, q) :- ReadUint(b, p, 4);
    var (_, r) :- ReadReserved(b, q, 8);
    if r > |b| || |b| - r != 8 * Words(rows) then Err(Malformed)
    else
      var (words, end) :- ReadWords(b, r, Words(rows));
      if rows % 64 != 0 && words != [] && Low(words[|words| - 1], rows % 64) != words[|words| - 1] then Err(Malformed)
      else Ok(Bitmap(rows, generation, words))
  }

  function Decode(b: seq<Byte>): Result<Bitmap, FormatError> {
    var payload :- Block.DecodeBlock(b, Block.Deleted);
    ReadPayload(payload)
  }

  ghost predicate WordsFit(words: seq<nat>) {
    forall i :: 0 <= i < |words| ==> words[i] < U64
  }

  lemma {:induction false} WordsSound(b: seq<Byte>, at: nat, n: nat)
    requires at <= |b| && ReadWords(b, at, n).Ok?
    ensures var (words, end) := ReadWords(b, at, n).value;
      |words| == n && WordsFit(words) && Holds(b, at, WordsBytes(words)) && end == at + 8 * n
    decreases n
  {
    hide Holds, ReadUint, Le, Pow256;
    Powers();
    if n == 0 {
      HoldsMeans(b, at, []);
    } else {
      var (w, p) := ReadUint(b, at, 8).value;
      UintExactly(b, at, 8, w, p);
      HoldsMeans(b, at, Le(w, 8));
      WordsSound(b, p, n - 1);
      var rest := ReadWords(b, p, n - 1).value.0;
      assert ([w] + rest)[1..] == rest;
      HoldsParts(b, at, Le(w, 8), WordsBytes(rest));
    }
  }

  lemma {:induction false} WordsComplete(b: seq<Byte>, at: nat, words: seq<nat>)
    requires WordsFit(words) && Holds(b, at, WordsBytes(words))
    ensures ReadWords(b, at, |words|) == Ok((words, at + 8 * |words|))
    decreases |words|
  {
    hide Holds, ReadUint, Le, Pow256;
    Powers();
    if words != [] {
      HoldsParts(b, at, Le(words[0], 8), WordsBytes(words[1..]));
      UintExactly(b, at, 8, words[0], at + 8);
      WordsComplete(b, at + 8, words[1..]);
      assert words == [words[0]] + words[1..];
    }
  }

  lemma PayloadParts(b: seq<Byte>, t: Bitmap)
    ensures Holds(b, 0, Payload(t)) <==>
      && Holds(b, 0, Le(t.rows, 4)) && Holds(b, 4, Le(t.generation, 4)) && Holds(b, 8, Zeros(8)) && Holds(b, 16, WordsBytes(t.words))
    ensures |Payload(t)| == 16 + 8 * |t.words|
  {
    hide Holds, Le, Zeros;
    HoldsParts(b, 0, Le(t.rows, 4), Le(t.generation, 4) + (Zeros(8) + WordsBytes(t.words)));
    HoldsParts(b, 4, Le(t.generation, 4), Zeros(8) + WordsBytes(t.words));
    HoldsParts(b, 8, Zeros(8), WordsBytes(t.words));
  }

  /** The last word's check is exactly that no bit lies past the last row. */
  lemma ValidMeans(t: Bitmap)
    ensures Valid(t) <==>
      && t.rows < U32 && t.generation < U32 && |t.words| == Words(t.rows) && WordsFit(t.words)
      && !(t.rows % 64 != 0 && t.words != [] && Low(t.words[|t.words| - 1], t.rows % 64) != t.words[|t.words| - 1])
  {
    hide Pow2, Low;
    FullWord();
    if t.words != [] {
      LowFits(t.words[|t.words| - 1], t.rows % 64);
    }
  }

  lemma PayloadSound(b: seq<Byte>, t: Bitmap)
    requires ReadPayload(b) == Ok(t)
    ensures Valid(t) && b == Payload(t)
  {
    hide Holds, Le, Pow256, Zeros, ReadUint, ReadWords, ReadReserved, Valid, Low, WordsBytes, Payload;
    Powers();
    var (rows, p) := ReadUint(b, 0, 4).value;
    UintExactly(b, 0, 4, rows, p);
    var (generation, q) := ReadUint(b, p, 4).value;
    UintExactly(b, p, 4, generation, q);
    UnitRead(b, q, 8);
    ReservedExactly(b, q, 8, q + 8);
    WordsSound(b, 16, Words(rows));
    var (words, end) := ReadWords(b, 16, Words(rows)).value;
    assert t == Bitmap(rows, generation, words);
    PayloadParts(b, t);
    HoldsMeans(b, 0, Payload(t));
    ValidMeans(t);
  }

  lemma PayloadComplete(t: Bitmap)
    requires Valid(t)
    ensures ReadPayload(Payload(t)) == Ok(t)
  {
    hide Holds, Le, Pow256, Zeros, ReadUint, ReadWords, ReadReserved, Low, WordsBytes, Payload, Valid;
    Powers();
    var b := Payload(t);
    WholeHolds(b);
    PayloadParts(b, t);
    ValidMeans(t);
    UintExactly(b, 0, 4, t.rows, 4);
    UintExactly(b, 4, 4, t.generation, 8);
    ReservedExactly(b, 8, 8, 16);
    WordsComplete(b, 16, t.words);
  }

  /** A payload is accepted exactly when it is a valid bitmap's bytes. */
  lemma PayloadExactly(b: seq<Byte>, t: Bitmap)
    ensures ReadPayload(b) == Ok(t) <==> Valid(t) && b == Payload(t)
  {
    hide ReadPayload, Payload, Valid;
    if ReadPayload(b) == Ok(t) {
      PayloadSound(b, t);
    }
    if Valid(t) && b == Payload(t) {
      PayloadComplete(t);
    }
  }

  lemma RoundTrip(t: Bitmap)
    requires Valid(t)
    ensures Decode(Encode(t)) == Ok(t)
  {
    hide ReadPayload, Block.DecodeBlock, Block.EncodeBlock, Holds;
    assert |Payload(t)| < U64 by { PayloadParts([], t); }
    WholeHolds(Encode(t));
    Block.BlockBack(Encode(t), Block.Deleted, Payload(t));
    PayloadComplete(t);
  }

  // ----- Over every history -----

  /** Kill these rows, one after another. */
  function KillAll(t: Bitmap, rows: seq<nat>): Bitmap
    decreases |rows|
  {
    if rows == [] then t else KillAll(Kill(t, rows[0]).0, rows[1..])
  }

  /**
    From any bitmap `decode` accepts or `all_live` makes: after any kills the popcount is
    the number of rows still answering live, and those are the rows that lived and were not killed.
  */
  lemma {:induction false} EveryHistory(t: Bitmap, rows: seq<nat>)
    requires Valid(t)
    ensures var u := KillAll(t, rows);
      && Valid(u) && u.rows == t.rows && LiveCount(u.words) == Trues(Rows(u))
      && forall j: nat :: IsLive(u, j) <==> IsLive(t, j) && j !in rows
    decreases |rows|
  {
    hide Valid, LiveCount, Trues, Kill, IsLive;
    if rows == [] {
      CountIsLiveRows(t);
    } else {
      KillOne(t, rows[0]);
      EveryHistory(Kill(t, rows[0]).0, rows[1..]);
      assert forall j: nat :: j in rows <==> j == rows[0] || j in rows[1..];
    }
  }

  // ----- The object -----

  class TombstoneMap {
    var rows: nat
    var generation: nat
    var words: seq<nat>

    ghost function View(): Bitmap
      reads this
    {
      Bitmap(rows, generation, words)
    }

    constructor (rows: nat, generation: nat)
      requires rows < U32 && generation < U32
      ensures View() == AllLive(rows, generation) && Valid(View())
    {
      var ws := seq((rows + 63) / 64, _ => FULL);
      if rows % 64 != 0 {
        ws := ws[|ws| - 1 := Low(ws[|ws| - 1], rows % 64)];
      }
      this.rows, this.generation, words := rows, generation, ws;
      AllLiveOk(rows, generation);
      assert ws == AllLive(rows, generation).words;
    }

    method Live(i: nat) returns (live: bool)
      ensures live == IsLive(View(), i)
    {
      if i >= rows {
        return false;
      }
      var word := i / 64;
      live := word < |words| && Bit(words[word], i % 64);
    }

    method KillRow(i: nat) returns (changed: bool)
      requires Valid(View())
      modifies this
      ensures (View(), changed) == Kill(old(View()), i)
      ensures Valid(View()) && forall j: nat :: IsLive(View(), j) == (IsLive(old(View()), j) && j != i)
      ensures LiveCount(words) == LiveCount(old(words)) - if changed then 1 else 0
    {
      hide Valid, LiveCount, Bit, Clear;
      KillOne(View(), i);
      if i >= rows {
        return false;
      }
      var word := i / 64;
      if word >= |words| || !Bit(words[word], i % 64) {
        return false;
      }
      words := words[word := Clear(words[word], i % 64)];
      changed := true;
    }

    method LiveRows() returns (n: nat)
      requires Valid(View())
      ensures n == Trues(Rows(View()))
    {
      hide Ones;
      CountIsLiveRows(View());
      n := 0;
      assert words[0..] == words;
      for i := 0 to |words|
        invariant n + LiveCount(words[i..]) == LiveCount(words)
      {
        assert words[i..][1..] == words[i + 1..];
        n := n + Ones(words[i]);
      }
    }
  }
}
