/**
  CRC-32C.  A 32-bit register is the sequence of its bits, least significant first, so a
  shift right drops the first bit.  The table-driven update is proved equal to feeding the
  message in one bit at a time, and any error confined to 32 consecutive bits is detected.
*/
module Crc32c {
  import opened Prelude
  import opened Bytes
  import opened BitString

  type Word = w: seq<bool> | |w| == 32 witness seq(32, _ => false)

  // ----- Words -----

  function Not(a: Word): (r: Word)
    ensures forall i :: 0 <= i < 32 ==> r[i] == !a[i]
  {
    seq(32, i requires 0 <= i < 32 => !a[i])
  }

  function Shr(a: Word, k: nat): (r: Word)
    requires k <= 32
    ensures forall i :: 0 <= i < 32 ==> r[i] == (i + k < 32 && a[i + k])
  {
    a[k..] + Off(k)
  }

  // ----- One bit at a time -----

  /** The reflected Castagnoli polynomial. */
  const POLY: Word := ToBits(0x82F6_3B78, 32)

  /** The exponents below 32 in the Castagnoli polynomial (Castagnoli, Braeuer and Herrmann, 1993). */
  const EXPONENTS: set<nat> := {28, 27, 26, 25, 23, 22, 20, 19, 18, 14, 13, 11, 10, 9, 8, 6, 0}

  function Digit(bit: bool): nat {
    if bit then 1 else 0
  }

  lemma TwoDigits(s: seq<bool>, i: nat)
    requires i + 2 <= |s|
    ensures FromBits(s[i..]) == Digit(s[i]) + 2 * Digit(s[i + 1]) + 4 * FromBits(s[i + 2..])
  {
    assert s[i..][1..] == s[i + 1..] && s[i + 1..][1..] == s[i + 2..];
  }

  /** A byte's bits by place value. */
  lemma EightBits(n: Byte, s: seq<bool>)
    requires |s| == 8
    requires n == Digit(s[0]) + 2 * Digit(s[1]) + 4 * Digit(s[2]) + 8 * Digit(s[3])
                + 16 * Digit(s[4]) + 32 * Digit(s[5]) + 64 * Digit(s[6]) + 128 * Digit(s[7])
    ensures ToBits(n, 8) == s
  {
    hide ToBits;
    assert FromBits(s[8..]) == 0;
    TwoDigits(s, 6);
    TwoDigits(s, 4);
    TwoDigits(s, 2);
    TwoDigits(s, 0);
    assert s[0..] == s;
    hide FromBits;
    FromBitsBack(s);
  }

  lemma ByteBits()
    ensures ToBits(0x78, 8) == [false, false, false, true, true, true, true, false]
    ensures ToBits(0x3B, 8) == [true, true, false, true, true, true, false, false]
    ensures ToBits(0xF6, 8) == [false, true, true, false, true, true, true, true]
    ensures ToBits(0x82, 8) == [false, true, false, false, false, false, false, true]
  {
    hide ToBits;
    EightBits(0x78, [false, false, false, true, true, true, true, false]);
    EightBits(0x3B, [true, true, false, true, true, true, false, false]);
    EightBits(0xF6, [false, true, true, false, true, true, true, true]);
    EightBits(0x82, [false, true, false, false, false, false, false, true]);
  }

  /** Its bits, highest exponent first. */
  lemma PolyBits()
    ensures POLY == ToBits(0x78, 8) + (ToBits(0x3B, 8) + (ToBits(0xF6, 8) + ToBits(0x82, 8)))
  {
    hide ToBits, FromBits;
    Pow2Known();
    hide Pow2;
    var a, b := ToBits(0x78, 8), ToBits(0x3B, 8);
    var c, d := ToBits(0xF6, 8), ToBits(0x82, 8);
    ToBitsBack(0x78, 8);
    ToBitsBack(0x3B, 8);
    ToBitsBack(0xF6, 8);
    ToBitsBack(0x82, 8);
    FromBitsAppend(c, d);
    FromBitsAppend(b, c + d);
    FromBitsAppend(a, b + (c + d));
    FromBitsBack(a + (b + (c + d)));
  }

  /** The polynomial is the Castagnoli one, its highest exponent in the lowest bit. */
  lemma PolyIsCastagnoli(i: nat)
    requires i < 32
    ensures POLY[i] <==> 31 - i in EXPONENTS
  {
    hide ToBits;
    PolyBits();
    ByteBits();
    var a, b := ToBits(0x78, 8), ToBits(0x3B, 8);
    var c, d := ToBits(0xF6, 8), ToBits(0x82, 8);
    assert POLY[i] == if i < 8 then a[i] else if i < 16 then b[i - 8] else if i < 24 then c[i - 16] else d[i - 24];
  }

  /** The polynomial's top bit is set, which is what makes a step reversible. */
  lemma PolyTop()
    ensures POLY[31]
  {
    Pow2Known();
    TopBit(0x82F6_3B78, 31);
  }

  /** Shift right by one, adding the polynomial if a one falls out. */
  function Step(c: Word): (r: Word)
    ensures forall i :: 0 <= i < 32 ==> r[i] == ((i < 31 && c[i + 1]) != (c[0] && POLY[i]))
  {
    if c[0] then Xor(Shr(c, 1), POLY) else Shr(c, 1)
  }

  /** Add a message bit to the register's low bit. */
  function Feed(c: Word, bit: bool): Word {
    c[0 := c[0] != bit]
  }

  /** The reference: every message bit in turn. */
  function Process(c: Word, bits: seq<bool>): Word
    decreases |bits|
  {
    if bits == [] then c else Process(Step(Feed(c, bits[0])), bits[1..])
  }

  const ZERO: Word := Off(32)

  lemma {:induction false} ProcessAppend(c: Word, a: seq<bool>, b: seq<bool>)
    ensures Process(c, a + b) == Process(Process(c, a), b)
    decreases |a|
  {
    if a == [] {
      assert a + b == b;
    } else {
      assert (a + b)[0] == a[0] && (a + b)[1..] == a[1..] + b;
      ProcessAppend(Step(Feed(c, a[0])), a[1..], b);
    }
  }

  lemma StepLinear(a: Word, b: Word)
    ensures Step(Xor(a, b)) == Xor(Step(a), Step(b))
  {
    var l, r := Step(Xor(a, b)), Xor(Step(a), Step(b));
    forall i | 0 <= i < 32
      ensures l[i] == r[i]
    {
    }
    assert l == r;
  }

  lemma FeedLinear(a: Word, b: Word, x: bool, y: bool)
    ensures Feed(Xor(a, b), x != y) == Xor(Feed(a, x), Feed(b, y))
  {
  }

  /** Two runs differ by the run of their difference. */
  lemma {:induction false} ProcessLinear(a: Word, b: Word, m: seq<bool>, n: seq<bool>)
    requires |m| == |n|
    ensures Process(Xor(a, b), Xor(m, n)) == Xor(Process(a, m), Process(b, n))
    decreases |m|
  {
    if m != [] {
      var x := Xor(m, n);
      assert x[0] == (m[0] != n[0]) && x[1..] == Xor(m[1..], n[1..]);
      FeedLinear(a, b, m[0], n[0]);
      StepLinear(Feed(a, m[0]), Feed(b, n[0]));
      ProcessLinear(Step(Feed(a, m[0])), Step(Feed(b, n[0])), m[1..], n[1..]);
    }
  }

  lemma StepInjective(a: Word, b: Word)
    requires Step(a) == Step(b)
    ensures a == b
  {
    PolyTop();
    assert Step(a)[31] == a[0] && Step(b)[31] == b[0];
    forall i | 0 < i < 32
      ensures a[i] == b[i]
    {
      assert Step(a)[i - 1] == Step(b)[i - 1];
    }
  }

  /** The same bits keep different registers different. */
  lemma {:induction false} ProcessInjective(a: Word, b: Word, bits: seq<bool>)
    requires Process(a, bits) == Process(b, bits)
    ensures a == b
    decreases |bits|
  {
    if bits != [] {
      ProcessInjective(Step(Feed(a, bits[0])), Step(Feed(b, bits[0])), bits[1..]);
      StepInjective(Feed(a, bits[0]), Feed(b, bits[0]));
      forall i | 0 <= i < 32
        ensures a[i] == b[i]
      {
        assert Feed(a, bits[0])[i] == Feed(b, bits[0])[i];
      }
    }
  }

  /** A register that up to 32 bits take to zero is those bits. */
  lemma {:induction false} ToZero(c: Word, bits: seq<bool>)
    requires |bits| <= 32 && Process(c, bits) == ZERO
    ensures c == bits + Off(32 - |bits|)
    decreases |bits|
  {
    hide Step, Feed, Off;
    if bits == [] {
      assert c == bits + Off(32) by { NothingLeft(c); }
    } else {
      ToZero(Step(Feed(c, bits[0])), bits[1..]);
      StepBack(c, bits);
    }
  }

  lemma NothingLeft(c: Word)
    requires c == ZERO
    ensures c == [] + Off(32)
  {
  }

  /** One bit earlier the register held one bit more. */
  lemma StepBack(c: Word, bits: seq<bool>)
    requires 0 < |bits| <= 32 && Step(Feed(c, bits[0])) == bits[1..] + Off(33 - |bits|)
    ensures c == bits + Off(32 - |bits|)
  {
    var f := Feed(c, bits[0]);
    var e := bits[1..] + Off(33 - |bits|);
    assert Step(f)[31] == e[31] && !e[31];
    PolyTop();
    assert Step(f)[31] == f[0];
    var r := bits + Off(32 - |bits|);
    forall i | 0 <= i < 32
      ensures c[i] == r[i]
    {
      if i > 0 {
        assert Step(f)[i - 1] == e[i - 1] && f[i] == c[i];
      }
    }
  }

  /** Two bursts of at most 32 bits that a register does not tell apart are the same. */
  lemma SameEndSameBurst(s: Word, x: seq<bool>, y: seq<bool>)
    requires |x| == |y| <= 32 && Process(s, x) == Process(s, y)
    ensures x == y
  {
    ProcessLinear(s, s, x, y);
    hide Process;
    assert Xor(s, s) == ZERO && Xor(Process(s, x), Process(s, y)) == ZERO;
    var d := Xor(x, y);
    ToZero(ZERO, d);
    var r := d + Off(32 - |d|);
    forall i | 0 <= i < |x|
      ensures x[i] == y[i]
    {
      assert ZERO[i] == r[i];
    }
  }

  /** An error confined to 32 consecutive bits, anywhere in a message of any length, changes the register. */
  lemma BurstDetected(c: Word, before: seq<bool>, x: seq<bool>, y: seq<bool>, after: seq<bool>)
    requires |x| == |y| <= 32
    ensures Process(c, before + x + after) == Process(c, before + y + after) <==> x == y
  {
    hide Process;
    ProcessAppend(c, before + x, after);
    ProcessAppend(c, before, x);
    ProcessAppend(c, before + y, after);
    ProcessAppend(c, before, y);
    if Process(c, before + x + after) == Process(c, before + y + after) {
      ProcessInjective(Process(Process(c, before), x), Process(Process(c, before), y), after);
      SameEndSameBurst(Process(c, before), x, y);
    }
  }

  // ----- Eight bits at a time -----

  function Steps(c: Word, k: nat): Word
    decreases k
  {
    if k == 0 then c else Steps(Step(c), k - 1)
  }

  /** A short piece of message, placed in the low bits of a register. */
  function Pad(w: seq<bool>): Word
    requires |w| <= 32
  {
    w + Off(32 - |w|)
  }

  lemma {:induction false} StepsLinear(a: Word, b: Word, k: nat)
    ensures Steps(Xor(a, b), k) == Xor(Steps(a, k), Steps(b, k))
    decreases k
  {
    hide Step;
    if k > 0 {
      StepLinear(a, b);
      StepsLinear(Step(a), Step(b), k - 1);
    }
  }

  lemma PadTail(w: seq<bool>)
    requires 0 < |w| <= 32
    ensures Step(Feed(Pad(w), w[0])) == Pad(w[1..])
  {
    var l, r := Step(Feed(Pad(w), w[0])), Pad(w[1..]);
    forall i | 0 <= i < 32
      ensures l[i] == r[i]
    {
    }
    assert l == r;
  }

  lemma PadNothing(c: Word, w: seq<bool>)
    requires w == []
    ensures Xor(c, Pad(w)) == c
  {
  }

  /** A bit fed to the register may as well be taken out of the padding. */
  lemma FeedMoves(c: Word, w: seq<bool>)
    requires 0 < |w| <= 32
    ensures Xor(c, Pad(w)) == Xor(Feed(c, w[0]), Feed(Pad(w), w[0]))
  {
    assert Pad(w)[0] == w[0];
  }

  /** Feeding bits one by one is adding them all at once and stepping. */
  lemma {:induction false} FeedAtOnce(c: Word, w: seq<bool>)
    requires |w| <= 32
    ensures Process(c, w) == Steps(Xor(c, Pad(w)), |w|)
    decreases |w|
  {
    hide Feed, Pad, Step, Xor;
    if w == [] {
      PadNothing(c, w);
    } else {
      var f := Feed(c, w[0]);
      var rest := Feed(Pad(w), w[0]);
      FeedMoves(c, w);
      StepLinear(f, rest);
      PadTail(w);
      FeedAtOnce(Step(f), w[1..]);
    }
  }

  /** Steps that only shift out zeros are a shift. */
  lemma {:induction false} ShiftOut(c: Word, k: nat)
    requires k <= 32 && forall i :: 0 <= i < k ==> !c[i]
    ensures Steps(c, k) == Shr(c, k)
    decreases k
  {
    if k == 0 {
      assert Shr(c, 0) == c;
    } else {
      var d := Step(c);
      assert forall i :: 0 <= i < 32 ==> d[i] == (i < 31 && c[i + 1]);
      ShiftOut(d, k - 1);
      var l, r := Shr(d, k - 1), Shr(c, k);
      forall i | 0 <= i < 32
        ensures l[i] == r[i]
      {
      }
      assert l == r;
    }
  }

  function TableEntry(i: nat): Word {
    Steps(ToBits(i, 32), 8)
  }

  /** One byte through the table. */
  function UpdateByte(c: Word, b: Byte): Word {
    Xor(Shr(c, 8), TableEntry(FromBits(Xor(c, ToBits(b, 32))[..8])))
  }

  /** The table-driven update of a byte is its eight bits, lowest first. */
  lemma TableIsBitwise(c: Word, b: Byte)
    ensures UpdateByte(c, b) == Process(c, ToBits(b, 8))
  {
    hide Process, Steps, ToBits, Pow2;
    Pow2Known();
    SmallBits(b, 8, 32);
    var x := Xor(c, Pad(ToBits(b, 8)));
    FeedAtOnce(c, ToBits(b, 8));
    var low, high: Word := Pad(x[..8]), Off(8) + x[8..];
    assert x == Xor(high, low);
    StepsLinear(high, low, 8);
    ShiftOut(high, 8);
    assert Shr(high, 8) == Shr(c, 8);
    FromBitsBack(x[..8]);
    SmallBits(FromBits(x[..8]), 8, 32);
  }

  // ----- Messages -----

  /** A message as bits: each byte lowest bit first. */
  function Bits(data: seq<Byte>): (r: seq<bool>)
    ensures |r| == 8 * |data|
  {
    if data == [] then [] else ToBits(data[0], 8) + Bits(data[1..])
  }

  function UpdateAll(c: Word, data: seq<Byte>): Word
    decreases |data|
  {
    if data == [] then c else UpdateAll(UpdateByte(c, data[0]), data[1..])
  }

  lemma {:induction false} UpdateIsBitwise(c: Word, data: seq<Byte>)
    ensures UpdateAll(c, data) == Process(c, Bits(data))
    decreases |data|
  {
    hide UpdateByte;
    if data != [] {
      TableIsBitwise(c, data[0]);
      UpdateIsBitwise(UpdateByte(c, data[0]), data[1..]);
      ProcessAppend(c, ToBits(data[0], 8), Bits(data[1..]));
    }
  }

  const ONES: Word := Not(ZERO)

  /** CRC-32C by definition: ones in, the message bit by bit, complemented out. */
  function Reference(data: seq<Byte>): Word {
    Not(Process(ONES, Bits(data)))
  }

  /** The checksum as the number that is stored. */
  function Checksum(data: seq<Byte>): nat {
    FromBits(Reference(data))
  }

  lemma ChecksumFits(data: seq<Byte>)
    ensures Checksum(data) < U32
  {
    Pow2Known();
    FromBitsBack(Reference(data));
  }

  lemma {:induction false} BitsAppend(a: seq<Byte>, b: seq<Byte>)
    ensures Bits(a + b) == Bits(a) + Bits(b)
  {
    if a == [] {
      assert a + b == b;
    } else {
      assert (a + b)[0] == a[0] && (a + b)[1..] == a[1..] + b;
      BitsAppend(a[1..], b);
    }
  }

  lemma {:induction false} BitsInjective(a: seq<Byte>, b: seq<Byte>)
    requires |a| == |b| && Bits(a) == Bits(b)
    ensures a == b
  {
    if a != [] {
      Pow2Known();
      assert Bits(a)[..8] == ToBits(a[0], 8) && Bits(b)[..8] == ToBits(b[0], 8);
      assert Bits(a)[8..] == Bits(a[1..]) && Bits(b)[8..] == Bits(b[1..]);
      ToBitsBack(a[0], 8);
      ToBitsBack(b[0], 8);
      BitsInjective(a[1..], b[1..]);
    }
  }

  lemma NotTwice(a: Word)
    ensures Not(Not(a)) == a
  {
  }

  lemma NotInjective(a: Word, b: Word)
    requires Not(a) == Not(b)
    ensures a == b
  {
    NotTwice(a);
    NotTwice(b);
  }

  /** Checksumming in pieces, directly or through `resume`, is checksumming the whole. */
  lemma Incremental(a: seq<Byte>, b: seq<Byte>)
    ensures Not(Process(Process(ONES, Bits(a)), Bits(b))) == Reference(a + b)
    ensures Not(Process(Not(Reference(a)), Bits(b))) == Reference(a + b)
  {
    BitsAppend(a, b);
    ProcessAppend(ONES, Bits(a), Bits(b));
    NotTwice(Process(ONES, Bits(a)));
  }

  /** Messages alike but for four consecutive bytes have different checksums, at any length. */
  lemma FourBytesDetected(before: seq<Byte>, x: seq<Byte>, y: seq<Byte>, after: seq<Byte>)
    requires |x| == |y| <= 4
    ensures Checksum(before + x + after) == Checksum(before + y + after) <==> x == y
  {
    hide Process;
    BitsAppend(before + x, after);
    BitsAppend(before, x);
    BitsAppend(before + y, after);
    BitsAppend(before, y);
    BurstDetected(ONES, Bits(before), Bits(x), Bits(y), Bits(after));
    if Checksum(before + x + after) == Checksum(before + y + after) {
      var p, q := Reference(before + x + after), Reference(before + y + after);
      FromBitsBack(p);
      FromBitsBack(q);
      NotInjective(Process(ONES, Bits(before + x + after)), Process(ONES, Bits(before + y + after)));
      BitsInjective(x, y);
    }
  }

  // ----- Message and stored checksum together -----

  /** What the register holds after any message followed by its own checksum. */
  const RESIDUE: Word := Steps(ONES, 32)

  lemma {:induction false} StepsInjective(a: Word, b: Word, k: nat)
    requires Steps(a, k) == Steps(b, k)
    ensures a == b
    decreases k
  {
    if k > 0 {
      StepsInjective(Step(a), Step(b), k - 1);
      StepInjective(a, b);
    }
  }

  lemma XorOnes(c: Word, w: Word)
    ensures Xor(c, w) == ONES <==> w == Not(c)
  {
    if Xor(c, w) == ONES {
      forall i | 0 <= i < 32
        ensures w[i] == Not(c)[i]
      {
        assert Xor(c, w)[i] == ONES[i];
      }
    }
  }

  /** The bits of little-endian bytes are the bits of the number. */
  lemma {:induction false} BitsOfNumber(s: seq<Byte>)
    ensures FromBits(Bits(s)) == FromLe(s)
  {
    if s != [] {
      BitsOfNumber(s[1..]);
      FromBitsAppend(ToBits(s[0], 8), Bits(s[1..]));
      Pow2Known();
      ToBitsBack(s[0], 8);
    }
  }

  lemma SameNumber(a: Word, b: Word)
    requires FromBits(a) == FromBits(b)
    ensures a == b
  {
    FromBitsBack(a);
    FromBitsBack(b);
  }

  /** The stored four bytes are the checksum exactly when message and stored bytes leave the residue. */
  lemma StoredExactly(data: seq<Byte>, stored: seq<Byte>)
    requires |stored| == 4
    ensures FromLe(stored) == Checksum(data) <==> Process(ONES, Bits(data + stored)) == RESIDUE
  {
    hide Process, Steps, FromBits, Bits;
    var c := Process(ONES, Bits(data));
    var w: Word := Bits(stored);
    BitsOfNumber(stored);
    BitsAppend(data, stored);
    ProcessAppend(ONES, Bits(data), w);
    FeedAtOnce(c, w);
    assert Pad(w) == w;
    XorOnes(c, w);
    if Process(c, w) == RESIDUE {
      StepsInjective(Xor(c, w), ONES, 32);
    }
    if FromBits(w) == FromBits(Not(c)) {
      SameNumber(w, Not(c));
    }
  }

  /** Two strings of the same length that agree outside four consecutive positions. */
  ghost predicate Near(p: seq<Byte>, q: seq<Byte>, at: nat) {
    |p| == |q| && forall k :: 0 <= k < |p| && !(at <= k < at + 4) ==> p[k] == q[k]
  }

  /**
    An error confined to four consecutive bytes, anywhere in a message and its stored
    checksum, the boundary included, leaves them not matching.
  */
  lemma NearMissDetected(data: seq<Byte>, stored: seq<Byte>, data': seq<Byte>, stored': seq<Byte>, at: nat)
    requires |stored| == |stored'| == 4 && |data| == |data'|
    requires FromLe(stored) == Checksum(data) && Near(data + stored, data' + stored', at)
    ensures FromLe(stored') == Checksum(data') <==> data' + stored' == data + stored
  {
    hide Process, FromLe, Checksum;
    var p, q := data + stored, data' + stored';
    StoredExactly(data, stored);
    StoredExactly(data', stored');
    NearMissDiffers(p, q, at);
    if p == q {
      assert data == p[..|data|] && data' == q[..|data|] && stored == p[|data|..] && stored' == q[|data|..];
    }
  }

  lemma NearMissDiffers(p: seq<Byte>, q: seq<Byte>, at: nat)
    requires Near(p, q, at)
    ensures Process(ONES, Bits(p)) == Process(ONES, Bits(q)) <==> p == q
  {
    hide Process;
    var i, j := Min(at, |p|), Min(at + 4, |p|);
    var a, x, y, z := p[..i], p[i..j], q[i..j], p[j..];
    assert p == a + x + z;
    assert q == a + y + z by {
      assert q[..i] == a && q[j..] == z;
      assert q == q[..i] + q[i..j] + q[j..];
    }
    hide Near;
    BitsAppend(a + x, z);
    BitsAppend(a, x);
    BitsAppend(a + y, z);
    BitsAppend(a, y);
    BurstDetected(ONES, Bits(a), Bits(x), Bits(y), Bits(z));
    if Bits(x) == Bits(y) {
      BitsInjective(x, y);
    }
  }

  // ----- The code -----

  method EightSteps(i: nat) returns (crc: Word)
    ensures crc == TableEntry(i)
  {
    hide ToBits, Xor, Shr;
    crc := ToBits(i, 32);
    var bit := 0;
    while bit < 8
      invariant 0 <= bit <= 8 && Steps(crc, 8 - bit) == TableEntry(i)
    {
      crc := if crc[0] then Xor(Shr(crc, 1), POLY) else Shr(crc, 1);
      bit := bit + 1;
    }
  }

  /** The table, filled by eight steps per entry. */
  method BuildTable() returns (table: array<Word>)
    ensures fresh(table) && table.Length == 256
    ensures forall i :: 0 <= i < 256 ==> table[i] == TableEntry(i)
  {
    hide TableEntry;
    table := new Word[256](_ => ZERO);
    var i := 0;
    while i < 256
      invariant 0 <= i <= 256
      invariant forall k :: 0 <= k < i ==> table[k] == TableEntry(k)
    {
      var crc := EightSteps(i);
      table[i] := crc;
      i := i + 1;
    }
  }

  /** Feed bytes in through the table. */
  method Update(table: array<Word>, start: Word, data: seq<Byte>) returns (crc: Word)
    requires table.Length == 256 && forall i :: 0 <= i < 256 ==> table[i] == TableEntry(i)
    ensures crc == Process(start, Bits(data))
  {
    crc := start;
    assert data[0..] == data;
    for i := 0 to |data|
      invariant UpdateAll(crc, data[i..]) == UpdateAll(start, data)
    {
      assert data[i..][0] == data[i] && data[i..][1..] == data[i + 1..];
      var low := Xor(crc, ToBits(data[i], 32))[..8];
      IndexFits(low);
      crc := Xor(Shr(crc, 8), table[FromBits(low)]);
    }
    UpdateIsBitwise(start, data);
  }

  lemma IndexFits(low: seq<bool>)
    requires |low| == 8
    ensures FromBits(low) < 256
  {
    Pow2Known();
    FromBitsBack(low);
  }

  /** The checksum of a buffer. */
  method Crc(data: seq<Byte>) returns (sum: nat)
    ensures sum == Checksum(data)
  {
    var table := BuildTable();
    var crc := Update(table, ONES, data);
    sum := FromBits(Not(crc));
  }
}
