/** What the UTF-8 test accepts: exactly the encodings of sequences of Unicode scalar values. */
module Characters {
  import opened Bytes
  import opened Cursor

  /** A Unicode scalar value: a code point that is no surrogate. */
  type Scalar = c: int | 0 <= c < 0x11_0000 && !(0xD800 <= c < 0xE000)

  /** Section 3 of RFC 3629. */
  function Encoded(c: Scalar): (r: seq<Byte>)
    ensures 0 < |r| <= 4
  {
    if c < 0x80 then [c]
    else if c < 0x800 then [0xC0 + c / 64, 0x80 + c % 64]
    else if c < 0x1_0000 then [0xE0 + c / 4096, 0x80 + c / 64 % 64, 0x80 + c % 64]
    else [0xF0 + c / 262144, 0x80 + c / 4096 % 64, 0x80 + c / 64 % 64, 0x80 + c % 64]
  }

  function Text(cs: seq<Scalar>): seq<Byte> {
    if cs == [] then [] else Encoded(cs[0]) + Text(cs[1..])
  }

  lemma EncodedPasses(c: Scalar, rest: seq<Byte>)
    ensures Utf8(Encoded(c) + rest) == Utf8(rest)
  {
    var s := Encoded(c) + rest;
    assert s[|Encoded(c)|..] == rest;
    assert c < 0x80 ==> s[0] == c;
    assert 0x80 <= c < 0x800 ==> s[0] == 0xC0 + c / 64 && s[1] == 0x80 + c % 64;
    if 0x800 <= c < 0x1_0000 {
      assert s[0] == 0xE0 + c / 4096 && s[1] == 0x80 + c / 64 % 64 && s[2] == 0x80 + c % 64;
    } else if 0x1_0000 <= c {
      assert s[0] == 0xF0 + c / 262144 && s[1] == 0x80 + c / 4096 % 64;
      assert s[2] == 0x80 + c / 64 % 64 && s[3] == 0x80 + c % 64;
    }
  }

  lemma {:induction false} TextPasses(cs: seq<Scalar>)
    ensures Utf8(Text(cs))
  {
    if cs != [] {
      TextPasses(cs[1..]);
      EncodedPasses(cs[0], Text(cs[1..]));
    }
  }

  lemma TwoBytes(a: int, b: int)
    requires 0xC2 <= a <= 0xDF && 0x80 <= b <= 0xBF
    ensures var c := 64 * (a - 0xC0) + (b - 0x80); 0x80 <= c < 0x800 && Encoded(c) == [a, b]
  {
  }

  lemma SixBits(q: nat, r: nat)
    requires r < 64
    ensures (64 * q + r) / 64 == q && (64 * q + r) % 64 == r
  {
  }

  lemma Nested(n: nat)
    ensures n / 4096 == n / 64 / 64 && n / 262144 == n / 64 / 64 / 64
  {
  }

  lemma ThreeBytes(a: int, b: int, c: int)
    requires 0xE0 <= a <= 0xEF && 0x80 <= b <= 0xBF && 0x80 <= c <= 0xBF
    requires (a == 0xE0 ==> b >= 0xA0) && (a == 0xED ==> b < 0xA0)
    ensures var n := 4096 * (a - 0xE0) + 64 * (b - 0x80) + (c - 0x80);
            0x800 <= n < 0x1_0000 && !(0xD800 <= n < 0xE000) && Encoded(n) == [a, b, c]
  {
    var n := 4096 * (a - 0xE0) + 64 * (b - 0x80) + (c - 0x80);
    SixBits(64 * (a - 0xE0) + (b - 0x80), c - 0x80);
    SixBits(a - 0xE0, b - 0x80);
    Nested(n);
  }

  lemma FourBytes(a: int, b: int, c: int, d: int)
    requires 0xF0 <= a <= 0xF4 && 0x80 <= b <= 0xBF && 0x80 <= c <= 0xBF && 0x80 <= d <= 0xBF
    requires (a == 0xF0 ==> b >= 0x90) && (a == 0xF4 ==> b < 0x90)
    ensures var n := 262144 * (a - 0xF0) + 4096 * (b - 0x80) + 64 * (c - 0x80) + (d - 0x80);
            0x1_0000 <= n < 0x11_0000 && Encoded(n) == [a, b, c, d]
  {
    var n := 262144 * (a - 0xF0) + 4096 * (b - 0x80) + 64 * (c - 0x80) + (d - 0x80);
    SixBits(4096 * (a - 0xF0) + 64 * (b - 0x80) + (c - 0x80), d - 0x80);
    SixBits(64 * (a - 0xF0) + (b - 0x80), c - 0x80);
    SixBits(a - 0xF0, b - 0x80);
    Nested(n);
  }

  lemma FirstCharacter(s: seq<Byte>) returns (c: Scalar)
    requires s != [] && Utf8(s)
    ensures |Encoded(c)| <= |s| && s[..|Encoded(c)|] == Encoded(c) && Utf8(s[|Encoded(c)|..])
  {
    var a: int := s[0];
    if a <= 0x7F {
      c := a;
    } else {
      var b: int := s[1];
      if a <= 0xDF {
        TwoBytes(a, b);
        c := 64 * (a - 0xC0) + (b - 0x80);
        assert s[..2] == [a, b];
      } else if a <= 0xEF {
        var d: int := s[2];
        ThreeBytes(a, b, d);
        c := 4096 * (a - 0xE0) + 64 * (b - 0x80) + (d - 0x80);
        hide Encoded;
        assert s[..3] == [a, b, d];
      } else {
        var d: int, e: int := s[2], s[3];
        FourBytes(a, b, d, e);
        c := 262144 * (a - 0xF0) + 4096 * (b - 0x80) + 64 * (d - 0x80) + (e - 0x80);
        hide Encoded;
        assert s[..4] == [a, b, d, e];
      }
    }
  }

  /** The test passes exactly on encoded text. */
  lemma {:induction false} Utf8Exactly(s: seq<Byte>)
    ensures Utf8(s) <==> exists cs: seq<Scalar> :: Text(cs) == s
  {
    if Utf8(s) {
      var cs := Characters(s);
    }
    if cs: seq<Scalar> :| Text(cs) == s {
      TextPasses(cs);
    }
  }

  lemma {:induction false} Characters(s: seq<Byte>) returns (cs: seq<Scalar>)
    requires Utf8(s)
    ensures Text(cs) == s
    decreases |s|
  {
    if s == [] {
      cs := [];
    } else {
      hide Utf8;
      var c := FirstCharacter(s);
      var rest := Characters(s[|Encoded(c)|..]);
      cs := [c] + rest;
      assert cs[1..] == rest;
    }
  }
}
