/** Numbers as bits, least significant first. */
module BitString {
  import opened Prelude
  import opened Bytes

  function Off(n: nat): (r: seq<bool>)
    ensures |r| == n && forall i :: 0 <= i < n ==> !r[i]
  {
    seq(n, _ => false)
  }

  function Xor(a: seq<bool>, b: seq<bool>): (r: seq<bool>)
    requires |a| == |b|
    ensures |r| == |a| && forall i :: 0 <= i < |r| ==> r[i] == (a[i] != b[i])
  {
    seq(|a|, i requires 0 <= i < |a| => a[i] != b[i])
  }

  /** The low `k` bits of a number. */
  function ToBits(n: nat, k: nat): (r: seq<bool>)
    ensures |r| == k
    decreases k
  {
    if k == 0 then [] else [n % 2 == 1] + ToBits(n / 2, k - 1)
  }

  function FromBits(s: seq<bool>): nat {
    if s == [] then 0 else (if s[0] then 1 else 0) + 2 * FromBits(s[1..])
  }

  function Pow2(k: nat): (r: nat)
    ensures r > 0
  {
    if k == 0 then 1 else 2 * Pow2(k - 1)
  }

  lemma {:induction false} Pow2Sum(a: nat, b: nat)
    ensures Pow2(a + b) == Pow2(a) * Pow2(b)
    decreases a
  {
    if a > 0 {
      Pow2Sum(a - 1, b);
    }
  }

  lemma Pow2Known()
    ensures Pow2(8) == 256 && Pow2(31) == 0x8000_0000 && Pow2(32) == U32
  {
    assert Pow2(8) == 256;
    Pow2Sum(8, 8);
    Pow2Sum(16, 16);
    assert Pow2(32) == 2 * Pow2(31);
  }

  lemma Pow2Wide()
    ensures Pow2(64) == U64
  {
    Pow2Known();
    hide Pow2;
    Pow2Sum(32, 32);
  }

  lemma {:induction false} FromBitsBack(s: seq<bool>)
    ensures FromBits(s) < Pow2(|s|) && ToBits(FromBits(s), |s|) == s
  {
    if s != [] {
      FromBitsBack(s[1..]);
      var t := FromBits(s[1..]);
      assert FromBits(s) / 2 == t && FromBits(s) % 2 == (if s[0] then 1 else 0);
      assert s == [s[0]] + s[1..];
    }
  }

  lemma {:induction false} ToBitsBack(n: nat, k: nat)
    requires n < Pow2(k)
    ensures FromBits(ToBits(n, k)) == n
    decreases k
  {
    if k > 0 {
      ToBitsBack(n / 2, k - 1);
      assert ToBits(n, k)[1..] == ToBits(n / 2, k - 1);
    }
  }

  lemma {:induction false} TopBit(n: nat, k: nat)
    requires Pow2(k) <= n < Pow2(k + 1)
    ensures ToBits(n, k + 1)[k]
    decreases k
  {
    if k > 0 {
      TopBit(n / 2, k - 1);
      assert ToBits(n, k + 1)[k] == ToBits(n / 2, k)[k - 1];
    }
  }

  lemma {:induction false} SmallBits(n: nat, k: nat, j: nat)
    requires n < Pow2(k) && k <= j
    ensures ToBits(n, j) == ToBits(n, k) + Off(j - k)
    decreases j
  {
    if k == 0 {
      AllOff(j);
      assert [] + Off(j) == Off(j);
    } else {
      SmallBits(n / 2, k - 1, j - 1);
    }
  }

  lemma {:induction false} AllOff(j: nat)
    ensures ToBits(0, j) == Off(j)
    decreases j
  {
    if j > 0 {
      AllOff(j - 1);
      assert Off(j) == [false] + Off(j - 1);
    }
  }

  lemma {:induction false} FromBitsAppend(a: seq<bool>, b: seq<bool>)
    ensures FromBits(a + b) == FromBits(a) + Pow2(|a|) * FromBits(b)
  {
    if a == [] {
      assert a + b == b;
    } else {
      assert (a + b)[0] == a[0] && (a + b)[1..] == a[1..] + b;
      FromBitsAppend(a[1..], b);
      Distribute(2, FromBits(a[1..]), Pow2(|a| - 1), FromBits(b));
    }
  }

  /** Exclusive or of the low `k` bits of two numbers. */
  function XorNumbers(a: nat, b: nat, k: nat): nat {
    FromBits(Xor(ToBits(a, k), ToBits(b, k)))
  }

  lemma {:induction false} XorStep(a: nat, b: nat, k: nat)
    requires k > 0
    ensures XorNumbers(a, b, k) == (if a % 2 == b % 2 then 0 else 1) + 2 * XorNumbers(a / 2, b / 2, k - 1)
  {
    var x := Xor(ToBits(a, k), ToBits(b, k));
    assert x[1..] == Xor(ToBits(a / 2, k - 1), ToBits(b / 2, k - 1));
  }

  /** Exclusive or with nothing changes nothing. */
  lemma {:induction false} XorNothing(a: nat, k: nat)
    requires a < Pow2(k)
    ensures XorNumbers(a, 0, k) == a
    decreases k
  {
    if k > 0 {
      XorStep(a, 0, k);
      hide XorNumbers;
      XorNothing(a / 2, k - 1);
    }
  }

  /** Exclusive or with all ones is the complement. */
  lemma {:induction false} XorEverything(a: nat, ones: nat, k: nat)
    requires a < Pow2(k) && ones == Pow2(k) - 1
    ensures XorNumbers(a, ones, k) == ones - a
    decreases k
  {
    if k > 0 {
      XorStep(a, ones, k);
      hide XorNumbers;
      XorEverything(a / 2, ones / 2, k - 1);
    }
  }
}
