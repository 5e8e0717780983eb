/** Option and Result, as the source uses them. */
module Prelude {
  datatype Option<+T> = None | Some(value: T)

  datatype Result<+T, +E> = Ok(value: T) | Err(error: E) {
    predicate IsFailure() { Err? }
    function PropagateFailure<U>(): Result<U, E>
      requires Err?
    {
      Err(error)
    }
    function Extract(): T
      requires Ok?
    {
      value
    }
  }

  function Max(a: int, b: int): int {
    if a > b then a else b
  }

  function Min(a: int, b: int): int {
    if a < b then a else b
  }

  lemma Distribute(k: int, x: int, p: int, y: int)
    ensures k * (x + p * y) == k * x + (k * p) * y
  {
    assert k * (p * y) == (k * p) * y;
  }

  ghost predicate Distinct<T>(s: seq<T>) {
    forall i, j :: 0 <= i < j < |s| ==> s[i] != s[j]
  }

  lemma DistinctAppend<T>(s: seq<T>, x: T)
    requires Distinct(s) && x !in s
    ensures Distinct(s + [x])
  {
  }

  lemma Associate<T>(p: seq<T>, q: seq<T>, r: seq<T>)
    ensures p + q + r == p + (q + r)
  {
  }

  lemma Rest<T>(a: seq<T>, b: seq<T>)
    requires a != []
    ensures a + b == [a[0]] + (a[1..] + b) && a == [a[0]] + a[1..]
  {
  }

  ghost function Members<T>(s: seq<T>): set<T> {
    set x | x in s
  }

  lemma {:induction false} DistinctExactly<T>(s: seq<T>)
    ensures |Members(s)| <= |s| && (Distinct(s) <==> |Members(s)| == |s|)
  {
    if s != [] {
      DistinctExactly(s[1..]);
      assert Members(s) == Members(s[1..]) + {s[0]};
      assert forall i :: 0 < i < |s| ==> s[i] == s[1..][i - 1];
      if Distinct(s) {
        assert Distinct(s[1..]);
      } else {
        var i, j :| 0 <= i < j < |s| && s[i] == s[j];
        if i == 0 {
          assert s[0] == s[1..][j - 1];
        } else {
          assert s[1..][i - 1] == s[1..][j - 1];
        }
      }
    }
  }

  lemma SubsetCount<T>(a: set<T>, b: set<T>)
    requires a <= b
    ensures |a| <= |b|
  {
    assert b == a + (b - a);
  }

  /** Distinct elements of a sequence are no more than it has. */
  lemma DistinctFits<T>(a: seq<T>, b: seq<T>)
    requires Distinct(a) && Distinct(b) && forall x :: x in a ==> x in b
    ensures |a| <= |b|
  {
    DistinctExactly(a);
    DistinctExactly(b);
    SubsetCount(Members(a), Members(b));
  }
}
