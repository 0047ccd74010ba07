/**
 Finite sums over sequences, removal of one element, and the two number sequences
 (powers of two, Fibonacci) that the bounds on code lengths are stated with.
 */
module Sums {

  function Sum(s: seq<int>): int {
    if s == [] then 0 else s[0] + Sum(s[1..])
  }

  function RemoveAt<T>(s: seq<T>, i: nat): (r: seq<T>)
    requires i < |s|
    ensures |r| == |s| - 1
    ensures forall k | 0 <= k < |r| :: r[k] == if k < i then s[k] else s[k + 1]
  {
    s[..i] + s[i + 1..]
  }

  lemma {:induction false} SumConcat(a: seq<int>, b: seq<int>)
    ensures Sum(a + b) == Sum(a) + Sum(b)
  {
    if a == [] {
      assert a + b == b;
    } else {
      assert (a + b)[1..] == a[1..] + b;
      SumConcat(a[1..], b);
    }
  }

  lemma {:induction false} SumRemoveAt(s: seq<int>, i: nat)
    requires i < |s|
    ensures Sum(RemoveAt(s, i)) == Sum(s) - s[i]
  {
    if i == 0 {
      assert RemoveAt(s, 0) == s[1..];
    } else {
      assert RemoveAt(s, i)[1..] == RemoveAt(s[1..], i - 1);
      SumRemoveAt(s[1..], i - 1);
    }
  }

  lemma SumUpdate(s: seq<int>, i: nat, v: int)
    requires i < |s|
    ensures Sum(s[i := v]) == Sum(s) - s[i] + v
  {
    SumRemoveAt(s, i);
    SumRemoveAt(s[i := v], i);
    assert RemoveAt(s, i) == RemoveAt(s[i := v], i);
  }

  lemma SumAppend(s: seq<int>, v: int)
    ensures Sum(s + [v]) == Sum(s) + v
  {
    SumConcat(s, [v]);
  }

  lemma SumSingle(s: seq<int>)
    requires |s| == 1
    ensures Sum(s) == s[0]
  {
    assert s[1..] == [];
  }

  lemma {:induction false} SumScale(a: seq<int>, b: seq<int>, c: int)
    requires |a| == |b|
    requires forall k | 0 <= k < |a| :: a[k] == c * b[k]
    ensures Sum(a) == c * Sum(b)
  {
    if a != [] {
      SumScale(a[1..], b[1..], c);
      assert c * (b[0] + Sum(b[1..])) == c * b[0] + c * Sum(b[1..]);
    }
  }

  lemma {:induction false} SumMonotone(a: seq<int>, b: seq<int>)
    requires |a| == |b|
    requires forall k | 0 <= k < |a| :: a[k] <= b[k]
    ensures Sum(a) <= Sum(b)
  {
    if a != [] {
      SumMonotone(a[1..], b[1..]);
    }
  }

  lemma {:induction false} SumZero(a: seq<int>)
    requires forall k | 0 <= k < |a| :: a[k] == 0
    ensures Sum(a) == 0
  {
    if a != [] {
      SumZero(a[1..]);
    }
  }

  lemma {:induction false} SumConstant(a: seq<int>, c: int)
    requires forall k | 0 <= k < |a| :: a[k] == c
    ensures Sum(a) == c * |a|
  {
    if a != [] {
      SumConstant(a[1..], c);
    }
  }

  /** One term of a sum of non-negative terms never exceeds the sum. */
  lemma SumAtLeastTerm(a: seq<int>, i: nat)
    requires i < |a|
    requires forall k | 0 <= k < |a| :: a[k] >= 0
    ensures a[i] <= Sum(a)
  {
    SumRemoveAt(a, i);
    var rest := RemoveAt(a, i);
    var zeros := seq(|rest|, k => 0);
    SumZero(zeros);
    SumMonotone(zeros, rest);
  }

  lemma MulMonotone(c: nat, a: int, b: int)
    requires a <= b
    ensures c * a <= c * b
  {
    assert c * (b - a) >= 0;
  }

  lemma CancelFactor(c: int, a: int, b: int)
    requires c >= 1
    ensures c * a <= c * b ==> a <= b
  {
    if a > b {
      MulMonotone(c, b + 1, a);
      assert c * (b + 1) == c * b + c;
    }
  }

  /** A strict inequality between two multiples of `c` stays strict after division. */
  lemma CancelStrict(c: int, a: int, b: int, ca: int, cb: int)
    requires c >= 1 && ca == c * a && cb == c * b
    requires ca < cb
    ensures a < b
  {
    if a >= b {
      MulMonotone(c, b, a);
    }
  }

  function Pow2(n: nat): (p: nat)
    ensures p >= 1
  {
    if n == 0 then 1 else 2 * Pow2(n - 1)
  }

  lemma {:induction false} Pow2Add(a: nat, b: nat)
    ensures Pow2(a + b) == Pow2(a) * Pow2(b)
  {
    if a > 0 {
      Pow2Add(a - 1, b);
    }
  }

  function Fib(n: nat): (f: nat)
    ensures n >= 1 ==> f >= 1
  {
    if n < 2 then n else Fib(n - 1) + Fib(n - 2)
  }

  lemma FibStep(n: nat)
    ensures Fib(n + 2) == Fib(n + 1) + Fib(n)
  {
  }

  /** The first Fibonacci number that a 32-bit counter cannot hold. */
  lemma Fib48()
    ensures Fib(48) == 4807526976
  {
    assert Fib(12) == 144 && Fib(13) == 233;
    assert Fib(18) == 2584 && Fib(19) == 4181;
    assert Fib(24) == 46368 && Fib(25) == 75025;
    assert Fib(30) == 832040 && Fib(31) == 1346269;
    assert Fib(36) == 14930352 && Fib(37) == 24157817;
    assert Fib(42) == 267914296 && Fib(43) == 433494437;
  }

  lemma {:induction false} FibMonotone(a: nat, b: nat)
    requires a <= b
    ensures Fib(a) <= Fib(b)
    decreases b
  {
    if a < b && b >= 2 {
      FibMonotone(a, b - 1);
    }
  }
}
