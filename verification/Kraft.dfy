/**
 Code lengths that satisfy Kraft's inequality, scaled to integers: lengths `e`, none above
 `top`, satisfy it when the shares 2^(top - e[k]) add up to at most 2^top.
 `Exchange` is the step at the heart of Huffman's algorithm: it turns lengths for a set of
 weights into lengths for the same weights with the two lightest merged.
 */
module Kraft {
  import opened Sums

  predicate Bounded(e: seq<nat>, top: nat) {
    forall k | 0 <= k < |e| :: e[k] <= top
  }

  function Shares(e: seq<nat>, top: nat): (s: seq<int>)
    requires Bounded(e, top)
    ensures |s| == |e|
    ensures forall k | 0 <= k < |e| :: s[k] == Pow2(top - e[k])
  {
    seq(|e|, k requires 0 <= k < |e| => Pow2(top - e[k]))
  }

  predicate Satisfied(e: seq<nat>, top: nat) {
    Bounded(e, top) && Sum(Shares(e, top)) <= Pow2(top)
  }

  function Products(w: seq<nat>, e: seq<nat>): (s: seq<int>)
    requires |w| == |e|
    ensures |s| == |w|
    ensures forall k | 0 <= k < |w| :: s[k] == w[k] * e[k]
  {
    seq(|w|, k requires 0 <= k < |w| => w[k] * e[k])
  }

  /** Weighted total length. */
  function Dot(w: seq<nat>, e: seq<nat>): int
    requires |w| == |e|
  {
    Sum(Products(w, e))
  }

  predicate Lightest(w: seq<nat>, i: nat) {
    i < |w| && forall k | 0 <= k < |w| :: w[i] <= w[k]
  }

  predicate Longest(e: seq<nat>, i: nat) {
    i < |e| && forall k | 0 <= k < |e| :: e[k] <= e[i]
  }

  lemma LongestExists(e: seq<nat>) returns (a: nat)
    requires e != []
    ensures Longest(e, a)
  {
    a := 0;
    for n := 1 to |e|
      invariant a < n
      invariant forall k | 0 <= k < n :: e[k] <= e[a]
    {
      if e[a] < e[n] {
        a := n;
      }
    }
  }

  lemma ProductExchange(wi: nat, wa: nat, ei: nat, ea: nat)
    requires wi <= wa && ei <= ea
    ensures wi * ea + wa * ei <= wi * ei + wa * ea
  {
    assert (wa - wi) * (ea - ei) >= 0;
  }

  lemma SharesSwap(e: seq<nat>, top: nat, i: nat, a: nat)
    requires Bounded(e, top) && i < |e| && a < |e|
    ensures var f := e[i := e[a]][a := e[i]];
            Bounded(f, top) && Sum(Shares(f, top)) == Sum(Shares(e, top))
  {
    var s := Shares(e, top);
    SumUpdate(s, i, s[a]);
    SumUpdate(s[i := s[a]], a, s[i]);
    assert Shares(e[i := e[a]][a := e[i]], top) == s[i := s[a]][a := s[i]];
  }

  lemma DotSwap(w: seq<nat>, e: seq<nat>, i: nat, a: nat)
    requires |w| == |e| && i < |w| && a < |w| && i != a
    ensures Dot(w, e[i := e[a]][a := e[i]])
         == Dot(w, e) - w[i] * e[i] - w[a] * e[a] + w[i] * e[a] + w[a] * e[i]
  {
    var p := Products(w, e);
    SumUpdate(p, i, w[i] * e[a]);
    SumUpdate(p[i := w[i] * e[a]], a, w[a] * e[i]);
    assert Products(w, e[i := e[a]][a := e[i]]) == p[i := w[i] * e[a]][a := w[a] * e[i]];
  }

  /** Giving the lightest weight the greatest length keeps Kraft's inequality and never costs more. */
  lemma SwapToLongest(w: seq<nat>, i: nat, e: seq<nat>, top: nat) returns (f: seq<nat>)
    requires |w| == |e| && Lightest(w, i) && Bounded(e, top)
    ensures |f| == |e| && Bounded(f, top) && Longest(f, i)
    ensures Sum(Shares(f, top)) == Sum(Shares(e, top))
    ensures Dot(w, f) <= Dot(w, e)
  {
    var a := LongestExists(e);
    f := e[i := e[a]][a := e[i]];
    SharesSwap(e, top, i, a);
    if i == a {
      assert f == e;
    } else {
      DotSwap(w, e, i, a);
      ProductExchange(w[i], w[a], e[i], e[a]);
    }
  }

  lemma ShareScale(d: nat, top: nat, extra: nat)
    requires d <= top
    ensures Pow2(top + extra - d) == Pow2(extra) * Pow2(top - d)
  {
    Pow2Add(extra, top - d);
  }

  lemma SharesScale(e: seq<nat>, top: nat, extra: nat)
    requires Bounded(e, top)
    ensures Bounded(e, top + extra)
    ensures Sum(Shares(e, top + extra)) == Pow2(extra) * Sum(Shares(e, top))
  {
    var c, scaled, shares := Pow2(extra), Shares(e, top + extra), Shares(e, top);
    forall k | 0 <= k < |e|
      ensures scaled[k] == c * shares[k]
    {
      ShareScale(e[k], top, extra);
    }
    SumScale(scaled, shares, c);
  }

  lemma DotRemoveAt(w: seq<nat>, e: seq<nat>, i: nat)
    requires |w| == |e| && i < |w|
    ensures Dot(w, e) == w[i] * e[i] + Dot(RemoveAt(w, i), RemoveAt(e, i))
  {
    SumRemoveAt(Products(w, e), i);
    assert RemoveAt(Products(w, e), i) == Products(RemoveAt(w, i), RemoveAt(e, i));
  }

  lemma DotAppend(w: seq<nat>, e: seq<nat>, v: nat, d: nat)
    requires |w| == |e|
    ensures Dot(w + [v], e + [d]) == Dot(w, e) + v * d
  {
    SumAppend(Products(w, e), v * d);
    assert Products(w + [v], e + [d]) == Products(w, e) + [v * d];
  }

  lemma SharesRemoveAt(e: seq<nat>, top: nat, i: nat)
    requires Bounded(e, top) && i < |e|
    ensures Bounded(RemoveAt(e, i), top)
    ensures Sum(Shares(e, top)) == Pow2(top - e[i]) + Sum(Shares(RemoveAt(e, i), top))
  {
    SumRemoveAt(Shares(e, top), i);
    assert RemoveAt(Shares(e, top), i) == Shares(RemoveAt(e, i), top);
  }

  lemma SharesAppend(e: seq<nat>, top: nat, d: nat)
    requires Bounded(e, top) && d <= top
    ensures Bounded(e + [d], top)
    ensures Sum(Shares(e + [d], top)) == Sum(Shares(e, top)) + Pow2(top - d)
  {
    SumAppend(Shares(e, top), Pow2(top - d));
    assert Shares(e + [d], top) == Shares(e, top) + [Pow2(top - d)];
  }

  lemma SharesNonNegative(e: seq<nat>, top: nat)
    requires Bounded(e, top)
    ensures 0 <= Sum(Shares(e, top))
  {
    var zeros := seq(|e|, k => 0);
    SumZero(zeros);
    SumMonotone(zeros, Shares(e, top));
  }

  /** Shares and budget grow by one common factor when the scale does. */
  lemma CommonFactor(e: seq<nat>, top: nat, m: nat) returns (c: nat)
    requires Bounded(e, top) && top <= m
    ensures c >= 1 && Bounded(e, m)
    ensures Sum(Shares(e, m)) == c * Sum(Shares(e, top))
    ensures Pow2(m) == c * Pow2(top)
  {
    SharesScale(e, top, m - top);
    Pow2Add(m - top, top);
    c := Pow2(m - top);
  }

  /** Kraft's inequality does not depend on the scale it is stated at. */
  lemma Rescale(e: seq<nat>, top: nat, m: nat)
    requires m <= top && Bounded(e, m) && Satisfied(e, top)
    ensures Satisfied(e, m)
  {
    var c := CommonFactor(e, m, top);
    CancelFactor(c, Sum(Shares(e, m)), Pow2(m));
  }

  /**
   Integrality: once one longest entry of length `m` is taken out, what is left leaves room for a
   whole share of size 1 at the scale of its own longest entry.
   */
  lemma RoomAtOwnScale(e: seq<nat>, m: nat, top: nat)
    requires Bounded(e, m) && top <= m && Bounded(e, top)
    requires 1 + Sum(Shares(e, m)) <= Pow2(m)
    ensures Sum(Shares(e, top)) < Pow2(top)
  {
    var c := CommonFactor(e, top, m);
    CancelStrict(c, Sum(Shares(e, top)), Pow2(top), Sum(Shares(e, m)), Pow2(m));
  }

  /** A longest entry replaced by one that is one shorter. */
  lemma Shorten(g: seq<nat>, j: nat, m: nat) returns (d: nat, rest: seq<nat>)
    requires Longest(g, j) && Bounded(g, m)
    requires 1 + Sum(Shares(g, m)) <= Pow2(m)
    ensures d == g[j] >= 1 && rest == RemoveAt(g, j)
    ensures Satisfied(rest + [d - 1], d)
  {
    d, rest := g[j], RemoveAt(g, j);
    RoomAtOwnScale(g, m, d);
    SharesRemoveAt(g, d, j);
    SharesNonNegative(rest, d);
    SharesAppend(rest, d, d - 1);
    assert Pow2(1) == 2 * Pow2(0);
  }

  lemma MergeProducts(a: nat, b: nat, d: nat, m: nat)
    requires 1 <= d <= m
    ensures (a + b) * (d - 1) + (a + b) <= a * m + b * d
  {
    MulMonotone(a, d, m);
    assert (a + b) * (d - 1) + (a + b) == a * d + b * d;
  }

  /** Huffman's exchange step. */
  lemma Exchange(w: seq<nat>, i: nat, j: nat, e: seq<nat>, top: nat)
    returns (merged: seq<nat>, mergedTop: nat)
    requires |w| == |e| >= 2
    requires Lightest(w, i) && Lightest(RemoveAt(w, i), j)
    requires Satisfied(e, top)
    ensures |merged| == |w| - 1
    ensures Satisfied(merged, mergedTop)
    ensures var w1 := RemoveAt(w, i);
            var sum := w[i] + w1[j];
            sum + Dot(RemoveAt(w1, j) + [sum], merged) <= Dot(w, e)
  {
    // The lightest weight gets the greatest length, the second lightest the next greatest.
    var f := SwapToLongest(w, i, e, top);
    var w1, f1, m := RemoveAt(w, i), RemoveAt(f, i), f[i];
    Rescale(f, top, m);
    SharesRemoveAt(f, m, i);
    var g := SwapToLongest(w1, j, f1, m);

    // Both lengths drop to that of the second and the pair becomes one entry, one shorter.
    var d, rest := Shorten(g, j, m);
    merged, mergedTop := rest + [d - 1], d;

    DotRemoveAt(w, f, i);
    DotRemoveAt(w1, g, j);
    DotAppend(RemoveAt(w1, j), rest, w[i] + w1[j], d - 1);
    MergeProducts(w[i], w1[j], d, m);
  }
}
