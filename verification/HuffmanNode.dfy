/**
 Huffman trees. A node never changes after construction, so it is a value.
 */
module HuffmanNode {
  import opened Common

  datatype Node =
    | Leaf(symbol: Byte, freq: nat)
    | Internal(left: Node, right: Node, freq: nat)

  /** The merging constructor, with its three overflow checks on 64-bit sums of 32-bit counters. */
  function Merge(left: Node, right: Node): (r: Result<Node>)
    ensures r.Success? <==> left.freq + right.freq < 4294967295
    ensures r.Success? ==> r.value.Internal? && r.value.freq == left.freq + right.freq
    ensures r.Success? ==> r.value.left == left && r.value.right == right
  {
    if left.freq >= UINT32_MAX || right.freq >= UINT32_MAX then
      Failure(FrequencyOverflow)
    else if left.freq + right.freq >= UINT32_MAX then
      Failure(FrequencyOverflow)
    else
      Success(Internal(left, right, left.freq + right.freq))
  }

  function Max(a: nat, b: nat): nat {
    if a < b then b else a
  }

  /** The number of edges on the longest path to a leaf. */
  function Height(t: Node): nat {
    match t
    case Leaf(_, _) => 0
    case Internal(l, r, _) => 1 + Max(Height(l), Height(r))
  }

  function NodeCount(t: Node): nat {
    match t
    case Leaf(_, _) => 1
    case Internal(l, r, _) => 1 + NodeCount(l) + NodeCount(r)
  }

  /** The sum of the frequencies of all internal nodes. */
  function Cost(t: Node): nat {
    match t
    case Leaf(_, _) => 0
    case Internal(l, r, f) => f + Cost(l) + Cost(r)
  }

  function Symbols(t: Node): set<Byte> {
    match t
    case Leaf(s, _) => {s}
    case Internal(l, r, _) => Symbols(l) + Symbols(r)
  }

  function Leaves(t: Node): multiset<(Byte, nat)> {
    match t
    case Leaf(s, f) => multiset{(s, f)}
    case Internal(l, r, _) => Leaves(l) + Leaves(r)
  }

  /** The total frequency of the leaves that carry symbol `s`. */
  function FreqOf(t: Node, s: Byte): nat {
    match t
    case Leaf(x, f) => if x == s then f else 0
    case Internal(l, r, _) => FreqOf(l, s) + FreqOf(r, s)
  }

  /** No symbol sits on two leaves. */
  predicate Distinct(t: Node) {
    t.Internal? ==> Symbols(t.left) !! Symbols(t.right) && Distinct(t.left) && Distinct(t.right)
  }

  /** Every internal node weighs what its children weigh together. */
  predicate WellWeighted(t: Node) {
    t.Internal? ==>
      t.freq == t.left.freq + t.right.freq && WellWeighted(t.left) && WellWeighted(t.right)
  }

  /** Nowhere is the left child heavier than the right one. */
  predicate LeftLighter(t: Node) {
    t.Internal? ==>
      t.left.freq <= t.right.freq && LeftLighter(t.left) && LeftLighter(t.right)
  }

  lemma {:induction false} LeafHasSymbol(t: Node, s: Byte)
    ensures s in Symbols(t) <==> exists f :: (s, f) in Leaves(t)
  {
    match t
    case Leaf(x, f) =>
      assert (x, f) in Leaves(t);
    case Internal(l, r, _) =>
      LeafHasSymbol(l, s);
      LeafHasSymbol(r, s);
      if s in Symbols(l) {
        var f :| (s, f) in Leaves(l);
        assert (s, f) in Leaves(t);
      } else if s in Symbols(r) {
        var f :| (s, f) in Leaves(r);
        assert (s, f) in Leaves(t);
      }
  }

  /** Leaves that form a partial map from symbols to frequencies. */
  ghost predicate Functional(m: multiset<(Byte, nat)>) {
    && (forall s: Byte, f: nat :: m[(s, f)] <= 1)
    && (forall s: Byte, f: nat, g: nat | (s, f) in m && (s, g) in m :: f == g)
  }

  lemma SharedSymbol(l: Node, r: Node, s: Byte)
    requires s in Symbols(l) && s in Symbols(r)
    ensures !Functional(Leaves(l) + Leaves(r))
  {
    LeafHasSymbol(l, s);
    LeafHasSymbol(r, s);
    var f, g :| (s, f) in Leaves(l) && (s, g) in Leaves(r);
    var m := Leaves(l) + Leaves(r);
    assert (s, f) in m && (s, g) in m;
    if f == g {
      assert m[(s, f)] >= 2;
    }
  }

  lemma {:induction false} FunctionalIsDistinct(t: Node)
    requires Functional(Leaves(t))
    ensures Distinct(t)
  {
    match t
    case Leaf(_, _) =>
    case Internal(l, r, _) =>
      var m := Leaves(t);
      forall s: Byte, f: nat
        ensures Leaves(l)[(s, f)] + Leaves(r)[(s, f)] == m[(s, f)] <= 1
      {
      }
      FunctionalIsDistinct(l);
      FunctionalIsDistinct(r);
      forall s | s in Symbols(l)
        ensures s !in Symbols(r)
      {
        if s in Symbols(r) {
          SharedSymbol(l, r, s);
          assert false;
        }
      }
  }

  lemma {:induction false} FreqOfLeaf(t: Node, s: Byte)
    requires Distinct(t)
    ensures s !in Symbols(t) ==> FreqOf(t, s) == 0
    ensures forall f | (s, f) in Leaves(t) :: FreqOf(t, s) == f
  {
    match t
    case Leaf(_, _) =>
    case Internal(l, r, _) =>
      FreqOfLeaf(l, s);
      FreqOfLeaf(r, s);
      LeafHasSymbol(l, s);
      LeafHasSymbol(r, s);
  }

  lemma {:induction false} NodesAndLeaves(t: Node)
    ensures |Leaves(t)| >= 1
    ensures NodeCount(t) == 2 * |Leaves(t)| - 1
    ensures Height(t) + 1 <= |Leaves(t)|
  {
    match t
    case Leaf(_, _) =>
    case Internal(l, r, _) =>
      NodesAndLeaves(l);
      NodesAndLeaves(r);
  }
}
