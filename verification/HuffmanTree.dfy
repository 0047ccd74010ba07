/**
 The Huffman tree of a histogram: the constructor's greedy loop, and what it guarantees for every
 way of breaking ties.
 */
module HuffmanTrees {
  import opened Common
  import opened Sums
  import opened HuffmanNode
  import opened GreedyMerge
  import opened CodeTable
  import opened Histograms
  import Kraft

  /** A leaf for every symbol below `n` that occurs, in increasing order. */
  function LeavesBelow(freqs: Lengths, n: nat): seq<Node>
    requires n <= SYMBOLS
  {
    if n == 0 then []
    else LeavesBelow(freqs, n - 1) + if freqs[n - 1] > 0 then [Leaf(n - 1, freqs[n - 1])] else []
  }

  /** Tree `t` can come out of the constructor for these frequencies. */
  ghost predicate IsHuffmanTree(freqs: Lengths, t: Node) {
    Reaches(LeavesBelow(freqs, SYMBOLS), [t])
  }

  function PresentBelow(freqs: Lengths, n: nat): set<Byte> {
    set s: Byte | s in Present(freqs) && s < n
  }

  // ----- The initial queue -----

  lemma {:induction false} LeavesBelowCount(freqs: Lengths, n: nat)
    requires n <= SYMBOLS
    ensures |LeavesBelow(freqs, n)| == |PresentBelow(freqs, n)| <= n
  {
    if n == 0 {
      assert PresentBelow(freqs, 0) == {};
    } else {
      LeavesBelowCount(freqs, n - 1);
      if freqs[n - 1] > 0 {
        assert PresentBelow(freqs, n) == PresentBelow(freqs, n - 1) + {n - 1};
      } else {
        assert PresentBelow(freqs, n) == PresentBelow(freqs, n - 1);
      }
    }
  }

  lemma LeavesCount(freqs: Lengths)
    ensures |LeavesBelow(freqs, SYMBOLS)| == |Present(freqs)| <= SYMBOLS
  {
    LeavesBelowCount(freqs, SYMBOLS);
    assert PresentBelow(freqs, SYMBOLS) == Present(freqs);
  }

  predicate AllLeaves(q: seq<Node>) {
    forall k | 0 <= k < |q| :: q[k].Leaf? && q[k].freq > 0
  }

  lemma {:induction false} LeavesBelowAreLeaves(freqs: Lengths, n: nat)
    requires n <= SYMBOLS
    ensures AllLeaves(LeavesBelow(freqs, n))
  {
    if n > 0 {
      LeavesBelowAreLeaves(freqs, n - 1);
    }
  }

  lemma {:induction false} LeavesBelowWeight(freqs: Lengths, n: nat)
    requires n <= SYMBOLS
    ensures Sum(Weights(LeavesBelow(freqs, n))) == Total(freqs, n)
  {
    if n > 0 {
      LeavesBelowWeight(freqs, n - 1);
      var q, f := LeavesBelow(freqs, n - 1), freqs[n - 1];
      if f > 0 {
        SumAppend(Weights(q), f);
        assert Weights(q + [Leaf(n - 1, f)]) == Weights(q) + [f];
      } else {
        assert LeavesBelow(freqs, n) == q;
      }
    }
  }

  /** How often an entry (s, f) occurs among the non-zero histogram entries below `n`. */
  function Entry(freqs: Lengths, n: nat, s: Byte, f: nat): nat {
    if s < n && f > 0 && freqs[s] == f then 1 else 0
  }

  lemma {:induction false} LeavesBelowEntries(freqs: Lengths, n: nat, s: Byte, f: nat)
    requires n <= SYMBOLS
    ensures QueueLeaves(LeavesBelow(freqs, n))[(s, f)] == Entry(freqs, n, s, f)
  {
    if n > 0 {
      LeavesBelowEntries(freqs, n - 1, s, f);
      var q, x := LeavesBelow(freqs, n - 1), freqs[n - 1];
      if x > 0 {
        QueueLeavesAppend(q, Leaf(n - 1, x));
        assert Leaves(Leaf(n - 1, x))[(s, f)] == if s == n - 1 && f == x then 1 else 0;
      } else {
        assert LeavesBelow(freqs, n) == q;
      }
    }
  }

  lemma LeafQueueTotals(q: seq<Node>)
    requires AllLeaves(q)
    ensures AllWellWeighted(q) && FibonacciInvariant(q)
    ensures Sum(NodeCounts(q)) == |q|
    ensures Sum(Costs(q)) == 0
  {
    SumConstant(NodeCounts(q), 1);
    SumZero(Costs(q));
    assert Fib(2) == 1;
  }

  // ----- Conservation -----

  /**
   At every iteration of the constructor the leaves of the queued trees are exactly the non-zero
   histogram entries, each once, and the weights add up to the total.
   */
  lemma QueueConserves(freqs: Lengths, q: seq<Node>)
    requires Reaches(LeavesBelow(freqs, SYMBOLS), q)
    ensures AllWellWeighted(q) && FibonacciInvariant(q)
    ensures forall s: Byte, f: nat :: QueueLeaves(q)[(s, f)] == Entry(freqs, SYMBOLS, s, f)
    ensures Sum(Weights(q)) == Total(freqs)
    ensures Sum(NodeCounts(q)) + |q| == 2 * |Present(freqs)|
  {
    var leaves := LeavesBelow(freqs, SYMBOLS);
    LeavesBelowAreLeaves(freqs, SYMBOLS);
    LeafQueueTotals(leaves);
    ReachesConserves(leaves, q);
    ReachesFibonacci(leaves, q);
    LeavesBelowWeight(freqs, SYMBOLS);
    LeavesCount(freqs);
    forall s: Byte, f: nat
      ensures QueueLeaves(q)[(s, f)] == Entry(freqs, SYMBOLS, s, f)
    {
      LeavesBelowEntries(freqs, SYMBOLS, s, f);
    }
  }

  /** The finished tree: its leaves, weight, size and a first bound on its height. */
  lemma HuffmanLeaves(freqs: Lengths, t: Node)
    requires IsHuffmanTree(freqs, t)
    ensures WellWeighted(t) && t.freq == Total(freqs)
    ensures forall s: Byte, f: nat :: Leaves(t)[(s, f)] == Entry(freqs, SYMBOLS, s, f)
    ensures NodeCount(t) == 2 * |Present(freqs)| - 1
    ensures Height(t) + 1 <= |Present(freqs)|
  {
    QueueConserves(freqs, [t]);
    SingleTree(t);
    NodesAndLeaves(t);
    assert t in [t];
  }

  lemma EntriesFunctional(freqs: Lengths, m: multiset<(Byte, nat)>)
    requires forall s: Byte, f: nat :: m[(s, f)] == Entry(freqs, SYMBOLS, s, f)
    ensures Functional(m)
  {
    forall s: Byte, f: nat
      ensures m[(s, f)] <= 1
      ensures (s, f) in m ==> f == freqs[s]
    {
      assert m[(s, f)] == Entry(freqs, SYMBOLS, s, f);
    }
  }

  /** One symbol's leaf in a tree whose leaves are the histogram's entries. */
  lemma LeafEntry(freqs: Lengths, t: Node, s: Byte)
    requires Distinct(t)
    requires forall f: nat :: Leaves(t)[(s, f)] == Entry(freqs, SYMBOLS, s, f)
    ensures s in Symbols(t) <==> s in Present(freqs)
    ensures FreqOf(t, s) == freqs[s]
  {
    LeafHasSymbol(t, s);
    FreqOfLeaf(t, s);
    assert Leaves(t)[(s, freqs[s])] == Entry(freqs, SYMBOLS, s, freqs[s]);
    if s in Symbols(t) {
      var f :| (s, f) in Leaves(t);
      assert Leaves(t)[(s, f)] == Entry(freqs, SYMBOLS, s, f);
    }
  }

  /** No symbol occurs on two leaves, exactly the occurring symbols have one, with their frequency. */
  lemma HuffmanSymbols(freqs: Lengths, t: Node)
    requires IsHuffmanTree(freqs, t)
    ensures Distinct(t)
    ensures Symbols(t) == Present(freqs)
    ensures Freqs(t) == freqs
  {
    HuffmanLeaves(freqs, t);
    EntriesFunctional(freqs, Leaves(t));
    FunctionalIsDistinct(t);
    forall s: Byte
      ensures s in Symbols(t) <==> s in Present(freqs)
      ensures FreqOf(t, s) == freqs[s]
    {
      LeafEntry(freqs, t, s);
    }
  }

  /** A tree is a lone leaf exactly when one symbol occurs. */
  lemma HuffmanShape(freqs: Lengths, t: Node)
    requires IsHuffmanTree(freqs, t)
    ensures |Present(freqs)| >= 1
    ensures t.Leaf? <==> |Present(freqs)| == 1
  {
    HuffmanLeaves(freqs, t);
  }

  // ----- Which codes go on with 0 -----

  /** In a finished tree no left child is heavier than its sibling. */
  lemma HuffmanLeftLighter(freqs: Lengths, t: Node)
    requires IsHuffmanTree(freqs, t)
    ensures LeftLighter(t)
  {
    var leaves := LeavesBelow(freqs, SYMBOLS);
    LeavesBelowAreLeaves(freqs, SYMBOLS);
    ReachesLeftLighter(leaves, [t]);
    assert t in [t];
  }

  /**
   After any common bits the codes that go on with 0 belong to symbols that together occur no more
   often than those of the codes that go on with 1.
   */
  lemma HuffmanZeroLighter(freqs: Lengths, t: Node, path: Bits)
    requires IsHuffmanTree(freqs, t) && |Present(freqs)| >= 2
    ensures PrefixWeight(freqs, TableOf(t), path + [false]) <= PrefixWeight(freqs, TableOf(t), path + [true])
  {
    HuffmanLeaves(freqs, t);
    HuffmanSymbols(freqs, t);
    HuffmanShape(freqs, t);
    HuffmanLeftLighter(freqs, t);
    ZeroSideLighter(t, path);
    assert PathTable(t) == TableOf(t);
  }

  /** A lone symbol has the code 0. */
  lemma HuffmanLoneSymbol(freqs: Lengths, t: Node, s: Byte)
    requires IsHuffmanTree(freqs, t) && Present(freqs) == {s}
    ensures TableOf(t)[s] == [false]
  {
    HuffmanShape(freqs, t);
    HuffmanSymbols(freqs, t);
    assert t.symbol in Present(freqs);
  }

  /** Of two symbols the rarer one has the code 0, the other one 1. */
  lemma HuffmanTwoSymbols(freqs: Lengths, t: Node, rare: Byte, common: Byte)
    requires IsHuffmanTree(freqs, t)
    requires Present(freqs) == {rare, common} && freqs[rare] < freqs[common]
    ensures TableOf(t)[rare] == [false] && TableOf(t)[common] == [true]
  {
    HuffmanSymbols(freqs, t);
    HuffmanHeight(freqs, t);
    HuffmanShape(freqs, t);
    HuffmanLeftLighter(freqs, t);
    assert Freqs(t)[rare] == freqs[rare] && Freqs(t)[common] == freqs[common];
    TwoLeaves(t, rare, common);
  }

  lemma TwoLeaves(t: Node, rare: Byte, common: Byte)
    requires t.Internal? && Height(t) == 1 && LeftLighter(t) && Distinct(t)
    requires Symbols(t) == {rare, common} && FreqOf(t, rare) < FreqOf(t, common)
    ensures CodeOf(t, rare) == [false] && CodeOf(t, common) == [true]
  {
    var x, y := t.left, t.right;
    assert x.Leaf? && y.Leaf? && x.symbol in Symbols(t) && y.symbol in Symbols(t);
    assert FreqOf(t, x.symbol) == x.freq && FreqOf(t, y.symbol) == y.freq;
    assert x.symbol == rare && y.symbol == common;
  }

  // ----- Optimality -----

  /** The lengths of the symbols below `n` that occur, in increasing order of symbols. */
  function LengthsBelow(freqs: Lengths, lens: Lengths, n: nat): (e: seq<nat>)
    requires n <= SYMBOLS
    ensures |e| == |LeavesBelow(freqs, n)|
  {
    if n == 0 then []
    else LengthsBelow(freqs, lens, n - 1) + if freqs[n - 1] > 0 then [lens[n - 1]] else []
  }

  lemma {:induction false} LengthsBelowKraft(freqs: Lengths, lens: Lengths, top: nat, n: nat)
    requires n <= SYMBOLS && LengthsBounded(Present(freqs), lens, top)
    ensures Kraft.Bounded(LengthsBelow(freqs, lens, n), top)
    ensures Sum(Kraft.Shares(LengthsBelow(freqs, lens, n), top)) == KraftSum(Present(freqs), lens, top, n)
  {
    if n > 0 {
      LengthsBelowKraft(freqs, lens, top, n - 1);
      var e := LengthsBelow(freqs, lens, n - 1);
      if freqs[n - 1] > 0 {
        Kraft.SharesAppend(e, top, lens[n - 1]);
      } else {
        assert LengthsBelow(freqs, lens, n) == e;
      }
    }
  }

  lemma {:induction false} LengthsBelowDot(freqs: Lengths, lens: Lengths, n: nat)
    requires n <= SYMBOLS
    ensures Kraft.Dot(Weights(LeavesBelow(freqs, n)), LengthsBelow(freqs, lens, n)) == TotalLength(freqs, lens, n)
  {
    if n > 0 {
      LengthsBelowDot(freqs, lens, n - 1);
      var q, e, f := LeavesBelow(freqs, n - 1), LengthsBelow(freqs, lens, n - 1), freqs[n - 1];
      if f > 0 {
        Kraft.DotAppend(Weights(q), e, f, lens[n - 1]);
        assert Weights(q + [Leaf(n - 1, f)]) == Weights(q) + [f];
      } else {
        assert f * lens[n - 1] == 0;
        assert LeavesBelow(freqs, n) == q && LengthsBelow(freqs, lens, n) == e;
      }
    }
  }

  /** No assignment of code lengths that satisfies Kraft's inequality beats the tree's cost. */
  lemma HuffmanCostOptimal(freqs: Lengths, t: Node, lens: Lengths, top: nat)
    requires IsHuffmanTree(freqs, t)
    requires KraftHolds(Present(freqs), lens, top)
    ensures Cost(t) <= TotalLength(freqs, lens)
  {
    var q, e := LeavesBelow(freqs, SYMBOLS), LengthsBelow(freqs, lens, SYMBOLS);
    LeavesBelowAreLeaves(freqs, SYMBOLS);
    LeafQueueTotals(q);
    LengthsBelowKraft(freqs, lens, top, SYMBOLS);
    LengthsBelowDot(freqs, lens, SYMBOLS);
    var f, fTop := ReachesOptimal(q, [t], e, top);
    DotNonNegative(Weights([t]), f);
    SingleTree(t);
  }

  /** With at least two symbols, the table's total length is the sum of the internal frequencies. */
  lemma HuffmanTableCost(freqs: Lengths, t: Node)
    requires IsHuffmanTree(freqs, t) && |Present(freqs)| >= 2
    ensures TotalLength(freqs, CodeLengths(TableOf(t))) == Cost(t)
  {
    HuffmanShape(freqs, t);
    HuffmanLeaves(freqs, t);
    HuffmanSymbols(freqs, t);
    TableCost(t);
  }

  /**
   Optimality: with at least two symbols, the code lengths read off the tree satisfy Kraft's
   inequality themselves, and among all assignments that do, none has a smaller total length.
   */
  lemma HuffmanOptimal(freqs: Lengths, t: Node)
    requires IsHuffmanTree(freqs, t) && |Present(freqs)| >= 2
    ensures KraftHolds(Present(freqs), CodeLengths(TableOf(t)), Height(t))
    ensures forall lens: Lengths, top: nat | KraftHolds(Present(freqs), lens, top) ::
              TotalLength(freqs, CodeLengths(TableOf(t))) <= TotalLength(freqs, lens)
  {
    HuffmanShape(freqs, t);
    HuffmanSymbols(freqs, t);
    TableKraftEquality(t, Height(t));
    HuffmanTableCost(freqs, t);
    forall lens: Lengths, top: nat | KraftHolds(Present(freqs), lens, top)
      ensures Cost(t) <= TotalLength(freqs, lens)
    {
      HuffmanCostOptimal(freqs, t, lens, top);
    }
  }

  // ----- At most eight bits a byte -----

  lemma {:induction false} FixedLengthKraft(used: set<Byte>, lens: Lengths, n: nat)
    requires n <= SYMBOLS && forall s: Byte :: lens[s] == 8
    ensures KraftSum(used, lens, 8, n) <= n
  {
    if n > 0 {
      FixedLengthKraft(used, lens, n - 1);
    }
  }

  lemma {:induction false} FixedLengthTotal(freqs: Lengths, lens: Lengths, c: nat, n: nat)
    requires n <= SYMBOLS && forall s: Byte | freqs[s] > 0 :: lens[s] == c
    ensures TotalLength(freqs, lens, n) == c * Total(freqs, n)
  {
    if n > 0 {
      FixedLengthTotal(freqs, lens, c, n - 1);
      assert freqs[n - 1] * lens[n - 1] == c * freqs[n - 1];
    }
  }

  /** A Huffman table never needs more than the eight bits a symbol of the fixed-length code. */
  lemma HuffmanFitsBytes(freqs: Lengths, t: Node)
    requires IsHuffmanTree(freqs, t)
    ensures TotalLength(freqs, CodeLengths(TableOf(t))) <= 8 * Total(freqs)
  {
    HuffmanShape(freqs, t);
    if t.Leaf? {
      HuffmanSymbols(freqs, t);
      FixedLengthTotal(freqs, CodeLengths(TableOf(t)), 1, SYMBOLS);
    } else {
      var eight := seq(SYMBOLS, s => 8);
      FixedLengthKraft(Present(freqs), eight, SYMBOLS);
      assert Pow2(8) == SYMBOLS;
      HuffmanCostOptimal(freqs, t, eight, 8);
      HuffmanTableCost(freqs, t);
      FixedLengthTotal(freqs, eight, 8, SYMBOLS);
    }
  }

  // ----- Depth -----

  /** A tree of height h weighs at least Fib(h + 2). */
  lemma HuffmanFibonacci(freqs: Lengths, t: Node)
    requires IsHuffmanTree(freqs, t)
    ensures t.freq >= Fib(Height(t) + 2)
  {
    QueueConserves(freqs, [t]);
    assert Heavy([t][0]);
  }

  /**
   When no overflow was detected the tree is at most 45 high; in any case it is less high than
   there are symbols.
   */
  lemma HuffmanHeight(freqs: Lengths, t: Node)
    requires IsHuffmanTree(freqs, t)
    ensures t.freq < 4294967295 ==> Height(t) <= 45
    ensures Height(t) < |Present(freqs)| <= SYMBOLS
  {
    HuffmanFibonacci(freqs, t);
    HuffmanLeaves(freqs, t);
    LeavesCount(freqs);
    if Height(t) > 45 {
      FibMonotone(48, Height(t) + 2);
      Fib48();
    }
  }

  /** No code is longer than the tree is high, except that a lone symbol has one bit. */
  lemma HuffmanDepth(freqs: Lengths, t: Node)
    requires IsHuffmanTree(freqs, t)
    ensures forall s: Byte :: |TableOf(t)[s]| <= if t.Leaf? then 1 else Height(t)
    ensures forall s: Byte :: |TableOf(t)[s]| <= 255
    ensures t.freq < 4294967295 ==> forall s: Byte :: |TableOf(t)[s]| <= 45
  {
    HuffmanHeight(freqs, t);
    if t.Internal? {
      HuffmanSymbols(freqs, t);
      LongestCodeIsHeight(t);
    }
  }

  /** With at least two symbols the longest code has exactly as many bits as the tree is high. */
  lemma HuffmanLongest(freqs: Lengths, t: Node)
    requires IsHuffmanTree(freqs, t) && |Present(freqs)| >= 2
    ensures exists s: Byte :: |TableOf(t)[s]| == Height(t)
    ensures forall s: Byte :: |TableOf(t)[s]| <= Height(t)
  {
    HuffmanShape(freqs, t);
    HuffmanSymbols(freqs, t);
    LongestCodeIsHeight(t);
  }

  // ----- The constructor -----

  lemma WeightsReached(leaves: seq<Node>, q: seq<Node>)
    requires AllLeaves(leaves) && Reaches(leaves, q)
    ensures Sum(Weights(q)) == Sum(Weights(leaves))
  {
    LeafQueueTotals(leaves);
    ReachesConserves(leaves, q);
  }

  lemma PairWeight(q: seq<Node>, i: nat, j: nat)
    requires LeastPair(q, i, j)
    ensures q[i].freq + RemoveAt(q, i)[j].freq <= Sum(Weights(q))
  {
    SumRemoveAt(Weights(q), i);
    assert Weights(RemoveAt(q, i)) == RemoveAt(Weights(q), i);
    SumAtLeastTerm(Weights(RemoveAt(q, i)), j);
  }

  /** `x` is a tree of least weight, and `rest` is the queue without it. */
  ghost predicate IsPop(q: seq<Node>, x: Node, rest: seq<Node>) {
    exists i: nat :: Least(q, i) && x == q[i] && rest == RemoveAt(q, i)
  }

  ghost predicate IsStep(q: seq<Node>, r: seq<Node>) {
    exists i, j :: LeastPair(q, i, j) && r == Step(q, i, j)
  }

  /** Two pops and the push of the join are one step. */
  lemma PopsMakeStep(q: seq<Node>, x: Node, rest: seq<Node>, y: Node, rest2: seq<Node>)
    requires IsPop(q, x, rest) && IsPop(rest, y, rest2)
    ensures IsStep(q, rest2 + [Join(x, y)])
    ensures x.freq + y.freq <= Sum(Weights(q))
  {
    var i: nat :| Least(q, i) && x == q[i] && rest == RemoveAt(q, i);
    var j: nat :| Least(rest, j) && y == rest[j] && rest2 == RemoveAt(rest, j);
    PairWeight(q, i, j);
    assert LeastPair(q, i, j) && rest2 + [Join(x, y)] == Step(q, i, j);
  }

  lemma ReachesByStep(leaves: seq<Node>, q: seq<Node>, r: seq<Node>)
    requires Reaches(leaves, q) && IsStep(q, r)
    ensures Reaches(leaves, r) && |r| == |q| - 1
  {
    var i, j :| LeastPair(q, i, j) && r == Step(q, i, j);
    ReachesStep(leaves, q, i, j);
  }

  /** A priority queue hands out a tree of least weight; which one is not determined. */
  method PopLeast(q: seq<Node>) returns (x: Node, rest: seq<Node>)
    requires q != []
    ensures IsPop(q, x, rest) && |rest| == |q| - 1
  {
    ghost var least := LeastExists(q);
    var i :| 0 <= i < |q| && Least(q, i);
    x, rest := q[i], RemoveAt(q, i);
  }

  class HuffmanTree {
    const root: Node
    var cachedHeight: nat

    ghost predicate Valid()
      reads this
    {
      cachedHeight == 0 || cachedHeight == Height(root)
    }

    constructor (root: Node)
      ensures Valid() && this.root == root
    {
      this.root := root;
      cachedHeight := 0;
    }

    /** Builds the tree; a merge that would overflow a 32-bit counter throws. */
    static method FromHistogram(histogram: Histogram) returns (r: Result<HuffmanTree>)
      requires histogram.Valid()
      requires Present(histogram.Frequencies()) != {}
      ensures var freqs := histogram.Frequencies();
              && (r.Failure? <==> |Present(freqs)| >= 2 && Total(freqs) >= 4294967295)
              && (r.Failure? ==> r.error == FrequencyOverflow)
              && (r.Success? ==> fresh(r.value) && r.value.Valid() && IsHuffmanTree(freqs, r.value.root))
    {
      ghost var freqs := histogram.Frequencies();
      var leaves := CollectLeaves(histogram);
      LeavesCount(freqs);
      LeavesBelowAreLeaves(freqs, SYMBOLS);
      LeavesBelowWeight(freqs, SYMBOLS);
      var root := MergeAll(leaves);
      if root.Failure? {
        return Failure(root.error);
      }
      var tree := new HuffmanTree(root.value);
      return Success(tree);
    }

    /** Pops two trees of least weight and pushes their merge, unless that overflows. */
    static method MergeLeast(q: seq<Node>) returns (r: Result<seq<Node>>)
      requires |q| > 1
      ensures r.Failure? ==> r.error == FrequencyOverflow && Sum(Weights(q)) >= 4294967295
      ensures r.Success? ==> |r.value| == |q| - 1 && IsStep(q, r.value) && r.value[|q| - 2].freq < 4294967295
    {
      var x, rest := PopLeast(q);
      var y, rest2 := PopLeast(rest);
      PopsMakeStep(q, x, rest, y, rest2);
      var merged := Merge(x, y);
      if merged.Failure? {
        return Failure(merged.error);
      }
      assert merged.value == Join(x, y);
      return Success(rest2 + [merged.value]);
    }

    /** The greedy loop, as long as two trees are left. */
    static method MergeAll(leaves: seq<Node>) returns (r: Result<Node>)
      requires leaves != [] && AllLeaves(leaves)
      ensures r.Failure? <==> |leaves| >= 2 && Sum(Weights(leaves)) >= 4294967295
      ensures r.Failure? ==> r.error == FrequencyOverflow
      ensures r.Success? ==> Reaches(leaves, [r.value])
    {
      var q := leaves;
      while |q| > 1
        invariant 1 <= |q| <= |leaves|
        invariant Reaches(leaves, q)
        invariant q == leaves || q[|q| - 1].freq < UINT32_MAX
      {
        WeightsReached(leaves, q);
        var merged := MergeLeast(q);
        if merged.Failure? {
          return Failure(merged.error);
        }
        ReachesByStep(leaves, q, merged.value);
        q := merged.value;
      }
      assert q == [q[0]];
      WeightsReached(leaves, q);
      SingleTree(q[0]);
      r := Success(q[0]);
    }

    /** One leaf for every symbol that occurs. */
    static method CollectLeaves(histogram: Histogram) returns (q: seq<Node>)
      requires histogram.Valid()
      ensures q == LeavesBelow(histogram.Frequencies(), SYMBOLS)
    {
      q := [];
      ghost var freqs := histogram.Frequencies();
      var it := new HistogramIterator(histogram, 0);
      SkipZeros(freqs, 0, it.index);
      while it.index < SYMBOLS
        invariant fresh(it) && it.Valid() && it.histogram == histogram
        invariant histogram.Frequencies() == freqs
        invariant it.index <= SYMBOLS && q == LeavesBelow(freqs, it.index)
        invariant it.index < SYMBOLS ==> freqs[it.index] > 0
        decreases SYMBOLS - it.index
      {
        ghost var current := it.index;
        var entry := it.Current();
        q := q + [Leaf(entry.value.0, entry.value.1)];
        var beyond: nat := *;
        it.Advance(beyond);
        SkipZeros(freqs, current + 1, it.index);
      }
    }

    /** The height by recursive depth-first search, computed once unless it is zero. */
    method GetHeight() returns (h: nat)
      requires Valid()
      modifies this
      ensures Valid() && h == Height(root)
    {
      if cachedHeight > 0 {
        return cachedHeight;
      }
      Visit(root, 0);
      return cachedHeight;
    }

    /** The depth-first search with the callback that keeps the greatest depth seen. */
    method Visit(node: Node, depth: nat)
      modifies this
      ensures cachedHeight == Max(old(cachedHeight), depth + Height(node))
      decreases node
    {
      if depth > cachedHeight {
        cachedHeight := depth;
      }
      match node
      case Leaf(_, _) =>
      case Internal(l, r, _) =>
        Visit(l, depth + 1);
        Visit(r, depth + 1);
    }
  }

  lemma {:induction false} SkipZeros(freqs: Lengths, from: nat, i: nat)
    requires IsNext(freqs, from, i)
    ensures LeavesBelow(freqs, i) == LeavesBelow(freqs, from)
    decreases i - from
  {
    if from < i {
      SkipZeros(freqs, from + 1, i);
      assert LeavesBelow(freqs, from + 1) == LeavesBelow(freqs, from);
    }
  }
}
