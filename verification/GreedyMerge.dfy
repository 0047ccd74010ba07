/**
 The greedy construction as a relation: which trees can come out of a queue of trees when two
 trees of least weight are merged until one is left. `std::priority_queue` leaves ties open, so
 the relation allows every choice among trees of equal weight.
 */
module GreedyMerge {
  import opened Common
  import opened Sums
  import opened HuffmanNode
  import Kraft

  function Weights(q: seq<Node>): (w: seq<nat>)
    ensures |w| == |q|
    ensures forall k | 0 <= k < |q| :: w[k] == q[k].freq
  {
    seq(|q|, k requires 0 <= k < |q| => q[k].freq)
  }

  predicate Least(q: seq<Node>, i: nat) {
    i < |q| && forall k | 0 <= k < |q| :: q[i].freq <= q[k].freq
  }

  /** Popping `q[i]` and then element `j` of what is left takes two trees of least weight. */
  predicate LeastPair(q: seq<Node>, i: nat, j: nat) {
    Least(q, i) && Least(RemoveAt(q, i), j)
  }

  function Join(x: Node, y: Node): Node {
    Internal(x, y, x.freq + y.freq)
  }

  function Step(q: seq<Node>, i: nat, j: nat): (r: seq<Node>)
    requires LeastPair(q, i, j)
    ensures |r| == |q| - 1
  {
    var q1 := RemoveAt(q, i);
    RemoveAt(q1, j) + [Join(q[i], q1[j])]
  }

  /** Queue `r` can arise from queue `q` by some number of merges, ties broken in some way. */
  ghost predicate Reaches(q: seq<Node>, r: seq<Node>)
    decreases |q|
  {
    q == r || exists i, j :: LeastPair(q, i, j) && Reaches(Step(q, i, j), r)
  }

  /** What can be reached can be merged further. */
  lemma {:induction false} ReachesStep(q: seq<Node>, r: seq<Node>, i: nat, j: nat)
    requires Reaches(q, r) && LeastPair(r, i, j)
    ensures Reaches(q, Step(r, i, j))
    decreases |q|
  {
    if q == r {
      assert Reaches(Step(r, i, j), Step(r, i, j));
    } else {
      var k, l :| LeastPair(q, k, l) && Reaches(Step(q, k, l), r);
      ReachesStep(Step(q, k, l), r, i, j);
    }
  }

  lemma LeastExists(q: seq<Node>) returns (i: nat)
    requires q != []
    ensures Least(q, i)
  {
    i := 0;
    for n := 1 to |q|
      invariant i < n
      invariant forall k | 0 <= k < n :: q[i].freq <= q[k].freq
    {
      if q[n].freq < q[i].freq {
        i := n;
      }
    }
  }

  // ----- What every step conserves -----

  function QueueLeaves(q: seq<Node>): multiset<(Byte, nat)> {
    if q == [] then multiset{} else Leaves(q[0]) + QueueLeaves(q[1..])
  }

  function NodeCounts(q: seq<Node>): (c: seq<int>)
    ensures |c| == |q|
  {
    seq(|q|, k requires 0 <= k < |q| => NodeCount(q[k]))
  }

  function Costs(q: seq<Node>): (c: seq<int>)
    ensures |c| == |q|
  {
    seq(|q|, k requires 0 <= k < |q| => Cost(q[k]))
  }

  predicate AllWellWeighted(q: seq<Node>) {
    forall t | t in q :: WellWeighted(t)
  }

  lemma {:induction false} QueueLeavesRemoveAt(q: seq<Node>, i: nat)
    requires i < |q|
    ensures QueueLeaves(q) == Leaves(q[i]) + QueueLeaves(RemoveAt(q, i))
  {
    if i == 0 {
      assert RemoveAt(q, 0) == q[1..];
    } else {
      var r := RemoveAt(q, i);
      assert r[0] == q[0] && r[1..] == RemoveAt(q[1..], i - 1);
      QueueLeavesRemoveAt(q[1..], i - 1);
      assert QueueLeaves(r) == Leaves(q[0]) + QueueLeaves(r[1..]);
    }
  }

  lemma {:induction false} QueueLeavesAppend(q: seq<Node>, t: Node)
    ensures QueueLeaves(q + [t]) == QueueLeaves(q) + Leaves(t)
  {
    if q == [] {
      assert (q + [t])[1..] == [];
    } else {
      assert (q + [t])[1..] == q[1..] + [t];
      QueueLeavesAppend(q[1..], t);
    }
  }

  lemma StepKeepsLeaves(q: seq<Node>, i: nat, j: nat)
    requires LeastPair(q, i, j)
    ensures QueueLeaves(Step(q, i, j)) == QueueLeaves(q)
  {
    var q1 := RemoveAt(q, i);
    QueueLeavesRemoveAt(q, i);
    QueueLeavesRemoveAt(q1, j);
    QueueLeavesAppend(RemoveAt(q1, j), Join(q[i], q1[j]));
  }

  lemma StepKeepsWeight(q: seq<Node>, i: nat, j: nat)
    requires LeastPair(q, i, j)
    ensures Sum(Weights(Step(q, i, j))) == Sum(Weights(q))
  {
    var q1 := RemoveAt(q, i);
    var q2, z := RemoveAt(q1, j), Join(q[i], q1[j]);
    SumRemoveAt(Weights(q), i);
    assert Weights(q1) == RemoveAt(Weights(q), i);
    SumRemoveAt(Weights(q1), j);
    assert Weights(q2) == RemoveAt(Weights(q1), j);
    SumAppend(Weights(q2), z.freq);
    assert Weights(q2 + [z]) == Weights(q2) + [z.freq];
  }

  lemma StepAddsNode(q: seq<Node>, i: nat, j: nat)
    requires LeastPair(q, i, j)
    ensures Sum(NodeCounts(Step(q, i, j))) == Sum(NodeCounts(q)) + 1
  {
    var q1 := RemoveAt(q, i);
    var q2, z := RemoveAt(q1, j), Join(q[i], q1[j]);
    SumRemoveAt(NodeCounts(q), i);
    assert NodeCounts(q1) == RemoveAt(NodeCounts(q), i);
    SumRemoveAt(NodeCounts(q1), j);
    assert NodeCounts(q2) == RemoveAt(NodeCounts(q1), j);
    SumAppend(NodeCounts(q2), NodeCount(z));
    assert NodeCounts(q2 + [z]) == NodeCounts(q2) + [NodeCount(z)];
  }

  lemma StepAddsCost(q: seq<Node>, i: nat, j: nat)
    requires LeastPair(q, i, j)
    ensures Sum(Costs(Step(q, i, j))) == Sum(Costs(q)) + q[i].freq + RemoveAt(q, i)[j].freq
  {
    var q1 := RemoveAt(q, i);
    var q2, z := RemoveAt(q1, j), Join(q[i], q1[j]);
    SumRemoveAt(Costs(q), i);
    assert Costs(q1) == RemoveAt(Costs(q), i);
    SumRemoveAt(Costs(q1), j);
    assert Costs(q2) == RemoveAt(Costs(q1), j);
    SumAppend(Costs(q2), Cost(z));
    assert Costs(q2 + [z]) == Costs(q2) + [Cost(z)];
  }

  lemma StepKeepsWellWeighted(q: seq<Node>, i: nat, j: nat)
    requires LeastPair(q, i, j) && AllWellWeighted(q)
    ensures AllWellWeighted(Step(q, i, j))
  {
    var q1 := RemoveAt(q, i);
    forall t | t in q1
      ensures t in q
    {
    }
    assert q1[j] in q1;
  }

  /**
   Conservation in every reachable queue: leaves and total weight never change, and each merge
   trades one queue entry for one new node.
   */
  lemma {:induction false} ReachesConserves(q: seq<Node>, r: seq<Node>)
    requires Reaches(q, r) && AllWellWeighted(q)
    ensures QueueLeaves(r) == QueueLeaves(q)
    ensures AllWellWeighted(r)
    ensures Sum(Weights(r)) == Sum(Weights(q))
    ensures Sum(NodeCounts(r)) + |r| == Sum(NodeCounts(q)) + |q|
    decreases |q|
  {
    if q != r {
      var i, j :| LeastPair(q, i, j) && Reaches(Step(q, i, j), r);
      StepKeepsLeaves(q, i, j);
      StepKeepsWeight(q, i, j);
      StepAddsNode(q, i, j);
      StepKeepsWellWeighted(q, i, j);
      ReachesConserves(Step(q, i, j), r);
    }
  }

  // ----- Optimality -----

  lemma StepExchange(q: seq<Node>, i: nat, j: nat, e: seq<nat>, top: nat)
    returns (merged: seq<nat>, mergedTop: nat)
    requires LeastPair(q, i, j) && |e| == |q|
    requires Kraft.Satisfied(e, top)
    ensures |merged| == |q| - 1 && Kraft.Satisfied(merged, mergedTop)
    ensures Sum(Costs(Step(q, i, j))) + Kraft.Dot(Weights(Step(q, i, j)), merged)
         <= Sum(Costs(q)) + Kraft.Dot(Weights(q), e)
  {
    var w, q1 := Weights(q), RemoveAt(q, i);
    assert Weights(q1) == RemoveAt(w, i);
    assert Weights(RemoveAt(q1, j)) == RemoveAt(RemoveAt(w, i), j);
    assert Weights(Step(q, i, j)) == RemoveAt(RemoveAt(w, i), j) + [w[i] + RemoveAt(w, i)[j]];
    merged, mergedTop := Kraft.Exchange(w, i, j, e, top);
    StepAddsCost(q, i, j);
  }

  /**
   For every way to break ties, and for every assignment of lengths to the queued trees that
   satisfies Kraft's inequality: every reachable queue has such an assignment for its own trees
   whose cost, on top of what has been built, is no greater.
   */
  lemma {:induction false} ReachesOptimal(q: seq<Node>, r: seq<Node>, e: seq<nat>, top: nat)
    returns (f: seq<nat>, fTop: nat)
    requires Reaches(q, r) && |e| == |q| && Kraft.Satisfied(e, top)
    ensures |f| == |r| && Kraft.Satisfied(f, fTop)
    ensures Sum(Costs(r)) + Kraft.Dot(Weights(r), f) <= Sum(Costs(q)) + Kraft.Dot(Weights(q), e)
    decreases |q|
  {
    if q == r {
      f, fTop := e, top;
    } else {
      var i, j :| LeastPair(q, i, j) && Reaches(Step(q, i, j), r);
      var merged, mergedTop := StepExchange(q, i, j, e, top);
      f, fTop := ReachesOptimal(Step(q, i, j), r, merged, mergedTop);
    }
  }

  // ----- Which tree becomes the left child -----

  predicate AllLeftLighter(q: seq<Node>) {
    forall t | t in q :: LeftLighter(t)
  }

  /** The tree popped first is no heavier than the second, and becomes the left child. */
  lemma StepKeepsLeftLighter(q: seq<Node>, i: nat, j: nat)
    requires LeastPair(q, i, j) && AllLeftLighter(q)
    ensures AllLeftLighter(Step(q, i, j))
  {
    var q1 := RemoveAt(q, i);
    forall t | t in q1
      ensures t in q && q[i].freq <= t.freq
    {
    }
    assert q1[j] in q1;
  }

  /** In every reachable queue no left child is heavier than its sibling. */
  lemma {:induction false} ReachesLeftLighter(q: seq<Node>, r: seq<Node>)
    requires Reaches(q, r) && AllLeftLighter(q)
    ensures AllLeftLighter(r)
    decreases |q|
  {
    if q != r {
      var i, j :| LeastPair(q, i, j) && Reaches(Step(q, i, j), r);
      StepKeepsLeftLighter(q, i, j);
      ReachesLeftLighter(Step(q, i, j), r);
    }
  }

  // ----- The Fibonacci bound -----

  predicate ChildrenWeigh(t: Node, bound: nat) {
    t.Internal? ==> t.left.freq <= bound && t.right.freq <= bound
  }

  /** A tree and its children weigh at least the Fibonacci number their height asks for. */
  predicate Heavy(t: Node) {
    && t.freq >= Fib(Height(t) + 2)
    && (t.Internal? ==> t.left.freq >= Fib(Height(t.left) + 2) && t.right.freq >= Fib(Height(t.right) + 2))
  }

  /** The children of every queued tree weigh no more than any queued tree. */
  predicate FibonacciInvariant(q: seq<Node>) {
    && (forall k | 0 <= k < |q| :: Heavy(q[k]))
    && (forall k, l | 0 <= k < |q| && 0 <= l < |q| :: ChildrenWeigh(q[k], q[l].freq))
  }

  /** The tallest child of the taller tree is one lower and no heavier than the other tree. */
  lemma OtherTreeHeavy(tall: Node, other: Node)
    requires Heavy(tall) && other.freq >= 1 && ChildrenWeigh(tall, other.freq)
    ensures other.freq >= Fib(Height(tall) + 1)
  {
    if tall.Internal? {
      var child := if Height(tall.left) < Height(tall.right) then tall.right else tall.left;
      assert Height(tall) == Height(child) + 1;
    }
  }

  lemma JoinWeight(tall: Node, other: Node, h: nat)
    requires Heavy(tall) && other.freq >= 1 && ChildrenWeigh(tall, other.freq) && h == Height(tall)
    ensures tall.freq + other.freq >= Fib(h + 3)
  {
    OtherTreeHeavy(tall, other);
    FibStep(h + 1);
  }

  lemma HeavyIsPositive(t: Node)
    requires Heavy(t)
    ensures t.freq >= 1
  {
  }

  /** A join weighs enough for its height; the taller of the two trees decides. */
  lemma JoinHeavyEnough(x: Node, y: Node, h: nat)
    requires Heavy(x) && Heavy(y) && x.freq >= 1 && y.freq >= 1
    requires ChildrenWeigh(x, y.freq) && ChildrenWeigh(y, x.freq)
    requires h == Max(Height(x), Height(y))
    ensures x.freq + y.freq >= Fib(h + 3)
  {
    if h == Height(x) {
      JoinWeight(x, y, h);
    } else {
      JoinWeight(y, x, h);
    }
  }

  lemma JoinHeavy(x: Node, y: Node)
    requires Heavy(x) && Heavy(y)
    requires ChildrenWeigh(x, y.freq) && ChildrenWeigh(y, x.freq)
    ensures Heavy(Join(x, y))
  {
    HeavyIsPositive(x);
    HeavyIsPositive(y);
    var h := Max(Height(x), Height(y));
    JoinHeavyEnough(x, y, h);
    assert Height(Join(x, y)) + 2 == h + 3;
  }

  lemma StepKeepsFibonacci(q: seq<Node>, i: nat, j: nat)
    requires LeastPair(q, i, j) && FibonacciInvariant(q)
    ensures FibonacciInvariant(Step(q, i, j))
  {
    var q1 := RemoveAt(q, i);
    JoinHeavy(q[i], q1[j]);
    var r, z := Step(q, i, j), Join(q[i], q1[j]);
    forall k | 0 <= k < |r|
      ensures Heavy(r[k]) && r[k].freq >= q1[j].freq >= q[i].freq
    {
      assert r[k] == z || exists l :: 0 <= l < |q1| && r[k] == q1[l];
    }
    forall k, l | 0 <= k < |r| && 0 <= l < |r|
      ensures ChildrenWeigh(r[k], r[l].freq)
    {
      assert r[k] == z || exists m :: 0 <= m < |q| && r[k] == q[m];
    }
  }

  /** In every reachable queue each tree weighs what its height asks for. */
  lemma {:induction false} ReachesFibonacci(q: seq<Node>, r: seq<Node>)
    requires Reaches(q, r) && FibonacciInvariant(q)
    ensures FibonacciInvariant(r)
    decreases |q|
  {
    if q != r {
      var i, j :| LeastPair(q, i, j) && Reaches(Step(q, i, j), r);
      StepKeepsFibonacci(q, i, j);
      ReachesFibonacci(Step(q, i, j), r);
    }
  }

  // ----- One tree left -----

  lemma SingleTree(t: Node)
    ensures QueueLeaves([t]) == Leaves(t) && Sum(Weights([t])) == t.freq
    ensures Sum(NodeCounts([t])) == NodeCount(t) && Sum(Costs([t])) == Cost(t)
  {
    assert [t][1..] == [];
    SumSingle(Weights([t]));
    SumSingle(NodeCounts([t]));
    SumSingle(Costs([t]));
  }

  lemma DotNonNegative(w: seq<nat>, e: seq<nat>)
    requires |w| == |e|
    ensures Kraft.Dot(w, e) >= 0
  {
    var zeros := seq(|w|, k => 0);
    SumZero(zeros);
    SumMonotone(zeros, Kraft.Products(w, e));
  }
}
