/**
 Code tables and what Huffman trees say about them: every code is a root-to-leaf path, the codes
 are prefix-free, and they use up Kraft's inequality exactly.
 */
module CodeTable {
  import opened Common
  import opened Sums
  import opened HuffmanNode

  type Lengths = l: seq<nat> | |l| == SYMBOLS witness seq(SYMBOLS, i => 0)

  function CodeLengths(table: Table): Lengths {
    seq(SYMBOLS, s requires 0 <= s < SYMBOLS => |table[s]|)
  }

  /** No code is a prefix of another symbol's code; in particular the codes are pairwise distinct. */
  predicate PrefixFree(table: Table) {
    forall a: Byte, b: Byte | a != b && table[a] != [] && table[b] != [] :: !(table[a] <= table[b])
  }

  /** The edges from the root to the leaf of `s`: left is 0, right is 1. */
  function CodeOf(t: Node, s: Byte): Bits {
    match t
    case Leaf(_, _) => []
    case Internal(l, r, _) =>
      if s in Symbols(l) then [false] + CodeOf(l, s)
      else if s in Symbols(r) then [true] + CodeOf(r, s)
      else []
  }

  /** The table of a tree; a lone leaf gets the one-bit code 0. */
  function TableOf(t: Node): Table {
    match t
    case Leaf(x, _) => seq(SYMBOLS, s => if s == x then [false] else [])
    case Internal(_, _, _) => seq(SYMBOLS, s requires 0 <= s < SYMBOLS => CodeOf(t, s))
  }

  /** The node reached from `t` along `path`, independently of any table. */
  function Follow(t: Node, path: Bits): Option<Node> {
    if path == [] then Some(t)
    else match t
      case Leaf(_, _) => None
      case Internal(l, r, _) => Follow(if path[0] then r else l, path[1..])
  }

  // ----- Codes are root-to-leaf paths -----

  lemma {:induction false} CodeReachesLeaf(t: Node, s: Byte)
    requires s in Symbols(t)
    ensures var n := Follow(t, CodeOf(t, s)); n.Some? && n.value.Leaf? && n.value.symbol == s
  {
    match t
    case Leaf(_, _) =>
    case Internal(l, r, _) =>
      var child, bit := if s in Symbols(l) then l else r, s !in Symbols(l);
      CodeReachesLeaf(child, s);
      assert CodeOf(t, s) == [bit] + CodeOf(child, s);
      assert CodeOf(t, s)[1..] == CodeOf(child, s);
  }

  lemma {:induction false} FollowedSymbol(t: Node, path: Bits, n: Node)
    requires Follow(t, path) == Some(n)
    ensures Symbols(n) <= Symbols(t)
  {
    if path != [] {
      FollowedSymbol(if path[0] then t.right else t.left, path[1..], n);
    }
  }

  /** A path to a leaf is the code of that leaf's symbol, and of no other. */
  lemma {:induction false} LeafPathIsCode(t: Node, path: Bits, n: Node)
    requires Distinct(t) && Follow(t, path) == Some(n) && n.Leaf?
    ensures n.symbol in Symbols(t) && path == CodeOf(t, n.symbol)
  {
    FollowedSymbol(t, path, n);
    if path != [] {
      var child := if path[0] then t.right else t.left;
      FollowedSymbol(child, path[1..], n);
      LeafPathIsCode(child, path[1..], n);
      assert path == [path[0]] + path[1..];
    }
  }

  lemma {:induction false} FollowSplit(t: Node, path: Bits, more: Bits)
    ensures Follow(t, path + more)
         == (match Follow(t, path) case None => None case Some(n) => Follow(n, more))
  {
    if path == [] {
      assert path + more == more;
    } else if t.Internal? {
      assert (path + more)[1..] == path[1..] + more;
      FollowSplit(if path[0] then t.right else t.left, path[1..], more);
    }
  }

  lemma CodesPrefixFree(t: Node, a: Byte, b: Byte)
    requires a in Symbols(t) && b in Symbols(t) && a != b
    ensures !(CodeOf(t, a) <= CodeOf(t, b))
  {
    var ca, cb := CodeOf(t, a), CodeOf(t, b);
    CodeReachesLeaf(t, a);
    CodeReachesLeaf(t, b);
    if ca <= cb {
      var more := cb[|ca|..];
      assert cb == ca + more;
      FollowSplit(t, ca, more);
    }
  }

  /** Exactly the symbols of the tree have a code, and the table is prefix-free. */
  lemma TableIsPrefixFree(t: Node)
    ensures forall s: Byte :: TableOf(t)[s] != [] <==> s in Symbols(t)
    ensures PrefixFree(TableOf(t))
  {
    var table := TableOf(t);
    if t.Internal? {
      forall a: Byte, b: Byte | a != b && table[a] != [] && table[b] != []
        ensures !(table[a] <= table[b])
      {
        CodesPrefixFree(t, a, b);
      }
    }
  }

  // ----- Lengths -----

  lemma {:induction false} CodeLengthAtMostHeight(t: Node, s: Byte)
    ensures |CodeOf(t, s)| <= Height(t)
  {
    if t.Internal? {
      CodeLengthAtMostHeight(t.left, s);
      CodeLengthAtMostHeight(t.right, s);
    }
  }

  lemma {:induction false} DeepestSymbol(t: Node) returns (s: Byte)
    requires Distinct(t)
    ensures s in Symbols(t) && |CodeOf(t, s)| == Height(t)
  {
    match t
    case Leaf(x, _) => s := x;
    case Internal(l, r, _) => s := DeepestSymbol(if Height(l) < Height(r) then r else l);
  }

  /** For at least two leaves, the longest code is as long as the tree is high. */
  lemma LongestCodeIsHeight(t: Node)
    requires Distinct(t) && t.Internal?
    ensures forall s: Byte :: |TableOf(t)[s]| <= Height(t)
    ensures exists s: Byte :: |TableOf(t)[s]| == Height(t)
  {
    forall s: Byte
      ensures |TableOf(t)[s]| <= Height(t)
    {
      CodeLengthAtMostHeight(t, s);
    }
    var deepest := DeepestSymbol(t);
    assert |TableOf(t)[deepest]| == Height(t);
  }

  // ----- Kraft's inequality holds with equality -----

  function PathLengths(t: Node): Lengths {
    seq(SYMBOLS, s requires 0 <= s < SYMBOLS => |CodeOf(t, s)|)
  }

  predicate LengthsBounded(used: set<Byte>, lens: Lengths, top: nat) {
    forall s | s in used :: lens[s] <= top
  }

  /** The shares 2^(top - length) of the used symbols below `n`. */
  function KraftSum(used: set<Byte>, lens: Lengths, top: nat, n: nat := SYMBOLS): nat
    requires n <= SYMBOLS && LengthsBounded(used, lens, top)
  {
    if n == 0 then 0
    else KraftSum(used, lens, top, n - 1) + if n - 1 in used then Pow2(top - lens[n - 1]) else 0
  }

  /** Kraft's inequality for the used symbols. */
  predicate KraftHolds(used: set<Byte>, lens: Lengths, top: nat) {
    LengthsBounded(used, lens, top) && KraftSum(used, lens, top) <= Pow2(top)
  }

  lemma {:induction false} KraftSumSingle(x: Byte, lens: Lengths, top: nat, n: nat)
    requires n <= SYMBOLS && lens[x] <= top
    ensures KraftSum({x}, lens, top, n) == if x < n then Pow2(top - lens[x]) else 0
  {
    if n > 0 {
      KraftSumSingle(x, lens, top, n - 1);
    }
  }

  /** Two disjoint sets of codes, each lengthened by one bit, share the budget one level up. */
  lemma {:induction false} KraftSumJoin(
    ul: set<Byte>, ll: Lengths, ur: set<Byte>, lr: Lengths, lens: Lengths, top: nat, n: nat)
    requires n <= SYMBOLS && top >= 1 && ul !! ur
    requires LengthsBounded(ul, ll, top - 1) && LengthsBounded(ur, lr, top - 1)
    requires forall s | s in ul :: lens[s] == ll[s] + 1
    requires forall s | s in ur :: lens[s] == lr[s] + 1
    ensures LengthsBounded(ul + ur, lens, top)
    ensures KraftSum(ul + ur, lens, top, n)
         == KraftSum(ul, ll, top - 1, n) + KraftSum(ur, lr, top - 1, n)
  {
    if n > 0 {
      KraftSumJoin(ul, ll, ur, lr, lens, top, n - 1);
    }
  }

  lemma ChildCodes(t: Node)
    requires t.Internal? && Distinct(t)
    ensures forall s | s in Symbols(t.left) :: CodeOf(t, s) == [false] + CodeOf(t.left, s)
    ensures forall s | s in Symbols(t.right) :: CodeOf(t, s) == [true] + CodeOf(t.right, s)
  {
  }

  lemma {:induction false} PathKraftEquality(t: Node, top: nat)
    requires Distinct(t) && Height(t) <= top
    ensures LengthsBounded(Symbols(t), PathLengths(t), top)
    ensures KraftSum(Symbols(t), PathLengths(t), top) == Pow2(top)
  {
    match t
    case Leaf(x, _) =>
      KraftSumSingle(x, PathLengths(t), top, SYMBOLS);
    case Internal(l, r, _) =>
      ChildCodes(t);
      PathKraftEquality(l, top - 1);
      PathKraftEquality(r, top - 1);
      KraftSumJoin(Symbols(l), PathLengths(l), Symbols(r), PathLengths(r), PathLengths(t), top, SYMBOLS);
  }

  /** The codes of a tree with at least two leaves use up Kraft's inequality exactly. */
  lemma TableKraftEquality(t: Node, top: nat)
    requires Distinct(t) && t.Internal? && Height(t) <= top
    ensures LengthsBounded(Symbols(t), CodeLengths(TableOf(t)), top)
    ensures KraftSum(Symbols(t), CodeLengths(TableOf(t)), top) == Pow2(top)
  {
    assert CodeLengths(TableOf(t)) == PathLengths(t);
    PathKraftEquality(t, top);
  }

  // ----- Kraft's inequality for every prefix-free table -----

  /** No code of a used symbol is a prefix of another's. An empty code is one that leads every other. */
  predicate PrefixFreeOn(used: set<Byte>, table: Table) {
    forall a, b | a in used && b in used && a != b :: !(table[a] <= table[b])
  }

  /** The used symbols whose code starts with this bit. */
  function StartingWith(used: set<Byte>, table: Table, bit: bool): set<Byte> {
    set s | s in used && table[s] != [] && table[s][0] == bit
  }

  /** The table without the first bit of each code. */
  function Tails(table: Table): (r: Table)
    ensures forall s: Byte | table[s] != [] :: r[s] == table[s][1..]
  {
    seq(SYMBOLS, s requires 0 <= s < SYMBOLS => if table[s] == [] then [] else table[s][1..])
  }

  lemma {:induction false} KraftSumEmpty(lens: Lengths, top: nat, n: nat)
    requires n <= SYMBOLS
    ensures KraftSum({}, lens, top, n) == 0
  {
    if n > 0 {
      KraftSumEmpty(lens, top, n - 1);
    }
  }

  lemma TailsPrefixFree(used: set<Byte>, table: Table, bit: bool)
    requires PrefixFreeOn(used, table)
    ensures PrefixFreeOn(StartingWith(used, table, bit), Tails(table))
  {
    var tails := Tails(table);
    forall a, b | a in StartingWith(used, table, bit) && b in StartingWith(used, table, bit) && a != b
      ensures !(tails[a] <= tails[b])
    {
      assert table[a] == [bit] + tails[a] && table[b] == [bit] + tails[b];
    }
  }

  /** An empty code in a prefix-free table belongs to the only used symbol. */
  lemma EmptyCodeIsAlone(used: set<Byte>, table: Table, s: Byte)
    requires PrefixFreeOn(used, table) && s in used && table[s] == []
    ensures used == {s}
  {
    forall b | b in used
      ensures b == s
    {
      assert table[s] <= table[b];
    }
  }

  /** Without empty codes, the two halves by first bit have one bit less and together all the shares. */
  lemma JoinHalves(used: set<Byte>, table: Table, top: nat)
    requires top >= 1 && forall s | s in used :: table[s] != []
    requires forall bit: bool :: KraftHolds(StartingWith(used, table, bit), CodeLengths(Tails(table)), top - 1)
    ensures KraftHolds(used, CodeLengths(table), top)
  {
    var zeros, ones := StartingWith(used, table, false), StartingWith(used, table, true);
    var tails := CodeLengths(Tails(table));
    assert used == zeros + ones;
    KraftSumJoin(zeros, tails, ones, tails, CodeLengths(table), top, SYMBOLS);
  }

  /**
   Kraft's inequality: it holds of the lengths of every prefix-free table, by splitting the used
   symbols by the first bit of their codes.
   */
  lemma {:induction false} KraftInequality(used: set<Byte>, table: Table, top: nat)
    requires PrefixFreeOn(used, table)
    requires forall s | s in used :: |table[s]| <= top
    ensures KraftHolds(used, CodeLengths(table), top)
    decreases top
  {
    var lens := CodeLengths(table);
    if s :| s in used && table[s] == [] {
      EmptyCodeIsAlone(used, table, s);
      KraftSumSingle(s, lens, top, SYMBOLS);
    } else if used == {} {
      KraftSumEmpty(lens, top, SYMBOLS);
    } else {
      forall bit: bool
        ensures KraftHolds(StartingWith(used, table, bit), CodeLengths(Tails(table)), top - 1)
      {
        TailsPrefixFree(used, table, bit);
        KraftInequality(StartingWith(used, table, bit), Tails(table), top - 1);
      }
      JoinHalves(used, table, top);
    }
  }

  lemma LengthBound(table: Table) returns (top: nat)
    ensures forall s: Byte :: |table[s]| <= top
  {
    top := 0;
    for n := 0 to SYMBOLS
      invariant forall s: Byte | s < n :: |table[s]| <= top
    {
      if top < |table[n]| {
        top := |table[n]|;
      }
    }
  }

  // ----- Weighted length -----

  /** The sum of the frequencies of the symbols below `n`. */
  function Total(freqs: Lengths, n: nat := SYMBOLS): nat
    requires n <= SYMBOLS
  {
    if n == 0 then 0 else Total(freqs, n - 1) + freqs[n - 1]
  }

  /** The sum of frequency times length over the symbols below `n`. */
  function TotalLength(freqs: Lengths, lens: Lengths, n: nat := SYMBOLS): nat
    requires n <= SYMBOLS
  {
    if n == 0 then 0 else TotalLength(freqs, lens, n - 1) + freqs[n - 1] * lens[n - 1]
  }

  function Freqs(t: Node): (r: Lengths)
    ensures forall s: Byte :: r[s] == FreqOf(t, s)
  {
    seq(SYMBOLS, s requires 0 <= s < SYMBOLS => FreqOf(t, s))
  }

  lemma {:induction false} TotalSingle(x: Byte, freqs: Lengths, n: nat)
    requires n <= SYMBOLS && forall s: Byte | s != x :: freqs[s] == 0
    ensures Total(freqs, n) == if x < n then freqs[x] else 0
  {
    if n > 0 {
      TotalSingle(x, freqs, n - 1);
    }
  }

  lemma {:induction false} TotalJoin(freqs: Lengths, fl: Lengths, fr: Lengths, n: nat)
    requires n <= SYMBOLS && forall s: Byte :: freqs[s] == fl[s] + fr[s]
    ensures Total(freqs, n) == Total(fl, n) + Total(fr, n)
  {
    if n > 0 {
      TotalJoin(freqs, fl, fr, n - 1);
    }
  }

  lemma {:induction false} FreqsTotal(t: Node)
    requires WellWeighted(t)
    ensures Total(Freqs(t)) == t.freq
  {
    match t
    case Leaf(x, _) =>
      TotalSingle(x, Freqs(t), SYMBOLS);
    case Internal(l, r, _) =>
      FreqsTotal(l);
      FreqsTotal(r);
      TotalJoin(Freqs(t), Freqs(l), Freqs(r), SYMBOLS);
  }

  // ----- What the codes that start with given bits weigh -----

  /** The frequency of one symbol if its code starts with `path`. */
  function PrefixTerm(freqs: Lengths, table: Table, path: Bits, s: Byte): nat {
    if path <= table[s] then freqs[s] else 0
  }

  /** The total frequency of the symbols below `n` whose codes start with `path`. */
  function PrefixWeight(freqs: Lengths, table: Table, path: Bits, n: nat := SYMBOLS): nat
    requires n <= SYMBOLS
  {
    if n == 0 then 0 else PrefixWeight(freqs, table, path, n - 1) + PrefixTerm(freqs, table, path, n - 1)
  }

  function PathTable(t: Node): (r: Table)
    ensures forall s: Byte :: r[s] == CodeOf(t, s)
  {
    seq(SYMBOLS, s requires 0 <= s < SYMBOLS => CodeOf(t, s))
  }

  lemma {:induction false} PrefixWeightAll(freqs: Lengths, table: Table, n: nat)
    requires n <= SYMBOLS
    ensures PrefixWeight(freqs, table, [], n) == Total(freqs, n)
  {
    if n > 0 {
      PrefixWeightAll(freqs, table, n - 1);
    }
  }

  lemma {:induction false} PrefixWeightNone(freqs: Lengths, table: Table, path: Bits, n: nat)
    requires n <= SYMBOLS && forall s: Byte :: !(path <= table[s])
    ensures PrefixWeight(freqs, table, path, n) == 0
  {
    if n > 0 {
      PrefixWeightNone(freqs, table, path, n - 1);
    }
  }

  lemma {:induction false} PrefixWeightSame(
    freqs: Lengths, table: Table, path: Bits, otherFreqs: Lengths, other: Table, otherPath: Bits, n: nat)
    requires n <= SYMBOLS
    requires forall s: Byte :: PrefixTerm(freqs, table, path, s) == PrefixTerm(otherFreqs, other, otherPath, s)
    ensures PrefixWeight(freqs, table, path, n) == PrefixWeight(otherFreqs, other, otherPath, n)
  {
    if n > 0 {
      PrefixWeightSame(freqs, table, path, otherFreqs, other, otherPath, n - 1);
    }
  }

  /** A code starts with an edge and more exactly when it is below that child and starts so there. */
  lemma ChildPrefixTerm(t: Node, child: Node, path: Bits, s: Byte)
    requires t.Internal? && Distinct(t) && path != []
    requires child == if path[0] then t.right else t.left
    ensures PrefixTerm(Freqs(t), PathTable(t), path, s)
         == PrefixTerm(Freqs(child), PathTable(child), path[1..], s)
  {
    var bit := path[0];
    FreqOfLeaf(t.left, s);
    FreqOfLeaf(t.right, s);
    assert path == [bit] + path[1..];
    if s in Symbols(child) {
      assert CodeOf(t, s) == [bit] + CodeOf(child, s);
      PrefixAfterBit(bit, path[1..], CodeOf(child, s));
    }
  }

  lemma PrefixAfterBit(bit: bool, path: Bits, code: Bits)
    ensures [bit] + path <= [bit] + code <==> path <= code
  {
    if [bit] + path <= [bit] + code {
      assert path == ([bit] + path)[1..] && code == ([bit] + code)[1..];
    }
  }

  /** The symbols whose codes start with a path weigh what the node at its end weighs. */
  lemma {:induction false} SubtreeWeight(t: Node, path: Bits)
    requires Distinct(t) && WellWeighted(t)
    ensures PrefixWeight(Freqs(t), PathTable(t), path)
         == match Follow(t, path) case None => 0 case Some(n) => n.freq
    decreases t
  {
    if path == [] {
      PrefixWeightAll(Freqs(t), PathTable(t), SYMBOLS);
      FreqsTotal(t);
    } else if t.Leaf? {
      PrefixWeightNone(Freqs(t), PathTable(t), path, SYMBOLS);
    } else {
      var child := if path[0] then t.right else t.left;
      SubtreeWeight(child, path[1..]);
      forall s: Byte {
        ChildPrefixTerm(t, child, path, s);
      }
      PrefixWeightSame(
        Freqs(t), PathTable(t), path, Freqs(child), PathTable(child), path[1..], SYMBOLS);
    }
  }

  lemma {:induction false} FollowedLeftLighter(t: Node, path: Bits, n: Node)
    requires LeftLighter(t) && Follow(t, path) == Some(n)
    ensures LeftLighter(n)
  {
    if path != [] {
      FollowedLeftLighter(if path[0] then t.right else t.left, path[1..], n);
    }
  }

  /**
   Where codes go on after common bits, those that go on with 0 weigh no more than those that go on
   with 1.
   */
  lemma ZeroSideLighter(t: Node, path: Bits)
    requires Distinct(t) && WellWeighted(t) && LeftLighter(t)
    ensures PrefixWeight(Freqs(t), PathTable(t), path + [false])
         <= PrefixWeight(Freqs(t), PathTable(t), path + [true])
  {
    SubtreeWeight(t, path + [false]);
    FollowSplit(t, path, [false]);
    SubtreeWeight(t, path + [true]);
    FollowSplit(t, path, [true]);
    match Follow(t, path)
    case None =>
    case Some(n) =>
      FollowedLeftLighter(t, path, n);
      assert [false][1..] == [] && [true][1..] == [];
  }

  lemma {:induction false} TotalLengthZero(freqs: Lengths, lens: Lengths, n: nat)
    requires n <= SYMBOLS && forall s: Byte :: lens[s] == 0
    ensures TotalLength(freqs, lens, n) == 0
  {
    if n > 0 {
      TotalLengthZero(freqs, lens, n - 1);
      assert freqs[n - 1] * lens[n - 1] == 0;
    }
  }

  /** One more bit for every symbol of two disjoint subtrees costs their total frequency. */
  lemma {:induction false} TotalLengthJoin(
    freqs: Lengths, lens: Lengths, fl: Lengths, ll: Lengths, fr: Lengths, lr: Lengths, n: nat)
    requires n <= SYMBOLS
    requires forall s: Byte :: freqs[s] * lens[s] == fl[s] * ll[s] + fr[s] * lr[s] + freqs[s]
    ensures TotalLength(freqs, lens, n)
         == TotalLength(fl, ll, n) + TotalLength(fr, lr, n) + Total(freqs, n)
  {
    if n > 0 {
      TotalLengthJoin(freqs, lens, fl, ll, fr, lr, n - 1);
    }
  }

  lemma OneMoreBit(f: nat, c: nat, fl: nat, cl: nat, fr: nat, cr: nat)
    requires || (f == fl && fr == 0 && c == 1 + cl)
             || (f == fr && fl == 0 && c == 1 + cr)
             || (f == fl == fr == 0)
    ensures f * c == fl * cl + fr * cr + f
  {
  }

  /** One symbol's share of the weighted length, split over the two subtrees. */
  lemma ProductSplit(t: Node, s: Byte)
    requires t.Internal? && Distinct(t)
    ensures FreqOf(t, s) * |CodeOf(t, s)|
         == FreqOf(t.left, s) * |CodeOf(t.left, s)| + FreqOf(t.right, s) * |CodeOf(t.right, s)| + FreqOf(t, s)
  {
    var l, r := t.left, t.right;
    FreqOfLeaf(l, s);
    FreqOfLeaf(r, s);
    OneMoreBit(FreqOf(t, s), |CodeOf(t, s)|, FreqOf(l, s), |CodeOf(l, s)|, FreqOf(r, s), |CodeOf(r, s)|);
  }

  lemma ProductsSplit(t: Node)
    requires t.Internal? && Distinct(t)
    ensures var l, r := t.left, t.right;
            forall s: Byte :: Freqs(t)[s] * PathLengths(t)[s]
                           == Freqs(l)[s] * PathLengths(l)[s] + Freqs(r)[s] * PathLengths(r)[s] + Freqs(t)[s]
  {
    forall s: Byte {
      ProductSplit(t, s);
    }
  }

  /** The weighted path length is the sum of the frequencies of the internal nodes. */
  lemma {:induction false} WeightedPathLength(t: Node)
    requires Distinct(t) && WellWeighted(t)
    ensures TotalLength(Freqs(t), PathLengths(t)) == Cost(t)
  {
    match t
    case Leaf(_, _) =>
      TotalLengthZero(Freqs(t), PathLengths(t), SYMBOLS);
    case Internal(l, r, _) =>
      WeightedPathLength(l);
      WeightedPathLength(r);
      FreqsTotal(t);
      ProductsSplit(t);
      TotalLengthJoin(Freqs(t), PathLengths(t), Freqs(l), PathLengths(l), Freqs(r), PathLengths(r), SYMBOLS);
  }

  lemma TableCost(t: Node)
    requires Distinct(t) && WellWeighted(t) && t.Internal?
    ensures TotalLength(Freqs(t), CodeLengths(TableOf(t))) == Cost(t)
  {
    assert CodeLengths(TableOf(t)) == PathLengths(t);
    WeightedPathLength(t);
  }
}
