/**
 The symbol table: 256 prefix codes, filled from a tree by an explicit-stack depth-first search.
 */
module SymbolTables {
  import opened Common
  import opened HuffmanNode
  import opened CodeTable
  import opened PackedBits
  import opened BitArrays

  type Stack = seq<(Node, BitArray)>

  function PendingSymbols(open: Stack): set<Byte> {
    if open == [] then {} else Symbols(open[0].0) + PendingSymbols(open[1..])
  }

  /** No symbol is pending in two stacked subtrees. */
  predicate PendingDistinct(open: Stack) {
    open == [] || (Symbols(open[0].0) !! PendingSymbols(open[1..]) && PendingDistinct(open[1..]))
  }

  /** The total number of nodes under the stacked subtrees. */
  function StackSize(open: Stack): nat {
    if open == [] then 0 else NodeCount(open[0].0) + StackSize(open[1..])
  }

  /** The stacked path, continued by a symbol's path below the stacked node, is the symbol's code. */
  ghost predicate StackEntryOk(target: Table, n: Node, path: BitArray)
    reads path
  {
    && path.Valid() && ZeroTail(path.Value()) && Distinct(n)
    && forall s | s in Symbols(n) :: target[s] == path.Bits() + CodeOf(n, s)
  }

  ghost predicate StackOk(target: Table, open: Stack)
    reads set k | 0 <= k < |open| :: open[k].1
  {
    forall k | 0 <= k < |open| :: StackEntryOk(target, open[k].0, open[k].1)
  }

  predicate Separate(open: Stack, rows: seq<BitArray>) {
    forall k | 0 <= k < |open| :: open[k].1 !in rows
  }

  predicate RowsDistinct(rows: seq<BitArray>) {
    |rows| == SYMBOLS && forall a, b | 0 <= a < b < |rows| :: rows[a] != rows[b]
  }

  /** Rows of pending symbols are untouched, all others hold their code. */
  ghost predicate RowsOk(target: Table, rows: seq<BitArray>, pending: set<Byte>)
    reads rows
  {
    && |rows| == SYMBOLS
    && forall s: Byte ::
         && rows[s].Valid()
         && (s in pending ==> rows[s].bytes == Zeros(BytesRequired(MAX_LENGTH)) && rows[s].Empty())
         && (s !in pending ==> rows[s].Bits() == target[s] && ZeroTail(rows[s].Value()))
  }

  method EmptyRows() returns (rows: seq<BitArray>)
    ensures RowsDistinct(rows) && fresh(set r | r in rows)
    ensures forall s: Byte :: rows[s].Valid() && rows[s].bytes == Zeros(BytesRequired(MAX_LENGTH)) && rows[s].Empty()
    ensures forall s: Byte :: |rows[s].bytes| == 32
  {
    rows := [];
    for i := 0 to SYMBOLS
      invariant |rows| == i && forall a, b | 0 <= a < b < |rows| :: rows[a] != rows[b]
      invariant forall k | 0 <= k < i ::
                  && fresh(rows[k]) && rows[k].Valid()
                  && rows[k].bytes == Zeros(BytesRequired(MAX_LENGTH)) && rows[k].Empty()
    {
      var row := new BitArray(MAX_LENGTH);
      rows := rows + [row];
    }
  }

  lemma ChildCode(n: Node, path: Bits, child: Node, bit: bool, s: Byte)
    requires n.Internal? && Distinct(n) && child == (if bit then n.right else n.left)
    requires s in Symbols(child)
    ensures s in Symbols(n)
    ensures path + CodeOf(n, s) == path + [bit] + CodeOf(child, s)
  {
    assert CodeOf(n, s) == [bit] + CodeOf(child, s);
    assert path + ([bit] + CodeOf(child, s)) == path + [bit] + CodeOf(child, s);
  }

  /** A child with a copy of its parent's path, one edge longer. */
  method ChildPath(ghost target: Table, n: Node, path: BitArray, bit: bool) returns (copy: BitArray)
    requires n.Internal? && StackEntryOk(target, n, path)
    ensures fresh(copy) && StackEntryOk(target, if bit then n.right else n.left, copy)
  {
    copy := new BitArray.Copy(path.Value());
    copy.PushBack(bit);
    var child := if bit then n.right else n.left;
    forall s | s in Symbols(child)
      ensures target[s] == copy.Bits() + CodeOf(child, s)
    {
      ChildCode(n, path.Bits(), child, bit, s);
    }
  }

  /** Pushes the right child, then the left one. */
  method PushChildren(ghost target: Table, rest: Stack, n: Node, path: BitArray) returns (open: Stack)
    requires n.Internal? && StackEntryOk(target, n, path) && StackOk(target, rest)
    requires PendingDistinct(rest) && Symbols(n) !! PendingSymbols(rest)
    ensures |open| == |rest| + 2 && open[2..] == rest
    ensures fresh(open[0].1) && fresh(open[1].1)
    ensures StackOk(target, open) && PendingDistinct(open)
    ensures PendingSymbols(open) == Symbols(n) + PendingSymbols(rest)
    ensures StackSize(open) + 1 == NodeCount(n) + StackSize(rest)
  {
    var rightPath := ChildPath(target, n, path, true);
    open := [(n.right, rightPath)] + rest;
    assert open[1..] == rest;
    var leftPath := ChildPath(target, n, path, false);
    ghost var below := open;
    open := [(n.left, leftPath)] + open;
    assert open[1..] == below;
  }

  /** Copies a finished path into its row, whose storage is still all zero. */
  method StoreCode(ghost target: Table, rows: seq<BitArray>, ghost pending: set<Byte>, symbol: Byte, path: BitArray)
    requires RowsDistinct(rows) && RowsOk(target, rows, pending)
    requires symbol in pending && path !in rows
    requires path.Valid() && ZeroTail(path.Value()) && path.Bits() == target[symbol]
    modifies rows[symbol]
    ensures RowsOk(target, rows, pending - {symbol})
  {
    rows[symbol].Assign(path.Value());
  }

  lemma StillSeparate(rest: Stack, open: Stack, rows: seq<BitArray>)
    requires Separate(rest, rows)
    requires |open| == |rest| + 2 && open[2..] == rest && open[0].1 !in rows && open[1].1 !in rows
    ensures Separate(open, rows)
  {
    forall k | 0 <= k < |open|
      ensures open[k].1 !in rows
    {
      assert k >= 2 ==> open[k] == rest[k - 2];
    }
  }

  /** The search may go on: the stacked paths are right and every other symbol has its row. */
  ghost predicate SearchOk(target: Table, open: Stack, rows: seq<BitArray>)
    reads rows, set k | 0 <= k < |open| :: open[k].1
  {
    && RowsDistinct(rows) && Separate(open, rows)
    && PendingDistinct(open) && StackOk(target, open)
    && RowsOk(target, rows, PendingSymbols(open))
  }

  /** One iteration: pop a node; a leaf's path goes to its row, other nodes push their children. */
  method Visit(ghost target: Table, open: Stack, rows: seq<BitArray>) returns (next: Stack)
    requires open != [] && SearchOk(target, open, rows)
    modifies rows
    ensures SearchOk(target, next, rows)
    ensures StackSize(next) < StackSize(open)
  {
    var node := open[0].0;
    var path := new BitArray.Copy(open[0].1.Value());
    next := open[1..];
    match node
    case Leaf(symbol, _) =>
      ghost var pending := PendingSymbols(next);
      StoreCode(target, rows, {symbol} + pending, symbol, path);
      assert {symbol} + pending - {symbol} == pending;
    case Internal(_, _, _) =>
      ghost var rest := next;
      next := PushChildren(target, next, node, path);
      StillSeparate(rest, next, rows);
  }

  /** The depth-first search over a tree with at least two leaves, with an explicit stack. */
  method FillRows(root: Node, rows: seq<BitArray>)
    requires root.Internal? && Distinct(root)
    requires RowsDistinct(rows) && RowsOk(TableOf(root), rows, Symbols(root))
    modifies rows
    ensures RowsOk(TableOf(root), rows, {})
  {
    ghost var target := TableOf(root);
    var start := new BitArray(MAX_LENGTH);
    var open := [(root, start)];
    assert open[1..] == [];
    while open != []
      invariant SearchOk(target, open, rows)
      decreases StackSize(open)
    {
      open := Visit(target, open, rows);
    }
  }

  /** The table of a tree. */
  method BuildSymbolTable(root: Node) returns (rows: seq<BitArray>)
    requires Distinct(root)
    ensures RowsDistinct(rows) && fresh(set r | r in rows)
    ensures RowsOk(TableOf(root), rows, {})
  {
    rows := EmptyRows();
    forall s: Byte {
      ZeroBytesZeroTail(rows[s].bytes);
    }
    if root.Leaf? {
      rows[root.symbol].PushBack(false);
      return;
    }
    TableIsPrefixFree(root);
    FillRows(root, rows);
  }

  /** The values of a vector of bit arrays. */
  function RowValues(rows: seq<BitArray>): (v: seq<Packed>)
    reads rows
    ensures |v| == |rows| && forall i | 0 <= i < |rows| :: v[i] == rows[i].Value()
  {
    if rows == [] then [] else RowValues(rows[..|rows| - 1]) + [rows[|rows| - 1].Value()]
  }

  /** The symbol table of a tree. A finished table is only read, so it is the value of its rows. */
  method SymbolTableOf(root: Node) returns (table: Rows)
    requires Distinct(root)
    ensures CodesOf(table) == TableOf(root) && AllZeroTails(table)
  {
    var rows := BuildSymbolTable(root);
    table := RowValues(rows);
    assert CodesOf(table) == TableOf(root);
  }

  /** A row of greatest length, the first one if there are several. */
  method Longest(table: Rows) returns (longest: Packed)
    ensures exists i: Byte ::
              && longest == table[i]
              && (forall s: Byte :: |CodesOf(table)[s]| <= |CodesOf(table)[i]|)
              && (forall s: Byte | s < i :: |CodesOf(table)[s]| < |CodesOf(table)[i]|)
  {
    var i: Byte := 0;
    for n := 1 to SYMBOLS
      invariant i < n
      invariant forall s: Byte | s < n :: table[s].length <= table[i].length
      invariant forall s: Byte | s < i :: table[s].length < table[i].length
    {
      if table[i].length < table[n].length {
        i := n;
      }
    }
    assert forall s: Byte :: |CodesOf(table)[s]| == table[s].length;
    longest := table[i];
  }
}
