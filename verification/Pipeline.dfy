/**
 The whole codec: what compressing writes, what decompressing returns, and that the second undoes
 the first.
 */
module Pipeline {
  import opened Common
  import opened HuffmanNode
  import opened HuffmanTrees
  import opened CodeTable
  import opened Coding
  import opened Histograms
  import opened PackedBits
  import opened BitArrays
  import opened SymbolTables
  import opened InverseSymbolTables
  import opened HafeFormat
  import opened HafeLayout
  import opened HafeFiles
  import B = BitArray8
  import Encoders
  import Decoders

  // ----- What the table of an input guarantees -----

  lemma PresentIsUsed(str: seq<Byte>)
    ensures forall s: Byte :: s in Present(Counts(str)) <==> s in str
    ensures Present(Counters(str)) <= Present(Counts(str))
  {
    forall s: Byte
      ensures s in Present(Counts(str)) <==> s in str
      ensures s in Present(Counters(str)) ==> s in str
    {
      assert Counts(str)[s] == multiset(str)[s];
    }
  }

  /** The bytes of the input whose 32-bit counter is not zero, in their order. */
  function Counted(str: seq<Byte>): seq<Byte> {
    Only(str, Present(Counters(str)))
  }

  /** No byte occurs a multiple of 2^32 times. */
  predicate NothingLost(str: seq<Byte>) {
    forall s: Byte | s in str :: Occurrences(str, s) % 4294967296 != 0
  }

  lemma CountedIsAll(str: seq<Byte>)
    ensures Counted(str) == str <==> NothingLost(str)
    ensures |str| < 4294967296 ==> NothingLost(str)
  {
    OnlyAll(str, Present(Counters(str)));
    if |str| < UINT32_MODULUS {
      CountersAreCounts(str);
      PresentIsUsed(str);
    }
  }

  /** Exactly the counted bytes have a code, no code is a prefix of another, none exceeds 255 bits. */
  lemma TableServesInput(str: seq<Byte>, t: Node)
    requires IsHuffmanTree(Counters(str), t)
    ensures PrefixFree(TableOf(t))
    ensures forall s: Byte :: |TableOf(t)[s]| <= 255
    ensures CodedSymbols(TableOf(t)) == Present(Counters(str))
    ensures Coded(TableOf(t), str) <==> NothingLost(str)
  {
    TableIsPrefixFree(t);
    HuffmanSymbols(Counters(str), t);
    HuffmanDepth(Counters(str), t);
    CodedMeansUsed(TableOf(t), str);
  }

  /** The encoding is that of the counted bytes, of which there is at least one. */
  lemma CountedEncoding(str: seq<Byte>, t: Node)
    requires IsHuffmanTree(Counters(str), t)
    ensures Coded(TableOf(t), Counted(str))
    ensures Encode(TableOf(t), str) == Encode(TableOf(t), Counted(str)) != []
    ensures str != []
  {
    TableServesInput(str, t);
    EncodeOnly(TableOf(t), str);
    CodedMeansUsed(TableOf(t), Counted(str));
    OneBitEach(TableOf(t), Counted(str));
    HuffmanShape(Counters(str), t);
    PresentIsUsed(str);
    var s :| s in Present(Counters(str));
    assert s in Counted(str);
  }

  /** An input encoded with the table of its exact counts takes at most eight bits a byte. */
  lemma EncodingFits(str: seq<Byte>, t: Node)
    requires IsHuffmanTree(Counts(str), t)
    ensures |Encode(TableOf(t), str)| <= 8 * |str|
    ensures Encoders.EncodesInBounds(TableOf(t), str)
  {
    EncodedLength(TableOf(t), str);
    HuffmanFitsBytes(Counts(str), t);
    CountsTotal(str);
    Encoders.FittingEncodesInBounds(TableOf(t), str);
  }

  /** However ties are broken, the encoding fits the storage of eight bits a byte. */
  ghost predicate FitsStorage(str: seq<Byte>) {
    forall t: Node | IsHuffmanTree(Counters(str), t) :: |Encode(TableOf(t), str)| <= 8 * |str|
  }

  /** Below 2^32 bytes neither encoder leaves its storage. */
  lemma ShortInputFits(str: seq<Byte>)
    requires |str| < 4294967296
    ensures FitsStorage(str)
  {
    CountersAreCounts(str);
    forall t: Node | IsHuffmanTree(Counters(str), t)
      ensures |Encode(TableOf(t), str)| <= 8 * |str|
    {
      EncodingFits(str, t);
    }
  }

  /**
   The encoded length is the sum of the frequencies of the internal nodes, and no lengths that
   satisfy Kraft's inequality give a shorter total.
   */
  lemma EncodingOptimal(str: seq<Byte>, t: Node)
    requires IsHuffmanTree(Counts(str), t) && |Present(Counts(str))| >= 2
    ensures |Encode(TableOf(t), str)| == Cost(t)
    ensures forall lens: Lengths, top: nat | KraftHolds(Present(Counts(str)), lens, top) ::
              |Encode(TableOf(t), str)| <= TotalLength(Counts(str), lens)
  {
    EncodedLength(TableOf(t), str);
    HuffmanTableCost(Counts(str), t);
    HuffmanOptimal(Counts(str), t);
  }

  /** No prefix-free table that has codes for the input encodes it in fewer bits. */
  lemma EncodingShortest(str: seq<Byte>, t: Node, table: Table)
    requires IsHuffmanTree(Counts(str), t)
    requires PrefixFree(table) && Coded(table, str)
    ensures |Encode(TableOf(t), str)| <= |Encode(table, str)|
  {
    HuffmanShape(Counts(str), t);
    if t.Leaf? {
      HuffmanDepth(Counts(str), t);
      OneBitEach(TableOf(t), str);
      OneBitEach(table, str);
    } else {
      var top := LengthBound(table);
      PresentIsUsed(str);
      CodedMeansUsed(table, str);
      KraftInequality(Present(Counts(str)), table, top);
      EncodingOptimal(str, t);
      EncodedLength(table, str);
    }
  }

  /** While an encoding is decoded the token never reaches the asserted maximum of 255 bits. */
  lemma TokenBelowMaximum(str: seq<Byte>, t: Node, i: nat)
    requires IsHuffmanTree(Counters(str), t) && i < |Encode(TableOf(t), str)|
    ensures |Coding.Decode(TableOf(t), Encode(TableOf(t), str)[..i]).1| < 255
  {
    TableServesInput(str, t);
    CountedEncoding(str, t);
    TokenStaysShort(TableOf(t), Counted(str), i, 255);
  }

  // ----- Archives -----

  /** The rows and stream are zero-tail representations of a table and of an encoding with it. */
  ghost predicate Represents(rows: Rows, stream: Packed, t: Node, str: seq<Byte>) {
    && AllZeroTails(rows) && CodesOf(rows) == TableOf(t)
    && stream.Valid() && ZeroTail(stream) && BitsOf(stream) == Encode(TableOf(t), str)
    && stream.length <= UINT64_MAX - 7
  }

  /** `file` is what compressing `str` may write; ties in the tree construction leave a choice. */
  ghost predicate IsArchiveOf(file: Bytes, str: seq<Byte>) {
    exists t: Node, rows: Rows, stream: Packed ::
      IsHuffmanTree(Counters(str), t) && Represents(rows, stream, t, str) && file == ArchiveBytes(rows, stream)
  }

  /** What any byte sequence stands for: read it, then decode with the codes that can be found. */
  ghost function Meaning(file: Bytes): Result<seq<Byte>> {
    var (rows, stream) :- ReadArchive(file);
    Success(Coding.Decode(Findable(rows), BitsOf(stream)).0)
  }

  lemma RepresentedArchive(rows: Rows, stream: Packed, t: Node, str: seq<Byte>)
    requires IsHuffmanTree(Counters(str), t) && Represents(rows, stream, t, str)
    ensures ReadArchive(ArchiveBytes(rows, stream))
         == Success((RereadRows(rows), Reread(stream)))
  {
    TableServesInput(str, t);
    CountedEncoding(str, t);
    assert stream.length == |BitsOf(stream)| > 0;
    forall s: Byte
      ensures rows[s].length <= 255
    {
      assert rows[s].length == |CodesOf(rows)[s]|;
    }
    ArchiveRoundTrip(rows, stream, []);
    assert ArchiveBytes(rows, stream) + [] == ArchiveBytes(rows, stream);
  }

  /** End to end: an archive of an input means the counted bytes of that input. */
  lemma ArchiveMeaning(file: Bytes, str: seq<Byte>)
    requires IsArchiveOf(file, str)
    ensures Meaning(file) == Success(Counted(str))
  {
    var t, rows, stream :|
      IsHuffmanTree(Counters(str), t) && Represents(rows, stream, t, str) && file == ArchiveBytes(rows, stream);
    RepresentedArchive(rows, stream, t, str);
    RereadRowsSame(rows);
    RereadSame(stream);
    TableServesInput(str, t);
    ZeroTailsFindable(RereadRows(rows));
    DecodeEncodeAny(TableOf(t), str);
  }

  /**
   Round trip: an archive means its input exactly when no byte of the input occurs a multiple of
   2^32 times; so it always does below 2^32 bytes.
   */
  lemma RoundTrip(file: Bytes, str: seq<Byte>)
    requires IsArchiveOf(file, str)
    ensures Meaning(file) == Success(str) <==> NothingLost(str)
    ensures |str| < 4294967296 ==> Meaning(file) == Success(str)
  {
    ArchiveMeaning(file, str);
    CountedIsAll(str);
  }

  lemma {:induction false} RepeatedOccurrences(data: seq<Byte>, x: Byte, s: Byte)
    requires forall k | 0 <= k < |data| :: data[k] == x
    ensures Occurrences(data, s) == if s == x then |data| else 0
  {
    if data != [] {
      var last := |data| - 1;
      RepeatedOccurrences(data[..last], x, s);
      assert data == data[..last] + [x];
      CountAppend(data[..last], x, s);
      assert Counts(data)[s] == Occurrences(data, s);
    }
  }

  /** The byte 0 repeated 2^32 times, then a 1. */
  function WrappingInput(): (str: seq<Byte>)
    ensures |str| == 4294967297 && 0 in str && 1 in str
  {
    var str := seq(4294967296, i => 0) + [1];
    assert str[0] == 0 && str[4294967296] == 1;
    str
  }

  lemma WrappingOccurrences(s: Byte)
    ensures Occurrences(WrappingInput(), s) == if s == 0 then 4294967296 else if s == 1 then 1 else 0
  {
    var zeros: seq<Byte> := seq(4294967296, i => 0);
    RepeatedOccurrences(zeros, 0, s);
    CountAppend(zeros, 1, s);
    assert Counts(WrappingInput())[s] == Occurrences(WrappingInput(), s);
  }

  lemma WrappingPresent(str: seq<Byte>)
    requires str == WrappingInput()
    ensures Present(Counters(str)) == {1}
  {
    forall s: Byte
      ensures s in Present(Counters(str)) <==> s == 1
    {
      WrappingOccurrences(s);
    }
  }

  /** The counter of 0 is back at zero, so only the 1 is left of this input. */
  lemma WrappedCounterLoses(str: seq<Byte>)
    requires str == WrappingInput()
    ensures Present(Counters(str)) == {1} && !NothingLost(str)
    ensures forall file: Bytes | IsArchiveOf(file, str) :: Meaning(file) != Success(str)
  {
    WrappingPresent(str);
    LostByte(str);
    forall file: Bytes | IsArchiveOf(file, str)
      ensures Meaning(file) != Success(str)
    {
      RoundTrip(file, str);
    }
  }

  lemma LostByte(str: seq<Byte>)
    requires 0 in str && Present(Counters(str)) == {1}
    ensures !NothingLost(str)
  {
    assert 0 !in Present(Counters(str));
  }

  /** For one input and one tree there is one archive. */
  lemma OneArchivePerTree(
    str: seq<Byte>, t: Node, rows: Rows, stream: Packed, otherRows: Rows, otherStream: Packed)
    requires Represents(rows, stream, t, str) && Represents(otherRows, otherStream, t, str)
    ensures ArchiveBytes(rows, stream) == ArchiveBytes(otherRows, otherStream)
  {
    ArchiveDetermined(rows, stream, otherRows, otherStream);
  }

  /** Inputs with a common archive have the same counted bytes; if nothing is lost they are the same. */
  lemma ArchivesDiffer(file: Bytes, a: seq<Byte>, b: seq<Byte>)
    requires IsArchiveOf(file, a) && IsArchiveOf(file, b)
    ensures Counted(a) == Counted(b)
    ensures NothingLost(a) && NothingLost(b) ==> a == b
  {
    ArchiveMeaning(file, a);
    ArchiveMeaning(file, b);
    CountedIsAll(a);
    CountedIsAll(b);
  }

  /** An archive of an input is the one layout of a Huffman tree's codes and the encoding with them. */
  lemma ArchiveIsLaidOut(file: Bytes, str: seq<Byte>)
    requires IsArchiveOf(file, str)
    ensures exists t: Node ::
              IsHuffmanTree(Counters(str), t) && Layout(file, TableOf(t), Encode(TableOf(t), str), true)
  {
    var t, rows, stream :|
      IsHuffmanTree(Counters(str), t) && Represents(rows, stream, t, str) && file == ArchiveBytes(rows, stream);
    ArchiveLayout(rows, stream, true);
  }

  // ----- One symbol, two symbols -----

  /** With one symbol left, its code is 0 and the encoding is a 0 for each time it occurs. */
  lemma LoneSymbolZeros(str: seq<Byte>, t: Node, s: Byte)
    requires IsHuffmanTree(Counters(str), t) && Present(Counters(str)) == {s}
    ensures TableOf(t)[s] == [false]
    ensures |Encode(TableOf(t), str)| == |Counted(str)|
    ensures forall i | 0 <= i < |Encode(TableOf(t), str)| :: !Encode(TableOf(t), str)[i]
  {
    HuffmanLoneSymbol(Counters(str), t, s);
    CountedEncoding(str, t);
    LoneCode(TableOf(t), Counted(str), s);
  }

  lemma LoneCode(table: Table, data: seq<Byte>, s: Byte)
    requires table[s] == [false]
    requires forall x | x in data :: x == s
    ensures |Encode(table, data)| == |data|
    ensures forall i | 0 <= i < |data| :: !Encode(table, data)[i]
  {
    OneBitCodes(table, data);
    forall i | 0 <= i < |data|
      ensures data[i] == s
    {
      assert data[i] in data;
    }
  }

  /** With two symbols left, each byte is one bit: 0 for the rarer symbol, 1 for the other. */
  lemma TwoSymbolBits(str: seq<Byte>, t: Node, rare: Byte, common: Byte)
    requires IsHuffmanTree(Counters(str), t)
    requires Present(Counters(str)) == {rare, common} && Counters(str)[rare] < Counters(str)[common]
    ensures |Encode(TableOf(t), str)| == |Counted(str)|
    ensures forall i | 0 <= i < |Counted(str)| :: Encode(TableOf(t), str)[i] <==> Counted(str)[i] == common
  {
    HuffmanTwoSymbols(Counters(str), t, rare, common);
    CountedEncoding(str, t);
    TwoCodes(TableOf(t), Counted(str), rare, common);
  }

  lemma TwoCodes(table: Table, data: seq<Byte>, rare: Byte, common: Byte)
    requires table[rare] == [false] && table[common] == [true]
    requires forall s | s in data :: s == rare || s == common
    ensures |Encode(table, data)| == |data|
    ensures forall i | 0 <= i < |data| :: Encode(table, data)[i] <==> data[i] == common
  {
    OneBitCodes(table, data);
    forall i | 0 <= i < |data|
      ensures data[i] == rare || data[i] == common
    {
      assert data[i] in data;
    }
  }

  lemma {:induction false} LoneEntrySize(codes: Table, s: Byte, n: nat)
    requires n <= SYMBOLS && |codes[s]| == 1 && forall x: Byte | x != s :: codes[x] == []
    ensures EntrySizes(codes, n) == if s < n then 3 else 0
  {
    if n > 0 {
      LoneEntrySize(codes, s, n - 1);
    }
  }

  lemma ZeroBitsZeroBytes(file: Bytes, at: nat, bits: Bits)
    requires BitsAt(file, at, bits, true) && forall i | 0 <= i < |bits| :: !bits[i]
    ensures forall k | at <= k < at + (|bits| + 7) / 8 :: file[k] == 0
  {
    forall k | at <= k < at + (|bits| + 7) / 8
      ensures file[k] == 0
    {
      forall i | 0 <= i < 8
        ensures file[k] / B.PlaceValue(i) % 2 == 0
      {
        var j := 8 * (k - at) + i;
        assert j / 8 == k - at && j % 8 == i;
        assert !BitSet(file, at, j);
      }
      SameNumber(file[k], 0);
    }
  }

  /** The archive of an input with one symbol left: the entry `s 1 0`, and zero bytes only. */
  lemma LoneSymbolArchive(file: Bytes, str: seq<Byte>, s: Byte)
    requires IsArchiveOf(file, str) && Present(Counters(str)) == {s}
    ensures |file| == 35 + (|Counted(str)| + 7) / 8
    ensures file[24] == s && file[25] == 1 && file[26] == 0
    ensures forall k | 35 <= k < |file| :: file[k] == 0
  {
    ArchiveIsLaidOut(file, str);
    var t :| IsHuffmanTree(Counters(str), t) && Layout(file, TableOf(t), Encode(TableOf(t), str), true);
    LoneSymbolZeros(str, t, s);
    TableServesInput(str, t);
    OnlyCoded(TableOf(t), s);
    LoneLayout(file, TableOf(t), Encode(TableOf(t), str), s);
  }

  lemma OnlyCoded(codes: Table, s: Byte)
    requires CodedSymbols(codes) == {s}
    ensures forall x: Byte | x != s :: codes[x] == []
  {
    forall x: Byte | x != s
      ensures codes[x] == []
    {
      assert x !in CodedSymbols(codes);
    }
  }

  lemma LoneLayout(file: Bytes, codes: Table, bits: Bits, s: Byte)
    requires Layout(file, codes, bits, true)
    requires codes[s] == [false] && forall x: Byte | x != s :: codes[x] == []
    requires forall i | 0 <= i < |bits| :: !bits[i]
    ensures |file| == 35 + (|bits| + 7) / 8
    ensures file[24] == s && file[25] == 1 && file[26] == 0
    ensures forall k | 35 <= k < |file| :: file[k] == 0
  {
    LoneEntrySize(codes, s, s);
    LoneEntrySize(codes, s, 256);
    assert HasEntryAt(file, 24, codes, s, true);
    ZeroBitsZeroBytes(file, 26, codes[s]);
    ZeroBitsZeroBytes(file, 35, bits);
  }

  // ----- The two encoders -----

  /**
   On an input and the table of its own tree both encoders succeed with the same bits, and what is
   written of them is the same bytes, although their storage may differ in size.
   */
  method EncodeBothWays(str: seq<Byte>, ghost t: Node, table: Rows)
    returns (appended: Result<BitArray>, written: Result<BitArray>)
    requires IsHuffmanTree(Counters(str), t) && FitsStorage(str)
    requires CodesOf(table) == TableOf(t) && AllZeroTails(table)
    ensures appended.Success? && fresh(appended.value) && appended.value.Valid()
    ensures written.Success? && fresh(written.value) && written.value.Valid()
    ensures appended.value.Bits() == written.value.Bits() == Coding.Encode(TableOf(t), str)
    ensures appended.value.bitIndex == written.value.bitIndex
    ensures Stored(appended.value.Value()) == Stored(written.value.Value())
  {
    TableServesInput(str, t);
    CountedEncoding(str, t);
    Encoders.FittingEncodesInBounds(TableOf(t), str);
    Encoders.ShortCodesWrittenInFull(TableOf(t));
    appended := Encoders.Encode(table, str);
    written := Encoders.EncodeFast(table, str);
    SameBitsSameStored(appended.value.Value(), written.value.Value());
  }

  // ----- The two modes of the program -----

  /** The tree construction does not overflow its counters. */
  predicate CountersFit(str: seq<Byte>) {
    |Present(Counters(str))| < 2 || Total(Counters(str)) < 4294967295
  }

  /** Below 2^32 bytes it overflows in one case only. */
  lemma ShortInputCounters(str: seq<Byte>)
    requires |str| < 4294967296
    ensures CountersFit(str) <==> |Present(Counts(str))| < 2 || |str| < 4294967295
  {
    CountersAreCounts(str);
    CountsTotal(str);
  }

  /** Histogram, then tree; throws for the greatest length and when a merge overflows. */
  method BuildTree(str: seq<Byte>) returns (r: Result<HuffmanTree>)
    requires |str| <= 18446744073709551615 && Present(Counters(str)) != {}
    ensures r.Failure? <==> |str| == 18446744073709551615 || !CountersFit(str)
    ensures r.Failure? ==> r.error == if |str| == 18446744073709551615 then InvalidLength else FrequencyOverflow
    ensures 0 < |str| < 4294967295 ==> r.Success?
    ensures |str| == 4294967295 ==> (r.Failure? <==> exists k :: 0 <= k < |str| && str[k] != str[0])
    ensures r.Success? ==> IsHuffmanTree(Counters(str), r.value.root)
  {
    ThrowCondition(str);
    var histogram := Histogram.FromData(str);
    if histogram.Failure? {
      return Failure(InvalidLength);
    }
    r := HuffmanTree.FromHistogram(histogram.value);
  }

  /** Table and bit stream of an input, as an archive in memory. */
  method EncodeInput(str: seq<Byte>, root: Node) returns (hafe: Hafe)
    requires IsHuffmanTree(Counters(str), root)
    requires FitsStorage(str) && 8 * |str| <= UINT64_MAX - 7
    ensures hafe.Valid() && Represents(hafe.table, hafe.stream.Value(), root, str)
    ensures |Present(Counters(str))| == 1 ==>
              forall i | 0 <= i < |hafe.stream.Bits()| :: !hafe.stream.Bits()[i]
  {
    TableServesInput(str, root);
    CountedEncoding(str, root);
    HuffmanSymbols(Counters(str), root);
    var table := SymbolTableOf(root);
    Encoders.ShortCodesWrittenInFull(TableOf(root));
    var stream := Encoders.EncodeFast(table, str);
    assert |stream.value.Bits()| == stream.value.bitIndex;
    hafe := new Hafe(table, stream.value);
    if |Present(Counters(str))| == 1 {
      var s :| s in Present(Counters(str));
      OneElement(Present(Counters(str)), s);
      LoneSymbolZeros(str, root, s);
    }
  }

  lemma OneElement<T>(s: set<T>, x: T)
    requires |s| == 1 && x in s
    ensures s == {x}
  {
    assert |s - {x}| == 0;
  }

  /** Two different bytes at the greatest 32-bit length are too much for the counters. */
  lemma TwoSymbolsOverflow(str: seq<Byte>, k: nat)
    requires |str| == 4294967295 && k < |str| && str[k] != str[0]
    ensures !CountersFit(str)
  {
    ShortInputCounters(str);
    PresentIsUsed(str);
    var present := Present(Counts(str));
    assert str[0] in str && str[k] in str;
    assert {str[0], str[k]} <= present;
    SubsetSize({str[0], str[k]}, present);
  }

  lemma SubsetSize<T>(a: set<T>, b: set<T>)
    requires a <= b
    ensures |a| <= |b|
  {
    assert |b| == |a| + |b - a| by {
      assert b == a + (b - a);
    }
  }

  /**
   Compresses an input with a non-zero counter; the encoding must fit the storage, whose bit length
   is a 64-bit number. Every non-empty input below 2^32 bytes is such an input; of those only the
   ones with 2^32 - 1 bytes and two different symbols throw.
   */
  method Compress(str: seq<Byte>) returns (r: Result<Bytes>)
    requires Present(Counters(str)) != {}
    requires FitsStorage(str) && 8 * |str| <= UINT64_MAX - 7
    ensures r.Failure? <==> !CountersFit(str)
    ensures r.Failure? ==> r.error == FrequencyOverflow
    ensures 0 < |str| < 4294967295 ==> r.Success?
    ensures |str| == 4294967295 ==> (r.Failure? <==> exists k :: 0 <= k < |str| && str[k] != str[0])
    ensures r.Success? ==> IsArchiveOf(r.value, str)
    ensures r.Success? ==>
              exists t: Node ::
                IsHuffmanTree(Counters(str), t) && Layout(r.value, TableOf(t), Encode(TableOf(t), str), true)
  {
    var tree := BuildTree(str);
    if tree.Failure? {
      return Failure(tree.error);
    }
    var hafe := EncodeInput(str, tree.value.root);
    var file := hafe.Write();
    ArchiveIsLaidOut(file, str);
    return Success(file);
  }

  /** The throw condition below 2^32 bytes, in numbers. */
  lemma ThrowCondition(str: seq<Byte>)
    ensures |str| < 4294967295 ==> CountersFit(str)
    ensures |str| == 4294967295 ==> (!CountersFit(str) <==> exists k :: 0 <= k < |str| && str[k] != str[0])
  {
    if |str| <= 4294967295 {
      ShortInputCounters(str);
    }
    if |str| == 4294967295 {
      if k: nat :| k < |str| && str[k] != str[0] {
        TwoSymbolsOverflow(str, k);
      } else {
        OneSymbolPresent(str);
      }
    }
  }

  lemma OneSymbolPresent(str: seq<Byte>)
    requires str != [] && forall k | 0 <= k < |str| :: str[k] == str[0]
    ensures |Present(Counts(str))| == 1
  {
    PresentIsUsed(str);
    assert Present(Counts(str)) == {str[0]};
  }

  /** What `Compress` asks for holds of every non-empty input below 2^32 bytes. */
  lemma ShortInputCompresses(str: seq<Byte>)
    requires 0 < |str| < 4294967296
    ensures Present(Counters(str)) != {} && FitsStorage(str) && 8 * |str| <= UINT64_MAX - 7
    ensures CountersFit(str) <==> |Present(Counts(str))| < 2 || |str| < 4294967295
  {
    CountersAreCounts(str);
    PresentIsUsed(str);
    assert str[0] in Present(Counters(str));
    ShortInputFits(str);
    ShortInputCounters(str);
  }

  /** So it does of the input that loses bytes, and nothing throws. */
  lemma WrappingInputCompresses(str: seq<Byte>)
    requires str == WrappingInput()
    ensures Present(Counters(str)) != {} && FitsStorage(str) && 8 * |str| <= UINT64_MAX - 7
    ensures CountersFit(str)
  {
    WrappingPresent(str);
    forall t: Node | IsHuffmanTree(Counters(str), t)
      ensures |Encode(TableOf(t), str)| <= 8 * |str|
    {
      HuffmanShape(Counters(str), t);
      HuffmanDepth(Counters(str), t);
      OneBitEach(TableOf(t), str);
    }
  }

  /**
   Decompresses any byte sequence to its meaning; in particular an archive to the counted bytes of
   its input, which are the input exactly when nothing was lost.
   */
  method Decompress(file: Bytes) returns (r: Result<seq<Byte>>)
    ensures r == Meaning(file)
    ensures forall str: seq<Byte> | IsArchiveOf(file, str) ::
              r == Success(Counted(str)) && (r == Success(str) <==> NothingLost(str))
    ensures r.Success? <==> Readable(file)
    ensures |file| < 4 || file[..4] != [0x4d, 0x61, 0x6e, 0x75] ==> r == Failure(BadMagic)
  {
    ReadArchiveExactly(file);
    ReadableExactly(file);
    var input := new InputStream(file);
    var hafe := Hafe.Read(input);
    if hafe.Failure? {
      r := Failure(hafe.error);
    } else {
      var decoded := Decoders.Decode(hafe.value.table, hafe.value.stream);
      r := Success(decoded);
    }
    forall str: seq<Byte> | IsArchiveOf(file, str)
      ensures Meaning(file) == Success(Counted(str))
      ensures Meaning(file) == Success(str) <==> NothingLost(str)
    {
      ArchiveMeaning(file, str);
      RoundTrip(file, str);
    }
  }
}
