# A verified model of the Huffman archiver

The project models the byte-oriented Huffman compressor of `main.cpp`: the histogram, the greedy
tree, the code table, the two encoders, the hashed inverse table with its greedy decoder, the bit
array underneath all of them, and the Hafe archive format. It proves that the pieces fit
together: for every non-empty input shorter than 2^32 bytes, compressing throws in exactly one case
(two or more symbols and length 2^32 - 1) and otherwise writes an archive that decompresses to the
input, for every way the priority queue may break ties. For longer inputs, whose 32-bit counters
wrap around, it proves exactly when the archive still decompresses to the input. Decompression is
specified for every byte sequence, well formed or not. Where every byte of an archive is, which byte sequences are refused
and with which error is stated in plain numbers.

`dafny verify dfyconfig.toml` checks everything.

## How it is organised

| file | content |
|---|---|
| `Common.dfy`, `Sums.dfy` | bytes, tables, errors; finite sums, powers of two, Fibonacci numbers |
| `Kraft.dfy` | Kraft's inequality on scaled integers and Huffman's exchange step |
| `HuffmanNode.dfy`, `GreedyMerge.dfy`, `HuffmanTree.dfy` | trees; merging as a relation between queues; the constructor, optimality, depth |
| `Histogram.dfy` | counting and iterating |
| `CodeTable.dfy`, `SymbolTable.dfy` | what a tree's code table is; the stack search that fills it |
| `BitArray8.dfy`, `PackedBits.dfy`, `BitArray.dfy` | one byte; the stored value of a bit array and its queries; the mutable class |
| `Coding.dfy`, `Encoder.dfy`, `InverseSymbolTable.dfy`, `Decoder.dfy` | encoding and decoding on bit sequences; the code that does it |
| `HafeFormat.dfy`, `HafeLayout.dfy`, `Hafe.dfy` | the archive on byte sequences; the same by position and as numbers; the stepwise writer and reader |
| `Pipeline.dfy` | compress, decompress, and the end-to-end results |

Queues of trees are related by `GreedyMerge.Reaches`: one queue reaches another when some sequence
of merges of two least trees leads there. `HuffmanTree.MergeAll` is proved to stay inside that
relation, and everything said about trees is proved for the whole relation, so it holds for every
tie-break.

A bit array stands for a sequence of bits (`PackedBits.BitsOf`). That all stored bits past the end
are zero is a separate predicate (`ZeroTail`), because removing a set bit breaks it
(`PoppedZeroTail`, `PopBreaksZeroTail`) and only the hash needs it.

## Where the code differs from what its text says

* The equality operator of `BitArray` returns true for non-empty arrays of equal length whose last
  bytes differ. `EqualIsNotBitEquality` is an instance, `EqualExactly` and `EqualDecidesBits` say
  for all inputs what the operator decides. `find` is right nevertheless, because rows in one bucket
  with one length have one last byte.
* The format description calls the padding of a stored code garbage, but the hash reads it. A code
  with non-zero padding is never found (`PaddingHidesCode`, `MatchExactly`); all codes of a
  table can be found exactly when all its padding is zero (`FindableExactly`). Archives written by
  the program have zero padding, so for them it makes no difference (`ZeroTailsFindable`).
* The resize guard of `operator+=` compares a capacity in bits with a size in bytes.
  `GuardMissesOverrun` is an append it lets through although the copy does not fit;
  `AppendInBoundsExactly` is the condition for all inputs. Below 2^32 bytes the encoder stays clear of it
  because the encoding takes at most eight bits a byte (`ShortInputFits`).
* The comments bound a code's length by 255 bits. With the 32-bit overflow check no code exceeds 45
  (`HuffmanDepth`).
* The counters are 32 bits wide but inputs may be longer. A byte that occurs a multiple of 2^32
  times gets no code and is dropped without an error. `RoundTrip` gives the exact condition,
  `ArchiveMeaning` what is left, and `WrappedCounterLoses` an input that is not recovered although
  compressing it does not throw (`WrappingInputCompresses`).
* A stored code length is one byte, so a written table with a code of more than 255 bits is not
  read back; `TableRoundTripExactly` says that these are the only such tables.
* The byte count `bytes_required` is a 64-bit sum that wraps around for the seven greatest lengths
  (`ByteCountExactly`); a bit array made of a vector then claims more bits than it has
  (`BitArray.FromBytes`). The archive reader never gets there, because it reads no bytes for such a
  length and refuses an empty vector.
* An empty bit stream can be written, but reading it back throws (`ArchiveRoundTrip`).

## Model

| member | source | states |
|---|---|---|
| Histograms.Histogram.FromData | include/Histogram.hpp:67-74 | every counter holds the number of occurrences modulo 2^32; only the greatest 64-bit length throws |
| Histograms.CountersAreCounts | include/Histogram.hpp:72-73 | below 2^32 bytes no counter wraps around |
| Histograms.CountsTotal | include/Histogram.hpp:72-73 | the counts add up to the input length |
| Histograms.HistogramIterator.constructor | include/Histogram.hpp:31-37 | iteration starts at the first symbol that occurs, or at the end; a start past the end is kept |
| Histograms.HistogramIterator.Current | include/Histogram.hpp:39-45 | symbol and frequency, or a throw at the end |
| Histograms.HistogramIterator.Advance | include/Histogram.hpp:47-50 | moves to the next symbol that occurs, whatever value lies behind the counters |
| HuffmanNode.Merge | include/HuffmanNode.hpp:39-52 | merging throws exactly when the sum reaches 2^32 - 1; the first node becomes the left child |
| HuffmanNode.NodesAndLeaves | include/HuffmanNode.hpp:39-52 | a tree with k leaves has 2k - 1 nodes and is less than k high |
| HuffmanTrees.PopLeast | include/HuffmanTree.hpp:68-69 | the queue hands out some tree of least weight |
| HuffmanTrees.HuffmanTree.CollectLeaves | include/HuffmanTree.hpp:71-78 | the initial queue has one leaf for every symbol that occurs |
| HuffmanTrees.PopsMakeStep | include/HuffmanTree.hpp:82-88 | two pops and the push of the join are one step of the merge relation |
| HuffmanTrees.HuffmanTree.MergeLeast | include/HuffmanTree.hpp:82-88 | one iteration is such a step, or throws with a total weight of at least 2^32 - 1 |
| HuffmanTrees.HuffmanTree.MergeAll | include/HuffmanTree.hpp:80-91 | throws exactly when there are two trees and the total weight reaches 2^32 - 1; otherwise the root is reachable by merging least pairs |
| HuffmanTrees.HuffmanTree.FromHistogram | include/HuffmanTree.hpp:53-93 | throws exactly for at least two symbols with total frequency 2^32 - 1 or more; otherwise yields a Huffman tree of the histogram |
| GreedyMerge.ReachesConserves | include/HuffmanTree.hpp:80-89 | every reachable queue has the same leaves and total weight; each merge trades one entry for one node |
| GreedyMerge.ReachesOptimal | include/HuffmanTree.hpp:80-89 | lengths for a queue can be carried to every reachable queue without raising the cost |
| GreedyMerge.StepKeepsFibonacci | include/HuffmanTree.hpp:80-89 | the children of queued trees weigh no more than any queued tree, after every merge |
| GreedyMerge.StepKeepsLeftLighter | include/HuffmanTree.hpp:82-88 | the tree popped first is no heavier than the second and becomes the left child |
| GreedyMerge.ReachesLeftLighter | include/HuffmanTree.hpp:80-89 | in every reachable queue no left child is heavier than its sibling |
| GreedyMerge.ReachesFibonacci | include/HuffmanTree.hpp:80-89 | in every reachable queue a tree of height h weighs at least Fib(h + 2) |
| Kraft.Exchange | include/HuffmanTree.hpp:55-66 | merging the two lightest weights keeps Kraft's inequality and never costs more |
| HuffmanTrees.QueueConserves | include/HuffmanTree.hpp:71-89 | at each iteration the leaves are exactly the non-zero histogram entries and the weights sum to the total |
| HuffmanTrees.HuffmanLeaves | include/HuffmanTree.hpp:80-91 | root frequency is the total, 2k - 1 nodes for k symbols, leaves are the histogram entries |
| HuffmanTrees.HuffmanSymbols | include/HuffmanTree.hpp:71-91 | no symbol on two leaves, exactly the occurring symbols, each with its frequency |
| HuffmanTrees.HuffmanOptimal | include/HuffmanTree.hpp:80-91 | the table's lengths satisfy Kraft's inequality and no assignment that does has a smaller total |
| HuffmanTrees.HuffmanTableCost | include/HuffmanTree.hpp:80-91 | for two or more symbols the total code length is the sum of the internal frequencies |
| HuffmanTrees.HuffmanFitsBytes | include/encoder/Encoder.hpp:25-49 | the total code length is at most eight times the total frequency |
| HuffmanTrees.HuffmanFibonacci | include/HuffmanTree.hpp:80-89 | the root weighs at least Fib(height + 2) |
| HuffmanTrees.HuffmanHeight | include/HuffmanTree.hpp:80-89 | height at most 45 without overflow, and always below the number of symbols |
| HuffmanTrees.HuffmanDepth | include/HuffmanCode.hpp:51-77 | no code exceeds 255 bits, none exceeds 45 when no overflow was detected |
| HuffmanTrees.HuffmanLongest | tests/huffman_test.cpp:35-38 | for two or more symbols the longest code has as many bits as the tree is high |
| HuffmanTrees.HuffmanLeftLighter | include/HuffmanTree.hpp:80-91 | in a finished tree no left child is heavier than its sibling |
| HuffmanTrees.HuffmanZeroLighter | include/SymbolTable.hpp:84-92 | after any common bits, the codes that go on with 0 weigh no more than those that go on with 1 |
| HuffmanTrees.HuffmanLoneSymbol | include/SymbolTable.hpp:69-72 | a lone symbol has the code 0 |
| HuffmanTrees.HuffmanTwoSymbols | include/HuffmanTree.hpp:82-87 | of two symbols the rarer has the code 0, the other 1 |
| HuffmanTrees.HuffmanTree.GetHeight | include/HuffmanTree.hpp:20-31 | the cached height is the height |
| HuffmanTrees.HuffmanTree.Visit | include/HuffmanNode.hpp:19-27 | the depth-first search with the greatest-depth callback computes the maximum |
| CodeTable.CodeReachesLeaf | include/SymbolTable.hpp:74-94 | following a symbol's code from the root ends at its leaf |
| CodeTable.LeafPathIsCode | include/SymbolTable.hpp:74-94 | a path to a leaf is the code of that leaf's symbol |
| CodeTable.TableIsPrefixFree | include/SymbolTable.hpp:74-94 | exactly the tree's symbols have codes, and no code is a prefix of another |
| CodeTable.TableKraftEquality | include/SymbolTable.hpp:74-94 | with two or more leaves the scaled Kraft sum of the codes is exactly one |
| CodeTable.KraftInequality | include/SymbolTable.hpp:74-94 | the lengths of every prefix-free table satisfy Kraft's inequality |
| CodeTable.LongestCodeIsHeight | include/SymbolTable.hpp:116-124 | the greatest code length is the height |
| CodeTable.WeightedPathLength | include/HuffmanTree.hpp:80-91 | frequency times depth over the leaves is the sum of the internal frequencies |
| CodeTable.SubtreeWeight | include/SymbolTable.hpp:74-94 | the symbols whose codes start with a path weigh what the node at its end weighs |
| SymbolTables.EmptyRows | include/SymbolTable.hpp:66 | 256 separate rows with zero storage |
| SymbolTables.PushChildren | include/SymbolTable.hpp:84-92 | the pushed paths are the parent's path with one edge more |
| SymbolTables.StoreCode | include/SymbolTable.hpp:79-82 | the path is copied into the leaf's row and no other row changes |
| SymbolTables.Visit | include/SymbolTable.hpp:76-92 | one iteration keeps the search invariant and shrinks the nodes under the stack |
| SymbolTables.FillRows | include/SymbolTable.hpp:74-94 | the stack search terminates and fills every row with the recursive definition's code |
| SymbolTables.BuildSymbolTable | include/SymbolTable.hpp:61-97 | the rows are the table of the tree, absent symbols empty, tails zero |
| SymbolTables.SymbolTableOf | include/SymbolTable.hpp:36 | the finished table |
| SymbolTables.Longest | include/SymbolTable.hpp:116-124 | the first row of greatest length |
| BitArray8.PutAt | include/bitarray/BitArray8.hpp:11-31 | writing a bit sets it and leaves the other seven alone |
| BitArray8.AtNumber | include/bitarray/BitArray8.hpp:24-27 | bit 0 of a byte is worth 128, bit 7 is worth 1 |
| BitArray8.SameBits | include/bitarray/BitArray8.hpp:24-27 | eight equal bits make equal bytes |
| BitArray8.TakeFewSame | include/bitarray/BitArray8.hpp:42-45 | two cut-down bytes are equal exactly when the kept bits are |
| PackedBits.SameBack | include/bitarray/BitArray.hpp:256-267 | the last byte without padding is equal exactly when its bits in use are |
| PackedBits.ByteCountExactly | include/math/math.hpp:25-27 | the 64-bit byte count is right except for the seven greatest lengths, where it is zero |
| PackedBits.EqualExactly | include/bitarray/BitArray.hpp:138-152 | what the equality operator decides, for all arrays |
| PackedBits.EqualIsNotBitEquality | include/bitarray/BitArray.hpp:143-144 | an instance where different bits compare equal |
| PackedBits.EqualDecidesBits | include/bitarray/BitArray.hpp:138-152 | the operator is bit equality exactly when the lengths differ or the last bytes agree |
| PackedBits.StoredDeterminesBits | include/bitarray/BitArray.hpp:35-37 | the bytes in use determine the bits |
| PackedBits.BitsDetermineStored | include/bitarray/BitArray.hpp:121-132 | with zero tails the bits determine the bytes in use |
| PackedBits.SameBitsSameStored | include/encoder/Encoder.hpp:13-49 | zero-tail arrays with the same bits have the same length and the same bytes in use |
| PackedBits.SameBucketEqualExactly | include/InverseSymbolTable.hpp:53-55 | same bucket and operator equality mean same bits and same raw last byte |
| BitArrays.WriteBitAt | include/bitarray/BitArray.hpp:174-178 | writing bit i changes that bit only |
| BitArrays.BitArray.Create | include/bitarray/BitArray.hpp:62-70 | no bits in use and enough zero bytes, or a throw exactly for zero bits |
| BitArrays.BitArray.FromBytes | include/bitarray/BitArray.hpp:92-112 | takes over a vector, or throws exactly when it is empty or shorter than the 64-bit byte count; the result is valid exactly when the vector has the bits |
| BitArrays.BitArray.Copy | include/bitarray/BitArray.hpp:117-119 | a copy has the same bits and a zero tail if the original has |
| BitArrays.BitArray.Assign | include/bitarray/BitArray.hpp:121-132 | the same bits; the tail is zero when source tail and old storage are |
| BitArrays.BitArray.Put | include/bitarray/BitArray.hpp:174-178 | one bit changes, all others stay |
| BitArrays.BitArray.SetBitLength | include/bitarray/BitArray.hpp:241-243 | declares the bits in use, unchecked; the array stays valid exactly when the capacity covers them |
| BitArrays.BitArray.Clear | include/bitarray/BitArray.hpp:158-165 | empty, one zero byte |
| BitArrays.BitArray.PushBack | include/bitarray/BitArray.hpp:185-194 | appends one bit, keeps room for the next and a zero tail |
| BitArrays.BitArray.PopBack | include/bitarray/BitArray.hpp:198-201 | drops the last bit; the tail is zero afterwards exactly when it was and the bit was not set |
| BitArrays.PoppedZeroTail | include/bitarray/BitArray.hpp:198-201 | dropping a bit leaves a zero tail exactly when the tail was zero and so was the bit |
| BitArrays.PopBreaksZeroTail | include/bitarray/BitArray.hpp:198-201 | an instance where dropping a set bit breaks the zero tail |
| BitArrays.BitArray.Append | include/bitarray/BitArray.hpp:342-372 | concatenates in both branches, keeps a zero tail and has the computed storage size, if the block copy is in bounds |
| BitArrays.AppendInBoundsExactly | include/bitarray/BitArray.hpp:352-361 | the block copy runs past the storage exactly when the bytes needed exceed the bytes there are but not eight times as many; the size after the guard |
| BitArrays.GuardMissesOverrun | include/bitarray/BitArray.hpp:357 | an instance the guard lets through |
| BitArrays.RoomIsEnough | include/bitarray/BitArray.hpp:352-361 | room for all bits keeps the copy in bounds |
| Coding.EncodedLength | include/encoder/Encoder.hpp:33-45 | the encoded length is the sum of frequency times code length |
| Coding.DecodeParses | include/decoder/Decoder.hpp:22-31 | on every bit stream, output and token account for the bits read and no code starts the token |
| Coding.ParseUnique | include/decoder/Decoder.hpp:22-31 | on every table a bit stream has one parse into symbols with no other code in front of theirs and no earlier symbol with the same |
| Coding.DecodeExactly | include/decoder/Decoder.hpp:22-31 | on every table and bit stream the greedy decoder yields exactly that one parse; for a prefix-free table every parse is it |
| Coding.DecodesFirst | include/decoder/Decoder.hpp:22-31 | no decoded symbol has another code in front of its own, and of several symbols with one code the first is decoded |
| Coding.DecodeEncode | include/decoder/Decoder.hpp:15-34 | decoding an encoding gives the input back |
| Coding.DecodeEncodeAny | include/decoder/Decoder.hpp:15-34 | decoding any input's encoding gives the bytes that have a code, all of them exactly when each has one |
| Coding.EncodeOnly | include/encoder/Encoder.hpp:19-20 | bytes without a code leave no trace in the encoding |
| Coding.TokenIsCodePrefix | include/decoder/Decoder.hpp:24-25 | while an encoding is read the token is a proper prefix of a code |
| Encoders.Encode | include/encoder/Encoder.hpp:13-23 | the concatenated codes, zero tail kept, whenever every append stays in bounds; throws exactly on empty input |
| Encoders.AppendCode | include/encoder/Encoder.hpp:19-20 | each append adds the byte's code and grows the storage as computed |
| Encoders.FittingEncodesInBounds | include/encoder/Encoder.hpp:15-20 | at most eight bits per input byte keep every append in bounds |
| Encoders.EncodeFast | include/encoder/Encoder.hpp:25-49 | the same bits in storage of exactly the input's length, every write in bounds |
| Encoders.WriteCode | include/encoder/Encoder.hpp:43-44 | the inner loop writes the code after the bits written so far, its length cut to eight bits |
| Coding.OneBitCodes | include/encoder/Encoder.hpp:33-45 | with one-bit codes bit i of the encoding is the code of byte i |
| Encoders.ShortCodesWrittenInFull | include/encoder/Encoder.hpp:43 | the eight-bit counter loses nothing exactly when no code exceeds 255 bits |
| InverseSymbolTables.MatchExactly | include/InverseSymbolTable.hpp:14-26 | a row is found exactly when it has the token's bits and raw last byte |
| InverseSymbolTables.PaddingHidesCode | README.md:47-53 | an instance where a code with non-zero padding is not found |
| InverseSymbolTables.MatchIsBitEquality | include/InverseSymbolTable.hpp:14-26 | for zero-tail tokens: found exactly when the bits agree and the row's padding is zero |
| InverseSymbolTables.FirstMatchIsLookup | include/InverseSymbolTable.hpp:14-26 | the hashed search agrees with looking the bits up in the plain table |
| InverseSymbolTables.FindableExactly | include/InverseSymbolTable.hpp:53-55 | every code of a table can be found exactly when all padding is zero |
| InverseSymbolTables.ZeroTailsFindable | include/InverseSymbolTable.hpp:53-55 | in zero-tail tables every code can be found |
| InverseSymbolTables.InverseSymbolTable.constructor | include/InverseSymbolTable.hpp:58-65 | every non-empty row is in its bucket, in symbol order |
| InverseSymbolTables.InverseSymbolTable.InsertUnique | include/InverseSymbolTable.hpp:67-70 | one more row is indexed |
| InverseSymbolTables.InverseSymbolTable.Find | include/InverseSymbolTable.hpp:14-26 | the first matching row, or nothing when none matches |
| Decoders.Feed | include/decoder/Decoder.hpp:22-31 | one iteration follows the reference decoder and keeps the token's tail zero |
| Decoders.Decode | include/decoder/Decoder.hpp:15-34 | on every table and bit stream the reference decoder's output for the codes that can be found |
| HafeFormat.DiskSizeIsEntries | include/hafe_file_format/Hafe.hpp:215-230 | the computed size is the bytes the entries take |
| HafeFormat.TableRoundTrip | include/hafe_file_format/Hafe.hpp:162-269 | all 256 rows come back and the entry loop stops exactly at the size |
| HafeFormat.TableRoundTripExactly | include/hafe_file_format/Hafe.hpp:162-269 | the codes of a written table come back exactly when none has more than 255 bits |
| HafeFormat.ReadEntriesExactly | include/hafe_file_format/Hafe.hpp:207-210 | on any data the entry loop succeeds exactly when the announced bytes are there and split into entries; those are stored and the rest is left; otherwise the error says whether an entry of zero bits was met |
| HafeFormat.LastEntryStays | include/hafe_file_format/Hafe.hpp:203 | of two entries for one symbol the later one stays, other rows are left alone |
| HafeFormat.RereadSame | include/hafe_file_format/Hafe.hpp:199-203 | rereading keeps bits and zero tail |
| HafeFormat.ArchiveRoundTrip | include/hafe_file_format/Hafe.hpp:97-157 | reading what was written gives rows and stream back, exactly when the stream is not empty |
| HafeFormat.ArchiveDetermined | include/hafe_file_format/Hafe.hpp:134-157 | codes and encoded bits determine the archive |
| HafeLayout.ArchiveLayout | include/hafe_file_format/Hafe.hpp:134-157 | every byte of an archive by position: magic, reserved bytes, size, for each code its entry with symbol, length and bits, bit length, bit stream; first bits are worth most, first bytes of numbers least |
| HafeLayout.LayoutDetermines | include/hafe_file_format/Hafe.hpp:134-157 | with zero padding that fixes every byte |
| HafeLayout.ArchiveExactly | include/hafe_file_format/Hafe.hpp:134-157 | with zero tails the archive is the one byte sequence with that layout |
| HafeLayout.ReadArchiveExactly | include/hafe_file_format/Hafe.hpp:97-131 | for any bytes the error of the first missing or malformed part, or the table and stream read, with numbers as sums of the file's bytes |
| HafeLayout.ReadableExactly | include/hafe_file_format/Hafe.hpp:97-131 | exactly which bytes are read without an error |
| HafeFiles.CalcSymbolTableDiskSize | include/hafe_file_format/Hafe.hpp:215-230 | the size of the entries modulo 2^32 |
| HafeFiles.WriteSymbolTable | include/hafe_file_format/Hafe.hpp:233-269 | size, then the entries of the non-empty rows in order |
| HafeFiles.WriteEntry | include/hafe_file_format/Hafe.hpp:251-260 | symbol, length byte, bytes in use |
| HafeFiles.ReadNextEntry | include/hafe_file_format/Hafe.hpp:173-205 | one entry into its row, or the error of the first missing part |
| HafeFiles.ReadSymbolTable | include/hafe_file_format/Hafe.hpp:162-213 | the rows read and the position reached, or the error |
| HafeFiles.ReadBitStream | include/hafe_file_format/Hafe.hpp:115-130 | the stream, or the error; the 64-bit size sum may wrap |
| HafeFiles.Hafe.Write | include/hafe_file_format/Hafe.hpp:134-157 | the archive's bytes |
| HafeFiles.Hafe.Read | include/hafe_file_format/Hafe.hpp:97-131 | table and stream of any byte sequence, or the error |
| Pipeline.TableServesInput | include/encoder/Encoder.hpp:54-59 | the table of an input is prefix-free, codes exactly the bytes with a non-zero counter, with at most 255 bits |
| Pipeline.CountedEncoding | include/encoder/Encoder.hpp:54-59 | the encoding is that of the counted bytes and is not empty |
| Pipeline.CountedIsAll | include/Histogram.hpp:72-73 | nothing is dropped exactly when no byte occurs a multiple of 2^32 times; never below 2^32 bytes |
| Pipeline.EncodingFits | include/encoder/Encoder.hpp:13-49 | with exact counts at most eight bits per input byte, every append in bounds |
| Pipeline.ShortInputFits | include/encoder/Encoder.hpp:13-49 | below 2^32 bytes the encoding fits the storage, for every way to break ties |
| Pipeline.EncodingOptimal | include/encoder/Encoder.hpp:54-59 | the encoded length is the sum of internal frequencies, minimal among lengths that satisfy Kraft's inequality |
| Pipeline.EncodingShortest | include/encoder/Encoder.hpp:54-59 | no prefix-free table with codes for the input encodes it in fewer bits |
| Pipeline.TokenBelowMaximum | include/decoder/Decoder.hpp:24 | the asserted token bound holds while an encoding is decoded |
| Pipeline.ArchiveMeaning | main.cpp:28-47 | an archive means the bytes of its input that have a non-zero counter |
| Pipeline.RoundTrip | main.cpp:28-47 | an archive means its input exactly when no byte occurs a multiple of 2^32 times; always below 2^32 bytes |
| Pipeline.WrappedCounterLoses | include/Histogram.hpp:72-73 | an instance that is not recovered |
| Pipeline.WrappingInputCompresses | main.cpp:28-39 | that instance meets what compressing asks for and does not throw |
| Pipeline.OneArchivePerTree | include/hafe_file_format/Hafe.hpp:134-157 | input and tree determine the archive |
| Pipeline.ArchivesDiffer | main.cpp:28-47 | inputs with a common archive have the same counted bytes, so they are equal when nothing is lost |
| Pipeline.ArchiveIsLaidOut | main.cpp:28-39 | an archive of an input has the layout of a Huffman tree's codes and the encoding with them |
| Pipeline.LoneSymbolZeros | include/SymbolTable.hpp:69-72 | with one symbol left the encoding is a 0 for each counted byte |
| Pipeline.TwoSymbolBits | include/HuffmanTree.hpp:82-87 | with two symbols left each counted byte is one bit, 0 for the rarer symbol |
| Pipeline.LoneSymbolArchive | include/SymbolTable.hpp:69-72 | the entry and every stream byte of an archive with one symbol |
| Pipeline.EncodeBothWays | include/encoder/Encoder.hpp:13-49 | both encoders give the same bits, and the same bytes are written of them |
| Pipeline.BuildTree | include/encoder/Encoder.hpp:55-56 | throws exactly for the greatest length, or two or more symbols with counters adding up to 2^32 - 1 or more; below 2^32 bytes exactly at length 2^32 - 1 with two different bytes |
| Pipeline.ThrowCondition | include/HuffmanNode.hpp:45-49 | no non-empty input below 4294967295 bytes overflows the counters; one of that length does exactly when two bytes differ |
| Pipeline.ShortInputCompresses | main.cpp:28-39 | every non-empty input below 2^32 bytes can be compressed, and only two or more symbols at length 2^32 - 1 throw |
| Pipeline.EncodeInput | include/encoder/Encoder.hpp:56-68 | table and stream represent the tree's codes and the encoded input; with one symbol every bit is 0 |
| Pipeline.Compress | main.cpp:28-39 | an archive of the input, laid out as described, or the overflow; the throw condition in numbers |
| Pipeline.Decompress | main.cpp:42-47 | the meaning of any byte sequence; an archive gives its input exactly when nothing was lost; succeeds exactly on readable bytes, never without the magic number |

## Left out

- Pipeline.Compress: excludes inputs without a non-zero counter, in particular the empty one (the code reads the top of an empty queue), inputs whose encoding does not fit the storage (possible only from 2^32 bytes on; the code writes past the storage) and inputs of 2^61 bytes or more (the storage size in bits is a 64-bit number).
- Pipeline.BuildTree: excludes inputs without a non-zero counter, for the same reason.
- Pipeline.EncodeInput: excludes encodings that do not fit the storage and inputs of 2^61 bytes or more, for the same reasons.
- BitArrays.BitArray.Create: the 64-bit wrap of the byte count for the seven greatest lengths is not modelled here, because the encoders and the empty Huffman codes never ask for such a length.
- The check that a shared symbol table has 256 rows: the type of a table fixes its size.
- BitArrays.BitArray.Append: takes the appended array by value, so appending an array to itself, which the source asserts against, is not expressed.
- SymbolTables.SymbolTableOf: a finished table, and the copies in the inverse table, are never changed, so they are kept as values; sharing them by reference is not modelled. The rows are mutable objects only while the search fills them.
- HuffmanTrees.HuffmanTree.FromHistogram: the early exit on an empty queue between the two pops is unreachable and has no counterpart; the vector that owns the nodes is ownership only.
- HafeFiles.Hafe.Read: the several exception types of a failed stream read are one error per missing part.
- Decoders.Decode: the debug assertion on the token length is not a precondition; that it holds for encodings is `TokenBelowMaximum`.
- 64-bit lengths and indices are unbounded numbers except where the source's sum can wrap (the stream size read from a file); byte lengths near 2^61 are out of reach of memory.
- Real streams, files and command-line handling: the program's two modes are methods on byte sequences.
- Shannon statistics, logarithms and compression ratios: floating-point figures the codec does not use.
- Printing, string conversion, bit literals and bit iterators: display and convenience only.
- Big-endian debug mode: a compile-time variant of the same format.
