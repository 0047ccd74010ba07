/**
 The two encoders. Both write into storage sized from the input length, eight bits a byte.
 */
module Encoders {
  import opened Common
  import opened CodeTable
  import opened Coding
  import opened PackedBits
  import opened BitArrays

  /** One more byte of input adds its code, and the encoding so far never outgrows the whole. */
  lemma NextCode(codes: Table, str: seq<Byte>, n: nat)
    requires n < |str|
    ensures Coding.Encode(codes, str[..n + 1]) == Coding.Encode(codes, str[..n]) + codes[str[n]]
    ensures |Coding.Encode(codes, str[..n])| + |codes[str[n]]| <= |Coding.Encode(codes, str)|
  {
    EncodePrefix(codes, str, n + 1);
    assert str[..n + 1] == str[..n] + [str[n]];
    EncodeAppend(codes, str[..n], str[n]);
  }

  /** The bytes of storage after the codes of `done` were appended to `start` empty bytes. */
  function StorageAfter(codes: Table, start: nat, done: seq<Byte>): nat {
    if done == [] then start
    else
      var front, x := done[..|done| - 1], done[|done| - 1];
      SizeAfterAppend(StorageAfter(codes, start, front), |Coding.Encode(codes, front)|, |codes[x]|)
  }

  /** Every append of the encoder stays in bounds, with storage that starts at the input's length. */
  predicate EncodesInBounds(codes: Table, str: seq<Byte>) {
    forall n | 0 <= n < |str| ::
      AppendInBounds(StorageAfter(codes, |str|, str[..n]), |Coding.Encode(codes, str[..n])|, |codes[str[n]]|)
  }

  lemma {:induction false} StorageNeverShrinks(codes: Table, start: nat, done: seq<Byte>)
    ensures StorageAfter(codes, start, done) >= start
  {
    if done != [] {
      var front, x := done[..|done| - 1], done[|done| - 1];
      StorageNeverShrinks(codes, start, front);
      SizeGrows(StorageAfter(codes, start, front), |Coding.Encode(codes, front)|, |codes[x]|);
    }
  }

  lemma SizeGrows(size: nat, length: nat, added: nat)
    ensures SizeAfterAppend(size, length, added) >= size
  {
  }

  /** An encoding of at most eight bits per input byte stays in bounds. */
  lemma FittingEncodesInBounds(codes: Table, str: seq<Byte>)
    requires |Coding.Encode(codes, str)| <= 8 * |str|
    ensures EncodesInBounds(codes, str)
  {
    forall n | 0 <= n < |str|
      ensures AppendInBounds(StorageAfter(codes, |str|, str[..n]), |Coding.Encode(codes, str[..n])|, |codes[str[n]]|)
    {
      StorageNeverShrinks(codes, |str|, str[..n]);
      NextCode(codes, str, n);
      RoomIsEnough(StorageAfter(codes, |str|, str[..n]), |Coding.Encode(codes, str[..n])|, |codes[str[n]]|);
    }
  }

  /** Appends code after code; empty input throws because storage for zero bits is refused. */
  method Encode(table: Rows, str: seq<Byte>) returns (r: Result<BitArray>)
    requires EncodesInBounds(CodesOf(table), str)
    ensures r.Failure? <==> str == []
    ensures r.Success? ==>
              && fresh(r.value) && r.value.Valid() && r.value.Bits() == Coding.Encode(CodesOf(table), str)
              && (AllZeroTails(table) ==> ZeroTail(r.value.Value()))
  {
    var created := BitArray.Create(|str| * 8);
    if created.Failure? {
      return Failure(created.error);
    }
    var encoded := created.value;
    for n := 0 to |str|
      invariant fresh(encoded) && AppendedUpTo(encoded, table, str, n)
      invariant AllZeroTails(table) ==> ZeroTail(encoded.Value())
    {
      AppendCode(table, str, n, encoded);
    }
    assert str[..|str|] == str;
    return Success(encoded);
  }

  /** The first `n` codes have been appended. */
  ghost predicate AppendedUpTo(encoded: BitArray, table: Rows, str: seq<Byte>, n: nat)
    reads encoded
    requires n <= |str|
  {
    && encoded.Valid()
    && encoded.Bits() == Coding.Encode(CodesOf(table), str[..n])
    && |encoded.bytes| == StorageAfter(CodesOf(table), |str|, str[..n])
  }

  /** The loop body. */
  method AppendCode(table: Rows, str: seq<Byte>, n: nat, encoded: BitArray)
    requires n < |str| && EncodesInBounds(CodesOf(table), str)
    requires AppendedUpTo(encoded, table, str, n)
    modifies encoded
    ensures AppendedUpTo(encoded, table, str, n + 1)
    ensures AllZeroTails(table) && old(ZeroTail(encoded.Value())) ==> ZeroTail(encoded.Value())
  {
    var row := table[str[n]];
    NextCode(CodesOf(table), str, n);
    assert row.length == |BitsOf(row)| && encoded.bitIndex == |encoded.Bits()|;
    assert str[..n + 1][..n] == str[..n];
    encoded.Append(row);
  }

  /** The codes the fast encoder writes: its inner loop counts in eight bits. */
  function EightBitCounts(table: Table): (t: Table)
    ensures forall s: Byte :: t[s] == table[s][..|table[s]| % 256]
  {
    seq(SYMBOLS, s requires 0 <= s < SYMBOLS => table[s][..|table[s]| % 256])
  }

  /** Codes of at most 255 bits are written in full. */
  lemma ShortCodesWrittenInFull(table: Table)
    ensures EightBitCounts(table) == table <==> forall s: Byte :: |table[s]| <= 255
  {
    if forall s: Byte :: |table[s]| <= 255 {
      forall s: Byte
        ensures EightBitCounts(table)[s] == table[s]
      {
        assert table[s][..|table[s]|] == table[s];
      }
    } else {
      var s: Byte :| |table[s]| > 255;
      assert |EightBitCounts(table)[s]| < 256;
    }
  }

  /** Writes bit after bit without any bounds check. */
  method EncodeFast(table: Rows, str: seq<Byte>) returns (r: Result<BitArray>)
    requires |Coding.Encode(EightBitCounts(CodesOf(table)), str)| <= 8 * |str|
    ensures r.Failure? <==> str == []
    ensures r.Success? ==>
              && fresh(r.value) && r.value.Valid()
              && r.value.Bits() == Coding.Encode(EightBitCounts(CodesOf(table)), str)
              && ZeroTail(r.value.Value()) && |r.value.bytes| == |str|
  {
    var created := BitArray.Create(|str| * 8);
    if created.Failure? {
      return Failure(created.error);
    }
    var encoded := created.value;
    ghost var codes := EightBitCounts(CodesOf(table));
    var bits := 0;
    for n := 0 to |str|
      invariant fresh(encoded) && encoded.Valid() && |encoded.bytes| == |str|
      invariant WrittenUpTo(encoded.bytes, codes, str[..n], bits)
    {
      bits := WriteSymbol(table, str, n, encoded, bits);
    }
    assert str[..|str|] == str;
    encoded.SetBitLength(bits);
    WrittenBits(encoded.Value(), Coding.Encode(codes, str));
    return Success(encoded);
  }

  /** The encoding so far has been written, and `bits` counts it. */
  ghost predicate WrittenUpTo(bytes: seq<Byte8>, codes: Table, done: seq<Byte>, bits: nat) {
    Written(bytes, Coding.Encode(codes, done)) && bits == |Coding.Encode(codes, done)|
  }

  /** The outer loop's body: the room for the whole encoding is room for this code. */
  method WriteSymbol(table: Rows, str: seq<Byte>, n: nat, encoded: BitArray, start: nat) returns (bits: nat)
    requires encoded.Valid() && |encoded.bytes| == |str| && n < |str|
    requires |Coding.Encode(EightBitCounts(CodesOf(table)), str)| <= 8 * |str|
    requires WrittenUpTo(encoded.bytes, EightBitCounts(CodesOf(table)), str[..n], start)
    modifies encoded`bytes
    ensures encoded.Valid() && |encoded.bytes| == |str|
    ensures WrittenUpTo(encoded.bytes, EightBitCounts(CodesOf(table)), str[..n + 1], bits)
  {
    ghost var codes := EightBitCounts(CodesOf(table));
    NextCode(codes, str, n);
    bits := WriteCode(encoded, start, table[str[n]], Coding.Encode(codes, str[..n]));
  }

  /** The storage holds these bits, followed by zeros only. */
  predicate Written(bytes: seq<Byte8>, bits: Bits) {
    && |bits| <= 8 * |bytes|
    && forall i | 0 <= i < 8 * |bytes| :: BitAt(bytes, i) == if i < |bits| then bits[i] else false
  }

  lemma WrittenBits(p: Packed, bits: Bits)
    requires p.Valid() && p.length == |bits| && Written(p.bytes, bits)
    ensures BitsOf(p) == bits && ZeroTail(p)
  {
  }

  /** The inner loop of the fast encoder; its counter is an eight-bit number. */
  method WriteCode(encoded: BitArray, start: nat, row: Packed, ghost before: Bits) returns (bits: nat)
    requires encoded.Valid() && row.Valid() && start == |before|
    requires start + row.length % 256 <= 8 * |encoded.bytes|
    requires Written(encoded.bytes, before)
    modifies encoded`bytes
    ensures encoded.Valid() && |encoded.bytes| == |old(encoded.bytes)|
    ensures bits == start + row.length % 256
    ensures Written(encoded.bytes, before + BitsOf(row)[..row.length % 256])
  {
    bits := start;
    ghost var code := BitsOf(row);
    assert code[..0] == [] && before + [] == before;
    for b := 0 to row.length % 256
      invariant encoded.Valid() && |encoded.bytes| == |old(encoded.bytes)|
      invariant bits == start + b
      invariant Written(encoded.bytes, before + code[..b])
    {
      encoded.Put(bits, BitAt(row.bytes, b));
      bits := bits + 1;
      assert code[..b + 1] == code[..b] + [code[b]];
    }
  }
}
