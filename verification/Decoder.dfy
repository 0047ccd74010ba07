/**
 The greedy decoder: it grows a token bit by bit and looks it up in the hashed inverse table.
 */
module Decoders {
  import opened Common
  import opened CodeTable
  import opened Coding
  import opened PackedBits
  import opened BitArrays
  import opened InverseSymbolTables

  /** The capacity the token starts with, in bits. */
  const TOKEN_CAPACITY: nat := 1000 * 8 * 1

  /** The state of the decoding loop: output and token are those of the reference decoder. */
  ghost predicate Decoded(rows: Rows, bits: Bits, out: seq<Byte>, token: Packed) {
    token.Valid() && ZeroTail(token) && Coding.Decode(Findable(rows), bits) == (out, BitsOf(token))
  }

  lemma DecodedStart(rows: Rows, bits: Bits, token: Packed)
    requires token.Valid() && ZeroTail(token) && BitsOf(token) == []
    ensures Decoded(rows, bits[..0], [], token)
  {
  }

  lemma DecodedEnd(rows: Rows, bits: Bits, n: nat, out: seq<Byte>, token: Packed)
    requires n == |bits| && Decoded(rows, bits[..n], out, token)
    ensures out == Coding.Decode(Findable(rows), bits).0
  {
    assert bits[..n] == bits;
  }

  /** One bit more: the token was lengthened and looked up. */
  lemma DecodeStep(rows: Rows, bits: Bits, i: nat, out: seq<Byte>, token: Packed, longer: Packed, r: Option<Byte>)
    requires i < |bits| && Decoded(rows, bits[..i], out, token)
    requires longer.Valid() && ZeroTail(longer) && BitsOf(longer) == BitsOf(token) + [bits[i]]
    requires IsFirstMatch(rows, longer, r)
    ensures Coding.Decode(Findable(rows), bits[..i + 1])
         == (match r case Some(s) => (out + [s], []) case None => (out, BitsOf(longer)))
  {
    assert |BitsOf(longer)| > 0;
    FirstMatchIsLookup(rows, longer, r);
    assert bits[..i + 1][..i] == bits[..i];
  }

  /** One iteration: push the bit, look the token up, emit the symbol and start a new token. */
  method Feed(codes: InverseSymbolTable, token: BitArray, decoded: seq<Byte>, bit: bool, ghost bits: Bits, ghost i: nat)
    returns (out: seq<Byte>)
    requires codes.Valid() && token.Valid() && i < |bits| && bits[i] == bit
    requires Decoded(codes.source, bits[..i], decoded, token.Value())
    modifies token
    ensures token.Valid() && Decoded(codes.source, bits[..i + 1], out, token.Value())
  {
    ghost var before := token.Value();
    token.PushBack(bit);
    var p := codes.Find(token);
    DecodeStep(codes.source, bits, i, decoded, before, token.Value(), p);
    out := decoded;
    if p.Some? {
      out := out + [p.value];
      token.Clear();
    }
  }

  /**
   On every table and every bit stream the output is that of the reference decoder for the codes
   that can be found.
   */
  method Decode(table: Rows, encoded: BitArray) returns (decoded: seq<Byte>)
    requires encoded.Valid()
    ensures decoded == Coding.Decode(Findable(table), encoded.Bits()).0
  {
    var codes := new InverseSymbolTable(table);
    decoded := [];
    var token := new BitArray(TOKEN_CAPACITY);
    ghost var bits := encoded.Bits();
    DecodedStart(table, bits, token.Value());
    for i := 0 to encoded.bitIndex
      invariant fresh(token) && token.Valid()
      invariant Decoded(table, bits[..i], decoded, token.Value())
    {
      decoded := Feed(codes, token, decoded, encoded.Get(i), bits, i);
    }
    DecodedEnd(table, bits, encoded.bitIndex, decoded, token.Value());
  }
}
