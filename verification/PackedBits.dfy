/**
 Bits packed into bytes: the value of a bit array, the queries that only read it, and how they
 relate to the bits it stands for.
 */
module PackedBits {
  import opened Common
  import opened BitArray8

  /** Storage and the number of bits in use; the storage may be larger than needed. */
  datatype Packed = Packed(bytes: seq<Byte8>, length: nat) {
    predicate Valid() {
      |bytes| >= 1 && length <= 8 * |bytes|
    }
  }

  /** How many bytes hold `bits` bits. */
  function BytesRequired(bits: nat): nat {
    (bits + 7) / 8
  }

  /** The same count as 64-bit arithmetic computes it, where the sum wraps around. */
  function ByteCount64(bits: nat): nat {
    (bits + 7) % (UINT64_MAX + 1) / 8
  }

  /** The count is right except for the seven greatest lengths, where it is zero. */
  lemma ByteCountExactly(bits: nat)
    requires bits <= UINT64_MAX
    ensures ByteCount64(bits) == BytesRequired(bits) <==> bits <= 18446744073709551608
    ensures ByteCount64(bits) == 0 <==> bits == 0 || bits > 18446744073709551608
  {
  }

  function EffectiveByteSize(length: nat): nat {
    if length == 0 then 0 else BytesRequired(length)
  }

  /** The byte that holds the last bit, or the first byte when there are no bits. */
  function LastByteIndex(length: nat): nat {
    EffectiveByteSize(length) - if EffectiveByteSize(length) != 0 then 1 else 0
  }

  predicate HasPaddingBits(length: nat) {
    length % 8 != 0
  }

  function PaddingBits(length: nat): nat {
    if HasPaddingBits(length) then 8 - length % 8 else 0
  }

  function BackByte(p: Packed): Byte8
    requires p.Valid()
  {
    p.bytes[LastByteIndex(p.length)]
  }

  /** The last byte, cut down to the bits in use when it has padding. */
  function BackByteWithoutPadding(p: Packed): Byte8
    requires p.Valid()
  {
    if HasPaddingBits(p.length) then TakeFew(BackByte(p), 8 - PaddingBits(p.length)) else BackByte(p)
  }

  /** The equality operator, branch by branch. */
  predicate Equal(p: Packed, q: Packed)
    requires p.Valid() && q.Valid()
  {
    if p.length != q.length then false
    else if BackByteWithoutPadding(p) != BackByteWithoutPadding(q) then p.length != 0
    else if EffectiveByteSize(p.length) <= 1 then true
    else p.bytes[..EffectiveByteSize(p.length) - 1] == q.bytes[..EffectiveByteSize(p.length) - 1]
  }

  function LengthByte(length: nat): Byte8 {
    (length % 256) as Byte8
  }

  function Mix(back: Byte8, length: Byte8): (b: nat)
    ensures b < SYMBOLS
  {
    (back ^ length) as nat
  }

  /** The hash of a prefix code, reduced modulo 256: its raw last byte xor its length. */
  function BucketOf(p: Packed): (b: nat)
    requires p.Valid()
    ensures b < SYMBOLS
  {
    Mix(BackByte(p), LengthByte(p.length))
  }

  /** The bytes that hold the bits in use, padding included: what is compared, copied and written. */
  function Stored(p: Packed): seq<Byte8>
    requires p.Valid()
  {
    p.bytes[..EffectiveByteSize(p.length)]
  }

  predicate BitAt(bytes: seq<Byte8>, i: nat)
    requires i < 8 * |bytes|
  {
    At(bytes[i / 8], i % 8)
  }

  /** The bits a packed value stands for. */
  function BitsOf(p: Packed): (b: Bits)
    requires p.Valid()
    ensures |b| == p.length
    ensures forall i | 0 <= i < p.length :: b[i] == BitAt(p.bytes, i)
  {
    seq(p.length, i requires 0 <= i < p.length => BitAt(p.bytes, i))
  }

  /** Every stored bit past the last one in use is zero. */
  predicate ZeroTail(p: Packed) {
    forall i | p.length <= i < 8 * |p.bytes| :: !BitAt(p.bytes, i)
  }

  /** One packed code per symbol. */
  type Rows = r: seq<Packed> | |r| == SYMBOLS && forall s: Byte :: r[s].Valid()
    witness seq(SYMBOLS, i => Packed([0], 0))

  function CodesOf(rows: Rows): (t: Table)
    ensures forall s: Byte :: t[s] == BitsOf(rows[s])
  {
    seq(SYMBOLS, s requires 0 <= s < SYMBOLS => BitsOf(rows[s]))
  }

  predicate AllZeroTails(rows: Rows) {
    forall s: Byte :: ZeroTail(rows[s])
  }

  // ----- Bytes and bits -----

  lemma BitOfByte(bytes: seq<Byte8>, k: nat, i: nat)
    requires k < |bytes| && i < 8
    ensures BitAt(bytes, 8 * k + i) == At(bytes[k], i)
  {
    assert (8 * k + i) / 8 == k && (8 * k + i) % 8 == i;
  }

  /** The first `n` bits of byte `k` agree in both. */
  lemma AgreeBits(a: seq<Byte8>, b: seq<Byte8>, k: nat, n: nat)
    requires k < |a| && k < |b| && n <= 8
    ensures Agree(a[k], b[k], n) <==> forall i | 8 * k <= i < 8 * k + n :: BitAt(a, i) == BitAt(b, i)
  {
    AgreeAt(a[k], b[k], n);
    forall i | 8 * k <= i < 8 * k + n
      ensures BitAt(a, i) == At(a[k], i - 8 * k) && BitAt(b, i) == At(b[k], i - 8 * k)
    {
      BitOfByte(a, k, i - 8 * k);
      BitOfByte(b, k, i - 8 * k);
    }
    if forall i | 8 * k <= i < 8 * k + n :: BitAt(a, i) == BitAt(b, i) {
      forall i | 0 <= i < n
        ensures At(a[k], i) == At(b[k], i)
      {
        assert BitAt(a, 8 * k + i) == BitAt(b, 8 * k + i);
      }
    }
  }

  lemma SameByte(a: seq<Byte8>, b: seq<Byte8>, k: nat)
    requires k < |a| && k < |b|
    ensures a[k] == b[k] <==> forall i | 8 * k <= i < 8 * k + 8 :: BitAt(a, i) == BitAt(b, i)
  {
    AgreeBits(a, b, k, 8);
    AgreeAt(a[k], b[k], 8);
    if Agree(a[k], b[k], 8) {
      SameBits(a[k], b[k]);
    }
  }

  /** Prefixes of whole bytes are equal exactly when their bits are. */
  lemma SamePrefix(a: seq<Byte8>, b: seq<Byte8>, n: nat)
    requires n <= |a| && n <= |b|
    ensures a[..n] == b[..n] <==> forall i | 0 <= i < 8 * n :: BitAt(a, i) == BitAt(b, i)
  {
    if a[..n] == b[..n] {
      forall i | 0 <= i < 8 * n
        ensures BitAt(a, i) == BitAt(b, i)
      {
        assert a[..n][i / 8] == b[..n][i / 8];
      }
    }
    if forall i | 0 <= i < 8 * n :: BitAt(a, i) == BitAt(b, i) {
      forall k | 0 <= k < n
        ensures a[k] == b[k]
      {
        SameByte(a, b, k);
      }
    }
  }

  /** The last byte without padding holds exactly the bits that do not fill earlier bytes. */
  lemma SameBack(p: Packed, q: Packed)
    requires p.Valid() && q.Valid() && p.length == q.length > 0
    ensures BackByteWithoutPadding(p) == BackByteWithoutPadding(q)
       <==> forall i | 8 * LastByteIndex(p.length) <= i < p.length :: BitAt(p.bytes, i) == BitAt(q.bytes, i)
  {
    var k, n := LastByteIndex(p.length), p.length % 8;
    if HasPaddingBits(p.length) {
      assert p.length == 8 * k + n && 8 - PaddingBits(p.length) == n;
      TakeFewSame(p.bytes[k], q.bytes[k], n);
      AgreeBits(p.bytes, q.bytes, k, n);
      assert BackByteWithoutPadding(p) == TakeFew(p.bytes[k], n);
      assert BackByteWithoutPadding(q) == TakeFew(q.bytes[k], n);
    } else {
      assert p.length == 8 * k + 8;
      SameByte(p.bytes, q.bytes, k);
    }
  }

  /** Last byte and earlier bytes together are all the bits. */
  lemma SameBitsSplit(p: Packed, q: Packed)
    requires p.Valid() && q.Valid() && p.length == q.length > 0
    ensures BitsOf(p) == BitsOf(q)
       <==> && BackByteWithoutPadding(p) == BackByteWithoutPadding(q)
            && p.bytes[..LastByteIndex(p.length)] == q.bytes[..LastByteIndex(p.length)]
  {
    var k := LastByteIndex(p.length);
    SameBack(p, q);
    SamePrefix(p.bytes, q.bytes, k);
    if forall i | 0 <= i < p.length :: BitAt(p.bytes, i) == BitAt(q.bytes, i) {
      assert BitsOf(p) == BitsOf(q);
    } else {
      var i :| 0 <= i < p.length && BitAt(p.bytes, i) != BitAt(q.bytes, i);
      assert BitsOf(p)[i] != BitsOf(q)[i];
    }
  }

  // ----- Equality -----

  /**
   What the equality operator decides: equal lengths, and equal bits or, for non-empty arrays, last
   bytes that differ.
   */
  lemma EqualExactly(p: Packed, q: Packed)
    requires p.Valid() && q.Valid()
    ensures p.length > 0 ==>
              (Equal(p, q) <==>
                p.length == q.length
                && (BitsOf(p) == BitsOf(q) || BackByteWithoutPadding(p) != BackByteWithoutPadding(q)))
    ensures p.length == 0 ==> (Equal(p, q) <==> q.length == 0 && p.bytes[0] == q.bytes[0])
  {
    if p.length == q.length > 0 {
      SameBitsSplit(p, q);
    }
  }

  /** Two one-bit arrays with different bits that compare equal. */
  lemma EqualIsNotBitEquality()
    ensures var p, q := Packed([0x80], 1), Packed([0x00], 1);
            p.Valid() && q.Valid() && Equal(p, q) && BitsOf(p) != BitsOf(q)
  {
    var p, q := Packed([0x80], 1), Packed([0x00], 1);
    assert BitsOf(p)[0] != BitsOf(q)[0];
  }

  /**
   For non-empty arrays the operator decides bit equality exactly when the lengths differ or the
   last bytes, cut down to the bits in use, agree.
   */
  lemma EqualDecidesBits(p: Packed, q: Packed)
    requires p.Valid() && q.Valid() && p.length > 0
    ensures (Equal(p, q) <==> BitsOf(p) == BitsOf(q))
       <==> p.length != q.length || BackByteWithoutPadding(p) == BackByteWithoutPadding(q)
  {
    EqualExactly(p, q);
    if p.length == q.length {
      SameBitsSplit(p, q);
    } else {
      assert |BitsOf(p)| != |BitsOf(q)|;
    }
  }

  // ----- Zero tails -----

  lemma StoredDeterminesBits(p: Packed, q: Packed)
    requires p.Valid() && q.Valid() && p.length == q.length
    requires Stored(p) == Stored(q)
    ensures BitsOf(p) == BitsOf(q)
  {
    SamePrefix(p.bytes, q.bytes, EffectiveByteSize(p.length));
  }

  /** With zero tails the stored bytes are determined by the bits. */
  lemma BitsDetermineStored(p: Packed, q: Packed)
    requires p.Valid() && q.Valid() && ZeroTail(p) && ZeroTail(q)
    requires BitsOf(p) == BitsOf(q)
    ensures Stored(p) == Stored(q)
  {
    assert p.length == |BitsOf(p)| == |BitsOf(q)| == q.length;
    var n := EffectiveByteSize(p.length);
    forall i | 0 <= i < 8 * n
      ensures BitAt(p.bytes, i) == BitAt(q.bytes, i)
    {
      if i < p.length {
        assert BitsOf(p)[i] == BitsOf(q)[i];
      }
    }
    SamePrefix(p.bytes, q.bytes, n);
  }

  /** Zero-tail arrays with the same bits have the same length and the same bytes in use. */
  lemma SameBitsSameStored(p: Packed, q: Packed)
    requires p.Valid() && q.Valid() && ZeroTail(p) && ZeroTail(q) && BitsOf(p) == BitsOf(q)
    ensures p.length == q.length && Stored(p) == Stored(q)
  {
    assert p.length == |BitsOf(p)| == |BitsOf(q)| == q.length;
    BitsDetermineStored(p, q);
  }

  lemma MixInjective(a: Byte8, b: Byte8, length: Byte8)
    requires Mix(a, length) == Mix(b, length)
    ensures a == b
  {
    XorIndex(a, b, length);
  }

  /**
   The bucket repairs the equality operator: same bucket and equal means the same bits and the same
   raw last byte, padding included.
   */
  lemma SameBucketEqualExactly(p: Packed, q: Packed)
    requires p.Valid() && q.Valid() && p.length > 0
    ensures BucketOf(p) == BucketOf(q) && Equal(p, q) <==> BitsOf(p) == BitsOf(q) && BackByte(p) == BackByte(q)
  {
    EqualExactly(p, q);
    assert |BitsOf(p)| == p.length && |BitsOf(q)| == q.length;
    if p.length == q.length && BucketOf(p) == BucketOf(q) {
      MixInjective(BackByte(p), BackByte(q), LengthByte(p.length));
    }
  }
}
