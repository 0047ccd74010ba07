/**
 The growable bit array. Each method is specified by the sequence of bits the array stands for;
 a separate predicate tracks that no stored bit past the end is set.
 */
module BitArrays {
  import opened Common
  import B = BitArray8
  import opened PackedBits

  type Byte8 = B.Byte8

  /** The storage after one bit is written. */
  function WriteBit(bytes: seq<Byte8>, i: nat, value: bool): (r: seq<Byte8>)
    requires i < 8 * |bytes|
    ensures |r| == |bytes|
  {
    bytes[i / 8 := B.Put(bytes[i / 8], i % 8, value)]
  }

  /** Writing bit `i` changes that bit and no other. */
  lemma WriteBitAt(bytes: seq<Byte8>, i: nat, value: bool, j: nat)
    requires i < 8 * |bytes| && j < 8 * |bytes|
    ensures BitAt(WriteBit(bytes, i, value), j) == if i == j then value else BitAt(bytes, j)
  {
    if i / 8 == j / 8 {
      B.PutAt(bytes[i / 8], i % 8, value, j % 8);
      assert i == 8 * (i / 8) + i % 8 && j == 8 * (j / 8) + j % 8;
    }
  }

  /** `std::vector::resize`: cut off, or filled up with zero bytes. */
  function Resize(bytes: seq<Byte8>, n: nat): (r: seq<Byte8>)
    ensures |r| == n
    ensures forall k | 0 <= k < n :: r[k] == if k < |bytes| then bytes[k] else 0
  {
    if n <= |bytes| then bytes[..n] else bytes + Zeros(n - |bytes|)
  }

  function Zeros(n: nat): (r: seq<Byte8>)
    ensures |r| == n && forall k | 0 <= k < n :: r[k] == 0
  {
    seq(n, k => 0)
  }

  /** `memcpy` of `source` over `bytes` at position `at`. */
  function Overwrite(bytes: seq<Byte8>, at: nat, source: seq<Byte8>): (r: seq<Byte8>)
    requires at + |source| <= |bytes|
    ensures |r| == |bytes|
    ensures forall k | 0 <= k < |bytes| :: r[k] == if at <= k < at + |source| then source[k - at] else bytes[k]
  {
    bytes[..at] + source + bytes[at + |source|..]
  }

  lemma ZeroByteBits(bytes: seq<Byte8>, i: nat)
    requires i < 8 * |bytes| && bytes[i / 8] == 0
    ensures !BitAt(bytes, i)
  {
    B.ZeroAt(i % 8);
  }

  lemma ZeroBytesZeroTail(bytes: seq<Byte8>)
    requires forall k | 0 <= k < |bytes| :: bytes[k] == 0
    ensures ZeroTail(Packed(bytes, 0))
  {
    forall i | 0 <= i < 8 * |bytes|
      ensures !BitAt(bytes, i)
    {
      ZeroByteBits(bytes, i);
    }
  }

  /**
   The resize guard of block-wise appending `added` bits to `length` bits stored in `size` bytes: it
   compares a capacity in bits with bytes.
   */
  predicate GuardResizes(size: nat, length: nat, added: nat) {
    8 * size < EffectiveByteSize(length) + EffectiveByteSize(added)
  }

  /** The bytes of storage after appending, in each of the three branches. */
  function SizeAfterAppend(size: nat, length: nat, added: nat): nat {
    if added == 0 then size
    else if !HasPaddingBits(length) then
      if GuardResizes(size, length, added) then EffectiveByteSize(length) + EffectiveByteSize(added) else size
    else if size <= (length + added) / 8 then (length + added) / 8 + 1
    else size
  }

  /** Appending never writes past the storage. */
  predicate AppendInBounds(size: nat, length: nat, added: nat) {
    added == 0 || HasPaddingBits(length)
    || EffectiveByteSize(length) + EffectiveByteSize(added) <= SizeAfterAppend(size, length, added)
  }

  /** Nine bits appended to an empty one-byte array pass the guard, yet do not fit. */
  lemma GuardMissesOverrun()
    ensures !GuardResizes(1, 0, 9) && !AppendInBounds(1, 0, 9)
  {
  }

  /**
   The block copy runs past the storage exactly when the bytes needed exceed the bytes there are
   but not eight times as many; only above that does the guard resize.
   */
  lemma AppendInBoundsExactly(size: nat, length: nat, added: nat)
    requires added > 0 && !HasPaddingBits(length)
    ensures !AppendInBounds(size, length, added) <==> size < BytesRequired(length + added) <= 8 * size
    ensures SizeAfterAppend(size, length, added)
         == if 8 * size < BytesRequired(length + added) then BytesRequired(length + added) else size
  {
    assert EffectiveByteSize(length) + EffectiveByteSize(added) == BytesRequired(length + added);
  }

  /** Room for all the bits is enough. */
  lemma RoomIsEnough(size: nat, length: nat, added: nat)
    requires length + added <= 8 * size
    ensures AppendInBounds(size, length, added)
  {
    if added > 0 && !HasPaddingBits(length) {
      AppendInBoundsExactly(size, length, added);
    }
  }

  /** Where a bit of the copied-over storage comes from. */
  lemma OverwrittenBit(target: seq<Byte8>, at: nat, source: seq<Byte8>, i: nat)
    requires at + |source| <= |target| && i < 8 * |target|
    ensures BitAt(Overwrite(target, at, source), i)
         == if 8 * at <= i < 8 * (at + |source|) then BitAt(source, i - 8 * at) else BitAt(target, i)
  {
    if 8 * at <= i < 8 * (at + |source|) {
      assert (i - 8 * at) / 8 == i / 8 - at && (i - 8 * at) % 8 == i % 8;
    }
  }

  lemma GrownBit(bytes: seq<Byte8>, target: seq<Byte8>, i: nat)
    requires |bytes| <= |target| && i < 8 * |target|
    requires forall k | 0 <= k < |target| :: target[k] == if k < |bytes| then bytes[k] else 0
    ensures BitAt(target, i) == if i < 8 * |bytes| then BitAt(bytes, i) else false
  {
    if i >= 8 * |bytes| {
      ZeroByteBits(target, i);
    }
  }

  /** The result of the block copy, before it becomes the new storage. */
  function Appended(p: Packed, q: Packed, target: seq<Byte8>): Packed
    requires q.Valid() && EffectiveByteSize(p.length) + EffectiveByteSize(q.length) <= |target|
  {
    Packed(Overwrite(target, EffectiveByteSize(p.length), Stored(q)), p.length + q.length)
  }

  /** `target` is the storage of `p`, possibly grown by zero bytes. */
  predicate Grown(p: Packed, target: seq<Byte8>) {
    |p.bytes| <= |target| && forall k | 0 <= k < |target| :: target[k] == if k < |p.bytes| then p.bytes[k] else 0
  }

  lemma AppendedBit(p: Packed, q: Packed, target: seq<Byte8>, i: nat)
    requires p.Valid() && q.Valid() && p.length % 8 == 0 && Grown(p, target)
    requires EffectiveByteSize(p.length) + EffectiveByteSize(q.length) <= |target| && i < 8 * |target|
    ensures BitAt(Appended(p, q, target).bytes, i)
         == if p.length <= i < p.length + 8 * EffectiveByteSize(q.length) then BitAt(q.bytes, i - p.length)
            else if i < 8 * |p.bytes| then BitAt(p.bytes, i) else false
  {
    var at := EffectiveByteSize(p.length);
    assert p.length == 8 * at;
    OverwrittenBit(target, at, Stored(q), i);
    GrownBit(p.bytes, target, i);
  }

  lemma AppendedBits(p: Packed, q: Packed, target: seq<Byte8>)
    requires p.Valid() && q.Valid() && p.length % 8 == 0 && Grown(p, target)
    requires EffectiveByteSize(p.length) + EffectiveByteSize(q.length) <= |target|
    ensures Appended(p, q, target).Valid()
    ensures BitsOf(Appended(p, q, target)) == BitsOf(p) + BitsOf(q)
  {
    var r, both := Appended(p, q, target), BitsOf(p) + BitsOf(q);
    forall i | 0 <= i < r.length
      ensures BitsOf(r)[i] == both[i]
    {
      AppendedBit(p, q, target, i);
    }
  }

  lemma AppendedZeroTail(p: Packed, q: Packed, target: seq<Byte8>)
    requires p.Valid() && q.Valid() && p.length % 8 == 0 && Grown(p, target)
    requires EffectiveByteSize(p.length) + EffectiveByteSize(q.length) <= |target|
    requires ZeroTail(p) && ZeroTail(q)
    ensures ZeroTail(Appended(p, q, target))
  {
    var r := Appended(p, q, target);
    forall i | r.length <= i < 8 * |r.bytes|
      ensures !BitAt(r.bytes, i)
    {
      AppendedBit(p, q, target, i);
    }
  }

  /** The value that dropping the last bit leaves: the storage stays as it is. */
  function Popped(p: Packed): (r: Packed)
    requires p.Valid() && p.length > 0
    ensures r.Valid()
  {
    Packed(p.bytes, p.length - 1)
  }

  /** Dropping a bit leaves a zero tail exactly when the tail was zero and so was the bit. */
  lemma PoppedZeroTail(p: Packed)
    requires p.Valid() && p.length > 0
    ensures ZeroTail(Popped(p)) <==> ZeroTail(p) && !BitsOf(p)[p.length - 1]
  {
    assert BitsOf(p)[p.length - 1] == BitAt(p.bytes, p.length - 1);
    if ZeroTail(Popped(p)) {
      forall i | p.length <= i < 8 * |p.bytes|
        ensures !BitAt(p.bytes, i)
      {
      }
    }
  }

  /** Dropping a bit that is set breaks the zero tail. */
  lemma PopBreaksZeroTail()
    ensures var p := Packed([0x80], 1);
            p.Valid() && ZeroTail(p) && !ZeroTail(Popped(p))
  {
    var p := Packed([0x80], 1);
    forall i | 1 <= i < 8
      ensures !BitAt(p.bytes, i)
    {
      assert !B.At(0x80, i);
    }
    assert BitAt(p.bytes, 0);
  }

  class BitArray {
    var bytes: seq<Byte8>
    var bitIndex: nat
    var bitCapacity: nat

    ghost predicate Valid()
      reads this
    {
      Value().Valid() && bitCapacity == 8 * |bytes|
    }

    function Value(): Packed
      reads this
    {
      Packed(bytes, bitIndex)
    }

    function Bits(): Bits
      reads this
      requires Valid()
    {
      BitsOf(Value())
    }

    /** Capacity for `bitLength` bits, none of them in use. */
    constructor (bitLength: nat)
      requires bitLength > 0
      ensures Valid() && Bits() == [] && ZeroTail(Value()) && bitIndex < bitCapacity
      ensures bytes == Zeros(BytesRequired(bitLength))
    {
      bytes := Zeros(BytesRequired(bitLength));
      bitIndex := 0;
      bitCapacity := BytesRequired(bitLength) * 8;
      new;
      ZeroBytesZeroTail(bytes);
    }

    /** Storage for zero bits is refused. */
    static method Create(bitLength: nat) returns (r: Result<BitArray>)
      ensures r.Failure? <==> bitLength == 0
      ensures r.Failure? ==> r.error == ZeroCapacity
      ensures r.Success? ==>
                && fresh(r.value) && r.value.Valid() && r.value.Bits() == [] && ZeroTail(r.value.Value())
                && r.value.bytes == Zeros(BytesRequired(bitLength))
    {
      if bitLength == 0 {
        return Failure(ZeroCapacity);
      }
      var a := new BitArray(bitLength);
      return Success(a);
    }

    /**
     Takes over a vector of bytes of which the first `bitLength` bits are in use. The bytes needed
     are counted in 64 bits, so the seven greatest lengths pass with any vector that is not empty;
     the array is then not valid.
     */
    static method FromBytes(vector: seq<Byte8>, bitLength: nat) returns (r: Result<BitArray>)
      requires bitLength <= UINT64_MAX
      ensures r.Success? <==>
                |vector| > 0 && (BytesRequired(bitLength) <= |vector| || bitLength > 18446744073709551608)
      ensures r.Failure? ==> r.error == ZeroCapacity
      ensures r.Success? ==> fresh(r.value) && r.value.Value() == Packed(vector, bitLength)
      ensures r.Success? ==> (r.value.Valid() <==> bitLength <= 8 * |vector|)
    {
      ByteCountExactly(bitLength);
      if |vector| == 0 || ByteCount64(bitLength) > |vector| {
        return Failure(ZeroCapacity);
      }
      var a := new BitArray.Adopt(vector, bitLength);
      return Success(a);
    }

    constructor Adopt(vector: seq<Byte8>, bitLength: nat)
      requires |vector| > 0
      ensures Value() == Packed(vector, bitLength) && (Valid() <==> bitLength <= 8 * |vector|)
    {
      bytes := vector;
      bitIndex := bitLength;
      bitCapacity := |vector| * 8;
    }

    /** The copy constructor: assignment into empty storage. The source of a copy is only read. */
    constructor Copy(o: Packed)
      requires o.Valid()
      ensures Valid() && Bits() == BitsOf(o) && Stored(Value()) == Stored(o)
      ensures |bytes| == |o.bytes|
      ensures ZeroTail(o) ==> ZeroTail(Value())
    {
      bytes, bitIndex, bitCapacity := [], 0, 0;
      new;
      Assign(o);
    }

    /**
     Copy assignment copies only the bytes in use, so the tail is zero when the copied tail is zero
     and the overwritten storage was.
     */
    method Assign(o: Packed)
      requires o.Valid()
      modifies this
      ensures Valid() && Bits() == BitsOf(o) && Stored(Value()) == Stored(o)
      ensures |bytes| == |o.bytes|
      ensures (forall k | 0 <= k < |old(bytes)| :: old(bytes)[k] == 0) && ZeroTail(o) ==> ZeroTail(Value())
    {
      ghost var before := bytes;
      bytes := Overwrite(Resize(bytes, |o.bytes|), 0, o.bytes[..EffectiveByteSize(o.length)]);
      bitCapacity := 8 * |o.bytes|;
      bitIndex := o.length;
      StoredDeterminesBits(Value(), o);
      if (forall k | 0 <= k < |before| :: before[k] == 0) && ZeroTail(o) {
        forall i | bitIndex <= i < 8 * |bytes|
          ensures !BitAt(bytes, i)
        {
          if i / 8 < EffectiveByteSize(bitIndex) {
            assert BitAt(bytes, i) == BitAt(o.bytes, i);
          } else {
            ZeroByteBits(bytes, i);
          }
        }
      }
    }

    /** The equality operator; `EqualExactly` says what it decides. */
    predicate Equals(o: Packed)
      reads this
      requires Valid() && o.Valid()
    {
      Equal(Value(), o)
    }

    predicate Empty()
      reads this
    {
      bitIndex == 0
    }

    /** Reads a bit; any bit within the capacity may be read. */
    predicate Get(i: nat)
      reads this
      requires Valid() && i < bitCapacity
    {
      BitAt(bytes, i)
    }

    /** Overwrites a bit anywhere within the capacity, in use or not. */
    method Put(i: nat, value: bool)
      requires Valid() && i < bitCapacity
      modifies `bytes
      ensures Valid() && |bytes| == |old(bytes)|
      ensures forall j | 0 <= j < 8 * |bytes| :: BitAt(bytes, j) == if i == j then value else BitAt(old(bytes), j)
    {
      ghost var before := bytes;
      bytes := WriteBit(bytes, i, value);
      forall j | 0 <= j < 8 * |bytes|
        ensures BitAt(bytes, j) == if i == j then value else BitAt(before, j)
      {
        WriteBitAt(before, i, value, j);
      }
    }

    /** Declares how many bits are in use; nothing checks that there are so many. */
    method SetBitLength(bitLength: nat)
      modifies `bitIndex
      ensures bitIndex == bitLength
      ensures old(Valid()) ==> (Valid() <==> bitLength <= bitCapacity)
    {
      bitIndex := bitLength;
    }

    method Clear()
      modifies this
      ensures Valid() && Bits() == [] && ZeroTail(Value()) && bytes == [0] && bitIndex < bitCapacity
    {
      bytes := [0];
      bitIndex := 0;
      bitCapacity := BytesRequired(1) * 8;
      ZeroBytesZeroTail(bytes);
    }

    /** Appends a bit; a byte is attached as soon as the last bit of the storage is about to be used. */
    method PushBack(value: bool)
      requires Valid()
      modifies this
      ensures Valid() && Bits() == old(Bits()) + [value] && bitIndex == old(bitIndex) + 1
      ensures |bytes| == |old(bytes)| + if old(bitIndex) + 1 >= old(bitCapacity) then 1 else 0
      ensures bitIndex < bitCapacity
      ensures old(ZeroTail(Value())) ==> ZeroTail(Value())
    {
      ghost var before := Value();
      if bitIndex >= bitCapacity - 1 {
        bytes := bytes + [0];
        bitCapacity := |bytes| * 8;
        ZeroByteBits(bytes, 8 * |before.bytes|);
      }
      GrownBits(before.bytes, bytes);
      Put(bitIndex, value);
      bitIndex := bitIndex + 1;
      assert Bits() == BitsOf(before) + [value];
    }

    /** Drops the last bit; its stored value stays behind. */
    method PopBack()
      requires Valid() && !Empty()
      modifies `bitIndex
      ensures Valid() && Bits() == old(Bits())[..|old(Bits())| - 1] && bitIndex < bitCapacity
      ensures ZeroTail(Value()) <==> old(ZeroTail(Value())) && !old(Bits())[|old(Bits())| - 1]
    {
      ghost var before := Bits();
      PoppedZeroTail(Value());
      bitIndex := bitIndex - 1;
      assert Bits() == before[..|before| - 1];
    }

    /** Appends another array, block-wise when this one ends on a byte boundary. */
    method Append(o: Packed)
      requires Valid() && o.Valid() && AppendInBounds(|bytes|, bitIndex, o.length)
      modifies this
      ensures Valid() && Bits() == old(Bits()) + BitsOf(o)
      ensures |bytes| == SizeAfterAppend(|old(bytes)|, old(bitIndex), o.length)
      ensures old(ZeroTail(Value())) && ZeroTail(o) ==> ZeroTail(Value())
    {
      if o.length == 0 {
        assert BitsOf(o) == [];
      } else if !HasPaddingBits(bitIndex) {
        AppendBlock(o);
      } else {
        AppendBits(o);
      }
    }

    /** The block copy: a guarded resize, then one copy of the bytes in use. */
    method AppendBlock(o: Packed)
      requires Valid() && o.Valid() && o.length > 0 && !HasPaddingBits(bitIndex)
      requires AppendInBounds(|bytes|, bitIndex, o.length)
      modifies this
      ensures Valid() && Bits() == old(Bits()) + BitsOf(o)
      ensures |bytes| == SizeAfterAppend(|old(bytes)|, old(bitIndex), o.length)
      ensures old(ZeroTail(Value())) && ZeroTail(o) ==> ZeroTail(Value())
    {
      ghost var before := Value();
      var size := EffectiveByteSize(bitIndex);
      var otherSize := EffectiveByteSize(o.length);
      if bitCapacity < size + otherSize {
        bytes := Resize(bytes, size + otherSize);
      }
      AppendedBits(before, o, bytes);
      if ZeroTail(before) && ZeroTail(o) {
        AppendedZeroTail(before, o, bytes);
      }
      bytes := Overwrite(bytes, size, o.bytes[..otherSize]);
      bitCapacity := 8 * |bytes|;
      bitIndex := bitIndex + o.length;
    }

    /** The bit-by-bit branch. */
    method AppendBits(o: Packed)
      requires Valid() && o.Valid() && o.length > 0 && HasPaddingBits(bitIndex)
      modifies this
      ensures Valid() && Bits() == old(Bits()) + BitsOf(o)
      ensures |bytes| == SizeAfterAppend(|old(bytes)|, old(bitIndex), o.length)
      ensures old(ZeroTail(Value())) ==> ZeroTail(Value())
    {
      ghost var before, other, size, start := Bits(), BitsOf(o), |bytes|, bitIndex;
      for i := 0 to o.length
        invariant Valid() && Bits() == before + other[..i] && bitIndex == start + i
        invariant |bytes| == if size <= (start + i) / 8 then (start + i) / 8 + 1 else size
        invariant old(ZeroTail(Value())) ==> ZeroTail(Value())
      {
        PushBack(BitAt(o.bytes, i));
        NextTaken(other, i);
      }
      assert other[..|other|] == other;
    }
  }

  lemma NextTaken(bits: Bits, i: nat)
    requires i < |bits|
    ensures bits[..i + 1] == bits[..i] + [bits[i]]
  {
  }

  lemma GrownBits(before: seq<Byte8>, after: seq<Byte8>)
    requires after == before || after == before + [0]
    ensures forall i | 0 <= i < 8 * |before| :: BitAt(after, i) == BitAt(before, i)
    ensures forall i | 8 * |before| <= i < 8 * |after| :: !BitAt(after, i)
  {
    forall i | 8 * |before| <= i < 8 * |after|
      ensures !BitAt(after, i)
    {
      ZeroByteBits(after, i);
    }
  }
}
