/**
 Eight bits in one byte, numbered from the most significant bit.
 */
module BitArray8 {
  type Byte8 = bv8

  predicate At(data: Byte8, i: nat)
    requires i < 8
  {
    (data >> (7 - i)) & 1 == 1
  }

  function Mask(i: nat): Byte8
    requires i < 8
  {
    (1 as bv8) << (7 - i)
  }

  function SetBit(data: Byte8, i: nat): Byte8
    requires i < 8
  {
    data | Mask(i)
  }

  function ClearBit(data: Byte8, i: nat): Byte8
    requires i < 8
  {
    data & !Mask(i)
  }

  /** Writes one bit. */
  function Put(data: Byte8, i: nat, value: bool): Byte8
    requires i < 8
  {
    if value then SetBit(data, i) else ClearBit(data, i)
  }

  /** The `n` most significant bits, moved to the bottom. */
  function TakeFew(data: Byte8, n: nat): Byte8
    requires n < 8
  {
    data >> (8 - n)
  }

  lemma MaskAt(data: Byte8, i: nat)
    requires i < 8
    ensures At(data, i) <==> data & Mask(i) != 0
  {
  }

  lemma MasksDisjoint(i: nat, j: nat)
    requires i < 8 && j < 8
    ensures Mask(i) != 0
    ensures Mask(i) & Mask(j) == if i == j then Mask(i) else 0
  {
  }

  lemma MaskPut(data: Byte8, m: Byte8, n: Byte8)
    requires n != 0
    ensures m == n ==> (data | m) & n != 0 && (data & !m) & n == 0
    ensures m & n == 0 ==> (data | m) & n == data & n && (data & !m) & n == data & n
  {
  }

  /** Writing bit `i` sets it to the value and leaves the other seven alone. */
  lemma PutAt(data: Byte8, i: nat, value: bool, j: nat)
    requires i < 8 && j < 8
    ensures At(Put(data, i, value), j) == if i == j then value else At(data, j)
  {
    MasksDisjoint(i, j);
    MasksDisjoint(j, j);
    MaskAt(data, j);
    MaskAt(Put(data, i, value), j);
    MaskPut(data, Mask(i), Mask(j));
  }

  /** Bytes with the same eight bits are equal. */
  lemma SameBits(a: Byte8, b: Byte8)
    requires forall i | 0 <= i < 8 :: At(a, i) == At(b, i)
    ensures a == b
  {
    assert At(a, 0) == At(b, 0) && At(a, 1) == At(b, 1) && At(a, 2) == At(b, 2) && At(a, 3) == At(b, 3);
    assert At(a, 4) == At(b, 4) && At(a, 5) == At(b, 5) && At(a, 6) == At(b, 6) && At(a, 7) == At(b, 7);
  }

  lemma ZeroAt(i: nat)
    requires i < 8
    ensures !At(0, i)
  {
  }

  lemma DifferenceAt(a: Byte8, b: Byte8, i: nat)
    requires i < 8
    ensures At(a, i) == At(b, i) <==> !At(a ^ b, i)
  {
    MaskAt(a, i);
    MaskAt(b, i);
    MaskAt(a ^ b, i);
    MasksDisjoint(i, i);
    OneBitDifference(a, b, Mask(i));
  }

  lemma OneBitDifference(a: Byte8, b: Byte8, m: Byte8)
    requires m & (m - 1) == 0
    ensures (a & m != 0) == (b & m != 0) <==> (a ^ b) & m == 0
  {
  }

  lemma DifferenceTakeFew(a: Byte8, b: Byte8, n: nat)
    requires n < 8
    ensures TakeFew(a, n) == TakeFew(b, n) <==> TakeFew(a ^ b, n) == 0
  {
    ShiftedXor(a, b, n);
    XorZero(TakeFew(a, n), TakeFew(b, n));
  }

  lemma ShiftedXor(a: Byte8, b: Byte8, n: nat)
    requires n < 8
    ensures TakeFew(a ^ b, n) == TakeFew(a, n) ^ TakeFew(b, n)
  {
    match n
    case 0 => assert (a ^ b) >> 8 == (a >> 8) ^ (b >> 8);
    case 1 => assert (a ^ b) >> 7 == (a >> 7) ^ (b >> 7);
    case 2 => assert (a ^ b) >> 6 == (a >> 6) ^ (b >> 6);
    case 3 => assert (a ^ b) >> 5 == (a >> 5) ^ (b >> 5);
    case 4 => assert (a ^ b) >> 4 == (a >> 4) ^ (b >> 4);
    case 5 => assert (a ^ b) >> 3 == (a >> 3) ^ (b >> 3);
    case 6 => assert (a ^ b) >> 2 == (a >> 2) ^ (b >> 2);
    case 7 => assert (a ^ b) >> 1 == (a >> 1) ^ (b >> 1);
  }

  lemma XorZero(a: Byte8, b: Byte8)
    ensures a ^ b == 0 <==> a == b
  {
  }

  /** Keeping one bit more adds exactly that bit. */
  lemma TakeFewStep(data: Byte8, n: nat)
    requires n < 7
    ensures TakeFew(data, n + 1) == 0 <==> TakeFew(data, n) == 0 && !At(data, n)
  {
  }

  lemma TakeFewGrow(a: Byte8, b: Byte8, n: nat)
    requires n < 7
    ensures TakeFew(a, n + 1) == TakeFew(b, n + 1) <==> TakeFew(a, n) == TakeFew(b, n) && At(a, n) == At(b, n)
  {
    DifferenceTakeFew(a, b, n + 1);
    DifferenceTakeFew(a, b, n);
    TakeFewStep(a ^ b, n);
    DifferenceAt(a, b, n);
  }

  /** The bytes agree on their `n` most significant bits. */
  predicate Agree(a: Byte8, b: Byte8, n: nat)
    requires n <= 8
  {
    n == 0 || (Agree(a, b, n - 1) && At(a, n - 1) == At(b, n - 1))
  }

  /** Two bytes agree on their shifted tops exactly when they agree on each of those bits. */
  lemma {:induction false} TakeFewSame(a: Byte8, b: Byte8, n: nat)
    requires n < 8
    ensures TakeFew(a, n) == TakeFew(b, n) <==> Agree(a, b, n)
  {
    if n > 0 {
      TakeFewGrow(a, b, n - 1);
      TakeFewSame(a, b, n - 1);
    } else {
      TakeNone(a);
      TakeNone(b);
    }
  }

  lemma TakeNone(data: Byte8)
    ensures TakeFew(data, 0) == 0
  {
  }

  lemma {:induction false} AgreeAt(a: Byte8, b: Byte8, n: nat)
    requires n <= 8
    ensures Agree(a, b, n) <==> forall i | 0 <= i < n :: At(a, i) == At(b, i)
  {
    if n > 0 {
      AgreeAt(a, b, n - 1);
    }
  }

  lemma XorCancel(a: Byte8, b: Byte8, c: Byte8)
    requires a ^ c == b ^ c
    ensures a == b
  {
  }

  lemma IntRoundTrip(a: Byte8)
    ensures (a as int) as bv8 == a
  {
  }

  /** Xor with a fixed byte, read as a number, is injective. */
  lemma XorIndex(a: Byte8, b: Byte8, c: Byte8)
    requires (a ^ c) as int == (b ^ c) as int
    ensures a == b
  {
    IntRoundTrip(a ^ c);
    IntRoundTrip(b ^ c);
    XorCancel(a, b, c);
  }

  // ----- A byte as a number -----

  /** What bit `i` is worth in the number a byte is. */
  function PlaceValue(i: nat): (v: nat)
    requires i < 8
    ensures v >= 1
  {
    [128, 64, 32, 16, 8, 4, 2, 1][i]
  }

  lemma LowBit(b: Byte8)
    ensures b & 1 == 1 <==> b as int % 2 == 1
  {
  }

  lemma Half(b: Byte8)
    ensures (b >> 1) as int == b as int / 2
  {
  }

  lemma Quarter(b: Byte8)
    ensures (b >> 2) as int == b as int / 4
  {
    Half(b);
    Half(b >> 1);
    assert b >> 2 == (b >> 1) >> 1;
  }

  lemma Sixteenth(b: Byte8)
    ensures (b >> 4) as int == b as int / 16
  {
    Quarter(b);
    Quarter(b >> 2);
    assert b >> 4 == (b >> 2) >> 2;
  }

  lemma LowBitsNumber(b: Byte8)
    ensures At(b, 7) <==> b as int % 2 == 1
    ensures At(b, 6) <==> b as int / 2 % 2 == 1
    ensures At(b, 5) <==> b as int / 4 % 2 == 1
    ensures At(b, 4) <==> b as int / 8 % 2 == 1
  {
    LowBit(b);
    assert b >> 0 == b;
    Half(b);
    LowBit(b >> 1);
    Quarter(b);
    LowBit(b >> 2);
    Half(b >> 2);
    assert b >> 3 == (b >> 2) >> 1;
    LowBit(b >> 3);
  }

  lemma HighBitsMove(b: Byte8)
    ensures At(b, 3) == At(b >> 4, 7) && At(b, 2) == At(b >> 4, 6)
    ensures At(b, 1) == At(b >> 4, 5) && At(b, 0) == At(b >> 4, 4)
  {
  }

  lemma HighBitsNumber(b: Byte8, n: nat)
    requires n == b as int
    ensures At(b, 3) <==> n / 16 % 2 == 1
    ensures At(b, 2) <==> n / 32 % 2 == 1
    ensures At(b, 1) <==> n / 64 % 2 == 1
    ensures At(b, 0) <==> n / 128 % 2 == 1
  {
    var high := b >> 4;
    LowBitsNumber(high);
    HighBitsMove(b);
    Sixteenth(b);
    SixteenthDivided(n, high as int);
  }

  lemma SixteenthDivided(n: nat, m: nat)
    requires m == n / 16
    ensures m / 2 == n / 32 && m / 4 == n / 64 && m / 8 == n / 128
  {
  }

  /** Bit 0 is the most significant one. */
  lemma AtNumber(b: Byte8, i: nat)
    requires i < 8
    ensures At(b, i) <==> b as int / PlaceValue(i) % 2 == 1
  {
    LowBitsNumber(b);
    HighBitsNumber(b, b as int);
  }
}
