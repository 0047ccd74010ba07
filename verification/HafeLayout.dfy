/**
 Where every byte of an archive is: the format by position and as numbers, and exactly which byte
 sequences the reader accepts.
 */
module HafeLayout {
  import opened Common
  import B = BitArray8
  import opened PackedBits
  import opened HafeFormat

  // ----- The layout -----

  /** The bytes that the entries of the symbols below `n` take. */
  function EntrySizes(codes: Table, n: nat): nat
    requires n <= SYMBOLS
  {
    if n == 0 then 0
    else EntrySizes(codes, n - 1) + if codes[n - 1] == [] then 0 else 2 + (|codes[n - 1]| + 7) / 8
  }

  /** Bit `i` of the bytes from `at` on; the first bit of a byte is worth 128. */
  predicate BitSet(file: Bytes, at: nat, i: nat)
    requires at + i / 8 < |file|
  {
    file[at + i / 8] / B.PlaceValue(i % 8) % 2 == 1
  }

  /** The bits are stored from byte `at` on, and with `zeros` the rest of the last byte is zero. */
  predicate BitsAt(file: Bytes, at: nat, bits: Bits, zeros: bool) {
    && at + (|bits| + 7) / 8 <= |file|
    && forall i | 0 <= i < 8 * ((|bits| + 7) / 8) && (i < |bits| || zeros) ::
         BitSet(file, at, i) <==> i < |bits| && bits[i]
  }

  /** Symbol, length, code. */
  predicate EntryAt(file: Bytes, at: nat, s: Byte, code: Bits, zeros: bool) {
    at + 2 <= |file| && file[at] == s && file[at + 1] == |code| % 256 && BitsAt(file, at + 2, code, zeros)
  }

  predicate Number4At(file: Bytes, at: nat, n: nat) {
    && at + 4 <= |file|
    && file[at] == n % 256 && file[at + 1] == n / 256 % 256
    && file[at + 2] == n / 65536 % 256 && file[at + 3] == n / 16777216 % 256
  }

  predicate MagicAt(file: Bytes) {
    |file| >= 4 && file[0] == 0x4d && file[1] == 0x61 && file[2] == 0x6e && file[3] == 0x75
  }

  /** Magic number, sixteen reserved bytes, and the size of the entries. */
  predicate HeaderAt(file: Bytes, size: nat) {
    MagicAt(file) && Number4At(file, 20, size) && forall i | 4 <= i < 20 :: file[i] == 0x1d
  }

  /** A symbol with a code has its entry after those of the symbols below it. */
  predicate HasEntryAt(file: Bytes, at: nat, codes: Table, s: Byte, zeros: bool) {
    codes[s] != [] ==> EntryAt(file, at + EntrySizes(codes, s), s, codes[s], zeros)
  }

  predicate EntriesAt(file: Bytes, at: nat, codes: Table, zeros: bool) {
    forall s: Byte :: HasEntryAt(file, at, codes, s, zeros)
  }

  /** The number of bits in eight bytes, and the bits. */
  predicate StreamAt(file: Bytes, at: nat, bits: Bits, zeros: bool) {
    && Number4At(file, at, |bits|) && Number4At(file, at + 4, |bits| / 4294967296)
    && BitsAt(file, at + 8, bits, zeros)
  }

  /** The file is an archive of this table and this bit stream. */
  predicate Layout(file: Bytes, codes: Table, bits: Bits, zeros: bool) {
    && |file| == 32 + EntrySizes(codes, 256) + (|bits| + 7) / 8
    && HeaderAt(file, EntrySizes(codes, 256))
    && EntriesAt(file, 24, codes, zeros)
    && StreamAt(file, 24 + EntrySizes(codes, 256), bits, zeros)
  }

  // ----- The writer keeps to it -----

  lemma LittleEndianDigits(n: nat)
    ensures Number4At(LittleEndian(n, 4), 0, n)
  {
    NestedQuotients(n);
    FourDigits(n, n / 256, n / 65536, n / 16777216);
  }

  lemma FourDigits(n: nat, a: nat, b: nat, c: nat)
    requires a == n / 256 && b == a / 256 && c == b / 256
    ensures LittleEndian(n, 4) == [n % 256, a % 256, b % 256, c % 256]
  {
    assert LittleEndian(c, 1) == [c % 256];
    assert LittleEndian(b, 2) == [b % 256] + LittleEndian(c, 1);
    assert LittleEndian(a, 3) == [a % 256] + LittleEndian(b, 2);
  }

  function Without(n: nat, digits: nat): nat {
    if digits == 0 then n else Without(n / 256, digits - 1)
  }

  lemma {:induction false} LittleEndianSplit(n: nat, low: nat, high: nat)
    ensures LittleEndian(n, low + high) == LittleEndian(n, low) + LittleEndian(Without(n, low), high)
  {
    if low > 0 {
      LittleEndianSplit(n / 256, low - 1, high);
    }
  }

  lemma WithoutFour(n: nat)
    ensures Without(n, 4) == n / 4294967296
  {
    NestedQuotients(n);
    var a, b, c, d := n / 256, n / 65536, n / 16777216, n / 4294967296;
    assert Without(d, 0) == d;
    assert Without(c, 1) == Without(d, 0);
    assert Without(b, 2) == Without(c, 1);
    assert Without(a, 3) == Without(b, 2);
  }

  lemma NestedQuotients(n: nat)
    ensures n / 256 / 256 == n / 65536 && n / 65536 / 256 == n / 16777216
    ensures n / 16777216 / 256 == n / 4294967296
  {
  }

  lemma LittleEndianHalves(n: nat)
    ensures LittleEndian(n, 8) == LittleEndian(n, 4) + LittleEndian(n / 4294967296, 4)
  {
    LittleEndianSplit(n, 4, 4);
    WithoutFour(n);
  }

  lemma LowestDigit(n: nat, q: nat)
    ensures (n + 256 * q) % 256 == n % 256
  {
  }

  lemma Quotients(m: nat, q: nat)
    ensures (m + 4294967296 * q) / 256 == m / 256 + 16777216 * q
    ensures (m + 4294967296 * q) / 65536 == m / 65536 + 65536 * q
    ensures (m + 4294967296 * q) / 16777216 == m / 16777216 + 256 * q
  {
  }

  /** Reducing a number modulo 2^32 leaves its four low digits alone. */
  lemma ReducedDigits(file: Bytes, at: nat, n: nat, m: nat)
    requires m == n % UINT32_MODULUS && Number4At(file, at, m)
    ensures Number4At(file, at, n)
  {
    var q := n / UINT32_MODULUS;
    assert n == m + 4294967296 * q;
    Quotients(m, q);
    LowestDigit(m, 16777216 * q);
    LowestDigit(m / 256, 65536 * q);
    LowestDigit(m / 65536, 256 * q);
    LowestDigit(m / 16777216, q);
  }

  lemma Number4Within(file: Bytes, at: nat, part: Bytes, n: nat)
    requires at + 4 <= |file| && file[at..at + 4] == part && Number4At(part, 0, n)
    ensures Number4At(file, at, n)
  {
    assert file[at] == part[0] && file[at + 1] == part[1] && file[at + 2] == part[2] && file[at + 3] == part[3];
  }

  lemma StoredBitsAt(file: Bytes, at: nat, p: Packed)
    requires p.Valid() && at + EffectiveByteSize(p.length) <= |file|
    requires file[at..at + EffectiveByteSize(p.length)] == ToDisk(Stored(p))
    ensures BitsAt(file, at, BitsOf(p), ZeroTail(p))
  {
    var n := EffectiveByteSize(p.length);
    forall i | 0 <= i < 8 * n && (i < p.length || ZeroTail(p))
      ensures BitSet(file, at, i) <==> i < p.length && BitsOf(p)[i]
    {
      assert file[at + i / 8] == file[at..at + n][i / 8] == Stored(p)[i / 8] as int;
      B.AtNumber(p.bytes[i / 8], i % 8);
      assert BitAt(p.bytes, i) == (i < p.length && BitsOf(p)[i]);
    }
  }

  lemma {:induction false} SizesBelow(rows: Rows, n: nat)
    requires n <= SYMBOLS
    ensures DiskSizeBelow(rows, n) == EntrySizes(CodesOf(rows), n)
  {
    if n > 0 {
      SizesBelow(rows, n - 1);
      assert |CodesOf(rows)[n - 1]| == rows[n - 1].length;
    }
  }

  /** Among the entries from symbol `n` on, that of `s` comes after those of the symbols between. */
  lemma {:induction false} EntryFound(rows: Rows, n: nat, s: Byte) returns (front: Bytes, back: Bytes)
    requires n <= s && rows[s].length > 0
    ensures EntriesFrom(rows, n) == front + (EntryBytes(s, rows[s]) + back)
    ensures DiskSizeBelow(rows, n) + |front| == DiskSizeBelow(rows, s)
    decreases s - n
  {
    if n == s {
      front, back := [], EntriesFrom(rows, n + 1);
      assert [] + EntriesFrom(rows, n) == EntriesFrom(rows, n);
    } else {
      front, back := EntryFound(rows, n + 1, s);
      AssociateThree(RowBytes(n, rows[n]), front, EntryBytes(s, rows[s]) + back);
      front := RowBytes(n, rows[n]) + front;
    }
  }

  /** A part of a part. */
  lemma Within(file: Bytes, at: nat, part: Bytes, front: Bytes, piece: Bytes, back: Bytes)
    requires at + |part| <= |file| && file[at..at + |part|] == part && part == front + (piece + back)
    ensures at + |front| + |piece| <= |file|
    ensures file[at + |front|..at + |front| + |piece|] == piece
  {
    forall k | 0 <= k < |piece|
      ensures file[at + |front| + k] == piece[k]
    {
      assert file[at..at + |part|][|front| + k] == part[|front| + k];
    }
  }

  lemma EntryBytesAt(file: Bytes, at: nat, s: Byte, p: Packed)
    requires p.Valid() && p.length > 0 && at + RowSize(p) <= |file|
    requires file[at..at + RowSize(p)] == EntryBytes(s, p)
    ensures EntryAt(file, at, s, BitsOf(p), ZeroTail(p))
  {
    var n, entry := RowSize(p), EntryBytes(s, p);
    assert file[at] == file[at..at + n][0] == s;
    assert file[at + 1] == file[at..at + n][1] == p.length % 256;
    assert file[at + 2..at + n] == file[at..at + n][2..] == ToDisk(Stored(p));
    StoredBitsAt(file, at + 2, p);
  }

  /** The parts of an archive one after the other. */
  lemma ArchiveParts(rows: Rows, stream: Packed, file: Bytes, size: nat)
    requires stream.Valid() && stream.length <= UINT64_MAX
    requires file == ArchiveBytes(rows, stream) && size == DiskSize(rows)
    ensures |file| == 32 + size + EffectiveByteSize(stream.length)
    ensures file[..4] == MAGIC && file[4..20] == Reserved()
    ensures file[20..24] == LittleEndian(size % UINT32_MODULUS, 4)
    ensures file[24..24 + size] == EntriesFrom(rows, 0)
    ensures file[24 + size..28 + size] == LittleEndian(stream.length, 4)
    ensures file[28 + size..32 + size] == LittleEndian(stream.length / 4294967296, 4)
    ensures file[32 + size..] == ToDisk(Stored(stream))
  {
    DiskSizeIsEntries(rows, 0);
    LittleEndianHalves(stream.length);
    var head, entries := LittleEndian(size % UINT32_MODULUS, 4), EntriesFrom(rows, 0);
    var low, high := LittleEndian(stream.length, 4), LittleEndian(stream.length / 4294967296, 4);
    SixParts(file, MAGIC + Reserved(), head, entries, low, high, ToDisk(Stored(stream)));
    TwoParts(file, MAGIC, Reserved());
  }

  lemma TwoParts(file: Bytes, a: Bytes, b: Bytes)
    requires |a| + |b| <= |file| && file[..|a| + |b|] == a + b
    ensures file[..|a|] == a && file[|a|..|a| + |b|] == b
  {
    assert file[..|a|] == (a + b)[..|a|];
    assert file[|a|..|a| + |b|] == (a + b)[|a|..];
  }

  lemma SixParts(file: Bytes, a: Bytes, b: Bytes, c: Bytes, d: Bytes, e: Bytes, f: Bytes)
    requires file == a + (b + c) + (d + e) + f
    ensures |file| == |a| + |b| + |c| + |d| + |e| + |f|
    ensures file[..|a|] == a
    ensures file[|a|..|a| + |b|] == b
    ensures file[|a| + |b|..|a| + |b| + |c|] == c
    ensures file[|a| + |b| + |c|..|a| + |b| + |c| + |d|] == d
    ensures file[|a| + |b| + |c| + |d|..|a| + |b| + |c| + |d| + |e|] == e
    ensures file[|a| + |b| + |c| + |d| + |e|..] == f
  {
    assert file == a + b + c + d + e + f;
  }

  lemma WeakerEntry(file: Bytes, at: nat, s: Byte, code: Bits, zeros: bool, fewer: bool)
    requires EntryAt(file, at, s, code, zeros) && (fewer ==> zeros)
    ensures EntryAt(file, at, s, code, fewer)
  {
  }

  lemma EntryInside(file: Bytes, entries: Bytes, front: Bytes, back: Bytes, s: Byte, p: Packed, zeros: bool)
    requires 24 + |entries| <= |file| && file[24..24 + |entries|] == entries
    requires p.Valid() && p.length > 0 && (zeros ==> ZeroTail(p))
    requires entries == front + (EntryBytes(s, p) + back)
    ensures EntryAt(file, 24 + |front|, s, BitsOf(p), zeros)
  {
    Within(file, 24, entries, front, EntryBytes(s, p), back);
    EntryBytesAt(file, 24 + |front|, s, p);
    WeakerEntry(file, 24 + |front|, s, BitsOf(p), ZeroTail(p), zeros);
  }

  lemma EntryOfArchive(rows: Rows, file: Bytes, s: Byte, zeros: bool, entries: Bytes)
    requires (zeros ==> ZeroTail(rows[s])) && entries == EntriesFrom(rows, 0)
    requires 24 + |entries| <= |file| && file[24..24 + |entries|] == entries
    ensures HasEntryAt(file, 24, CodesOf(rows), s, zeros)
  {
    if rows[s].length > 0 {
      var front, back := EntryFound(rows, 0, s);
      SizesBelow(rows, s);
      EntryInside(file, entries, front, back, s, rows[s], zeros);
    } else {
      assert |CodesOf(rows)[s]| == 0;
    }
  }

  lemma EntriesOfArchive(rows: Rows, file: Bytes, zeros: bool, entries: Bytes)
    requires (zeros ==> AllZeroTails(rows)) && entries == EntriesFrom(rows, 0)
    requires 24 + |entries| <= |file| && file[24..24 + |entries|] == entries
    ensures EntriesAt(file, 24, CodesOf(rows), zeros)
  {
    forall s: Byte {
      EntryOfArchive(rows, file, s, zeros, entries);
    }
  }

  lemma HeaderOfArchive(file: Bytes, size: nat)
    requires |file| >= 24 && file[..4] == MAGIC && file[4..20] == Reserved()
    requires file[20..24] == LittleEndian(size % UINT32_MODULUS, 4)
    ensures HeaderAt(file, size)
  {
    LittleEndianDigits(size % UINT32_MODULUS);
    Number4Within(file, 20, file[20..24], size % UINT32_MODULUS);
    ReducedDigits(file, 20, size, size % UINT32_MODULUS);
    assert file[..4][0] == file[0] && file[..4][1] == file[1] && file[..4][2] == file[2] && file[..4][3] == file[3];
    forall i | 4 <= i < 20
      ensures file[i] == 0x1d
    {
      assert file[i] == file[4..20][i - 4];
    }
  }

  lemma StreamOfArchive(file: Bytes, at: nat, stream: Packed)
    requires stream.Valid() && |file| == at + 8 + EffectiveByteSize(stream.length)
    requires file[at..at + 4] == LittleEndian(stream.length, 4)
    requires file[at + 4..at + 8] == LittleEndian(stream.length / 4294967296, 4)
    requires file[at + 8..] == ToDisk(Stored(stream))
    ensures StreamAt(file, at, BitsOf(stream), ZeroTail(stream))
  {
    LittleEndianDigits(stream.length);
    LittleEndianDigits(stream.length / 4294967296);
    Number4Within(file, at, file[at..at + 4], stream.length);
    Number4Within(file, at + 4, file[at + 4..at + 8], stream.length / 4294967296);
    assert file[at + 8..] == file[at + 8..at + 8 + EffectiveByteSize(stream.length)];
    StoredBitsAt(file, at + 8, stream);
  }

  /** The archive of any table and bit stream is laid out so; padding is zero if the tails are. */
  lemma ArchiveLayout(rows: Rows, stream: Packed, zeros: bool)
    requires stream.Valid() && stream.length <= UINT64_MAX
    requires zeros ==> AllZeroTails(rows) && ZeroTail(stream)
    ensures Layout(ArchiveBytes(rows, stream), CodesOf(rows), BitsOf(stream), zeros)
  {
    var file, size := ArchiveBytes(rows, stream), DiskSize(rows);
    ArchiveParts(rows, stream, file, size);
    DiskSizeIsEntries(rows, 0);
    LayoutOfParts(rows, stream, zeros, file, size, EntriesFrom(rows, 0));
  }

  lemma LayoutOfParts(rows: Rows, stream: Packed, zeros: bool, file: Bytes, size: nat, entries: Bytes)
    requires stream.Valid() && (zeros ==> AllZeroTails(rows) && ZeroTail(stream))
    requires size == |entries| == DiskSize(rows) && entries == EntriesFrom(rows, 0)
    requires |file| == 32 + size + EffectiveByteSize(stream.length)
    requires file[..4] == MAGIC && file[4..20] == Reserved()
    requires file[20..24] == LittleEndian(size % UINT32_MODULUS, 4)
    requires file[24..24 + size] == entries
    requires file[24 + size..28 + size] == LittleEndian(stream.length, 4)
    requires file[28 + size..32 + size] == LittleEndian(stream.length / 4294967296, 4)
    requires file[32 + size..] == ToDisk(Stored(stream))
    ensures Layout(file, CodesOf(rows), BitsOf(stream), zeros)
  {
    SizesBelow(rows, SYMBOLS);
    HeaderOfArchive(file, size);
    EntriesOfArchive(rows, file, zeros, entries);
    StreamOfArchive(file, 24 + size, stream);
    WeakerStream(file, 24 + size, BitsOf(stream), ZeroTail(stream), zeros);
  }

  lemma WeakerStream(file: Bytes, at: nat, bits: Bits, zeros: bool, fewer: bool)
    requires StreamAt(file, at, bits, zeros) && (fewer ==> zeros)
    ensures StreamAt(file, at, bits, fewer)
  {
  }

  // ----- Nothing is left open -----

  lemma Halves(x: Byte)
    ensures x / 128 / 2 == 0 && x / 64 / 2 == x / 128 && x / 32 / 2 == x / 64 && x / 16 / 2 == x / 32
    ensures x / 8 / 2 == x / 16 && x / 4 / 2 == x / 8 && x / 2 / 2 == x / 4
  {
  }

  lemma SameHalf(a: nat, b: nat, c: nat, d: nat)
    requires a / 2 == c && b / 2 == d && c == d && a % 2 == b % 2
    ensures a == b
  {
  }

  lemma SameNumber(x: Byte, y: Byte)
    requires forall i | 0 <= i < 8 :: x / B.PlaceValue(i) % 2 == y / B.PlaceValue(i) % 2
    ensures x == y
  {
    Halves(x);
    Halves(y);
    SamePlace(x, y, 0, 128, 0, 0);
    SamePlace(x, y, 1, 64, x / 128, y / 128);
    SamePlace(x, y, 2, 32, x / 64, y / 64);
    SamePlace(x, y, 3, 16, x / 32, y / 32);
    SamePlace(x, y, 4, 8, x / 16, y / 16);
    SamePlace(x, y, 5, 4, x / 8, y / 8);
    SamePlace(x, y, 6, 2, x / 4, y / 4);
    SamePlace(x, y, 7, 1, x / 2, y / 2);
  }

  lemma SamePlace(x: Byte, y: Byte, i: nat, place: nat, c: nat, d: nat)
    requires i < 8 && place == B.PlaceValue(i) && c == d
    requires x / place / 2 == c && y / place / 2 == d
    requires x / B.PlaceValue(i) % 2 == y / B.PlaceValue(i) % 2
    ensures x / place == y / place
  {
    SameHalf(x / place, y / place, c, d);
  }

  lemma BitsAtDetermine(f: Bytes, g: Bytes, at: nat, bits: Bits)
    requires BitsAt(f, at, bits, true) && BitsAt(g, at, bits, true)
    ensures forall k | at <= k < at + (|bits| + 7) / 8 :: f[k] == g[k]
  {
    forall k | at <= k < at + (|bits| + 7) / 8
      ensures f[k] == g[k]
    {
      forall i | 0 <= i < 8
        ensures f[k] / B.PlaceValue(i) % 2 == g[k] / B.PlaceValue(i) % 2
      {
        var j := 8 * (k - at) + i;
        assert j / 8 == k - at && j % 8 == i;
        assert BitSet(f, at, j) == BitSet(g, at, j);
      }
      SameNumber(f[k], g[k]);
    }
  }

  lemma {:induction false} EntriesDetermine(f: Bytes, g: Bytes, at: nat, codes: Table, n: nat)
    requires n <= SYMBOLS && EntriesAt(f, at, codes, true) && EntriesAt(g, at, codes, true)
    requires at <= |f| && at <= |g|
    ensures at + EntrySizes(codes, n) <= |f| && at + EntrySizes(codes, n) <= |g|
    ensures forall k | at <= k < at + EntrySizes(codes, n) :: f[k] == g[k]
  {
    if n > 0 {
      EntriesDetermine(f, g, at, codes, n - 1);
      assert HasEntryAt(f, at, codes, n - 1, true) && HasEntryAt(g, at, codes, n - 1, true);
      if codes[n - 1] != [] {
        BitsAtDetermine(f, g, at + EntrySizes(codes, n - 1) + 2, codes[n - 1]);
      }
    }
  }

  lemma HeaderDetermines(f: Bytes, g: Bytes, size: nat)
    requires HeaderAt(f, size) && HeaderAt(g, size)
    ensures forall k | 0 <= k < 24 :: f[k] == g[k]
  {
  }

  lemma StreamDetermines(f: Bytes, g: Bytes, at: nat, bits: Bits)
    requires StreamAt(f, at, bits, true) && StreamAt(g, at, bits, true)
    ensures forall k | at <= k < at + 8 + (|bits| + 7) / 8 :: f[k] == g[k]
  {
    BitsAtDetermine(f, g, at + 8, bits);
  }

  /** Table and bit stream determine every byte of a layout with zero padding. */
  lemma LayoutDetermines(f: Bytes, g: Bytes, codes: Table, bits: Bits)
    requires Layout(f, codes, bits, true) && Layout(g, codes, bits, true)
    ensures f == g
  {
    var size := EntrySizes(codes, 256);
    HeaderDetermines(f, g, size);
    EntriesDetermine(f, g, 24, codes, 256);
    StreamDetermines(f, g, 24 + size, bits);
    SamePieces(f, g, 24, 24 + size);
  }

  lemma SamePieces(f: Bytes, g: Bytes, a: nat, b: nat)
    requires |f| == |g| && a <= b <= |f|
    requires forall k | 0 <= k < a :: f[k] == g[k]
    requires forall k | a <= k < b :: f[k] == g[k]
    requires forall k | b <= k < |f| :: f[k] == g[k]
    ensures f == g
  {
  }

  /** With zero tails the archive is the one byte sequence with that layout. */
  lemma ArchiveExactly(rows: Rows, stream: Packed, file: Bytes)
    requires stream.Valid() && stream.length <= UINT64_MAX
    requires AllZeroTails(rows) && ZeroTail(stream)
    ensures file == ArchiveBytes(rows, stream) <==> Layout(file, CodesOf(rows), BitsOf(stream), true)
  {
    ArchiveLayout(rows, stream, true);
    if Layout(file, CodesOf(rows), BitsOf(stream), true) {
      LayoutDetermines(file, ArchiveBytes(rows, stream), CodesOf(rows), BitsOf(stream));
    }
  }

  // ----- What the reader accepts -----

  /** Four bytes as a number, the first one the lowest. */
  function Number4(file: Bytes, at: nat): (n: nat)
    requires at + 4 <= |file|
  {
    file[at] as int + 256 * (file[at + 1] as int) + 65536 * (file[at + 2] as int) + 16777216 * (file[at + 3] as int)
  }

  function Number8(file: Bytes, at: nat): (n: nat)
    requires at + 8 <= |file|
  {
    Number4(file, at) + 4294967296 * Number4(file, at + 4)
  }

  lemma FromLittleEndian4(bytes: Bytes)
    requires |bytes| == 4
    ensures FromLittleEndian(bytes) == Number4(bytes, 0)
  {
    assert bytes[1..][1..] == bytes[2..] && bytes[2..][1..] == bytes[3..] && bytes[3..][1..] == [];
    assert FromLittleEndian(bytes[3..]) == bytes[3];
    assert FromLittleEndian(bytes[2..]) == bytes[2] + 256 * FromLittleEndian(bytes[3..]);
    assert FromLittleEndian(bytes[1..]) == bytes[1] + 256 * FromLittleEndian(bytes[2..]);
  }

  lemma {:induction false} FromLittleEndianSplit(a: Bytes, b: Bytes)
    ensures FromLittleEndian(a + b) == FromLittleEndian(a) + Pow256(|a|) * FromLittleEndian(b)
  {
    if a == [] {
      assert a + b == b;
    } else {
      assert (a + b)[1..] == a[1..] + b;
      FromLittleEndianSplit(a[1..], b);
      Regroup(a[0], FromLittleEndian(a[1..]), Pow256(|a| - 1), FromLittleEndian(b));
    }
  }

  lemma Regroup(first: nat, rest: nat, power: nat, back: nat)
    ensures first + 256 * (rest + power * back) == first + 256 * rest + (256 * power) * back
  {
  }

  lemma NumberRead4(file: Bytes, at: nat)
    requires at + 4 <= |file|
    ensures FromLittleEndian(file[at..at + 4]) == Number4(file, at)
  {
    FromLittleEndian4(file[at..at + 4]);
  }

  lemma NumberRead8(file: Bytes, at: nat)
    requires at + 8 <= |file|
    ensures FromLittleEndian(file[at..at + 8]) == Number8(file, at)
  {
    NumberRead4(file, at);
    NumberRead4(file, at + 4);
    assert file[at..at + 8] == file[at..at + 4] + file[at + 4..at + 8];
    FromLittleEndianSplit(file[at..at + 4], file[at + 4..at + 8]);
    Pow256At4();
  }

  /** The announced bytes are there and split into entries. */
  predicate EntriesReadable(file: Bytes)
    requires |file| >= 24
  {
    24 + Number4(file, 20) <= |file| && WellFormedEntries(file[24..24 + Number4(file, 20)])
  }

  /** The bytes of a bit stream whose length, wrapped around in 64 bits, is in the file. */
  function StreamBytes(file: Bytes, at: nat): nat
    requires at + 8 <= |file|
  {
    (Number8(file, at) + 7) % 18446744073709551616 / 8
  }

  /** What is read after the entries: eight bytes of length, and at least one byte of bits. */
  function StreamReading(file: Bytes, at: nat): Result<Packed> {
    if |file| < at + 8 then Failure(MissingBitLength)
    else if |file| < at + 8 + StreamBytes(file, at) then Failure(ShortBitstream)
    else if StreamBytes(file, at) == 0 then Failure(ZeroCapacity)
    else Success(Packed(FromDisk(file[at + 8..at + 8 + StreamBytes(file, at)]), Number8(file, at)))
  }

  /** Magic number, reserved bytes and size; the entries; a bit stream of at least one byte. */
  predicate Readable(file: Bytes) {
    && |file| >= 24 && file[..4] == [0x4d, 0x61, 0x6e, 0x75]
    && EntriesReadable(file)
    && var at := 24 + Number4(file, 20);
       && at + 8 <= |file|
       && 0 < StreamBytes(file, at) <= |file| - at - 8
  }

  lemma ReadStreamAt(file: Bytes, at: nat)
    requires at <= |file|
    ensures ReadStream(file[at..]) == StreamReading(file, at)
  {
    var data := file[at..];
    if |data| >= 8 {
      assert data[..8] == file[at..at + 8];
      NumberRead8(file, at);
      var n := StreamBytes(file, at);
      if |data| >= 8 + n {
        assert data[8..8 + n] == file[at + 8..at + 8 + n];
      }
    }
  }

  /** What reading any bytes gives: the error of the first missing part, or table and bit stream. */
  lemma ReadArchiveExactly(file: Bytes)
    ensures |file| < 4 || file[..4] != [0x4d, 0x61, 0x6e, 0x75] ==> ReadArchive(file) == Failure(BadMagic)
    ensures MagicAt(file) && |file| < 20 ==> ReadArchive(file) == Failure(MissingReserved)
    ensures MagicAt(file) && 20 <= |file| < 24 ==> ReadArchive(file) == Failure(MissingTableLength)
    ensures MagicAt(file) && |file| >= 24 && !EntriesReadable(file) ==>
              ReadArchive(file) == Failure(if HasEmptyEntry(file[24..]) then EmptyTableEntry else ShortTableEntry)
    ensures MagicAt(file) && |file| >= 24 && EntriesReadable(file) ==>
              var at := 24 + Number4(file, 20);
              var rows := StoreEntries(EmptyTable(), file[24..at]);
              ReadArchive(file) == match StreamReading(file, at)
                                   case Success(stream) => Success((rows, stream))
                                   case Failure(e) => Failure(e)
  {
    HeaderReading(file);
    if MagicAt(file) && |file| >= 24 {
      ReadEntriesAt(file);
      if EntriesReadable(file) {
        ReadStreamAt(file, 24 + Number4(file, 20));
      }
    }
  }

  lemma HeaderReading(file: Bytes)
    ensures HeaderTableSize(file)
         == if !MagicAt(file) then Failure(BadMagic)
            else if |file| < 20 then Failure(MissingReserved)
            else if |file| < 24 then Failure(MissingTableLength)
            else Success(Number4(file, 20))
    ensures MagicAt(file) <==> |file| >= 4 && file[..4] == [0x4d, 0x61, 0x6e, 0x75]
  {
    if MagicAt(file) {
      assert file[..4] == MAGIC;
    }
    if |file| >= 24 {
      NumberRead4(file, 20);
    }
  }

  lemma ReadEntriesAt(file: Bytes)
    requires |file| >= 24
    ensures var size := Number4(file, 20);
            var r := ReadEntries(EmptyTable(), file[24..], 0, size);
            && (r.Success? <==> EntriesReadable(file))
            && (r.Success? ==> r.value == (StoreEntries(EmptyTable(), file[24..24 + size]), file[24 + size..]))
            && (r.Failure? ==> r.error == if HasEmptyEntry(file[24..]) then EmptyTableEntry else ShortTableEntry)
  {
    var size := Number4(file, 20);
    ReadEntriesExactly(EmptyTable(), file[24..], 0, size);
    if 24 + size <= |file| {
      assert file[24..][..size] == file[24..24 + size] && file[24..][size..] == file[24 + size..];
    }
  }

  /** Exactly the readable bytes are read. */
  lemma ReadableExactly(file: Bytes)
    ensures ReadArchive(file).Success? <==> Readable(file)
  {
    ReadArchiveExactly(file);
  }
}
