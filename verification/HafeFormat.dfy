/**
 The Hafe archive format on byte sequences: what is written, what is read, and that reading what
 was written gives it back.
 */
module HafeFormat {
  import opened Common
  import B = BitArray8
  import opened PackedBits
  import opened BitArrays

  type Bytes = seq<Byte>

  const MAGIC: Bytes := [0x4d, 0x61, 0x6e, 0x75]

  /** The reserved bytes, filled with 0x1d by the writer and ignored by the reader. */
  const RESERVED_SIZE: nat := 16

  function Reserved(): (r: Bytes)
    ensures |r| == RESERVED_SIZE
  {
    seq(RESERVED_SIZE, i => 0x1d)
  }

  // ----- Bytes in memory and bytes on disk -----

  function ToDisk(bytes: seq<Byte8>): (r: Bytes)
    ensures |r| == |bytes| && forall i | 0 <= i < |bytes| :: r[i] == bytes[i] as int
  {
    seq(|bytes|, i requires 0 <= i < |bytes| => bytes[i] as int)
  }

  function FromDisk(bytes: Bytes): (r: seq<Byte8>)
    ensures |r| == |bytes| && forall i | 0 <= i < |bytes| :: r[i] == bytes[i] as bv8
  {
    seq(|bytes|, i requires 0 <= i < |bytes| => bytes[i] as bv8)
  }

  lemma DiskRoundTrip(bytes: seq<Byte8>)
    ensures FromDisk(ToDisk(bytes)) == bytes
  {
    forall i | 0 <= i < |bytes|
      ensures FromDisk(ToDisk(bytes))[i] == bytes[i]
    {
      B.IntRoundTrip(bytes[i]);
    }
  }

  lemma SplitTwo(a: Bytes, b: Bytes)
    ensures (a + b)[..|a|] == a && (a + b)[|a|..] == b
  {
  }

  lemma AssociateThree(a: Bytes, b: Bytes, c: Bytes)
    ensures a + b + c == a + (b + c)
  {
  }

  lemma Associate(a: Bytes, b: Bytes, c: Bytes, d: Bytes, e: Bytes)
    ensures a + b + c + d + e == a + (b + (c + (d + e)))
  {
    assert a + b + c + d + e == a + b + (c + (d + e));
  }

  // ----- Little-endian integers -----

  function LittleEndian(n: nat, width: nat): (r: Bytes)
    ensures |r| == width
  {
    if width == 0 then [] else [n % 256] + LittleEndian(n / 256, width - 1)
  }

  function FromLittleEndian(bytes: Bytes): (n: nat)
    ensures n < Pow256(|bytes|)
  {
    if bytes == [] then 0 else bytes[0] + 256 * FromLittleEndian(bytes[1..])
  }

  function Pow256(width: nat): nat {
    if width == 0 then 1 else 256 * Pow256(width - 1)
  }

  lemma {:induction false} LittleEndianRoundTrip(n: nat, width: nat)
    requires n < Pow256(width)
    ensures FromLittleEndian(LittleEndian(n, width)) == n
  {
    if width > 0 {
      LittleEndianRoundTrip(n / 256, width - 1);
      assert LittleEndian(n, width)[1..] == LittleEndian(n / 256, width - 1);
    }
  }

  // ----- The symbol table on disk -----

  /** Symbol, length in bits as one byte, and the bytes in use. */
  function EntryBytes(s: Byte, p: Packed): Bytes
    requires p.Valid()
  {
    [s, p.length % 256] + ToDisk(Stored(p))
  }

  /** What is written for one row: nothing when it is empty. */
  function RowBytes(s: Byte, p: Packed): (r: Bytes)
    requires p.Valid()
    ensures |r| == RowSize(p)
  {
    if p.length == 0 then [] else EntryBytes(s, p)
  }

  function RowSize(p: Packed): nat {
    if p.length == 0 then 0 else 2 + EffectiveByteSize(p.length)
  }

  /** The entries of the non-empty rows from symbol `n` on. */
  function EntriesFrom(rows: Rows, n: nat): Bytes
    requires n <= SYMBOLS
    decreases SYMBOLS - n, rows
  {
    if n == SYMBOLS then [] else RowBytes(n, rows[n]) + EntriesFrom(rows, n + 1)
  }

  /** The bytes the entries below `n` take. */
  function DiskSizeBelow(rows: Rows, n: nat): nat
    requires n <= SYMBOLS
  {
    if n == 0 then 0 else DiskSizeBelow(rows, n - 1) + RowSize(rows[n - 1])
  }

  function DiskSize(rows: Rows): nat {
    DiskSizeBelow(rows, SYMBOLS)
  }

  /** The computed disk size is exactly what the entries take. */
  lemma {:induction false} DiskSizeIsEntries(rows: Rows, n: nat)
    requires n <= SYMBOLS
    ensures DiskSizeBelow(rows, n) + |EntriesFrom(rows, n)| == DiskSize(rows)
    decreases SYMBOLS - n
  {
    if n < SYMBOLS {
      DiskSizeIsEntries(rows, n + 1);
    }
  }

  predicate ShortCodes(rows: Rows) {
    forall s: Byte :: rows[s].length <= 255
  }

  lemma {:induction false} DiskSizeBound(rows: Rows, n: nat)
    requires n <= SYMBOLS && ShortCodes(rows)
    ensures DiskSizeBelow(rows, n) <= 34 * n
  {
    if n > 0 {
      DiskSizeBound(rows, n - 1);
    }
  }

  /** Size, then entries. The size is a 32-bit number. */
  function TableBytes(rows: Rows): Bytes {
    LittleEndian(DiskSize(rows) % UINT32_MODULUS, 4) + EntriesFrom(rows, 0)
  }

  /** A row nothing has been read into: the storage of an empty Huffman code. */
  function EmptyRow(): Packed {
    Packed(Zeros(BytesRequired(MAX_LENGTH)), 0)
  }

  function EmptyTable(): (r: Rows)
    ensures forall s: Byte :: r[s] == EmptyRow()
  {
    seq(SYMBOLS, i => EmptyRow())
  }

  /** One entry at the front of the data; a code of zero bits is refused. */
  function NextEntry(data: Bytes): (r: Result<(Byte, Packed)>)
    ensures r.Success? ==> r.value.1.Valid() && 2 + |r.value.1.bytes| <= |data|
  {
    if |data| < 2 then Failure(ShortTableEntry)
    else
      var n := BytesRequired(data[1]);
      if n == 0 then Failure(EmptyTableEntry)
      else if |data| < 2 + n then Failure(ShortTableEntry)
      else Success((data[0], Packed(FromDisk(data[2..2 + n]), data[1])))
  }

  function SetRow(rows: Rows, s: Byte, p: Packed): (r: Rows)
    requires p.Valid()
    ensures forall x: Byte :: r[x] == if x == s then p else rows[x]
  {
    rows[s := p]
  }

  /** The entry loop: it runs until the bytes read are exactly the announced size. */
  function ReadEntries(rows: Rows, data: Bytes, byteRead: nat, size: nat): Result<(Rows, Bytes)>
    decreases |data|
  {
    if byteRead == size then Success((rows, data))
    else
      var (s, code) :- NextEntry(data);
      var n := 2 + |code.bytes|;
      ReadEntries(SetRow(rows, s, code), data[n..], byteRead + n, size)
  }

  /** One iteration of the entry loop leaves the final result unchanged. */
  lemma ReadEntriesStep(
    rows: Rows, data: Bytes, byteRead: nat, size: nat, s: Byte, code: Packed,
    next: Rows, rest: Bytes, nextRead: nat, r: Result<(Rows, Bytes)>)
    requires byteRead != size && NextEntry(data) == Success((s, code))
    requires next == SetRow(rows, s, code)
    requires rest == data[2 + |code.bytes|..] && nextRead == byteRead + 2 + |code.bytes|
    ensures ReadEntries(rows, data, byteRead, size) == r <==> ReadEntries(next, rest, nextRead, size) == r
  {
  }

  /** The bytes of an entry whose code has this many bits. */
  function EntrySize(bits: nat): nat {
    2 + (bits + 7) / 8
  }

  /** The bytes split into entries: symbol, a length of at least one bit, and the bytes for that. */
  predicate WellFormedEntries(bytes: Bytes)
    decreases |bytes|
  {
    || bytes == []
    || (&& |bytes| >= 2 && bytes[1] > 0 && EntrySize(bytes[1]) <= |bytes|
        && WellFormedEntries(bytes[EntrySize(bytes[1])..]))
  }

  /** Going on from entry to entry one comes to an entry of zero bits. */
  predicate HasEmptyEntry(bytes: Bytes)
    decreases |bytes|
  {
    && |bytes| >= 2
    && (|| bytes[1] == 0
        || (EntrySize(bytes[1]) <= |bytes| && HasEmptyEntry(bytes[EntrySize(bytes[1])..])))
  }

  /** The entries stored into their rows; of two entries for one symbol the later one stays. */
  function StoreEntries(rows: Rows, bytes: Bytes): Rows
    requires WellFormedEntries(bytes)
    decreases |bytes|
  {
    if bytes == [] then rows
    else
      var n := EntrySize(bytes[1]);
      StoreEntries(SetRow(rows, bytes[0], Packed(FromDisk(bytes[2..n]), bytes[1])), bytes[n..])
  }

  /** The later of two entries for one symbol stays; the rows of other symbols are left alone. */
  lemma {:induction false} LastEntryStays(rows: Rows, front: Bytes, entry: Bytes)
    requires WellFormedEntries(front)
    requires |entry| >= 2 && entry[1] > 0 && |entry| == EntrySize(entry[1])
    ensures WellFormedEntries(front + entry)
    ensures StoreEntries(rows, front + entry)
         == StoreEntries(rows, front)[entry[0] := Packed(FromDisk(entry[2..]), entry[1])]
    decreases |front|
  {
    var all := front + entry;
    if front == [] {
      assert all == entry && all[|entry|..] == [] && all[2..|entry|] == entry[2..];
    } else {
      var n := EntrySize(front[1]);
      assert all[1] == front[1] && all[2..n] == front[2..n] && all[n..] == front[n..] + entry;
      LastEntryStays(SetRow(rows, front[0], Packed(FromDisk(front[2..n]), front[1])), front[n..], entry);
    }
  }

  /** An entry lies within the first `k` bytes exactly when those bytes alone start with it. */
  lemma NextEntryPrefix(data: Bytes, k: nat)
    requires k <= |data|
    ensures NextEntry(data[..k]).Success?
       <==> NextEntry(data).Success? && 2 + |NextEntry(data).value.1.bytes| <= k
    ensures NextEntry(data[..k]).Success? ==> NextEntry(data[..k]) == NextEntry(data)
  {
    if k >= 2 {
      var n := BytesRequired(data[1]);
      if 2 + n <= k {
        assert data[..k][2..2 + n] == data[2..2 + n];
      }
    }
  }

  /** The first entry of a part of the data, and what follows it within the part. */
  lemma EntriesPrefix(data: Bytes, k: nat, s: Byte, code: Packed, rest: Bytes)
    requires 0 < k <= |data| && NextEntry(data) == Success((s, code))
    requires rest == data[2 + |code.bytes|..]
    ensures var n := 2 + |code.bytes|;
            WellFormedEntries(data[..k]) <==> n <= k && WellFormedEntries(rest[..k - n])
    ensures var n := 2 + |code.bytes|;
            n <= k && WellFormedEntries(rest[..k - n]) ==>
              && rest[k - n..] == data[k..]
              && forall rows: Rows ::
                   StoreEntries(rows, data[..k]) == StoreEntries(SetRow(rows, s, code), rest[..k - n])
  {
    var n := 2 + |code.bytes|;
    NextEntryPrefix(data, k);
    if n <= k {
      assert data[..k][n..] == rest[..k - n];
    }
  }

  /**
   What reading entries should give: it succeeds exactly when the announced bytes are there and
   split into entries; those are stored, and what follows is left. Otherwise an entry of zero bits
   or the end of the data stops it.
   */
  predicate EntriesResult(rows: Rows, data: Bytes, left: int, r: Result<(Rows, Bytes)>) {
    && (r.Success? <==> 0 <= left <= |data| && WellFormedEntries(data[..left]))
    && (r.Success? ==> r.value == (StoreEntries(rows, data[..left]), data[left..]))
    && (r.Failure? ==> r.error == if HasEmptyEntry(data) then EmptyTableEntry else ShortTableEntry)
  }

  lemma EntriesResultStep(
    rows: Rows, data: Bytes, left: int, r: Result<(Rows, Bytes)>, s: Byte, code: Packed, rest: Bytes, n: nat)
    requires left != 0 && NextEntry(data) == Success((s, code))
    requires n == 2 + |code.bytes| && rest == data[n..]
    requires EntriesResult(SetRow(rows, s, code), rest, left - n, r)
    ensures EntriesResult(rows, data, left, r)
  {
    if 0 < left <= |data| {
      EntriesPrefix(data, left, s, code, rest);
    }
  }

  lemma EntriesResultStop(rows: Rows, data: Bytes, left: int, e: Error)
    requires left != 0 && NextEntry(data) == Failure(e)
    ensures EntriesResult(rows, data, left, Failure(e))
  {
    if 0 < left <= |data| {
      NextEntryPrefix(data, left);
    }
  }

  /**
   The entry loop on any data gives that result. So a size that no entry boundary hits makes it
   fail, however the data goes on.
   */
  lemma {:induction false} ReadEntriesExactly(rows: Rows, data: Bytes, byteRead: nat, size: nat)
    ensures EntriesResult(rows, data, size - byteRead, ReadEntries(rows, data, byteRead, size))
    decreases |data|
  {
    if byteRead != size {
      match NextEntry(data)
      case Failure(e) =>
        EntriesResultStop(rows, data, size - byteRead, e);
      case Success((s, code)) =>
        var n := 2 + |code.bytes|;
        var next, rest := SetRow(rows, s, code), data[n..];
        ReadEntriesExactly(next, rest, byteRead + n, size);
        EntriesResultStep(
          rows, data, size - byteRead, ReadEntries(next, rest, byteRead + n, size), s, code, rest, n);
    }
  }

  /** What a row looks like after it has been written and read. */
  function Reread(p: Packed): (r: Packed)
    requires p.Valid()
    ensures r.Valid() && r.length == p.length
  {
    if p.length == 0 then EmptyRow() else Packed(Stored(p), p.length)
  }

  function RereadRows(rows: Rows): (r: Rows)
    ensures forall s: Byte :: r[s] == Reread(rows[s])
  {
    seq(SYMBOLS, s requires 0 <= s < SYMBOLS => Reread(rows[s]))
  }

  /** Rereading keeps the bits and the zero tail. */
  lemma RereadSame(p: Packed)
    requires p.Valid()
    ensures BitsOf(Reread(p)) == BitsOf(p)
    ensures ZeroTail(p) ==> ZeroTail(Reread(p))
  {
    if p.length == 0 {
      assert |BitsOf(p)| == 0;
      ZeroBytesZeroTail(Zeros(BytesRequired(MAX_LENGTH)));
    } else {
      assert Stored(Reread(p)) == Stored(p);
      StoredDeterminesBits(p, Reread(p));
      SamePrefix(p.bytes, Stored(p), EffectiveByteSize(p.length));
    }
  }

  lemma RereadRowsSame(rows: Rows)
    ensures CodesOf(RereadRows(rows)) == CodesOf(rows)
    ensures AllZeroTails(rows) ==> AllZeroTails(RereadRows(rows))
  {
    forall s: Byte {
      RereadSame(rows[s]);
    }
  }

  lemma NextWrittenEntry(s: Byte, p: Packed, rest: Bytes)
    requires p.Valid() && 0 < p.length <= 255
    ensures NextEntry(EntryBytes(s, p) + rest) == Success((s, Reread(p)))
    ensures (EntryBytes(s, p) + rest)[2 + |Stored(p)|..] == rest
  {
    var data, n := EntryBytes(s, p) + rest, EffectiveByteSize(p.length);
    assert data[0] == s && data[1] == p.length && n == BytesRequired(data[1]) >= 1;
    assert data[2..2 + n] == ToDisk(Stored(p));
    DiskRoundTrip(Stored(p));
  }

  /** Reading what was written for one row. */
  lemma ReadRow(
    rows: Rows, s: Byte, p: Packed, data: Bytes, byteRead: nat, size: nat,
    next: Rows, rest: Bytes, nextRead: nat, r: Result<(Rows, Bytes)>)
    requires p.Valid() && p.length <= 255 && (p.length > 0 ==> byteRead != size)
    requires data == RowBytes(s, p) + rest
    requires nextRead == byteRead + RowSize(p)
    requires if p.length > 0 then next == SetRow(rows, s, Reread(p)) else next == rows
    requires ReadEntries(next, rest, nextRead, size) == r
    ensures ReadEntries(rows, data, byteRead, size) == r
  {
    if p.length == 0 {
      assert data == rest;
    } else {
      NextWrittenEntry(s, p, rest);
      assert |Reread(p).bytes| == EffectiveByteSize(p.length);
      ReadEntriesStep(rows, data, byteRead, size, s, Reread(p), next, rest, nextRead, r);
    }
  }

  /** The rows below `n` have been read, the others are still empty. */
  predicate ReadBelow(acc: Rows, rows: Rows, n: nat) {
    forall s: Byte :: acc[s] == if s < n then Reread(rows[s]) else EmptyRow()
  }

  lemma AllRead(rows: Rows, acc: Rows, rest: Bytes, size: nat)
    requires ReadBelow(acc, rows, SYMBOLS)
    ensures ReadEntries(acc, rest, size, size) == Success((RereadRows(rows), rest))
  {
    assert acc == RereadRows(rows);
  }

  lemma {:induction false} ReadWrittenEntries(
    rows: Rows, n: nat, acc: Rows, data: Bytes, rest: Bytes, byteRead: nat, size: nat)
    requires n <= SYMBOLS && ShortCodes(rows) && ReadBelow(acc, rows, n)
    requires data == EntriesFrom(rows, n) + rest
    requires byteRead == DiskSizeBelow(rows, n) && size == DiskSize(rows)
    ensures ReadEntries(acc, data, byteRead, size) == Success((RereadRows(rows), rest))
    decreases SYMBOLS - n
  {
    if n == SYMBOLS {
      AllRead(rows, acc, rest, size);
      assert data == rest;
    } else {
      var p, entries := rows[n], EntriesFrom(rows, n + 1);
      var next, nextRead := SetRow(acc, n, Reread(p)), byteRead + RowSize(p);
      DiskSizeIsEntries(rows, n);
      if p.length == 0 {
        assert next == acc;
      }
      ReadWrittenEntries(rows, n + 1, next, entries + rest, rest, nextRead, size);
      AssociateThree(RowBytes(n, p), entries, rest);
      ReadRow(acc, n, p, data, byteRead, size, next, entries + rest, nextRead, Success((RereadRows(rows), rest)));
    }
  }

  /** Symbol table round trip: all 256 rows come back, and the loop stops exactly at the size. */
  lemma TableRoundTrip(rows: Rows, rest: Bytes)
    requires ShortCodes(rows)
    ensures |TableBytes(rows)| == 4 + DiskSize(rows)
    ensures FromLittleEndian(TableBytes(rows)[..4]) == DiskSize(rows)
    ensures ReadEntries(EmptyTable(), TableBytes(rows)[4..] + rest, 0, DiskSize(rows))
         == Success((RereadRows(rows), rest))
  {
    DiskSizeIsEntries(rows, 0);
    TableBytesSplit(rows);
    var entries := EntriesFrom(rows, 0);
    ReadWrittenEntries(rows, 0, EmptyTable(), entries + rest, rest, 0, DiskSize(rows));
  }

  /** Every row read has at most 255 bits. */
  lemma {:induction false} ReadRowsShort(rows: Rows, data: Bytes, byteRead: nat, size: nat)
    requires ShortCodes(rows)
    ensures var r := ReadEntries(rows, data, byteRead, size);
            r.Success? ==> ShortCodes(r.value.0)
    decreases |data|
  {
    if byteRead != size && NextEntry(data).Success? {
      var (s, code) := NextEntry(data).value;
      var n := 2 + |code.bytes|;
      ReadRowsShort(SetRow(rows, s, code), data[n..], byteRead + n, size);
    }
  }

  /** Reading a symbol table: the size in four bytes, then the entries. */
  function ReadTable(data: Bytes): Result<(Rows, Bytes)>
    requires |data| >= 4
  {
    ReadEntries(EmptyTable(), data[4..], 0, FromLittleEndian(data[..4]))
  }

  /** The codes of a written table come back exactly when none has more than 255 bits. */
  lemma TableRoundTripExactly(rows: Rows, rest: Bytes)
    ensures |TableBytes(rows)| >= 4
    ensures var r := ReadTable(TableBytes(rows) + rest);
            && (r == Success((RereadRows(rows), rest)) <==> ShortCodes(rows))
            && (r.Success? && CodesOf(r.value.0) == CodesOf(rows) <==> ShortCodes(rows))
  {
    ReadTableSplit(TableBytes(rows), rest);
    RereadRowsSame(rows);
    if ShortCodes(rows) {
      TableRoundTrip(rows, rest);
    } else {
      ReadRowsShort(EmptyTable(), TableBytes(rows)[4..] + rest, 0, FromLittleEndian(TableBytes(rows)[..4]));
      LongCodesDiffer(rows);
    }
  }

  lemma ReadTableSplit(table: Bytes, rest: Bytes)
    requires |table| >= 4
    ensures ReadTable(table + rest)
         == ReadEntries(EmptyTable(), table[4..] + rest, 0, FromLittleEndian(table[..4]))
  {
    assert (table + rest)[..4] == table[..4] && (table + rest)[4..] == table[4..] + rest;
  }

  /** A table with a longer code has other codes than any table without. */
  lemma LongCodesDiffer(rows: Rows)
    requires !ShortCodes(rows)
    ensures forall read: Rows | ShortCodes(read) :: CodesOf(read) != CodesOf(rows)
  {
    var s: Byte :| rows[s].length > 255;
    forall read: Rows | ShortCodes(read)
      ensures CodesOf(read) != CodesOf(rows)
    {
      assert |CodesOf(read)[s]| == read[s].length != |CodesOf(rows)[s]|;
    }
  }

  lemma TableBytesSplit(rows: Rows)
    requires ShortCodes(rows)
    ensures |TableBytes(rows)| >= 4
    ensures FromLittleEndian(TableBytes(rows)[..4]) == DiskSize(rows)
    ensures TableBytes(rows)[4..] == EntriesFrom(rows, 0)
  {
    var size := DiskSize(rows);
    DiskSizeBound(rows, SYMBOLS);
    Pow256At4();
    LittleEndianRoundTrip(size, 4);
    assert size % UINT32_MODULUS == size;
    SplitTwo(LittleEndian(size, 4), EntriesFrom(rows, 0));
  }

  lemma Pow256At4()
    ensures Pow256(4) == UINT32_MODULUS
  {
  }

  lemma Pow256At8()
    ensures Pow256(8) == UINT64_MAX + 1
  {
    assert Pow256(4) == UINT32_MODULUS;
  }

  // ----- The archive -----

  function ArchiveBytes(rows: Rows, stream: Packed): Bytes
    requires stream.Valid() && stream.length <= UINT64_MAX
  {
    MAGIC + Reserved() + TableBytes(rows) + LittleEndian(stream.length, 8) + ToDisk(Stored(stream))
  }

  /** Reading after the symbol table. A length whose byte count wraps around to zero is refused. */
  function ReadStream(data: Bytes): (r: Result<Packed>)
    ensures r.Success? ==> r.value.Valid()
  {
    if |data| < 8 then Failure(MissingBitLength)
    else
      var bits := FromLittleEndian(data[..8]);
      var n := ByteCount64(bits);
      if |data| < 8 + n then Failure(ShortBitstream)
      else if n == 0 then Failure(ZeroCapacity)
      else
        Pow256At8();
        ByteCountExactly(bits);
        Success(Packed(FromDisk(data[8..8 + n]), bits))
  }

  /** Reading the 24 bytes in front of the entries. */
  function HeaderTableSize(file: Bytes): (r: Result<nat>)
    ensures r.Success? ==> |file| >= 24
  {
    if |file| < 4 || file[..4] != MAGIC then Failure(BadMagic)
    else if |file| < 20 then Failure(MissingReserved)
    else if |file| < 24 then Failure(MissingTableLength)
    else Success(FromLittleEndian(file[20..24]))
  }

  /** Reading an archive; trailing bytes are not looked at. */
  function ReadArchive(file: Bytes): Result<(Rows, Packed)> {
    var size :- HeaderTableSize(file);
    var (rows, rest) :- ReadEntries(EmptyTable(), file[24..], 0, size);
    var stream :- ReadStream(rest);
    Success((rows, stream))
  }

  lemma ReadStreamParts(head: Bytes, body: Bytes, trailing: Bytes, bits: nat)
    requires |head| == 8 && FromLittleEndian(head) == bits && |body| == ByteCount64(bits)
    ensures ReadStream(head + (body + trailing))
         == if body == [] then Failure(ZeroCapacity) else Success(Packed(FromDisk(body), bits))
  {
    var data := head + (body + trailing);
    SplitTwo(head, body + trailing);
    SplitTwo(body, trailing);
    assert data[8..8 + |body|] == data[8..][..|body|] == body;
  }

  /** The stream part: bit length, bytes, and whatever follows. */
  lemma StreamRoundTrip(stream: Packed, trailing: Bytes)
    requires stream.Valid() && stream.length <= UINT64_MAX - 7
    ensures ReadStream(LittleEndian(stream.length, 8) + (ToDisk(Stored(stream)) + trailing))
         == if stream.length == 0 then Failure(ZeroCapacity) else Success(Reread(stream))
  {
    Pow256At8();
    LittleEndianRoundTrip(stream.length, 8);
    ByteCountExactly(stream.length);
    ReadStreamParts(LittleEndian(stream.length, 8), ToDisk(Stored(stream)), trailing, stream.length);
    DiskRoundTrip(Stored(stream));
  }

  lemma HeaderRoundTrip(tail: Bytes)
    ensures var file := MAGIC + Reserved() + tail;
            |file| == 20 + |tail| && file[..4] == MAGIC && file[20..] == tail
  {
    SplitTwo(MAGIC + Reserved(), tail);
  }

  /** Reading a well-formed header reduces to reading what follows it. */
  lemma ReadAfterHeader(table: Bytes, tail: Bytes, rows: Rows)
    requires |table| >= 4
    requires ReadEntries(EmptyTable(), table[4..] + tail, 0, FromLittleEndian(table[..4])) == Success((rows, tail))
    ensures ReadArchive(MAGIC + Reserved() + (table + tail))
         == (match ReadStream(tail) case Success(p) => Success((rows, p)) case Failure(e) => Failure(e))
  {
    var file := MAGIC + Reserved() + (table + tail);
    HeaderRoundTrip(table + tail);
    assert file[20..24] == file[20..][..4] == table[..4];
    assert file[24..] == file[20..][4..] == table[4..] + tail;
  }

  /**
   Archive round trip, whatever follows the archive. Reading back succeeds exactly when the bit
   stream is not empty: an empty one is written but refused when it is read.
   */
  lemma ArchiveRoundTrip(rows: Rows, stream: Packed, trailing: Bytes)
    requires ShortCodes(rows) && stream.Valid() && stream.length <= UINT64_MAX - 7
    ensures ReadArchive(ArchiveBytes(rows, stream) + trailing)
         == if stream.length == 0 then Failure(ZeroCapacity)
            else Success((RereadRows(rows), Reread(stream)))
  {
    var length, body := LittleEndian(stream.length, 8), ToDisk(Stored(stream));
    var tail, table := length + (body + trailing), TableBytes(rows);
    TableRoundTrip(rows, tail);
    StreamRoundTrip(stream, trailing);
    ReadAfterHeader(table, tail, RereadRows(rows));
    Associate(MAGIC + Reserved(), table, length, body, trailing);
  }

  // ----- One archive per content -----

  predicate SameRows(a: Rows, b: Rows) {
    forall s: Byte :: a[s].length == b[s].length && Stored(a[s]) == Stored(b[s])
  }

  lemma {:induction false} SameEntries(a: Rows, b: Rows, n: nat)
    requires n <= SYMBOLS && SameRows(a, b)
    ensures EntriesFrom(a, n) == EntriesFrom(b, n)
    decreases SYMBOLS - n
  {
    if n < SYMBOLS {
      SameEntries(a, b, n + 1);
    }
  }

  lemma {:induction false} SameDiskSize(a: Rows, b: Rows, n: nat)
    requires n <= SYMBOLS && SameRows(a, b)
    ensures DiskSizeBelow(a, n) == DiskSizeBelow(b, n)
  {
    if n > 0 {
      SameDiskSize(a, b, n - 1);
    }
  }

  /**
   With zero tails the archive is determined by the codes and the encoded bits, however much
   storage the bit arrays had.
   */
  lemma ArchiveDetermined(rows: Rows, stream: Packed, otherRows: Rows, otherStream: Packed)
    requires stream.Valid() && otherStream.Valid()
    requires stream.length <= UINT64_MAX && otherStream.length <= UINT64_MAX
    requires AllZeroTails(rows) && AllZeroTails(otherRows) && ZeroTail(stream) && ZeroTail(otherStream)
    requires CodesOf(rows) == CodesOf(otherRows) && BitsOf(stream) == BitsOf(otherStream)
    ensures ArchiveBytes(rows, stream) == ArchiveBytes(otherRows, otherStream)
  {
    SameBitsSameStored(stream, otherStream);
    forall s: Byte
      ensures rows[s].length == otherRows[s].length && Stored(rows[s]) == Stored(otherRows[s])
    {
      assert BitsOf(rows[s]) == CodesOf(rows)[s] == CodesOf(otherRows)[s] == BitsOf(otherRows[s]);
      SameBitsSameStored(rows[s], otherRows[s]);
    }
    SameEntries(rows, otherRows, 0);
    SameDiskSize(rows, otherRows, SYMBOLS);
  }
}
