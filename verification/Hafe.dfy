/**
 Reading and writing archives step by step, against the format on byte sequences.
 */
module HafeFiles {
  import opened Common
  import opened PackedBits
  import opened BitArrays
  import opened HafeFormat

  /** Bytes still to be read. A read of more bytes than there are fails. */
  class InputStream {
    var rest: Bytes

    constructor (data: Bytes)
      ensures rest == data
    {
      rest := data;
    }

    method Read(n: nat) returns (r: Option<Bytes>)
      modifies this
      ensures n <= |old(rest)| ==> r == Some(old(rest)[..n]) && rest == old(rest)[n..]
      ensures n > |old(rest)| ==> r == None && rest == []
    {
      if n <= |rest| {
        r := Some(rest[..n]);
        rest := rest[n..];
      } else {
        r := None;
        rest := [];
      }
    }
  }

  lemma AddInCounter(a: nat, b: nat)
    ensures (((a % UINT32_MODULUS + 1) % UINT32_MODULUS + 1) % UINT32_MODULUS + b) % UINT32_MODULUS
         == (a + (2 + b)) % UINT32_MODULUS
  {
  }

  /** The bytes the table will take on disk; the accumulator is a 32-bit number. */
  method CalcSymbolTableDiskSize(table: Rows) returns (size: nat)
    ensures size == DiskSize(table) % UINT32_MODULUS
  {
    size := 0;
    for s := 0 to SYMBOLS
      invariant size == DiskSizeBelow(table, s) % UINT32_MODULUS
    {
      var row := table[s];
      if row.length > 0 {
        AddInCounter(DiskSizeBelow(table, s), EffectiveByteSize(row.length));
        size := (size + 1) % UINT32_MODULUS;
        size := (size + 1) % UINT32_MODULUS;
        size := (size + EffectiveByteSize(row.length)) % UINT32_MODULUS;
      }
    }
  }

  /** Size, then one entry for every non-empty row. */
  method WriteSymbolTable(table: Rows) returns (out: Bytes)
    ensures out == TableBytes(table)
  {
    var size := CalcSymbolTableDiskSize(table);
    out := LittleEndian(size, 4);
    ghost var all := EntriesFrom(table, 0);
    for s := 0 to SYMBOLS
      invariant out + EntriesFrom(table, s) == LittleEndian(size, 4) + all
    {
      var row := table[s];
      AssociateThree(out, RowBytes(s, row), EntriesFrom(table, s + 1));
      if row.length > 0 {
        var entry := WriteEntry(s, row);
        out := out + entry;
      } else {
        assert out + RowBytes(s, row) == out;
      }
    }
    assert out + [] == out;
  }

  /** Symbol, length cut to eight bits, and the code with its padding. */
  method WriteEntry(s: Byte, code: Packed) returns (out: Bytes)
    requires code.Valid()
    ensures out == EntryBytes(s, code)
  {
    var length := code.length % 256;
    out := [s];
    out := out + [length];
    out := out + ToDisk(code.bytes[..EffectiveByteSize(code.length)]);
  }

  /** Reads symbol, length and code of one entry into its row, and counts the bytes. */
  method ReadNextEntry(rows: Rows, input: InputStream) returns (r: Result<nat>, out: Rows)
    modifies input
    ensures match NextEntry(old(input.rest))
            case Success((s, code)) =>
              && r == Success(2 + |code.bytes|) && input.rest == old(input.rest)[2 + |code.bytes|..]
              && out == SetRow(rows, s, code)
            case Failure(e) => r == Failure(e)
  {
    out := rows;
    ghost var data := input.rest;
    var symbol := input.Read(1);
    if symbol.None? {
      return Failure(ShortTableEntry), out;
    }
    var length := input.Read(1);
    if length.None? {
      return Failure(ShortTableEntry), out;
    }
    var n := BytesRequired(length.value[0]);
    if n == 0 {
      return Failure(EmptyTableEntry), out;
    }
    var bytes := input.Read(n);
    if bytes.None? {
      return Failure(ShortTableEntry), out;
    }
    assert bytes.value == data[2..2 + n] && input.rest == data[2 + n..];
    // The vector has exactly the bytes required, so adopting it cannot throw.
    var code := new BitArray.Adopt(FromDisk(bytes.value), length.value[0]);
    out := SetRow(rows, symbol.value[0], code.Value());
    r := Success(2 + n);
  }

  /** Reads entries until exactly `size` bytes have been read. */
  method ReadSymbolTable(input: InputStream, size: nat) returns (r: Result<Rows>)
    modifies input
    ensures match ReadEntries(EmptyTable(), old(input.rest), 0, size)
            case Success((rows, rest)) => r == Success(rows) && input.rest == rest
            case Failure(e) => r == Failure(e)
  {
    var rows := EmptyTable();
    ghost var all := ReadEntries(rows, input.rest, 0, size);
    var byteRead: nat := 0;
    while byteRead != size
      invariant ReadEntries(rows, input.rest, byteRead, size) == all
      decreases |input.rest|
    {
      ghost var data, before, start := input.rest, rows, byteRead;
      var n;
      n, rows := ReadNextEntry(rows, input);
      if n.Failure? {
        return Failure(n.error);
      }
      byteRead := byteRead + n.value;
      ghost var (s, code) := NextEntry(data).value;
      ReadEntriesStep(before, data, start, size, s, code, rows, input.rest, byteRead, all);
    }
    r := Success(rows);
  }

  /** An archive in memory: the header's size field, the table and the bit stream. */
  class Hafe {
    const table: Rows
    const stream: BitArray

    ghost predicate Valid()
      reads stream
    {
      stream.Valid()
    }

    constructor (table: Rows, stream: BitArray)
      requires stream.Valid()
      ensures Valid() && this.table == table && this.stream == stream
    {
      this.table := table;
      this.stream := stream;
    }

    method Write() returns (file: Bytes)
      requires Valid() && stream.bitIndex <= UINT64_MAX
      ensures file == ArchiveBytes(table, stream.Value())
    {
      file := MAGIC;
      file := file + Reserved();
      var entries := WriteSymbolTable(table);
      file := file + entries;
      file := file + LittleEndian(stream.bitIndex, 8);
      file := file + ToDisk(stream.bytes[..EffectiveByteSize(stream.bitIndex)]);
    }

    /** Reads an archive; each missing or malformed part throws. */
    static method Read(input: InputStream) returns (r: Result<Hafe>)
      modifies input
      ensures match ReadArchive(old(input.rest))
              case Success((rows, stream)) =>
                && r.Success? && fresh(r.value) && r.value.Valid()
                && r.value.table == rows && r.value.stream.Value() == stream
              case Failure(e) => r == Failure(e)
    {
      var tableSize := ReadTableSize(input);
      if tableSize.Failure? {
        return Failure(tableSize.error);
      }
      var table := ReadSymbolTable(input, tableSize.value);
      if table.Failure? {
        return Failure(table.error);
      }
      var stream := ReadBitStream(input);
      if stream.Failure? {
        return Failure(stream.error);
      }
      var hafe := new Hafe(table.value, stream.value);
      return Success(hafe);
    }
  }

  /** Magic number, reserved bytes, and the size of the symbol table. */
  method ReadTableSize(input: InputStream) returns (r: Result<nat>)
    modifies input
    ensures r == HeaderTableSize(old(input.rest))
    ensures r.Success? ==> input.rest == old(input.rest)[24..]
  {
    ghost var file := input.rest;
    var magic := input.Read(4);
    if magic.None? || magic.value != MAGIC {
      return Failure(BadMagic);
    }
    var reserved := input.Read(RESERVED_SIZE);
    if reserved.None? {
      return Failure(MissingReserved);
    }
    var tableSize := input.Read(4);
    if tableSize.None? {
      return Failure(MissingTableLength);
    }
    assert tableSize.value == file[20..24];
    return Success(FromLittleEndian(tableSize.value));
  }

  /** The last part of an archive. */
  method ReadBitStream(input: InputStream) returns (r: Result<BitArray>)
    modifies input
    ensures match ReadStream(old(input.rest))
            case Success(stream) => r.Success? && fresh(r.value) && r.value.Valid() && r.value.Value() == stream
            case Failure(e) => r == Failure(e)
  {
    ghost var data := input.rest;
    var length := input.Read(8);
    if length.None? {
      return Failure(MissingBitLength);
    }
    var bits := FromLittleEndian(length.value);
    var n := ByteCount64(bits);
    var body := input.Read(n);
    if body.None? {
      return Failure(ShortBitstream);
    }
    assert body.value == data[8..8 + n];
    Pow256At8();
    ByteCountExactly(bits);
    r := BitArray.FromBytes(FromDisk(body.value), bits);
  }
}
