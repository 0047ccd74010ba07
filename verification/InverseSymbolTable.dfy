/**
 The inverse table: codes hashed into 256 buckets by their raw last byte and length, and looked up
 with the bit array's own equality operator.
 */
module InverseSymbolTables {
  import opened Common
  import opened Coding
  import opened PackedBits
  import opened BitArrays

  /** Row `s` is found when a bucket is scanned for `token`. */
  predicate Matches(source: Rows, token: Packed, s: Byte)
    requires token.Valid()
  {
    source[s].length > 0 && BucketOf(source[s]) == BucketOf(token) && Equal(token, source[s])
  }

  /** What scanning the bucket returns: the first matching row. */
  predicate IsFirstMatch(source: Rows, token: Packed, r: Option<Byte>)
    requires token.Valid()
  {
    match r
    case Some(x) => Matches(source, token, x) && forall s: Byte | s < x :: !Matches(source, token, s)
    case None => forall s: Byte :: !Matches(source, token, s)
  }

  /**
   Row `s` is found exactly when it has the token's bits and the token's raw last byte: the hash
   reads the padding, which the equality operator ignores.
   */
  lemma MatchExactly(source: Rows, token: Packed, s: Byte)
    requires token.Valid() && token.length > 0
    ensures Matches(source, token, s)
       <==> CodesOf(source)[s] == BitsOf(token) && BackByte(source[s]) == BackByte(token)
  {
    SameBucketEqualExactly(token, source[s]);
    assert |BitsOf(source[s])| == source[s].length && |BitsOf(token)| == token.length;
  }

  /** A one-bit code with non-zero padding that a token with the same bit does not find. */
  lemma PaddingHidesCode()
    ensures exists source: Rows, token: Packed ::
              token.Valid() && CodesOf(source)[0] == BitsOf(token) && !Matches(source, token, 0)
  {
    var source: Rows := seq(SYMBOLS, i => if i == 0 then Packed([0xC0], 1) else Packed([0], 0));
    var token := Packed([0x80], 1);
    assert BitsOf(source[0])[0] == BitsOf(token)[0];
    assert CodesOf(source)[0] == BitsOf(token);
    MatchExactly(source, token, 0);
    assert BackByte(source[0]) != BackByte(token);
  }

  /** The padding of the last byte in use is zero. */
  predicate ZeroPadding(p: Packed)
    requires p.Valid()
  {
    forall i | p.length <= i < 8 * EffectiveByteSize(p.length) :: !BitAt(p.bytes, i)
  }

  /** The codes a zero-tail token can find: those whose padding is zero. */
  function Findable(rows: Rows): (t: Table)
    ensures forall s: Byte :: t[s] == if ZeroPadding(rows[s]) then BitsOf(rows[s]) else []
  {
    seq(SYMBOLS, s requires 0 <= s < SYMBOLS => if ZeroPadding(rows[s]) then BitsOf(rows[s]) else [])
  }

  /** Every code can be found exactly when all padding is zero. */
  lemma FindableExactly(rows: Rows)
    ensures Findable(rows) == CodesOf(rows) <==> forall s: Byte :: ZeroPadding(rows[s])
  {
    if s: Byte :| !ZeroPadding(rows[s]) {
      assert |CodesOf(rows)[s]| == rows[s].length > 0;
      assert Findable(rows)[s] == [];
    }
  }

  lemma ZeroTailPadding(p: Packed)
    requires p.Valid() && ZeroTail(p)
    ensures ZeroPadding(p)
  {
  }

  /** In a zero-tail table every code can be found. */
  lemma ZeroTailsFindable(rows: Rows)
    requires AllZeroTails(rows)
    ensures Findable(rows) == CodesOf(rows)
  {
    FindableExactly(rows);
    forall s: Byte {
      ZeroTailPadding(rows[s]);
    }
  }

  /** With equal bits and a zero-tail token, equal last bytes mean zero padding. */
  lemma SameBackIsZeroPadding(p: Packed, token: Packed)
    requires p.Valid() && token.Valid() && token.length > 0 && ZeroTail(token)
    requires BitsOf(p) == BitsOf(token)
    ensures p.length == token.length
    ensures BackByte(p) == BackByte(token) <==> ZeroPadding(p)
  {
    assert p.length == |BitsOf(p)| == |BitsOf(token)| == token.length;
    var k := LastByteIndex(p.length);
    SameByte(p.bytes, token.bytes, k);
    forall i | 8 * k <= i < p.length
      ensures BitAt(p.bytes, i) == BitAt(token.bytes, i)
    {
      assert BitsOf(p)[i] == BitsOf(token)[i];
    }
  }

  /**
   Hash plus equality operator find row `s` for a zero-tail token exactly when the row has the
   token's bits and zero padding, although the operator alone is not bit equality.
   */
  lemma MatchIsBitEquality(source: Rows, token: Packed, s: Byte)
    requires token.Valid() && token.length > 0 && ZeroTail(token)
    ensures Matches(source, token, s) <==> Findable(source)[s] == BitsOf(token)
  {
    MatchExactly(source, token, s);
    assert |BitsOf(token)| == token.length;
    if BitsOf(source[s]) == BitsOf(token) {
      SameBackIsZeroPadding(source[s], token);
    }
  }

  /** The hashed search agrees with the plain table, for every table whatsoever. */
  lemma FirstMatchIsLookup(source: Rows, token: Packed, r: Option<Byte>)
    requires token.Valid() && token.length > 0 && ZeroTail(token)
    ensures IsFirstMatch(source, token, r) <==> r == Lookup(Findable(source), BitsOf(token))
  {
    var table, bits := Findable(source), BitsOf(token);
    assert bits != [] by {
      assert |bits| == token.length;
    }
    forall s: Byte
      ensures Matches(source, token, s) <==> table[s] == bits
    {
      MatchIsBitEquality(source, token, s);
    }
  }

  /** The operator and the hash look at the stored bytes only. */
  lemma SameStoredSameMatch(token: Packed, p: Packed, q: Packed)
    requires token.Valid() && p.Valid() && q.Valid()
    requires p.length == q.length > 0 && Stored(p) == Stored(q)
    ensures Equal(token, p) <==> Equal(token, q)
    ensures BucketOf(p) == BucketOf(q)
  {
    SameStoredParts(p, q);
    if token.length == p.length {
      var n := EffectiveByteSize(p.length) - 1;
      assert p.bytes[..n] == q.bytes[..n];
    }
  }

  lemma SameStoredParts(p: Packed, q: Packed)
    requires p.Valid() && q.Valid()
    requires p.length == q.length > 0 && Stored(p) == Stored(q)
    ensures BackByte(p) == BackByte(q)
    ensures BackByteWithoutPadding(p) == BackByteWithoutPadding(q)
    ensures p.bytes[..LastByteIndex(p.length)] == q.bytes[..LastByteIndex(p.length)]
  {
    var k := LastByteIndex(p.length);
    assert Stored(p)[k] == Stored(q)[k];
    assert p.bytes[..k] == Stored(p)[..k] == Stored(q)[..k] == q.bytes[..k];
  }

  type BucketEntry = e: (Packed, Byte) | e.0.Valid() witness (Packed([0], 0), 0)

  /** An entry is a copy of a non-empty row of its bucket. */
  ghost predicate BucketEntryOk(source: Rows, b: nat, e: BucketEntry) {
    var row := source[e.1];
    row.length > 0 && BucketOf(row) == b && e.0.length == row.length && Stored(e.0) == Stored(row)
  }

  ghost predicate EntriesOk(source: Rows, buckets: seq<seq<BucketEntry>>) {
    forall b, k | 0 <= b < |buckets| && 0 <= k < |buckets[b]| :: BucketEntryOk(source, b, buckets[b][k])
  }

  /** Within a bucket the symbols increase, and all are below `n`. */
  ghost predicate Increasing(bucket: seq<BucketEntry>, n: nat) {
    && (forall k | 0 <= k < |bucket| :: bucket[k].1 < n)
    && (forall k, l | 0 <= k < l < |bucket| :: bucket[k].1 < bucket[l].1)
  }

  ghost predicate HasSymbol(bucket: seq<BucketEntry>, s: Byte) {
    exists k :: 0 <= k < |bucket| && bucket[k].1 == s
  }

  /** The buckets hold exactly the non-empty rows of the symbols below `n`, in increasing order. */
  ghost predicate Indexed(source: Rows, buckets: seq<seq<BucketEntry>>, n: nat) {
    && |buckets| == SYMBOLS
    && EntriesOk(source, buckets)
    && (forall b | 0 <= b < SYMBOLS :: Increasing(buckets[b], n))
    && (forall s: Byte | s < n && source[s].length > 0 :: HasSymbol(buckets[BucketOf(source[s])], s))
  }

  lemma IncreasingGrows(bucket: seq<BucketEntry>, n: Byte, e: BucketEntry)
    requires Increasing(bucket, n) && e.1 == n
    ensures Increasing(bucket, n + 1) && Increasing(bucket + [e], n + 1)
  {
  }

  lemma HasSymbolGrows(bucket: seq<BucketEntry>, e: BucketEntry)
    ensures HasSymbol(bucket + [e], e.1)
    ensures forall s: Byte | HasSymbol(bucket, s) :: HasSymbol(bucket + [e], s)
  {
    var grown := bucket + [e];
    assert grown[|bucket|] == e;
    forall s: Byte | HasSymbol(bucket, s)
      ensures HasSymbol(grown, s)
    {
      var k :| 0 <= k < |bucket| && bucket[k].1 == s;
      assert grown[k].1 == s;
    }
  }

  lemma IndexedGrows(source: Rows, buckets: seq<seq<BucketEntry>>, e: BucketEntry)
    requires Indexed(source, buckets, e.1) && BucketEntryOk(source, BucketOf(source[e.1]), e)
    ensures var b := BucketOf(source[e.1]);
            Indexed(source, buckets[b := buckets[b] + [e]], e.1 + 1)
  {
    var n: nat := e.1;
    var b := BucketOf(source[e.1]);
    var grown := buckets[b := buckets[b] + [e]];
    HasSymbolGrows(buckets[b], e);
    forall c | 0 <= c < SYMBOLS
      ensures Increasing(grown[c], n + 1)
    {
      IncreasingGrows(buckets[c], n, e);
    }
  }

  /** No matching row comes before the scanned part of the bucket. */
  lemma MatchNotScanned(source: Rows, buckets: seq<seq<BucketEntry>>, token: Packed, k: nat, s: Byte)
    requires Indexed(source, buckets, SYMBOLS) && token.Valid() && Matches(source, token, s)
    requires k <= |buckets[BucketOf(token)]|
    requires forall l | 0 <= l < k :: !Matches(source, token, buckets[BucketOf(token)][l].1)
    ensures k < |buckets[BucketOf(token)]| && buckets[BucketOf(token)][k].1 <= s
  {
    var l :| 0 <= l < |buckets[BucketOf(token)]| && buckets[BucketOf(token)][l].1 == s;
  }

  class InverseSymbolTable {
    /** The copies made by the table; neither they nor the buckets change after construction. */
    const buckets: seq<seq<BucketEntry>>

    /** The rows the table was built from. */
    ghost const source: Rows

    ghost predicate Valid() {
      Indexed(source, buckets, SYMBOLS)
    }

    constructor (table: Rows)
      ensures Valid() && source == table
    {
      var filled: seq<seq<BucketEntry>> := seq(SYMBOLS, b => []);
      for i := 0 to SYMBOLS
        invariant Indexed(table, filled, i)
      {
        if table[i].length > 0 {
          filled := InsertUnique(table, filled, table[i], i);
        }
      }
      buckets := filled;
      source := table;
    }

    /** Appends a copy of the code to its bucket. */
    static method InsertUnique(ghost rows: Rows, filled: seq<seq<BucketEntry>>, code: Packed, symbol: Byte)
      returns (next: seq<seq<BucketEntry>>)
      requires Indexed(rows, filled, symbol) && code == rows[symbol] && code.length > 0
      ensures Indexed(rows, next, symbol + 1)
    {
      var b := BucketOf(code);
      var copy := new BitArray.Copy(code);
      var entry: BucketEntry := (copy.Value(), symbol);
      IndexedGrows(rows, filled, entry);
      next := filled[b := filled[b] + [entry]];
    }

    /** Scans the token's bucket. */
    method Find(token: BitArray) returns (r: Option<Byte>)
      requires Valid() && token.Valid() && !token.Empty()
      ensures IsFirstMatch(source, token.Value(), r)
    {
      var bucket := buckets[BucketOf(token.Value())];
      ghost var value := token.Value();
      for k := 0 to |bucket|
        invariant forall l | 0 <= l < k :: !Matches(source, value, bucket[l].1)
      {
        assert BucketEntryOk(source, BucketOf(value), bucket[k]);
        SameStoredSameMatch(value, bucket[k].0, source[bucket[k].1]);
        if token.Equals(bucket[k].0) {
          forall s: Byte | Matches(source, value, s)
            ensures bucket[k].1 <= s
          {
            MatchNotScanned(source, buckets, value, k, s);
          }
          return Some(bucket[k].1);
        }
      }
      forall s: Byte
        ensures !Matches(source, value, s)
      {
        if Matches(source, value, s) {
          MatchNotScanned(source, buckets, value, |bucket|, s);
        }
      }
      return None;
    }
  }
}
