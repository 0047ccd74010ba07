/**
 What encoding and decoding mean for a code table, on sequences of bits.
 */
module Coding {
  import opened Common
  import opened CodeTable
  import opened Histograms

  // ----- Encoding -----

  /** The codes of the input's bytes, one after the other. */
  function Encode(table: Table, data: seq<Byte>): Bits {
    if data == [] then []
    else Encode(table, data[..|data| - 1]) + table[data[|data| - 1]]
  }

  lemma EncodeAppend(table: Table, data: seq<Byte>, x: Byte)
    ensures Encode(table, data + [x]) == Encode(table, data) + table[x]
  {
    assert (data + [x])[..|data|] == data;
  }

  lemma {:induction false} EncodeConcat(table: Table, a: seq<Byte>, b: seq<Byte>)
    ensures Encode(table, a + b) == Encode(table, a) + Encode(table, b)
    decreases b
  {
    if b == [] {
      assert a + b == a;
    } else {
      var front, x := b[..|b| - 1], b[|b| - 1];
      assert a + b == (a + front) + [x];
      EncodeAppend(table, a + front, x);
      EncodeConcat(table, a, front);
    }
  }

  lemma CountAppend(data: seq<Byte>, x: Byte, s: Byte)
    ensures Counts(data + [x])[s] == Counts(data)[s] + if x == s then 1 else 0
  {
  }

  /** The term of one symbol grows by its length when that symbol is appended. */
  lemma TermAppend(data: seq<Byte>, x: Byte, s: Byte, length: nat)
    ensures Counts(data + [x])[s] * length == Counts(data)[s] * length + if x == s then length else 0
  {
    CountAppend(data, x, s);
    OneMore(Counts(data)[s], length);
  }

  lemma OneMore(count: nat, length: nat)
    ensures (count + 1) * length == count * length + length
  {
  }

  lemma {:induction false} TotalLengthAppend(data: seq<Byte>, x: Byte, lens: Lengths, n: nat)
    requires n <= SYMBOLS
    ensures TotalLength(Counts(data + [x]), lens, n)
         == TotalLength(Counts(data), lens, n) + if x < n then lens[x] else 0
  {
    if n > 0 {
      TotalLengthAppend(data, x, lens, n - 1);
      TermAppend(data, x, n - 1, lens[n - 1]);
    }
  }

  lemma {:induction false} TotalLengthEmpty(lens: Lengths, n: nat)
    requires n <= SYMBOLS
    ensures TotalLength(Counts([]), lens, n) == 0
  {
    if n > 0 {
      TotalLengthEmpty(lens, n - 1);
      assert Counts([])[n - 1] == 0;
    }
  }

  /** The encoded bit length is the sum over the symbols of frequency times code length. */
  lemma {:induction false} EncodedLength(table: Table, data: seq<Byte>)
    ensures |Encode(table, data)| == TotalLength(Counts(data), CodeLengths(table))
  {
    if data == [] {
      TotalLengthEmpty(CodeLengths(table), SYMBOLS);
    } else {
      var front, x := data[..|data| - 1], data[|data| - 1];
      assert data == front + [x];
      EncodedLength(table, front);
      TotalLengthAppend(front, x, CodeLengths(table), SYMBOLS);
    }
  }

  /** Codes of at least, or at most, one bit make the encoding at least, or at most, one bit a byte. */
  lemma {:induction false} OneBitEach(table: Table, data: seq<Byte>)
    ensures Coded(table, data) ==> |Encode(table, data)| >= |data|
    ensures (forall s: Byte :: |table[s]| <= 1) ==> |Encode(table, data)| <= |data|
  {
    if data != [] {
      OneBitEach(table, data[..|data| - 1]);
    }
  }

  /** When every byte has a one-bit code, bit `i` of the encoding is the code of byte `i`. */
  lemma {:induction false} OneBitCodes(table: Table, data: seq<Byte>)
    requires forall s | s in data :: |table[s]| == 1
    ensures |Encode(table, data)| == |data|
    ensures forall i | 0 <= i < |data| :: Encode(table, data)[i] == table[data[i]][0]
  {
    if data != [] {
      var front, x := data[..|data| - 1], data[|data| - 1];
      assert data == front + [x];
      OneBitCodes(table, front);
    }
  }

  /** Encoding a prefix of the input gives a prefix of the encoding. */
  lemma EncodePrefix(table: Table, data: seq<Byte>, n: nat)
    requires n <= |data|
    ensures Encode(table, data[..n]) <= Encode(table, data)
  {
    assert data == data[..n] + data[n..];
    EncodeConcat(table, data[..n], data[n..]);
  }

  // ----- Decoding -----

  /** `s` is the first symbol with this code. */
  predicate IsFirst(table: Table, code: Bits, s: Byte) {
    table[s] == code && forall x: Byte | x < s :: table[x] != code
  }

  lemma {:induction false} FirstExists(table: Table, code: Bits, n: Byte)
    requires table[n] == code
    ensures exists s: Byte :: IsFirst(table, code, s)
    decreases n
  {
    if x: Byte :| x < n && table[x] == code {
      FirstExists(table, code, x);
    } else {
      assert IsFirst(table, code, n);
    }
  }

  /** The first symbol whose code is the non-empty token, if any. */
  ghost function Lookup(table: Table, token: Bits): (r: Option<Byte>)
    ensures r.Some? ==> token != [] && IsFirst(table, token, r.value)
    ensures r.None? ==> token == [] || forall s: Byte :: table[s] != token
  {
    if token != [] && exists s: Byte :: table[s] == token then
      var any: Byte :| table[any] == token;
      FirstExists(table, token, any);
      var s: Byte :| IsFirst(table, token, s);
      Some(s)
    else None
  }

  /** Output and pending token after the decoder has read `bits`. */
  ghost function Decode(table: Table, bits: Bits): (seq<Byte>, Bits) {
    if bits == [] then ([], [])
    else
      var (out, token) := Decode(table, bits[..|bits| - 1]);
      var longer := token + [bits[|bits| - 1]];
      match Lookup(table, longer)
      case Some(s) => (out + [s], [])
      case None => (out, longer)
  }

  /** Every symbol of `data` has a code. */
  predicate Coded(table: Table, data: seq<Byte>) {
    forall k | 0 <= k < |data| :: table[data[k]] != []
  }

  /** The symbols that have a code. */
  function CodedSymbols(table: Table): set<Byte> {
    set s: Byte | 0 <= s < SYMBOLS && table[s] != []
  }

  /** The bytes of `data` that are in `used`, in their order. */
  function Only(data: seq<Byte>, used: set<Byte>): (r: seq<Byte>)
    ensures |r| <= |data|
    ensures forall s: Byte :: s in r <==> s in data && s in used
  {
    if data == [] then []
    else
      var front, x := data[..|data| - 1], data[|data| - 1];
      assert data == front + [x];
      Only(front, used) + if x in used then [x] else []
  }

  /** Nothing is dropped exactly when every byte is in `used`. */
  lemma {:induction false} OnlyAll(data: seq<Byte>, used: set<Byte>)
    ensures Only(data, used) == data <==> forall s | s in data :: s in used
  {
    if data != [] {
      var front, x := data[..|data| - 1], data[|data| - 1];
      assert data == front + [x];
      OnlyAll(front, used);
      if x in used && Only(data, used) == data {
        assert Only(front, used) == (Only(front, used) + [x])[..|Only(front, used)|] == front;
      }
    }
  }

  /** Bytes without a code leave no trace in the encoding. */
  lemma {:induction false} EncodeOnly(table: Table, data: seq<Byte>)
    ensures Encode(table, data) == Encode(table, Only(data, CodedSymbols(table)))
  {
    if data != [] {
      var front, x := data[..|data| - 1], data[|data| - 1];
      EncodeOnly(table, front);
      if table[x] == [] {
        assert Only(data, CodedSymbols(table)) == Only(front, CodedSymbols(table));
      } else {
        EncodeAppend(table, Only(front, CodedSymbols(table)), x);
      }
    }
  }

  /** The bits do not start with a code. */
  predicate NoCodePrefix(table: Table, bits: Bits) {
    forall s: Byte | table[s] != [] :: !(table[s] <= bits)
  }

  /** `bits` is an encoding of `out` followed by a rest in which no further code has been completed. */
  predicate Parses(table: Table, bits: Bits, out: seq<Byte>, rest: Bits) {
    Coded(table, out) && Encode(table, out) + rest == bits && NoCodePrefix(table, rest)
  }

  /** No code is a proper prefix of this symbol's code, and no earlier symbol has the same code. */
  predicate DecodedFirst(table: Table, s: Byte) {
    && table[s] != []
    && forall x: Byte | table[x] != [] && table[x] <= table[s] :: table[x] == table[s] && s <= x
  }

  predicate AllDecodedFirst(table: Table, out: seq<Byte>) {
    forall s | s in out :: DecodedFirst(table, s)
  }

  /** In a prefix-free table that holds of every symbol with a code. */
  lemma PrefixFreeDecodedFirst(table: Table, out: seq<Byte>)
    requires PrefixFree(table)
    ensures AllDecodedFirst(table, out) <==> Coded(table, out)
  {
    if AllDecodedFirst(table, out) {
      forall k | 0 <= k < |out|
        ensures table[out[k]] != []
      {
        assert DecodedFirst(table, out[k]);
      }
    }
  }

  lemma PrefixOfLonger(code: Bits, token: Bits, bit: bool)
    ensures code <= token + [bit] ==> code <= token || code == token + [bit]
  {
  }

  /**
   Conservation on arbitrary bit streams: output and pending token always account for exactly the
   bits read, and no code is left undetected at the front of the token.
   */
  lemma {:induction false} DecodeParses(table: Table, bits: Bits)
    ensures Parses(table, bits, Decode(table, bits).0, Decode(table, bits).1)
  {
    if bits != [] {
      var front, bit := bits[..|bits| - 1], bits[|bits| - 1];
      assert bits == front + [bit];
      DecodeParses(table, front);
      var (out, token) := Decode(table, front);
      var longer := token + [bit];
      assert Encode(table, out) + longer == bits;
      match Lookup(table, longer)
      case Some(s) =>
        EncodeAppend(table, out, s);
        assert Encode(table, out + [s]) + [] == bits;
      case None =>
        forall s: Byte | table[s] != []
          ensures !(table[s] <= longer)
        {
          PrefixOfLonger(table[s], token, bit);
        }
    }
  }

  /**
   Only symbols whose code has no other code in front are ever decoded, and of several symbols with
   one code the first.
   */
  lemma {:induction false} DecodesFirst(table: Table, bits: Bits)
    ensures AllDecodedFirst(table, Decode(table, bits).0)
  {
    if bits != [] {
      var front, bit := bits[..|bits| - 1], bits[|bits| - 1];
      DecodesFirst(table, front);
      DecodeParses(table, front);
      var token := Decode(table, front).1;
      var found := Lookup(table, token + [bit]);
      if found.Some? {
        FoundIsFirst(table, token, bit, found.value);
      }
    }
  }

  lemma FoundIsFirst(table: Table, token: Bits, bit: bool, s: Byte)
    requires NoCodePrefix(table, token) && IsFirst(table, token + [bit], s)
    ensures DecodedFirst(table, s)
  {
    forall x: Byte | table[x] != [] && table[x] <= table[s]
      ensures table[x] == table[s] && s <= x
    {
      PrefixOfLonger(table[x], token, bit);
    }
  }

  lemma EncodeCons(table: Table, data: seq<Byte>)
    requires data != []
    ensures Encode(table, data) == table[data[0]] + Encode(table, data[1..])
  {
    assert data == [data[0]] + data[1..];
    EncodeConcat(table, [data[0]], data[1..]);
    EncodeAppend(table, [], data[0]);
    assert [] + [data[0]] == [data[0]];
  }

  lemma PrefixesComparable(a: Bits, b: Bits, bits: Bits)
    requires a <= bits && b <= bits
    ensures a <= b || b <= a
  {
    assert a == bits[..|a|] && b == bits[..|b|];
  }

  /** Of two such symbols with codes at the front of the same bits there is only one. */
  lemma SameFirstCode(table: Table, a: Byte, x: Bits, b: Byte, y: Bits)
    requires DecodedFirst(table, a) && DecodedFirst(table, b)
    requires table[a] + x == table[b] + y
    ensures a == b && x == y
  {
    var bits := table[a] + x;
    PrefixesComparable(table[a], table[b], bits);
    assert x == bits[|table[a]|..] && y == bits[|table[b]|..];
  }

  /** The first symbol of a parse, and the parse of what follows its code. */
  lemma ParseTail(table: Table, bits: Bits, out: seq<Byte>, rest: Bits) returns (tail: Bits)
    requires Parses(table, bits, out, rest) && out != []
    ensures table[out[0]] != [] && table[out[0]] + tail == bits
    ensures Parses(table, tail, out[1..], rest)
  {
    EncodeCons(table, out);
    tail := Encode(table, out[1..]) + rest;
    assert table[out[0]] + tail == bits;
  }

  /** On every table a bit stream has one parse into such symbols. */
  lemma {:induction false} ParseUnique(
    table: Table, bits: Bits, out1: seq<Byte>, rest1: Bits, out2: seq<Byte>, rest2: Bits)
    requires AllDecodedFirst(table, out1) && AllDecodedFirst(table, out2)
    requires Parses(table, bits, out1, rest1) && Parses(table, bits, out2, rest2)
    ensures out1 == out2 && rest1 == rest2
    decreases |out1|
  {
    if out1 == [] || out2 == [] {
      EmptyParse(table, bits, out1, rest1);
      EmptyParse(table, bits, out2, rest2);
    } else {
      var tail1 := ParseTail(table, bits, out1, rest1);
      var tail2 := ParseTail(table, bits, out2, rest2);
      SameFirstCode(table, out1[0], tail1, out2[0], tail2);
      ParseUnique(table, tail1, out1[1..], rest1, out2[1..], rest2);
      assert out1 == [out1[0]] + out1[1..] && out2 == [out2[0]] + out2[1..];
    }
  }

  /** A parse has no output exactly when the bits do not start with a code. */
  lemma EmptyParse(table: Table, bits: Bits, out: seq<Byte>, rest: Bits)
    requires Parses(table, bits, out, rest)
    ensures out == [] <==> NoCodePrefix(table, bits)
    ensures out == [] ==> rest == bits
  {
    if out == [] {
      assert [] + rest == rest;
    } else {
      EncodeCons(table, out);
      assert table[out[0]] + (Encode(table, out[1..]) + rest) == bits;
      assert table[out[0]] <= bits;
    }
  }

  /** On every table and bit stream the greedy decoder finds exactly that one parse. */
  lemma DecodeExactly(table: Table, bits: Bits, out: seq<Byte>, rest: Bits)
    ensures Decode(table, bits) == (out, rest)
       <==> Parses(table, bits, out, rest) && AllDecodedFirst(table, out)
    ensures PrefixFree(table) ==> (Decode(table, bits) == (out, rest) <==> Parses(table, bits, out, rest))
  {
    DecodeParses(table, bits);
    DecodesFirst(table, bits);
    if PrefixFree(table) {
      PrefixFreeDecodedFirst(table, out);
    }
    if Parses(table, bits, out, rest) && AllDecodedFirst(table, out) {
      ParseUnique(table, bits, Decode(table, bits).0, Decode(table, bits).1, out, rest);
    }
  }

  /** Decoding an encoding gives the input back and leaves no token. */
  lemma DecodeEncode(table: Table, data: seq<Byte>)
    requires PrefixFree(table) && Coded(table, data)
    ensures Decode(table, Encode(table, data)) == (data, [])
  {
    assert Encode(table, data) + [] == Encode(table, data);
    DecodeExactly(table, Encode(table, data), data, []);
  }

  /** Whatever the input, decoding its encoding gives the bytes that have a code. */
  lemma DecodeEncodeAny(table: Table, data: seq<Byte>)
    requires PrefixFree(table)
    ensures Decode(table, Encode(table, data)) == (Only(data, CodedSymbols(table)), [])
    ensures Decode(table, Encode(table, data)).0 == data <==> Coded(table, data)
  {
    var used := CodedSymbols(table);
    EncodeOnly(table, data);
    assert Coded(table, Only(data, used)) by {
      forall k | 0 <= k < |Only(data, used)|
        ensures table[Only(data, used)[k]] != []
      {
        assert Only(data, used)[k] in used;
      }
    }
    DecodeEncode(table, Only(data, used));
    OnlyAll(data, used);
    CodedMeansUsed(table, data);
  }

  lemma CodedMeansUsed(table: Table, data: seq<Byte>)
    ensures Coded(table, data) <==> forall s | s in data :: s in CodedSymbols(table)
  {
    if Coded(table, data) {
      forall s | s in data
        ensures table[s] != []
      {
        var k :| 0 <= k < |data| && data[k] == s;
      }
    } else {
      var k :| 0 <= k < |data| && table[data[k]] == [];
      assert data[k] in data;
    }
  }

  /** Before each bit of an encoding is read, the token is a proper prefix of some code. */
  lemma {:induction false} TokenIsCodePrefix(table: Table, data: seq<Byte>, i: nat)
    requires PrefixFree(table) && Coded(table, data) && i < |Encode(table, data)|
    ensures exists s: Byte :: Decode(table, Encode(table, data)[..i]).1 < table[s]
  {
    var front, x := data[..|data| - 1], data[|data| - 1];
    var bits, n := Encode(table, data), |Encode(table, front)|;
    assert bits == Encode(table, front) + table[x];
    if i < n {
      TokenIsCodePrefix(table, front, i);
      assert bits[..i] == Encode(table, front)[..i];
    } else {
      var token := table[x][..i - n];
      assert bits[..i] == Encode(table, front) + token;
      assert NoCodePrefix(table, token) by {
        forall s: Byte | table[s] != []
          ensures !(table[s] <= token)
        {
          assert token < table[x];
        }
      }
      DecodeExactly(table, bits[..i], front, token);
      assert token < table[x];
    }
  }

  /** The decoder's token stays below the length the decoder asserts. */
  lemma TokenStaysShort(table: Table, data: seq<Byte>, i: nat, bound: nat)
    requires PrefixFree(table) && Coded(table, data) && i < |Encode(table, data)|
    requires forall s: Byte :: |table[s]| <= bound
    ensures |Decode(table, Encode(table, data)[..i]).1| < bound
  {
    TokenIsCodePrefix(table, data, i);
  }
}
