/**
 Counting the symbols of an input, and iterating over the symbols that occur.
 */
module Histograms {
  import opened Common
  import opened CodeTable

  function Occurrences(data: seq<Byte>, s: Byte): nat {
    multiset(data)[s]
  }

  /** The occurrences of every symbol, as unbounded numbers. */
  function Counts(data: seq<Byte>): (r: Lengths)
    ensures forall s: Byte :: r[s] == Occurrences(data, s)
  {
    seq(SYMBOLS, s requires 0 <= s < SYMBOLS => Occurrences(data, s))
  }

  /** The 32-bit counters: they wrap around. */
  function Counters(data: seq<Byte>): (r: Lengths)
    ensures forall s: Byte :: r[s] == Occurrences(data, s) % UINT32_MODULUS
  {
    seq(SYMBOLS, s requires 0 <= s < SYMBOLS => Occurrences(data, s) % UINT32_MODULUS)
  }

  /** Below 2^32 bytes nothing wraps around. */
  lemma CountersAreCounts(data: seq<Byte>)
    requires |data| < UINT32_MODULUS
    ensures Counters(data) == Counts(data)
  {
    forall s: Byte
      ensures Counters(data)[s] == Counts(data)[s]
    {
      CountAtMostLength(data, s);
    }
  }

  /** The symbols that occur. */
  function Present(freqs: Lengths): set<Byte> {
    set s: Byte | 0 <= s < SYMBOLS && freqs[s] > 0
  }

  /** `i` is the first symbol at or after `from` that occurs, or 256 when there is none. */
  predicate IsNext(freqs: Lengths, from: nat, i: nat) {
    && from <= i <= SYMBOLS
    && (forall k | from <= k < i :: freqs[k] == 0)
    && (i < SYMBOLS ==> freqs[i] > 0)
  }

  lemma {:induction false} TotalAppend(data: seq<Byte>, x: Byte, n: nat)
    requires n <= SYMBOLS
    ensures Total(Counts(data + [x]), n) == Total(Counts(data), n) + if x < n then 1 else 0
  {
    if n > 0 {
      TotalAppend(data, x, n - 1);
    }
  }

  /** Every input byte is counted once. */
  lemma {:induction false} CountsTotal(data: seq<Byte>)
    ensures Total(Counts(data)) == |data|
  {
    if data == [] {
      EmptyTotal(SYMBOLS);
    } else {
      var last := |data| - 1;
      CountsTotal(data[..last]);
      TotalAppend(data[..last], data[last], SYMBOLS);
      assert data[..last] + [data[last]] == data;
    }
  }

  lemma {:induction false} EmptyTotal(n: nat)
    requires n <= SYMBOLS
    ensures Total(Counts([]), n) == 0
  {
    if n > 0 {
      EmptyTotal(n - 1);
    }
  }

  lemma {:induction false} CountAtMostLength(data: seq<Byte>, s: Byte)
    ensures Occurrences(data, s) <= |data|
  {
    if data != [] {
      var last := |data| - 1;
      CountAtMostLength(data[..last], s);
      assert data[..last] + [data[last]] == data;
    }
  }

  class Histogram {
    const frequency: array<nat>

    ghost predicate Valid() {
      frequency.Length == SYMBOLS
    }

    /** The 32-bit counters. */
    function Frequencies(): Lengths
      reads frequency
      requires Valid()
    {
      frequency[..]
    }

    constructor ()
      ensures Valid() && fresh(frequency)
      ensures forall s: Byte :: Frequencies()[s] == 0
    {
      frequency := new nat[SYMBOLS](_ => 0);
    }

    /** The counting constructor: counters wrap around at 2^32. */
    static method FromData(data: seq<Byte>) returns (r: Result<Histogram>)
      requires |data| <= 18446744073709551615
      ensures r.Failure? <==> |data| == 18446744073709551615
      ensures r.Success? ==>
                && fresh(r.value) && fresh(r.value.frequency) && r.value.Valid()
                && r.value.Frequencies() == Counters(data)
    {
      if |data| == UINT64_MAX {
        return Failure(InvalidLength);
      }
      var h := new Histogram();
      assert data[..0] == [];
      assert forall s: Byte :: h.frequency[s] == h.Frequencies()[s];
      for i := 0 to |data|
        invariant forall s: Byte :: h.frequency[s] == Occurrences(data[..i], s) % UINT32_MODULUS
      {
        assert data[..i + 1] == data[..i] + [data[i]];
        h.frequency[data[i]] := (h.frequency[data[i]] + 1) % UINT32_MODULUS;
      }
      assert data[..|data|] == data;
      assert h.Frequencies() == Counters(data);
      return Success(h);
    }
  }

  /** Visits the symbols with a non-zero counter in increasing order. */
  class HistogramIterator {
    const histogram: Histogram
    var index: nat

    ghost predicate Valid()
      reads this
    {
      histogram.Valid()
    }

    /** Starts at the first symbol from `index` on that occurs; an index past the end stays as it is. */
    constructor (histogram: Histogram, index: nat)
      requires histogram.Valid()
      ensures Valid() && this.histogram == histogram
      ensures index <= SYMBOLS ==> IsNext(histogram.Frequencies(), index, this.index)
      ensures index >= SYMBOLS ==> this.index == index
    {
      this.histogram := histogram;
      var i := index;
      while i < SYMBOLS && histogram.frequency[i] == 0
        invariant index <= i && (i <= SYMBOLS || i == index)
        invariant forall k | index <= k < i :: histogram.frequency[k] == 0
      {
        i := i + 1;
      }
      this.index := i;
    }

    /** Dereferencing at the end throws. */
    method Current() returns (r: Result<(Byte, nat)>)
      requires Valid()
      ensures r == if index < SYMBOLS then Success((index, histogram.Frequencies()[index])) else Failure(InvalidAccess)
    {
      if index >= SYMBOLS {
        return Failure(InvalidAccess);
      }
      return Success((index, histogram.frequency[index]));
    }

    /**
     The increment tests the counter at the incremented index before it tests the bound, so after
     the last symbol it looks at whatever lies behind the counters. The result does not depend on
     that value, which is why it can be any `beyond`.
     */
    method Advance(beyond: nat)
      requires Valid()
      modifies this
      ensures Valid()
      ensures old(index) < SYMBOLS ==> IsNext(histogram.Frequencies(), old(index) + 1, index)
      ensures old(index) >= SYMBOLS ==> index == old(index)
    {
      var start := index;
      var searching := true;
      while searching && index < SYMBOLS
        invariant start <= index && (index <= SYMBOLS || index == start)
        invariant forall k | start < k < index :: histogram.frequency[k] == 0
        invariant searching && start < index < SYMBOLS ==> histogram.frequency[index] == 0
        invariant !searching ==> start < index
        invariant !searching && index < SYMBOLS ==> histogram.frequency[index] > 0
        decreases searching, SYMBOLS - index
      {
        index := index + 1;
        var next := if index < SYMBOLS then histogram.frequency[index] else beyond;
        searching := next == 0;
      }
    }
  }
}
