/** Counting how often each byte occurs in the input (lines 102-111). */
module Frequency {
  import opened CodeTree

  /** The distinct bytes of the input. */
  function Symbols(input: seq<Byte>): set<Byte>
  {
    set b | b in input
  }

  /** Reference table: every byte of the input mapped to its number of occurrences. */
  function FrequencyTable(input: seq<Byte>): map<Byte, nat>
  {
    map b | b in input :: multiset(input)[b]
  }

  /** The counting loop, which reads the input byte by byte and increments that byte's
      count: a symbol is a key exactly when it occurs, and its count is its number of
      occurrences. */
  method CountFrequencies(input: seq<Byte>) returns (freq: map<Byte, nat>)
    ensures freq.Keys == Symbols(input)
    ensures forall b :: b in freq ==> freq[b] == multiset(input)[b]
    ensures |input| == 0 <==> |freq| == 0
  {
    freq := map[];
    var i := 0;
    while i < |input|
      invariant 0 <= i <= |input|
      invariant freq.Keys == Symbols(input[..i])
      invariant forall b :: b in freq ==> freq[b] == multiset(input[..i])[b]
    {
      var ch := input[i];
      assert input[..i + 1] == input[..i] + [ch];
      if ch in freq {
        freq := freq[ch := freq[ch] + 1];
      } else {
        freq := freq[ch := 1];
      }
      i := i + 1;
    }
    assert input[..i] == input;
    if |input| > 0 {
      assert input[0] in freq;
    }
  }

  /** The sum of the counts of the symbols `b`..255 in `freq`. */
  function SumFreq(freq: map<Byte, nat>, b: nat): nat
    requires b <= 256
    decreases 256 - b
  {
    if b == 256 then 0
    else (if b in freq then freq[b] else 0) + SumFreq(freq, b + 1)
  }

  /** The sum of the multiplicities of the symbols `b`..255 in `m`. */
  function SumCounts(m: multiset<Byte>, b: nat): nat
    requires b <= 256
    decreases 256 - b
  {
    if b == 256 then 0 else m[b] + SumCounts(m, b + 1)
  }

  lemma {:induction false} SumCountsAdd(m: multiset<Byte>, x: Byte, b: nat)
    requires b <= 256
    ensures SumCounts(m + multiset{x}, b) == SumCounts(m, b) + (if b <= x then 1 else 0)
    decreases 256 - b
  {
    if b < 256 {
      SumCountsAdd(m, x, b + 1);
    }
  }

  lemma {:induction false} SumCountsEmpty(b: nat)
    requires b <= 256
    ensures SumCounts(multiset{}, b) == 0
    decreases 256 - b
  {
    if b < 256 {
      SumCountsEmpty(b + 1);
    }
  }

  lemma {:induction false} SumCountsLength(s: seq<Byte>)
    ensures SumCounts(multiset(s), 0) == |s|
  {
    if |s| == 0 {
      SumCountsEmpty(0);
    } else {
      var init := s[..|s| - 1];
      assert s == init + [s[|s| - 1]];
      SumCountsLength(init);
      SumCountsAdd(multiset(init), s[|s| - 1], 0);
    }
  }

  lemma {:induction false} SumFreqIsSumCounts(input: seq<Byte>, b: nat)
    requires b <= 256
    ensures SumFreq(FrequencyTable(input), b) == SumCounts(multiset(input), b)
    decreases 256 - b
  {
    if b < 256 {
      SumFreqIsSumCounts(input, b + 1);
    }
  }

  /** The counts of a frequency table add up to the input length. */
  lemma FrequencyTotal(input: seq<Byte>)
    ensures SumFreq(FrequencyTable(input), 0) == |input|
  {
    SumFreqIsSumCounts(input, 0);
    SumCountsLength(input);
  }
}
