/**
 * The frequency table: for a text and a k-mer length k, a dense table of
 * 4^k counts indexed by encoded k-mer, counting every k-mer start position.
 */
module Frequencies {
  import opened Dna
  import opened Codec
  import Search

  /** The code of the k-mer text[i..i+k], below 4^k. */
  function KmerCode(text: string, k: nat, i: nat): (c: nat)
    requires i + k <= |text|
    ensures c < Pow4(k)
  {
    var kmer := text[i..i + k];
    assert |kmer| == k;
    Value(kmer)
  }

  /** The code of the k-mer at every start position 0 .. |text| - k, in order. */
  function KmerCodes(text: string, k: nat): (codes: seq<nat>)
    requires k <= |text| + 1
    ensures |codes| == |text| - k + 1
    ensures forall i :: 0 <= i < |codes| ==> codes[i] < Pow4(k)
  {
    seq(|text| - k + 1, i requires 0 <= i <= |text| - k => KmerCode(text, k, i))
  }

  /** Number of entries of s equal to j. */
  function Count(s: seq<nat>, j: nat): (c: nat)
    ensures c <= |s|
  {
    if s == [] then 0 else Count(s[..|s| - 1], j) + (if s[|s| - 1] == j then 1 else 0)
  }

  /** Number of positions i in [0, |text| - k] whose k-mer text[i..i+k] has code j. */
  function Frequency(text: string, k: nat, j: nat): nat
    requires k <= |text| + 1
  {
    Count(KmerCodes(text, k), j)
  }

  /** The whole table, one entry per code in [0, 4^k). */
  function FrequencyTable(text: string, k: nat): (table: seq<nat>)
    requires k <= |text| + 1
    ensures |table| == Pow4(k)
    ensures forall j :: 0 <= j < |table| ==> table[j] == Frequency(text, k, j)
  {
    Tally(KmerCodes(text, k), Pow4(k))
  }

  function Sum(s: seq<nat>): nat {
    if s == [] then 0 else s[0] + Sum(s[1..])
  }

  /** Counting is additive over concatenation. */
  lemma {:induction false} CountConcat(a: seq<nat>, b: seq<nat>, j: nat)
    ensures Count(a + b, j) == Count(a, j) + Count(b, j)
    decreases |b|
  {
    if b == [] {
      assert a + b == a;
    } else {
      var c, x := b[..|b| - 1], b[|b| - 1];
      assert (a + b)[..|a + b| - 1] == a + c;
      CountConcat(a, c, j);
    }
  }

  /** Count of a sequence with one more element at the end. */
  lemma CountSnoc(s: seq<nat>, x: nat, j: nat)
    ensures Count(s + [x], j) == Count(s, j) + (if x == j then 1 else 0)
  {
    assert (s + [x])[..|s|] == s;
  }

  /** Adding one to a single entry adds one to the sum. */
  lemma {:induction false} SumIncrement(s: seq<nat>, v: nat)
    requires v < |s|
    ensures Sum(s[v := s[v] + 1]) == Sum(s) + 1
  {
    if v > 0 {
      SumIncrement(s[1..], v - 1);
      assert s[v := s[v] + 1][1..] == s[1..][v - 1 := s[1..][v - 1] + 1];
    } else {
      assert s[v := s[v] + 1][1..] == s[1..];
    }
  }

  lemma {:induction false} SumZeros(s: seq<nat>)
    requires forall i :: 0 <= i < |s| ==> s[i] == 0
    ensures Sum(s) == 0
  {
    if s != [] {
      SumZeros(s[1..]);
    }
  }

  /** The table of counts of the codes in s, one entry per code below n. */
  function Tally(s: seq<nat>, n: nat): (table: seq<nat>)
    ensures |table| == n
  {
    seq(n, j requires 0 <= j < n => Count(s, j))
  }

  /** One more code x bumps entry x of the table and leaves the others alone. */
  lemma TallySnoc(s: seq<nat>, x: nat, n: nat)
    requires 0 <= x < n
    ensures Tally(s + [x], n) == Tally(s, n)[x := Tally(s, n)[x] + 1]
  {
    var prev := Tally(s, n);
    forall m | 0 <= m < n ensures Tally(s + [x], n)[m] == prev[x := prev[x] + 1][m] {
      CountSnoc(s, x, m);
    }
  }

  /** Every element of s below n falls into exactly one of the n entries. */
  lemma {:induction false} TallySum(s: seq<nat>, n: nat)
    requires forall i :: 0 <= i < |s| ==> 0 <= s[i] < n
    ensures Sum(Tally(s, n)) == |s|
    decreases |s|
  {
    if s == [] {
      SumZeros(Tally(s, n));
    } else {
      var prefix, v := s[..|s| - 1], s[|s| - 1];
      assert s == prefix + [v];
      TallySum(prefix, n);
      TallySnoc(prefix, v, n);
      SumIncrement(Tally(prefix, n), v);
    }
  }

  /** The entries of the table sum to the number of k-mer start positions, |text| - k + 1. */
  lemma FrequencySum(text: string, k: nat)
    requires k <= |text| + 1
    ensures Sum(FrequencyTable(text, k)) == |text| - k + 1
  {
    TallySum(KmerCodes(text, k), Pow4(k));
  }

  /** The k-mer codes of the slice text[a..b] are a slice of the k-mer codes of text. */
  lemma KmerCodesSlice(text: string, k: nat, a: nat, b: nat)
    requires a <= b <= |text| && k <= b - a
    ensures KmerCodes(text[a..b], k) == KmerCodes(text, k)[a..b - k + 1]
  {
    var inner, outer := KmerCodes(text[a..b], k), KmerCodes(text, k)[a..b - k + 1];
    forall i | 0 <= i < |inner| ensures inner[i] == outer[i] {
      KmerCodeAt(text[a..b], k, i);
      KmerCodeAt(text, k, a + i);
      SliceOfSlice(text, a, b, i, i + k);
    }
  }

  lemma SliceOfSlice(s: string, a: nat, b: nat, i: nat, j: nat)
    requires a <= b <= |s| && i <= j <= b - a
    ensures s[a..b][i..j] == s[a + i..a + j]
  {
    var inner, outer := s[a..b][i..j], s[a + i..a + j];
    forall m | 0 <= m < j - i ensures inner[m] == outer[m] {
      assert inner[m] == s[a..b][i + m] == s[a + i + m];
    }
  }

  /** Count of a non-empty sequence, peeling its first element. */
  lemma CountFirst(s: seq<nat>, j: nat)
    requires s != []
    ensures Count(s, j) == (if s[0] == j then 1 else 0) + Count(s[1..], j)
  {
    assert s == [s[0]] + s[1..];
    CountConcat([s[0]], s[1..], j);
    assert [s[0]][..0] == [];
  }

  /** Entry i of the k-mer codes is the code of the k-mer starting at i. */
  lemma KmerCodeAt(text: string, k: nat, i: nat)
    requires i + k <= |text|
    ensures KmerCodes(text, k)[i] == Value(text[i..i + k])
  {
  }

  /** p occurs at i exactly when the code c of the k-mer at i is the code of p. */
  lemma OccursAtIffCode(text: string, p: string, i: nat, c: nat)
    requires IsDna(text) && IsDna(p) && i + |p| <= |text|
    requires c == Value(text[i..i + |p|])
    ensures c == Value(p) <==> Search.OccursAt(text, p, i)
  {
    var kmer := text[i..i + |p|];
    DnaSlice(text, i, i + |p|);
    ValueEqualIff(kmer, p);
    assert Search.OccursAt(text, p, i) <==> kmer == p;
  }

  /**
   * A sequence of codes that marks the occurrences of p (entry i equals v
   * exactly where p occurs at i) holds v as many times as p occurs.
   */
  lemma {:induction false} CountMarks(codes: seq<nat>, v: nat, text: string, p: string, lo: nat)
    requires |p| <= |text| + 1 && |codes| == |text| - |p| + 1 && lo <= |codes|
    requires forall i :: lo <= i < |codes| ==> (codes[i] == v <==> Search.OccursAt(text, p, i))
    ensures Count(codes[lo..], v) == |Search.Occurrences(text, p, lo)|
    decreases |codes| - lo
  {
    if lo < |codes| {
      CountMarks(codes, v, text, p, lo + 1);
      CountFirst(codes[lo..], v);
      assert codes[lo..][1..] == codes[lo + 1..];
      Search.OccurrencesStep(text, p, lo);
    } else {
      assert codes[lo..] == [];
    }
  }

  /** Every entry of the k-mer codes is the code of the k-mer at that position. */
  lemma KmerCodesEntries(text: string, k: nat)
    requires k <= |text| + 1
    ensures forall i :: 0 <= i < |KmerCodes(text, k)| ==> KmerCodes(text, k)[i] == Value(text[i..i + k])
  {
    var codes := KmerCodes(text, k);
    forall i | 0 <= i < |codes| ensures codes[i] == Value(text[i..i + k]) {
      KmerCodeAt(text, k, i);
    }
  }

  /** Codes of the k-mers of a DNA text mark exactly the occurrences of a DNA pattern p. */
  lemma CodesMarkOccurrences(codes: seq<nat>, text: string, p: string)
    requires IsDna(text) && IsDna(p) && |p| <= |text| + 1 && |codes| == |text| - |p| + 1
    requires forall i :: 0 <= i < |codes| ==> codes[i] == Value(text[i..i + |p|])
    ensures forall i :: 0 <= i < |codes| ==> (codes[i] == Value(p) <==> Search.OccursAt(text, p, i))
  {
    forall i | 0 <= i < |codes| ensures codes[i] == Value(p) <==> Search.OccursAt(text, p, i) {
      OccursAtIffCode(text, p, i, codes[i]);
    }
  }

  /** Position i holds the code of p exactly when p occurs at i. */
  lemma KmerCodesMarkOccurrences(text: string, p: string)
    requires IsDna(text) && IsDna(p) && |p| <= |text| + 1
    ensures forall i :: 0 <= i < |KmerCodes(text, |p|)| ==>
              (KmerCodes(text, |p|)[i] == Value(p) <==> Search.OccursAt(text, p, i))
  {
    KmerCodesEntries(text, |p|);
    CodesMarkOccurrences(KmerCodes(text, |p|), text, p);
  }

  /** The table entry of a k-mer p is the number of (overlapping) occurrences of p in text. */
  lemma FrequencyIsOccurrenceCount(text: string, p: string)
    requires IsDna(text) && IsDna(p) && |p| <= |text| + 1
    ensures Frequency(text, |p|, Value(p)) == Search.OccurrenceCount(text, p)
  {
    var codes := KmerCodes(text, |p|);
    KmerCodesMarkOccurrences(text, p);
    CountMarks(codes, Value(p), text, p, 0);
    assert codes[0..] == codes;
  }

  /** One iteration of the counting loop: the k-mer at i bumps its own entry. */
  lemma TallyStep(codes: seq<nat>, n: nat, i: nat, before: seq<nat>, after: seq<nat>)
    requires i < |codes| && codes[i] < n
    requires before == Tally(codes[..i], n)
    requires |after| == |before| && after[codes[i]] == before[codes[i]] + 1
    requires forall m :: 0 <= m < |after| && m != codes[i] ==> after[m] == before[m]
    ensures after == Tally(codes[..i + 1], n)
  {
    var j := codes[i];
    assert codes[..i + 1] == codes[..i] + [j];
    TallySnoc(codes[..i], j, n);
    assert after == before[j := before[j] + 1];
  }

  /**
   * ComputeFrequencies: a zeroed table of 4^k entries, incremented once
   * for the k-mer at every start position 0 .. |text| - k.
   */
  method ComputeFrequencies(text: string, k: nat) returns (freqArray: array<nat>)
    requires IsDna(text) && k <= |text| + 1
    ensures fresh(freqArray)
    ensures freqArray[..] == FrequencyTable(text, k)
    ensures Sum(freqArray[..]) == |text| - k + 1
  {
    freqArray := new nat[Pow4(k)](_ => 0);
    ghost var codes := KmerCodes(text, k);
    assert freqArray[..] == Tally(codes[..0], Pow4(k));
    var searchLen := |text| - k + 1;
    var i := 0;
    while i < searchLen
      invariant 0 <= i <= searchLen
      invariant freqArray[..] == Tally(codes[..i], Pow4(k))
    {
      var pattern := text[i..i + k];
      assert |pattern| == k;
      var j := PatternToNumber(pattern);
      ghost var before := freqArray[..];
      freqArray[j] := freqArray[j] + 1;
      KmerCodeAt(text, k, i);
      TallyStep(codes, Pow4(k), i, before, freqArray[..]);
      i := i + 1;
    }
    assert codes[..i] == codes;
    FrequencySum(text, k);
  }
}
