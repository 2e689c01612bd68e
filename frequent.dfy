/**
 * The most frequent words of a text: the k-mers whose entry in the
 * frequency table equals the largest entry of the table.
 */
module Frequent {
  import opened Dna
  import opened Codec
  import opened Frequencies
  import Search

  /** p is a k-mer that occurs in text at least as often as every other k-mer. */
  ghost predicate IsMostFrequent(text: string, k: nat, p: string) {
    |p| == k && IsDna(p) &&
    forall q :: |q| == k && IsDna(q) ==> Search.OccurrenceCount(text, q) <= Search.OccurrenceCount(text, p)
  }

  /** *std::max_element: the largest entry of a non-empty array. */
  method MaxElement(a: array<nat>) returns (m: nat)
    requires a.Length > 0
    ensures forall i :: 0 <= i < a.Length ==> a[i] <= m
    ensures exists i :: 0 <= i < a.Length && a[i] == m
  {
    m := a[0];
    var at := 0;
    var i := 1;
    while i < a.Length
      invariant 1 <= i <= a.Length
      invariant 0 <= at < i && a[at] == m
      invariant forall j :: 0 <= j < i ==> a[j] <= m
    {
      if a[i] > m {
        m, at := a[i], i;
      }
      i := i + 1;
    }
  }

  /**
   * With m the largest entry of the frequency table, the k-mers whose entry
   * is m are exactly the most frequent k-mers.
   */
  lemma MaxEntryIsMostFrequent(text: string, k: nat, table: seq<nat>, m: nat, p: string)
    requires IsDna(text) && k <= |text| + 1
    requires table == FrequencyTable(text, k)
    requires forall i :: 0 <= i < |table| ==> table[i] <= m
    requires exists i :: 0 <= i < |table| && table[i] == m
    requires |p| == k && IsDna(p)
    ensures table[Value(p)] == m <==> IsMostFrequent(text, k, p)
  {
    FrequencyIsOccurrenceCount(text, p);
    if table[Value(p)] == m {
      forall q | |q| == k && IsDna(q)
        ensures Search.OccurrenceCount(text, q) <= Search.OccurrenceCount(text, p)
      {
        FrequencyIsOccurrenceCount(text, q);
      }
    } else {
      var j :| 0 <= j < |table| && table[j] == m;
      ValueDecode(j, k);
      var q := Decode(j, k);
      FrequencyIsOccurrenceCount(text, q);
      assert Search.OccurrenceCount(text, q) > Search.OccurrenceCount(text, p);
    }
  }

  /**
   * FrequentWords: the frequency table, its maximum, and the decoded
   * indices whose entry is that maximum.
   */
  method FrequentWords(text: string, k: nat) returns (frequentPatterns: set<string>)
    requires IsDna(text) && k <= |text| + 1
    ensures forall p :: p in frequentPatterns <==> IsMostFrequent(text, k, p)
    ensures frequentPatterns != {}
  {
    var freqArray := ComputeFrequencies(text, k);
    var maxCount := MaxElement(freqArray);
    frequentPatterns := DecodeWhere(freqArray, k, maxCount);

    ghost var table := freqArray[..];
    assert forall i :: 0 <= i < |table| ==> table[i] <= maxCount;
    ghost var j :| 0 <= j < freqArray.Length && freqArray[j] == maxCount;
    assert table[j] == maxCount;
    forall p | |p| == k && IsDna(p)
      ensures p in frequentPatterns <==> IsMostFrequent(text, k, p)
    {
      MaxEntryIsMostFrequent(text, k, table, maxCount, p);
    }
    ValueDecode(j, k);
    assert Decode(j, k) in frequentPatterns;
  }
}
