/**
 * The clump finder: every k-mer that occurs at least t times inside some
 * window of length L of a genome.  The frequency table of the first window
 * is built once and then updated as the window slides one position at a
 * time: the k-mer that leaves is decremented, the one that enters is
 * incremented, and an index whose count reaches t is flagged for good.
 */
module Clumps {
  import opened Dna
  import opened Codec
  import opened Frequencies
  import Search

  /** The window of length L starting at w. */
  function Window(genome: string, w: nat, L: nat): (s: string)
    requires w + L <= |genome|
  {
    genome[w..w + L]
  }

  /**
   * Count of code j among the k-mers that start in the window at w and end
   * inside it: the table the sliding loop keeps.
   */
  function WindowCount(genome: string, k: nat, L: nat, w: nat, j: nat): nat
    requires k <= L && w + L <= |genome|
  {
    Count(KmerCodes(genome, k)[w..w + L - k + 1], j)
  }

  /** p is a k-mer that occurs at least t times in some window of length L of genome. */
  ghost predicate IsClump(genome: string, k: nat, L: nat, t: nat, p: string) {
    |p| == k && IsDna(p) &&
    exists w: nat :: w + L <= |genome| && Search.OccurrenceCount(Window(genome, w, L), p) >= t
  }

  /** The window count is the frequency table of the window itself. */
  lemma WindowCountIsFrequency(genome: string, k: nat, L: nat, w: nat, j: nat)
    requires k <= L && w + L <= |genome|
    ensures WindowCount(genome, k, L, w, j) == Frequency(Window(genome, w, L), k, j)
  {
    KmerCodesSlice(genome, k, w, w + L);
  }

  /** A table holding every window count of the window at w is the frequency table of that window. */
  lemma WindowTable(genome: string, k: nat, L: nat, w: nat, table: seq<nat>)
    requires k <= L && w + L <= |genome|
    requires |table| == Pow4(k) && forall j :: 0 <= j < |table| ==> table[j] == WindowCount(genome, k, L, w, j)
    ensures table == FrequencyTable(Window(genome, w, L), k)
  {
    forall j | 0 <= j < |table| ensures table[j] == FrequencyTable(Window(genome, w, L), k)[j] {
      WindowCountIsFrequency(genome, k, L, w, j);
    }
  }

  /**
   * Sliding the window from start i - 1 to start i: the count of every code j
   * loses the k-mer at i - 1 and gains the k-mer at i + L - k.
   */
  lemma WindowSlide(genome: string, k: nat, L: nat, i: nat, j: nat)
    requires k <= L && 1 <= i && i + L <= |genome|
    ensures WindowCount(genome, k, L, i, j) + (if KmerCodes(genome, k)[i - 1] == j then 1 else 0) ==
            WindowCount(genome, k, L, i - 1, j) + (if KmerCodes(genome, k)[i + L - k] == j then 1 else 0)
  {
    CountSlide(KmerCodes(genome, k), i - 1, i + L - k, j);
  }

  /**
   * Moving the slice s[lo..hi] one position to the right, to s[lo + 1..hi + 1],
   * loses s[lo] and gains s[hi].
   */
  lemma CountSlide(s: seq<nat>, lo: nat, hi: nat, j: nat)
    requires lo <= hi < |s|
    ensures Count(s[lo + 1..hi + 1], j) + (if s[lo] == j then 1 else 0) ==
            Count(s[lo..hi], j) + (if s[hi] == j then 1 else 0)
  {
    var both := s[lo..hi + 1];
    assert both == s[lo..hi] + [s[hi]];
    CountSnoc(s[lo..hi], s[hi], j);
    assert both[1..] == s[lo + 1..hi + 1];
    CountFirst(both, j);
  }

  /** The k-mer at the start of a window is counted in that window. */
  lemma WindowHoldsFirst(genome: string, k: nat, L: nat, w: nat)
    requires k <= L && w + L <= |genome|
    ensures WindowCount(genome, k, L, w, KmerCodes(genome, k)[w]) >= 1
  {
    CountFirst(KmerCodes(genome, k)[w..w + L - k + 1], KmerCodes(genome, k)[w]);
  }

  /** Code j reaches count t in the table of some window starting before n. */
  ghost predicate ReachedBefore(genome: string, k: nat, L: nat, t: nat, n: nat, j: nat)
    requires k <= L && L <= |genome|
  {
    exists w: nat :: w < n && w + L <= |genome| && WindowCount(genome, k, L, w, j) >= t
  }

  lemma ReachedBeforeNext(genome: string, k: nat, L: nat, t: nat, n: nat, j: nat)
    requires k <= L && n + L <= |genome|
    ensures ReachedBefore(genome, k, L, t, n + 1, j) <==>
            ReachedBefore(genome, k, L, t, n, j) || WindowCount(genome, k, L, n, j) >= t
  {
  }

  /**
   * One entry across one slide to window start i: the count of j moves from
   * before to after (the leaving k-mer subtracted, the entering one added),
   * and the flag of j is set when j is the entering code and after reaches t.
   */
  lemma SlideEntry(genome: string, k: nat, L: nat, t: nat, i: nat, j: nat, leaving: nat, entering: nat,
                   before: nat, after: nat, flagBefore: nat, flagAfter: nat)
    requires k <= L && 1 <= i && i + L <= |genome|
    requires leaving == KmerCodes(genome, k)[i - 1] && entering == KmerCodes(genome, k)[i + L - k]
    requires before == WindowCount(genome, k, L, i - 1, j)
    requires after == before - (if leaving == j then 1 else 0) + (if entering == j then 1 else 0)
    requires flagBefore == 1 <==> ReachedBefore(genome, k, L, t, i, j)
    requires flagAfter == if entering == j && after >= t then 1 else flagBefore
    ensures after == WindowCount(genome, k, L, i, j)
    ensures flagAfter == 1 <==> ReachedBefore(genome, k, L, t, i + 1, j)
  {
    WindowSlide(genome, k, L, i, j);
    ReachedBeforeNext(genome, k, L, t, i - 1, j);
    ReachedBeforeNext(genome, k, L, t, i, j);
  }

  /** The window count of the code of p is the number of occurrences of p in the window. */
  lemma WindowCountIsOccurrenceCount(genome: string, k: nat, L: nat, w: nat, p: string)
    requires IsDna(genome) && IsDna(p) && |p| == k <= L && w + L <= |genome|
    ensures WindowCount(genome, k, L, w, Value(p)) == Search.OccurrenceCount(Window(genome, w, L), p)
  {
    WindowCountIsFrequency(genome, k, L, w, Value(p));
    DnaSlice(genome, w, w + L);
    FrequencyIsOccurrenceCount(Window(genome, w, L), p);
  }

  /** Reaching t in the table of some window is being a clump. */
  lemma ClumpByWindowCount(genome: string, k: nat, L: nat, t: nat, p: string)
    requires IsDna(genome) && k <= L && L <= |genome| && IsDna(p) && |p| == k
    ensures ReachedBefore(genome, k, L, t, |genome| - L + 1, Value(p)) <==> IsClump(genome, k, L, t, p)
  {
    forall w: nat | w + L <= |genome|
      ensures WindowCount(genome, k, L, w, Value(p)) == Search.OccurrenceCount(Window(genome, w, L), p)
    {
      WindowCountIsOccurrenceCount(genome, k, L, w, p);
    }
  }

  /** A k-mer that is a clump for threshold t2 is one for every smaller threshold. */
  lemma ClumpThresholdMonotone(genome: string, k: nat, L: nat, t1: nat, t2: nat, p: string)
    requires t1 <= t2 && IsClump(genome, k, L, t2, p)
    ensures IsClump(genome, k, L, t1, p)
  {
  }

  /**
   * ClumpFinding: table of the first window, flags for the indices that
   * reach t there, the sliding loop, and finally the decoded flagged indices.
   * For a genome one base shorter than L, genome.substr(0, L) is the whole
   * genome and the sliding loop's bound |genome| - L + 1 is 0, so the result
   * is the k-mers that occur at least t times in the whole genome.
   */
  method ClumpFinding(genome: string, k: nat, L: nat, t: nat) returns (frequentPatterns: set<string>)
    requires IsDna(genome) && k <= L <= |genome| + 1
    ensures L <= |genome| ==> forall p :: p in frequentPatterns <==> IsClump(genome, k, L, t, p)
    ensures L == |genome| + 1 ==>
              forall p :: p in frequentPatterns <==> |p| == k && IsDna(p) && Search.OccurrenceCount(genome, p) >= t
  {
    var tableSize := Pow4(k);
    var clump := new nat[tableSize](_ => 0);

    var text := if L <= |genome| then genome[..L] else genome;
    var freqArray := ComputeFrequencies(text, k);
    MarkFirstWindow(freqArray, clump, t);
    if L <= |genome| {
      assert text == Window(genome, 0, L);
      FirstWindow(genome, k, L, t, freqArray[..], clump[..]);
    }
    ghost var firstTable, firstFlags := freqArray[..], clump[..];
    SlideWindow(genome, k, L, t, freqArray, clump);
    frequentPatterns := DecodeWhere(clump, k, 1);

    forall p | |p| == k && IsDna(p)
      ensures L <= |genome| ==> (p in frequentPatterns <==> IsClump(genome, k, L, t, p))
      ensures L == |genome| + 1 ==> (p in frequentPatterns <==> Search.OccurrenceCount(genome, p) >= t)
    {
      if L <= |genome| {
        ClumpByWindowCount(genome, k, L, t, p);
      } else {
        assert clump[Value(p)] == firstFlags[Value(p)];
        assert freqArray[Value(p)] == firstTable[Value(p)];
        FrequencyIsOccurrenceCount(genome, p);
      }
    }
  }

  /** Flags every index whose count in the table reaches t. */
  method MarkFirstWindow(freqArray: array<nat>, clump: array<nat>, t: nat)
    requires freqArray != clump && freqArray.Length == clump.Length
    requires forall j :: 0 <= j < clump.Length ==> clump[j] == 0
    modifies clump
    ensures forall j :: 0 <= j < clump.Length ==> (clump[j] == 1 <==> freqArray[j] >= t)
  {
    var i := 0;
    while i < clump.Length
      invariant 0 <= i <= clump.Length
      invariant forall j :: 0 <= j < i ==> (clump[j] == 1 <==> freqArray[j] >= t)
      invariant forall j :: i <= j < clump.Length ==> clump[j] == 0
    {
      if freqArray[i] >= t {
        clump[i] := 1;
      }
      i := i + 1;
    }
  }

  /**
   * The frequency table of the first window holds its window counts, and
   * flags for the entries reaching t mark what reached t in the windows
   * before the second one.
   */
  lemma FirstWindow(genome: string, k: nat, L: nat, t: nat, table: seq<nat>, flags: seq<nat>)
    requires k <= L <= |genome|
    requires table == FrequencyTable(Window(genome, 0, L), k)
    requires |flags| == |table| && forall j :: 0 <= j < |flags| ==> (flags[j] == 1 <==> table[j] >= t)
    ensures forall j :: 0 <= j < |table| ==> table[j] == WindowCount(genome, k, L, 0, j)
    ensures forall j :: 0 <= j < |flags| ==> (flags[j] == 1 <==> ReachedBefore(genome, k, L, t, 1, j))
  {
    forall j | 0 <= j < |table| ensures table[j] == WindowCount(genome, k, L, 0, j) {
      WindowCountIsFrequency(genome, k, L, 0, j);
    }
    forall j | 0 <= j < |flags| ensures flags[j] == 1 <==> ReachedBefore(genome, k, L, t, 1, j) {
      ReachedBeforeNext(genome, k, L, t, 0, j);
    }
  }

  /**
   * The sliding loop: for each window start i from 1 to |genome| - L the
   * k-mer at i - 1 leaves and the k-mer at i + L - k enters; an entering
   * index whose count reaches t is flagged.  When L = |genome| + 1 the
   * bound is 0 and nothing changes.
   */
  method SlideWindow(genome: string, k: nat, L: nat, t: nat, freqArray: array<nat>, clump: array<nat>)
    requires IsDna(genome) && k <= L <= |genome| + 1
    requires freqArray != clump && freqArray.Length == clump.Length == Pow4(k)
    requires L <= |genome| ==>
               forall j :: 0 <= j < freqArray.Length ==> freqArray[j] == WindowCount(genome, k, L, 0, j)
    requires L <= |genome| ==>
               forall j :: 0 <= j < clump.Length ==> (clump[j] == 1 <==> ReachedBefore(genome, k, L, t, 1, j))
    modifies freqArray, clump
    ensures L <= |genome| ==>
              forall j :: 0 <= j < freqArray.Length ==> freqArray[j] == WindowCount(genome, k, L, |genome| - L, j)
    ensures L <= |genome| ==>
              forall j :: 0 <= j < clump.Length ==> (clump[j] == 1 <==> ReachedBefore(genome, k, L, t, |genome| - L + 1, j))
    ensures L == |genome| + 1 ==> unchanged(freqArray) && unchanged(clump)
  {
    var searchLen: nat := |genome| - L + 1;
    var i := 1;
    while i < searchLen
      invariant searchLen == 0 || 1 <= i <= searchLen
      invariant searchLen == 0 ==> unchanged(freqArray) && unchanged(clump)
      invariant searchLen > 0 ==>
                  forall j :: 0 <= j < freqArray.Length ==> freqArray[j] == WindowCount(genome, k, L, i - 1, j)
      invariant searchLen > 0 ==>
                  forall j :: 0 <= j < clump.Length ==> (clump[j] == 1 <==> ReachedBefore(genome, k, L, t, i, j))
    {
      SlideOnce(genome, k, L, t, i, freqArray, clump);
      i := i + 1;
    }
  }

  /**
   * One step of the sliding loop, moving the window from start i - 1 to
   * start i: the leaving k-mer's count goes down by one (it is at least one,
   * so the unsigned decrement never wraps), the entering k-mer's count goes
   * up by one and is flagged when it reaches t.
   */
  method SlideOnce(genome: string, k: nat, L: nat, t: nat, i: nat, freqArray: array<nat>, clump: array<nat>)
    requires IsDna(genome) && k <= L && 1 <= i && i + L <= |genome|
    requires freqArray != clump && freqArray.Length == clump.Length == Pow4(k)
    requires forall j :: 0 <= j < freqArray.Length ==> freqArray[j] == WindowCount(genome, k, L, i - 1, j)
    requires forall j :: 0 <= j < clump.Length ==> (clump[j] == 1 <==> ReachedBefore(genome, k, L, t, i, j))
    modifies freqArray, clump
    ensures forall j :: 0 <= j < freqArray.Length ==> freqArray[j] == WindowCount(genome, k, L, i, j)
    ensures forall j :: 0 <= j < clump.Length ==> (clump[j] == 1 <==> ReachedBefore(genome, k, L, t, i + 1, j))
    ensures freqArray[..] == FrequencyTable(Window(genome, i, L), k)
    ensures forall j :: 0 <= j < freqArray.Length && j != KmerCodes(genome, k)[i - 1] && j != KmerCodes(genome, k)[i + L - k] ==>
              freqArray[j] == old(freqArray[j]) && clump[j] == old(clump[j])
  {
    ghost var freqBefore, clumpBefore := freqArray[..], clump[..];
    var leaving := KmerIndex(genome, k, i - 1);
    WindowHoldsFirst(genome, k, L, i - 1);
    freqArray[leaving] := freqArray[leaving] - 1;
    ghost var freqMid := freqArray[..];

    var entering := KmerIndex(genome, k, i + L - k);
    freqArray[entering] := freqArray[entering] + 1;
    if freqArray[entering] >= t {
      clump[entering] := 1;
    }

    forall j | 0 <= j < freqArray.Length
      ensures freqArray[j] == WindowCount(genome, k, L, i, j)
      ensures clump[j] == 1 <==> ReachedBefore(genome, k, L, t, i + 1, j)
    {
      assert freqMid[j] == freqBefore[j] - (if leaving == j then 1 else 0);
      assert freqArray[j] == freqMid[j] + (if entering == j then 1 else 0);
      SlideEntry(genome, k, L, t, i, j, leaving, entering, freqBefore[j], freqArray[j], clumpBefore[j], clump[j]);
    }
    WindowTable(genome, k, L, i, freqArray[..]);
  }

  /** PatternToNumber(genome.substr(i, k)): the code of the k-mer at i. */
  method KmerIndex(genome: string, k: nat, i: nat) returns (idx: nat)
    requires IsDna(genome) && i + k <= |genome|
    ensures idx == KmerCodes(genome, k)[i]
    ensures idx < Pow4(k)
  {
    var pattern := genome[i..i + k];
    DnaSlice(genome, i, i + k);
    assert |pattern| == k;
    idx := PatternToNumber(pattern);
    KmerCodeAt(genome, k, i);
  }
}
