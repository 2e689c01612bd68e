/**
 * The substring locator: every (overlapping) start position of a literal
 * pattern in a text, and their number.  The search primitive is
 * std::string::find, specified here by slice equality.
 */
module Search {

  datatype Option<T> = None | Some(value: T)

  /** pattern occurs in text starting at position i. */
  predicate OccursAt(text: string, pattern: string, i: nat) {
    i + |pattern| <= |text| && text[i..i + |pattern|] == pattern
  }

  /**
   * text.find(pattern, from): the first position at or after from where
   * pattern occurs, or None (std::string::npos) when there is none.
   */
  function Find(text: string, pattern: string, from: nat): Option<nat>
    decreases |text| - from
  {
    if from + |pattern| > |text| then None
    else if OccursAt(text, pattern, from) then Some(from)
    else Find(text, pattern, from + 1)
  }

  /**
   * Find returns the first occurrence at or after from, and None only when
   * there is no occurrence at or after from.
   */
  lemma {:induction false} FindSpec(text: string, pattern: string, from: nat)
    ensures Find(text, pattern, from).Some? ==>
              var i := Find(text, pattern, from).value;
              from <= i && OccursAt(text, pattern, i) &&
              forall m :: from <= m < i ==> !OccursAt(text, pattern, m)
    ensures Find(text, pattern, from).None? ==> forall m :: from <= m ==> !OccursAt(text, pattern, m)
    decreases |text| - from
  {
    if from + |pattern| <= |text| && !OccursAt(text, pattern, from) {
      FindSpec(text, pattern, from + 1);
    }
  }

  /** The occurrence positions at or after from, in increasing order. */
  function Occurrences(text: string, pattern: string, from: nat): seq<nat>
    decreases |text| - from
  {
    if from + |pattern| > |text| then []
    else (if OccursAt(text, pattern, from) then [from] else []) + Occurrences(text, pattern, from + 1)
  }

  /** Number of occurrences of pattern in text, overlapping ones included. */
  function OccurrenceCount(text: string, pattern: string): nat {
    |Occurrences(text, pattern, 0)|
  }

  /** One start position at a time: from contributes one exactly when pattern occurs there. */
  lemma OccurrencesStep(text: string, pattern: string, from: nat)
    requires from + |pattern| <= |text|
    ensures |Occurrences(text, pattern, from)| ==
            (if OccursAt(text, pattern, from) then 1 else 0) + |Occurrences(text, pattern, from + 1)|
  {
  }

  /**
   * Occurrences(text, pattern, from) lists exactly the positions i >= from
   * where pattern occurs, strictly increasing.
   */
  lemma {:induction false} OccurrencesSpec(text: string, pattern: string, from: nat)
    ensures forall i :: i in Occurrences(text, pattern, from) <==> from <= i && OccursAt(text, pattern, i)
    ensures forall a, b :: 0 <= a < b < |Occurrences(text, pattern, from)| ==>
              Occurrences(text, pattern, from)[a] < Occurrences(text, pattern, from)[b]
    decreases |text| - from
  {
    if from + |pattern| <= |text| {
      OccurrencesSpec(text, pattern, from + 1);
      var head := if OccursAt(text, pattern, from) then [from] else [];
      var tail := Occurrences(text, pattern, from + 1);
      assert Occurrences(text, pattern, from) == head + tail;
      forall b | 0 <= b < |tail| ensures from < tail[b] {
        assert tail[b] in tail;
      }
    }
  }

  /** Each call of find hands over the next occurrence, and npos means none is left. */
  lemma {:induction false} FindNextOccurrence(text: string, pattern: string, from: nat)
    ensures Find(text, pattern, from).None? ==> Occurrences(text, pattern, from) == []
    ensures Find(text, pattern, from).Some? ==>
              var i := Find(text, pattern, from).value;
              Occurrences(text, pattern, from) == [i] + Occurrences(text, pattern, i + 1)
    decreases |text| - from
  {
    if from + |pattern| <= |text| {
      var rest := Occurrences(text, pattern, from + 1);
      if OccursAt(text, pattern, from) {
        assert Find(text, pattern, from) == Some(from);
        assert Occurrences(text, pattern, from) == [from] + rest;
      } else {
        FindNextOccurrence(text, pattern, from + 1);
        assert Find(text, pattern, from) == Find(text, pattern, from + 1);
        assert Occurrences(text, pattern, from) == [] + rest == rest;
      }
    }
  }

  /**
   * PatternMatching: repeatedly calls find and resumes one position after
   * the last match, so overlapping matches are all reported.
   */
  method PatternMatching(text: string, pattern: string) returns (startPositions: seq<nat>)
    ensures startPositions == Occurrences(text, pattern, 0)
    ensures forall i :: i in startPositions <==> OccursAt(text, pattern, i)
    ensures forall a, b :: 0 <= a < b < |startPositions| ==> startPositions[a] < startPositions[b]
  {
    startPositions := [];
    var pos: nat := 0;
    var found := Find(text, pattern, pos);
    while found.Some?
      invariant pos <= |text| + 1
      invariant found == Find(text, pattern, pos)
      invariant startPositions + Occurrences(text, pattern, pos) == Occurrences(text, pattern, 0)
      decreases |text| + 1 - pos
    {
      FindSpec(text, pattern, pos);
      FindNextOccurrence(text, pattern, pos);
      startPositions := startPositions + [found.value];
      pos := found.value + 1;
      found := Find(text, pattern, pos);
    }
    FindNextOccurrence(text, pattern, pos);
    OccurrencesSpec(text, pattern, 0);
  }

  /** PatternCount: the same search loop, counting instead of collecting. */
  method PatternCount(text: string, pattern: string) returns (count: nat)
    ensures count == OccurrenceCount(text, pattern)
  {
    count := 0;
    var pos: nat := 0;
    var found := Find(text, pattern, pos);
    while found.Some?
      invariant pos <= |text| + 1
      invariant found == Find(text, pattern, pos)
      invariant count + |Occurrences(text, pattern, pos)| == OccurrenceCount(text, pattern)
      decreases |text| + 1 - pos
    {
      FindSpec(text, pattern, pos);
      FindNextOccurrence(text, pattern, pos);
      count := count + 1;
      pos := found.value + 1;
      found := Find(text, pattern, pos);
    }
    FindNextOccurrence(text, pattern, pos);
  }

  /** Overlapping matches are all found: "AA" occurs in "AAAA" at 0, 1 and 2. */
  lemma OverlapExample()
    ensures Occurrences("AAAA", "AA", 0) == [0, 1, 2]
    ensures OccurrenceCount("AAAA", "AA") == 3
  {
    assert OccursAt("AAAA", "AA", 0) && OccursAt("AAAA", "AA", 1) && OccursAt("AAAA", "AA", 2);
    assert Occurrences("AAAA", "AA", 3) == [];
  }
}
