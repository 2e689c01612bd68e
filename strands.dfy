/**
 * The reverse complement of a DNA strand: the strand read backwards with
 * every base replaced by its Watson-Crick partner.  A character that is not
 * a base is dropped.
 */
module Strands {
  import opened Dna

  /** The reverse complement of s, built the way the loop builds it: s[1..]'s first, then s[0]'s. */
  function RevComp(s: string): string
    decreases |s|
  {
    if s == [] then []
    else RevComp(s[1..]) + (if IsBase(s[0]) then [Complement(s[0])] else [])
  }

  /**
   * ReverseComplement: walks text from its last character to its first and
   * appends the complement of every base; any other character falls
   * through the switch and is skipped.
   */
  method ReverseComplement(text: string) returns (result: string)
    ensures result == RevComp(text)
  {
    result := [];
    var i: int := |text| - 1;
    while i >= 0
      invariant -1 <= i < |text|
      invariant result == RevComp(text[i + 1..])
    {
      assert text[i..][1..] == text[i + 1..];
      var c := text[i];
      if c == 'A' {
        result := result + ['T'];
      } else if c == 'C' {
        result := result + ['G'];
      } else if c == 'G' {
        result := result + ['C'];
      } else if c == 'T' {
        result := result + ['A'];
      }
      i := i - 1;
    }
    assert text[0..] == text;
  }

  /** A DNA strand keeps its length. */
  lemma {:induction false} RevCompLength(s: string)
    requires IsDna(s)
    ensures |RevComp(s)| == |s|
    decreases |s|
  {
    if s != [] {
      DnaSlice(s, 1, |s|);
      RevCompLength(s[1..]);
    }
  }

  /** Position i of the reverse complement holds the complement of position |s| - 1 - i. */
  lemma {:induction false} RevCompAt(s: string)
    requires IsDna(s)
    ensures |RevComp(s)| == |s|
    ensures forall i :: 0 <= i < |s| ==> RevComp(s)[i] == Complement(s[|s| - 1 - i])
    decreases |s|
  {
    if s != [] {
      var tail := s[1..];
      DnaSlice(s, 1, |s|);
      RevCompAt(tail);
      assert RevComp(s) == RevComp(tail) + [Complement(s[0])];
      forall i | 0 <= i < |s| ensures RevComp(s)[i] == Complement(s[|s| - 1 - i]) {
        if i < |tail| {
          assert s[|s| - 1 - i] == tail[|tail| - 1 - i];
        }
      }
    }
  }

  /** The reverse complement of a DNA strand is a DNA strand. */
  lemma RevCompIsDna(s: string)
    requires IsDna(s)
    ensures IsDna(RevComp(s))
  {
    RevCompAt(s);
    forall i | 0 <= i < |RevComp(s)| ensures IsBase(RevComp(s)[i]) {
      assert RevComp(s)[i] == Complement(s[|s| - 1 - i]);
    }
  }

  /** Taking the reverse complement twice gives the strand back. */
  lemma RevCompInvolution(s: string)
    requires IsDna(s)
    ensures RevComp(RevComp(s)) == s
  {
    var r := RevComp(s);
    RevCompAt(s);
    RevCompIsDna(s);
    RevCompAt(r);
    forall i | 0 <= i < |s| ensures RevComp(r)[i] == s[i] {
      assert r[|r| - 1 - i] == Complement(s[i]);
      ComplementInvolution(s[i]);
    }
  }

  /** A character that is not a base is dropped: "AXC" gives "GT". */
  lemma DropsNonBases()
    ensures RevComp("AXC") == "GT"
  {
    assert "AXC"[1..] == "XC" && "XC"[1..] == "C" && "C"[1..] == [];
  }
}
