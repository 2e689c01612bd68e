/**
 * The pattern encoder: a bijection between the DNA strings of length k and
 * the integers in [0, 4^k).  A pattern is read as a base-4 numeral, most
 * significant digit first; decoding left-pads with 'A' (digit 0).
 */
module Codec {
  import opened Dna

  /** 4^k, exact (the source computes it with floating-point std::pow). */
  function Pow4(k: nat): (r: nat)
    ensures r >= 1
  {
    if k == 0 then 1 else 4 * Pow4(k - 1)
  }

  /**
   * The code of a pattern: its bases read as a base-4 numeral, most
   * significant digit first (Horner's rule on the last base).
   */
  function Value(p: string): (v: nat)
    ensures v < Pow4(|p|)
    decreases |p|
  {
    if p == [] then 0 else 4 * Value(p[..|p| - 1]) + Digit(p[|p| - 1])
  }

  /** Reference definition: sum over i of digit(p[i]) * 4^(|p|-1-i). */
  function PositionalSum(p: string): nat
    decreases |p|
  {
    if p == [] then 0 else Digit(p[0]) * Pow4(|p| - 1) + PositionalSum(p[1..])
  }

  /** The length-k numeral of index (its k lowest base-4 digits), most significant first. */
  function Decode(index: nat, k: nat): (p: string)
    ensures |p| == k && IsDna(p)
  {
    if k == 0 then [] else Decode(index / 4, k - 1) + [NumberToSymbol(index % 4)]
  }

  /** Appending a base shifts the numeral one place and adds the digit at the lowest place. */
  lemma ValueSnoc(p: string, c: char)
    ensures Value(p + [c]) == 4 * Value(p) + Digit(c)
  {
    assert (p + [c])[..|p|] == p;
  }

  /** Prepending a base adds its digit at the highest place. */
  lemma {:induction false} ValueCons(c: char, p: string)
    ensures Value([c] + p) == Digit(c) * Pow4(|p|) + Value(p)
    decreases |p|
  {
    var d := Digit(c);
    if p == [] {
      assert [c] + p == [] + [c];
      ValueSnoc([], c);
    } else {
      var q, e := p[..|p| - 1], p[|p| - 1];
      assert p == q + [e];
      assert [c] + p == ([c] + q) + [e];
      ValueCons(c, q);
      ValueSnoc([c] + q, e);
      ValueSnoc(q, e);
      var scale := Pow4(|q|);
      var high := d * scale;
      assert Value([c] + q) == high + Value(q);
      assert Value([c] + p) == 4 * high + Value(p);
      assert Pow4(|p|) == 4 * scale;
      TimesFour(d, scale);
    }
  }

  lemma TimesFour(d: nat, scale: nat)
    ensures d * (4 * scale) == 4 * (d * scale)
  {
  }

  /** The Horner form and the positional sum agree on every DNA string. */
  lemma {:induction false} ValueIsPositionalSum(p: string)
    ensures Value(p) == PositionalSum(p)
    decreases |p|
  {
    if p != [] {
      assert p == [p[0]] + p[1..];
      ValueCons(p[0], p[1..]);
      ValueIsPositionalSum(p[1..]);
    }
  }

  /** Encoding the decoded numeral gives the index back, for every index < 4^k. */
  lemma {:induction false} ValueDecode(index: nat, k: nat)
    requires index < Pow4(k)
    ensures Value(Decode(index, k)) == index
  {
    if k > 0 {
      var q, r := index / 4, index % 4;
      assert q < Pow4(k - 1);
      ValueDecode(q, k - 1);
      var c := NumberToSymbol(r);
      SymbolCodecBijection(r, c);
      ValueSnoc(Decode(q, k - 1), c);
    }
  }

  /** Decoding the value of a pattern at its own length gives the pattern back. */
  lemma {:induction false} DecodeValue(p: string)
    requires IsDna(p)
    ensures Decode(Value(p), |p|) == p
    decreases |p|
  {
    if p != [] {
      var n := |p|;
      var q, c := p[..n - 1], p[n - 1];
      assert p == q + [c];
      ValueSnoc(q, c);
      var d := SymbolToNumber(c);
      assert Value(p) / 4 == Value(q) && Value(p) % 4 == d;
      DecodeValue(q);
    }
  }

  /** Two DNA patterns of the same length with the same value are equal. */
  lemma ValueInjective(p: string, q: string)
    requires IsDna(p) && IsDna(q) && |p| == |q|
    requires Value(p) == Value(q)
    ensures p == q
  {
    DecodeValue(p);
    DecodeValue(q);
  }

  /** Two DNA patterns of the same length are equal exactly when their values are. */
  lemma ValueEqualIff(p: string, q: string)
    requires IsDna(p) && IsDna(q) && |p| == |q|
    ensures p == q <==> Value(p) == Value(q)
  {
    if Value(p) == Value(q) {
      ValueInjective(p, q);
    }
  }

  /**
   * PatternToNumber: accumulates digit * base from the last character to
   * the first, multiplying base by 4 after each digit.
   */
  method PatternToNumber(pattern: string) returns (result: nat)
    requires IsDna(pattern)
    ensures result == Value(pattern)
    ensures result < Pow4(|pattern|)
    ensures pattern == [] ==> result == 0
  {
    if pattern == [] {
      return 0;
    }
    result := 0;
    var base: nat := 1;
    var i: int := |pattern| - 1;
    while i >= 0
      invariant -1 <= i < |pattern|
      invariant result == Value(pattern[i + 1..])
      invariant base == Pow4(|pattern| - 1 - i)
    {
      assert pattern[i..] == [pattern[i]] + pattern[i + 1..];
      ValueCons(pattern[i], pattern[i + 1..]);
      result := result + SymbolToNumber(pattern[i]) * base;
      base := base * 4;
      i := i - 1;
    }
    assert pattern[0..] == pattern;
  }

  /**
   * NumberToPattern: k = 1 is answered directly; otherwise the base-4
   * digits of index are prepended least significant first and the
   * result is left-padded with 'A' up to length k.
   */
  method NumberToPattern(index: nat, k: nat) returns (pattern: string)
    requires index < Pow4(k)
    ensures |pattern| == k && IsDna(pattern)
    ensures Value(pattern) == index
    ensures pattern == Decode(index, k)
  {
    if k == 1 {
      pattern := [NumberToSymbol(index)];
      ValueCons(pattern[0], []);
      SymbolCodecBijection(index, pattern[0]);
      DecodeValue(pattern);
      return;
    }
    pattern := [];
    var n: nat := index;
    while n != 0
      invariant |pattern| <= k && IsDna(pattern)
      invariant n < Pow4(k - |pattern|)
      invariant index == n * Pow4(|pattern|) + Value(pattern)
      decreases n
    {
      LowDigitStep(index, n, pattern, k);
      var rem := n % 4;
      var c := NumberToSymbol(rem);
      pattern := [c] + pattern;
      n := n / 4;
    }
    var paddingLen := k - |pattern|;
    while paddingLen > 0
      invariant 0 <= paddingLen && |pattern| + paddingLen == k && IsDna(pattern)
      invariant Value(pattern) == index
    {
      LeadingA(pattern);
      pattern := ['A'] + pattern;
      paddingLen := paddingLen - 1;
    }
    DecodeValue(pattern);
  }

  /** A leading 'A' (digit 0) does not change the value. */
  lemma LeadingA(p: string)
    requires IsDna(p)
    ensures IsDna(['A'] + p)
    ensures Value(['A'] + p) == Value(p)
  {
    ValueCons('A', p);
    assert Digit('A') == 0;
    assert forall i :: 1 <= i <= |p| ==> (['A'] + p)[i] == p[i - 1];
  }

  /**
   * The collection loop shared by ClumpFinding and FrequentWords: every
   * index i of the table whose entry is v, decoded by NumberToPattern(i, k)
   * and inserted into a set.
   */
  method DecodeWhere(table: array<nat>, k: nat, v: nat) returns (patterns: set<string>)
    requires table.Length == Pow4(k)
    ensures forall p :: p in patterns <==> |p| == k && IsDna(p) && table[Value(p)] == v
  {
    patterns := {};
    var i := 0;
    while i < table.Length
      invariant 0 <= i <= table.Length
      invariant forall p :: p in patterns <==> |p| == k && IsDna(p) && Value(p) < i && table[Value(p)] == v
    {
      if table[i] == v {
        var pattern := NumberToPattern(i, k);
        forall q | |q| == k && IsDna(q) && Value(q) == i ensures q == pattern {
          ValueInjective(q, pattern);
        }
        patterns := patterns + {pattern};
      }
      i := i + 1;
    }
  }

  /**
   * One step of the digit loop of NumberToPattern: moving the lowest base-4
   * digit of n to the front of the pattern keeps n * 4^|pattern| + Value(pattern).
   */
  lemma LowDigitStep(index: nat, n: nat, pattern: string, k: nat)
    requires IsDna(pattern)
    requires |pattern| <= k
    requires n != 0
    requires n < Pow4(k - |pattern|)
    requires index == n * Pow4(|pattern|) + Value(pattern)
    ensures |pattern| < k
    ensures n / 4 < Pow4(k - |pattern| - 1)
    ensures IsDna([NumberToSymbol(n % 4)] + pattern)
    ensures index == (n / 4) * Pow4(|pattern| + 1) + Value([NumberToSymbol(n % 4)] + pattern)
  {
    var m, rem := |pattern|, n % 4;
    var c := NumberToSymbol(rem);
    SymbolCodecBijection(rem, c);
    ValueCons(c, pattern);
    assert Pow4(k - m) == 4 * Pow4(k - m - 1);
    assert Pow4(m + 1) == 4 * Pow4(m);
    SplitLowDigit(n, Pow4(m));
  }

  /** n * p splits into the part above the lowest base-4 digit of n and that digit. */
  lemma SplitLowDigit(n: nat, p: nat)
    ensures n * p == (n / 4) * (4 * p) + (n % 4) * p
  {
    assert n == 4 * (n / 4) + n % 4;
  }

  /** Concrete values: "AA" is 0, "TT" is 15, and 0 decodes to "AA" at length 2. */
  lemma EncodingExamples()
    ensures Value("AA") == 0 && Value("TT") == 15 && Decode(0, 2) == "AA"
  {
    assert "AA"[1..] == "A" && "TT"[1..] == "T";
    assert "A"[1..] == [] && "T"[1..] == [];
  }
}
