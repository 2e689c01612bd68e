/**
 * The DNA alphabet {A, C, G, T} and the symbol codec that maps the four
 * bases to the digits 0, 1, 2, 3 and back.
 */
module Dna {

  /** One of the four DNA bases. */
  predicate IsBase(c: char) {
    c == 'A' || c == 'C' || c == 'G' || c == 'T'
  }

  /** A string made of DNA bases only. */
  predicate IsDna(s: string) {
    forall i :: 0 <= i < |s| ==> IsBase(s[i])
  }

  /** Every slice of a DNA string is a DNA string. */
  lemma DnaSlice(s: string, a: nat, b: nat)
    requires IsDna(s) && a <= b <= |s|
    ensures IsDna(s[a..b])
  {
    forall i | 0 <= i < b - a ensures IsBase(s[a..b][i]) {
      assert s[a..b][i] == s[a + i];
    }
  }

  /** SymbolToNumber's answer for a character that is not a base: (size_t)-1 on a 64-bit target. */
  const NotABase: nat := 0xFFFF_FFFF_FFFF_FFFF

  /** Digit to base: 0 -> A, 1 -> C, 2 -> G, 3 -> T, and a blank for any other number. */
  function NumberToSymbol(n: nat): (c: char)
    ensures n < 4 ==> IsBase(c)
    ensures n >= 4 ==> c == ' '
  {
    if n == 0 then 'A'
    else if n == 1 then 'C'
    else if n == 2 then 'G'
    else if n == 3 then 'T'
    else ' '
  }

  /** Base to digit, the inverse of NumberToSymbol, and NotABase for any other character. */
  function SymbolToNumber(c: char): (d: nat)
    ensures IsBase(c) ==> d < 4 && NumberToSymbol(d) == c
    ensures !IsBase(c) ==> d == NotABase
  {
    if c == 'A' then 0
    else if c == 'C' then 1
    else if c == 'G' then 2
    else if c == 'T' then 3
    else NotABase
  }

  /** The two halves of the codec are inverse bijections between {A,C,G,T} and {0,1,2,3}. */
  lemma SymbolCodecBijection(n: nat, c: char)
    ensures n < 4 ==> IsBase(NumberToSymbol(n)) && SymbolToNumber(NumberToSymbol(n)) == n
    ensures IsBase(c) ==> SymbolToNumber(c) < 4 && NumberToSymbol(SymbolToNumber(c)) == c
  {
  }

  /**
   * The base-4 digit of a character, the weight a numeral gives it: the
   * digit of SymbolToNumber for a base and 0 for any other character.
   */
  function Digit(c: char): (d: nat)
    ensures d < 4
    ensures IsBase(c) ==> d == SymbolToNumber(c)
  {
    if c == 'C' then 1 else if c == 'G' then 2 else if c == 'T' then 3 else 0
  }

  /** Watson-Crick complement of a base: A <-> T, C <-> G. */
  function Complement(c: char): (r: char)
    requires IsBase(c)
    ensures IsBase(r)
    ensures SymbolToNumber(r) == 3 - SymbolToNumber(c)
  {
    if c == 'A' then 'T'
    else if c == 'C' then 'G'
    else if c == 'G' then 'C'
    else 'A'
  }

  /** Complementing twice gives the base back. */
  lemma ComplementInvolution(c: char)
    requires IsBase(c)
    ensures Complement(Complement(c)) == c
  {
    var d := SymbolToNumber(Complement(Complement(c)));
    assert d == SymbolToNumber(c);
    assert NumberToSymbol(d) == Complement(Complement(c));
  }
}
