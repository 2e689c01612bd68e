# k-mer counting engine over the DNA alphabet

This project models the computational core of `Bioinformatics_week1.cpp`, a
small k-mer engine over the alphabet {A, C, G, T}, and proves its contracts.
The core has six parts.

- **Symbol codec** (`Dna`): `NumberToSymbol` and `SymbolToNumber` map A, C, G, T to 0..3 and back.
- **Pattern encoder** (`Codec`): `PatternToNumber` reads a pattern as a base-4 numeral.
  `NumberToPattern` decodes an index back into a k-mer, left-padded with 'A'.
- **Frequency table** (`Frequencies`): `ComputeFrequencies` fills a dense table of 4^k counts, one per encoded k-mer.
- **Clump finder** (`Clumps`): `ClumpFinding` builds the table of the first window of length L.
  It then slides the window one base at a time: one count goes down for the k-mer that leaves, one goes up for the k-mer that enters.
  An index is flagged once its count reaches t, and the flagged indices are decoded into a set.
- **Occurrence search** (`Search`): `PatternMatching` and `PatternCount` repeat `std::string::find`, resuming one position after each match.
- **Frequent words and reverse complement** (`Frequent`, `Strands`).

Every loop of the original is a Dafny method with invariants.
Each method is proved against a specification function:

- `Value` is the code of a pattern (Horner's rule), proved equal to the positional sum.
- `Decode` is its inverse.
- `KmerCodes` lists the code at every start position, and `Count` counts a code in it.
- `WindowCount` is the table of one window.
- `Occurrences` lists the start positions of a pattern.
- `RevComp` is the reverse complement.

The frequency tables are `array<nat>` updated in place, as the vectors of the original are.

## Model

| member | source | states |
|---|---|---|
| `Dna.NumberToSymbol` | Bioinformatics_week1/Bioinformatics_week1.cpp:8-23 | digits 0..3 give a base; any other number gives the blank |
| `Dna.SymbolToNumber` | Bioinformatics_week1/Bioinformatics_week1.cpp:25-40 | a base gives a digit below 4 that NumberToSymbol maps back to it; any other character gives (size_t)-1 |
| `Dna.SymbolCodecBijection` | Bioinformatics_week1/Bioinformatics_week1.cpp:8-40 | the two switches are inverse bijections between {A,C,G,T} and {0,1,2,3} |
| `Dna.Digit` | Bioinformatics_week1/Bioinformatics_week1.cpp:25-40 | the digit a numeral gives a character: below 4, and SymbolToNumber's answer on every base |
| `Dna.Complement` | Bioinformatics_week1/Bioinformatics_week1.cpp:178-192 | the partner of a base is a base whose digit is 3 minus the base's digit (A-T, C-G) |
| `Dna.ComplementInvolution` | Bioinformatics_week1/Bioinformatics_week1.cpp:178-192 | complementing a base twice gives it back |
| `Dna.DnaSlice` | Bioinformatics_week1/Bioinformatics_week1.cpp:86-87 | every substring of a DNA string is a DNA string |
| `Codec.Pow4` | Bioinformatics_week1/Bioinformatics_week1.cpp:82 | the table size 4^k is at least 1 |
| `Codec.Value` | Bioinformatics_week1/Bioinformatics_week1.cpp:43-56 | the code of a pattern is below 4^length |
| `Codec.Decode` | Bioinformatics_week1/Bioinformatics_week1.cpp:59-79 | the decoded k-mer has length exactly k and uses only A, C, G, T |
| `Codec.ValueSnoc` | Bioinformatics_week1/Bioinformatics_week1.cpp:50-54 | helper: unfolds `Value` one step; appending a base shifts the code one base-4 place and adds the base's digit |
| `Codec.ValueCons` | Bioinformatics_week1/Bioinformatics_week1.cpp:50-54 | prepending a base adds its digit times 4^length to the code |
| `Codec.TimesFour` | Bioinformatics_week1/Bioinformatics_week1.cpp:50-54 | helper for `ValueCons`: d * (4 * s) == 4 * (d * s), the multiplication fact behind `base *= 4` |
| `Codec.ValueIsPositionalSum` | Bioinformatics_week1/Bioinformatics_week1.cpp:43-56 | the code equals the sum over i of digit(p[i]) * 4^(len(p)-1-i) |
| `Codec.ValueDecode` | Bioinformatics_week1/Bioinformatics_week1.cpp:59-79 | encoding the decoded k-mer of any index below 4^k gives the index back |
| `Codec.DecodeValue` | Bioinformatics_week1/Bioinformatics_week1.cpp:43-79 | decoding the code of a DNA pattern at its own length gives the pattern back |
| `Codec.ValueInjective` | Bioinformatics_week1/Bioinformatics_week1.cpp:43-56 | two DNA patterns of one length with the same code are equal |
| `Codec.ValueEqualIff` | Bioinformatics_week1/Bioinformatics_week1.cpp:43-56 | two DNA patterns of one length are equal exactly when their codes are |
| `Codec.PatternToNumber` | Bioinformatics_week1/Bioinformatics_week1.cpp:43-56 | the loop from the last character with a growing base returns the code; it is below 4^length, and 0 for the empty pattern |
| `Codec.NumberToPattern` | Bioinformatics_week1/Bioinformatics_week1.cpp:59-79 | the k = 1 shortcut and the digit and padding loops return a DNA k-mer whose code is the index; it is exactly Decode(index, k) |
| `Codec.LeadingA` | Bioinformatics_week1/Bioinformatics_week1.cpp:72-76 | a padding 'A' keeps the pattern DNA and does not change its code |
| `Codec.LowDigitStep` | Bioinformatics_week1/Bioinformatics_week1.cpp:65-70 | moving the lowest base-4 digit of the remaining index to the front keeps n * 4^length + code equal to the index |
| `Codec.SplitLowDigit` | Bioinformatics_week1/Bioinformatics_week1.cpp:65-70 | helper for the `NumberToPattern` loop invariant: arithmetic identity n = 4 * (n / 4) + n % 4, scaled by a place value |
| `Codec.DecodeWhere` | Bioinformatics_week1/Bioinformatics_week1.cpp:126-132 | the collected set is exactly the DNA k-mers whose table entry is the given value |
| `Codec.EncodingExamples` | Bioinformatics_week1/Bioinformatics_week1.cpp:43-79 | "AA" encodes to 0, "TT" to 15, and 0 decodes to "AA" at length 2 |
| `Search.FindSpec` | Bioinformatics_week1/Bioinformatics_week1.cpp:141 | find returns the first occurrence at or after its start, and npos only when none exists |
| `Search.OccurrencesStep` | Bioinformatics_week1/Bioinformatics_week1.cpp:141-145 | helper: unfolds `Occurrences` one step; each start position adds one occurrence exactly when the pattern occurs there |
| `Search.OccurrencesSpec` | Bioinformatics_week1/Bioinformatics_week1.cpp:197-207 | the occurrence list holds exactly the matching positions, strictly increasing |
| `Search.FindNextOccurrence` | Bioinformatics_week1/Bioinformatics_week1.cpp:201-205 | each find hands over the next occurrence, and npos means none is left |
| `Search.PatternMatching` | Bioinformatics_week1/Bioinformatics_week1.cpp:197-207 | returns every overlapping occurrence position, exactly the matching ones, strictly increasing |
| `Search.PatternCount` | Bioinformatics_week1/Bioinformatics_week1.cpp:137-147 | returns the number of overlapping occurrences, the length of PatternMatching's list |
| `Search.OverlapExample` | Bioinformatics_week1/Bioinformatics_week1.cpp:197-207 | "AA" occurs in "AAAA" at 0, 1 and 2, so it is counted 3 times |
| `Frequencies.KmerCode` | Bioinformatics_week1/Bioinformatics_week1.cpp:87-88 | the code of every k-mer is a valid table index below 4^k |
| `Frequencies.KmerCodes` | Bioinformatics_week1/Bioinformatics_week1.cpp:84-90 | one code per start position 0 .. len(text)-k, each below 4^k |
| `Frequencies.Count` | Bioinformatics_week1/Bioinformatics_week1.cpp:89 | a count is at most the number of k-mers looked at |
| `Frequencies.FrequencyTable` | Bioinformatics_week1/Bioinformatics_week1.cpp:80-92 | the table has 4^k entries, and entry j counts the start positions whose k-mer has code j |
| `Frequencies.CountConcat` | Bioinformatics_week1/Bioinformatics_week1.cpp:85-90 | counting is additive over concatenation |
| `Frequencies.CountSnoc` | Bioinformatics_week1/Bioinformatics_week1.cpp:89 | helper: unfolds `Count` one step; one more k-mer adds one to its own count only |
| `Frequencies.SumIncrement` | Bioinformatics_week1/Bioinformatics_week1.cpp:89 | incrementing one entry adds one to the sum of the table |
| `Frequencies.SumZeros` | Bioinformatics_week1/Bioinformatics_week1.cpp:82 | the zero-initialised table sums to 0 |
| `Frequencies.Tally` | Bioinformatics_week1/Bioinformatics_week1.cpp:82 | the table of a code sequence has one entry per index |
| `Frequencies.TallySnoc` | Bioinformatics_week1/Bioinformatics_week1.cpp:89 | one more code bumps its own entry and leaves every other entry alone |
| `Frequencies.TallySum` | Bioinformatics_week1/Bioinformatics_week1.cpp:85-90 | the entries of a table sum to the number of codes counted |
| `Frequencies.FrequencySum` | Bioinformatics_week1/Bioinformatics_week1.cpp:80-92 | the entries of the frequency table sum to len(text) - k + 1 |
| `Frequencies.KmerCodesSlice` | Bioinformatics_week1/Bioinformatics_week1.cpp:102-103 | the k-mer codes of a substring are the matching slice of the k-mer codes of the whole text |
| `Frequencies.SliceOfSlice` | Bioinformatics_week1/Bioinformatics_week1.cpp:102-103 | a substring of a substring is a substring of the whole |
| `Frequencies.CountFirst` | Bioinformatics_week1/Bioinformatics_week1.cpp:113-115 | the count of a sequence is its first element's share plus the count of the rest |
| `Frequencies.KmerCodeAt` | Bioinformatics_week1/Bioinformatics_week1.cpp:87-88 | helper: unfolds `KmerCodes` at one index; code i is the code of the k-mer text[i..i+k] |
| `Frequencies.OccursAtIffCode` | Bioinformatics_week1/Bioinformatics_week1.cpp:87-88 | a DNA pattern occurs at i exactly when the k-mer at i has its code |
| `Frequencies.CountMarks` | Bioinformatics_week1/Bioinformatics_week1.cpp:85-90 | codes marking the occurrences of p hold p's code once per occurrence |
| `Frequencies.KmerCodesEntries` | Bioinformatics_week1/Bioinformatics_week1.cpp:87-88 | helper: `KmerCodeAt` for all indices at once; every entry of the k-mer codes is the code of the k-mer at that position |
| `Frequencies.CodesMarkOccurrences` | Bioinformatics_week1/Bioinformatics_week1.cpp:87-88 | on DNA input, code i equals p's code exactly when p occurs at i |
| `Frequencies.KmerCodesMarkOccurrences` | Bioinformatics_week1/Bioinformatics_week1.cpp:84-90 | position i holds the code of p exactly when p occurs at i |
| `Frequencies.FrequencyIsOccurrenceCount` | Bioinformatics_week1/Bioinformatics_week1.cpp:80-92 | the table entry of a DNA k-mer is its number of overlapping occurrences in the text |
| `Frequencies.TallyStep` | Bioinformatics_week1/Bioinformatics_week1.cpp:87-89 | one loop step turns the table of the first i codes into the table of the first i + 1 |
| `Frequencies.ComputeFrequencies` | Bioinformatics_week1/Bioinformatics_week1.cpp:80-92 | for k <= len(text) + 1, returns a fresh array equal to the frequency table, with entries summing to len(text) - k + 1; at k = len(text) + 1 the loop bound is 0 and the table is all zeros |
| `Clumps.WindowCountIsFrequency` | Bioinformatics_week1/Bioinformatics_week1.cpp:101-104 | the window count is the frequency table of the window substring |
| `Clumps.WindowTable` | Bioinformatics_week1/Bioinformatics_week1.cpp:111-124 | a table holding every window count equals ComputeFrequencies of that window |
| `Clumps.WindowSlide` | Bioinformatics_week1/Bioinformatics_week1.cpp:111-124 | sliding one position loses the k-mer at i - 1 and gains the k-mer at i + L - k |
| `Clumps.CountSlide` | Bioinformatics_week1/Bioinformatics_week1.cpp:113-119 | moving a slice one place right loses its first element and gains the next one |
| `Clumps.WindowHoldsFirst` | Bioinformatics_week1/Bioinformatics_week1.cpp:113-115 | the leaving k-mer has count at least 1, so the unsigned decrement never wraps |
| `Clumps.ReachedBeforeNext` | Bioinformatics_week1/Bioinformatics_week1.cpp:119-123 | the flag condition for the first n + 1 windows adds window n to that for the first n |
| `Clumps.SlideEntry` | Bioinformatics_week1/Bioinformatics_week1.cpp:111-124 | one entry across one slide: the new count is the new window's count, and the flag says whether some window so far reached t |
| `Clumps.WindowCountIsOccurrenceCount` | Bioinformatics_week1/Bioinformatics_week1.cpp:95-124 | the window count of a DNA k-mer is its number of occurrences in the window |
| `Clumps.ClumpByWindowCount` | Bioinformatics_week1/Bioinformatics_week1.cpp:95-134 | reaching t in some window's table is being a clump, in both directions |
| `Clumps.ClumpThresholdMonotone` | Bioinformatics_week1/Bioinformatics_week1.cpp:95-134 | a clump for threshold t2 is a clump for every t1 <= t2, so the result shrinks as t grows |
| `Clumps.ClumpFinding` | Bioinformatics_week1/Bioinformatics_week1.cpp:95-134 | for k <= L <= len(genome), returns exactly the DNA k-mers occurring at least t times in some window of length L; at L = len(genome) + 1 `substr(0, L)` takes the whole genome, the sliding loop does not run, and the result is exactly the DNA k-mers occurring at least t times in the genome |
| `Clumps.MarkFirstWindow` | Bioinformatics_week1/Bioinformatics_week1.cpp:104-110 | the flags mark exactly the table indices whose count reaches t |
| `Clumps.FirstWindow` | Bioinformatics_week1/Bioinformatics_week1.cpp:101-110 | the table of `substr(0, L)` holds the first window's counts, and the flags mark exactly what reached t in the windows before the second |
| `Clumps.SlideWindow` | Bioinformatics_week1/Bioinformatics_week1.cpp:111-124 | for L <= len(genome), after the loop the table holds the last window's counts and the flags mark what reached t in some window; for L = len(genome) + 1 the bound is 0 and neither array changes |
| `Clumps.SlideOnce` | Bioinformatics_week1/Bioinformatics_week1.cpp:113-123 | one slide: the table becomes the next window's frequency table, the flags stay exact, and no index except the leaving and entering ones changes |
| `Clumps.KmerIndex` | Bioinformatics_week1/Bioinformatics_week1.cpp:113-114 | PatternToNumber of genome.substr(i, k) is code i of the genome |
| `Frequent.MaxElement` | Bioinformatics_week1/Bioinformatics_week1.cpp:157 | returns an entry of the array that no entry exceeds |
| `Frequent.MaxEntryIsMostFrequent` | Bioinformatics_week1/Bioinformatics_week1.cpp:155-164 | a k-mer's entry is the table maximum exactly when no k-mer occurs more often |
| `Frequent.FrequentWords` | Bioinformatics_week1/Bioinformatics_week1.cpp:151-167 | for k <= len(text) + 1, returns exactly the most frequent DNA k-mers, and the set is never empty; at k = len(text) + 1 every count is 0, so every DNA k-mer is returned |
| `Strands.ReverseComplement` | Bioinformatics_week1/Bioinformatics_week1.cpp:171-195 | the backward loop returns RevComp(text), which drops characters that are not bases |
| `Strands.RevCompLength` | Bioinformatics_week1/Bioinformatics_week1.cpp:171-195 | a DNA strand's reverse complement has its length |
| `Strands.RevCompAt` | Bioinformatics_week1/Bioinformatics_week1.cpp:176-193 | character i of the reverse complement is the complement of s[len(s)-1-i] |
| `Strands.RevCompIsDna` | Bioinformatics_week1/Bioinformatics_week1.cpp:178-192 | the reverse complement of a DNA strand is a DNA strand |
| `Strands.RevCompInvolution` | Bioinformatics_week1/Bioinformatics_week1.cpp:171-195 | applying the reverse complement twice to a DNA strand gives it back |
| `Strands.DropsNonBases` | Bioinformatics_week1/Bioinformatics_week1.cpp:178-192 | a character outside the switch is skipped: "AXC" gives "GT" |

In the table, len(x) is the length of x.

## Left out

- `main` (lines 210-225) is left out: it reads `E_coli.txt`, prints the results and waits for a key, which is I/O only.
- `std::pow(4, k)` (lines 82, 97, 158) is floating point in the original. The model uses the exact integer power `Pow4`.
- Integer widths are not modelled. The model computes with unbounded integers, so it agrees with the source only while every code, count, length and 4^k fits in `size_t` (k <= 31 on a 64-bit target). Beyond that:
  - `size_t(std::pow(4, k))` (lines 82, 97, 158) no longer fits from k = 32 on, which is where the bound k <= 31 comes from;
  - `base *= 4` in `PatternToNumber` (line 53) wraps to 0 after the 32nd digit, so from k = 33 on the highest digits drop out of `result` (line 52);
  - index arithmetic wraps for inputs near 2^64.
- The `-1` sentinel of `SymbolToNumber` is kept as the constant `NotABase`, (size_t)-1 on a 64-bit target.
  `PatternToNumber` requires a DNA pattern, so the code never adds that sentinel.
  `Value`, the specification function, gives a non-base character the digit 0 (`Digit`) and is total.
- NumberToPattern requires index < 4^k. For a larger index and k = 1 the original's shortcut returns the blank of `NumberToSymbol`; for a larger index and k != 1 (k = 0 included) the digit loop gives more than k characters and `k - pattern.size()` wraps around, so the padding loop does not end normally.
- ComputeFrequencies and FrequentWords require k <= len(text) + 1. At k = len(text) + 1 the loop bound `text.size() - k + 1` is 0, which the model covers. For a shorter text the bound wraps around and `text.substr(i, k)` throws `std::out_of_range` once i passes the end of the text; that exception is not modelled.
- ClumpFinding requires k <= L <= len(genome) + 1. At k = L + 1 with L <= len(genome), the source's first table is all zeros and each slide decrements and then increments the same entry, wrapping below zero and back; so it returns every k-mer when t = 0 and none otherwise, a case the model leaves out. For k > L + 1, and for k = L + 1 with L = len(genome) + 1, the sliding loop is never reached: the text handed to `ComputeFrequencies` at line 103 is at least two characters shorter than k, so its bound at line 84 wraps and `text.substr(i, k)` at line 87 throws `std::out_of_range`. At L = len(genome) + 1 the bound `genome.size() - L + 1` is 0, which the model covers. For a shorter genome the bound wraps around, and a `substr` call, in `ComputeFrequencies` or in the sliding loop, throws `std::out_of_range` once its start passes the end of the genome; that exception is not modelled.
- DNA-only genomes and texts are preconditions wherever the original would hit a sentinel.
- `std::string::find` is not modelled as a library. A match is slice equality, and `Find` returns the first match at or after its start.
  An empty pattern follows the library: it matches at every position 0 .. len(text).
- `std::set` ordering and `std::vector` capacity (`reserve`) are left out. A Dafny `set<string>` and a sequence stand for them.
- `std::max_element` is modelled by the loop `MaxElement`, which returns the value, not an iterator.
- ReverseComplement's loop index is an `int` initialised from `text.size() - 1`. The model uses an unbounded integer, so strings longer than INT_MAX are not modelled.
