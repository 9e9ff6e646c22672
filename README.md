# Large-gap Gray codes, modelled in Dafny

This project models the `LargeGapGrayCode` class of `src/LargeGapGrayCode.cpp`.
The class builds cyclic binary Gray codes with long bit runs, following
Goddyn and Gvozdjak's construction. A code of width w is stored as its
*transition sequence*: the 2^w bit positions flipped, one per step around the
cycle.

The class keeps a table of 20 such sequences, one per width 1..20, and a label
for each saying how it was obtained. The constructor stores hand-made codes for
widths 1–4 and a code found by backtracking for width 6. It then builds the
other widths with two combination theorems:

- **Theorem 1** merges code(n) and code(m) into code(n+m).
- **Theorem 2** merges code(n), code(m) and code(r) into code(n+m+r).

A merge walks a *pattern word* over 'a', 'b' and 'c'. Each 'a' takes the next
transition of the first code. Each 'b' takes the next transition of the second
code, shifted up by n. Each 'c' takes the next transition of the third code,
shifted up by n+m. The pattern word is made from the balanced word P(s,t),
which the greedy rule of `createPVector` produces.

The class also replays a sequence into its list of codewords (`getBinaryCode`).
It measures a code's gaps with a two-pass histogram of run lengths
(`computeRunLengths`) and picks the smallest and largest gap from that
histogram.

Modules:

- `Arith`: powers of two and the small arithmetic facts the proofs need.
- `Sequences`: counting occurrences and finding the last index of a value.
- `BalancedWords`: `createPVector`, `multiCopyVector`, `replaceLastBWithC`,
  `isOddPositive`, and the pattern words of both theorems with their symbol
  counts.
- `Interleave`: what the two interleavers emit at each position, and the bit
  ranges of their output.
- `Codewords`: the all-zero 20-bit word, the flip operation, and the list of
  codewords a transition sequence produces.
- `GapStats`: the gap recorded for each position, the histogram, the
  simulation of the two-pass scan, and `computeMinGap`/`computeMaxGap`.
- `GrayCodeTable`: the class `LargeGapGrayCode`. Its two fields are
  fixed-length arrays, `transitionSequences` and `creationMethod`. The module
  also holds the constructor and the members that read or write the table.

How the source maps onto the model:

- The labels in `m_creationMethod` are a datatype, `Provenance`.
  `GrayCodeTable.Text` gives the string the source stores: "by hand",
  "backtrack", "(n + m)" or "(n + m + r)". `GrayCodeTable.Decimal` writes the
  numbers, as a `std::stringstream` writes an `int`.
- The source's private helpers do not read the table. They are module-level
  members here: `isOddPositive`, `createPVector`, `multiCopyVector`,
  `replaceLastBWithC`, `computeMinGap` and `computeMaxGap`.
- The interleavers read the table, so they are methods of the class.
- The constructor is one call in the source. Here it is split into `Seed` (one
  literal slot) and three builder methods. Each builder makes the same
  combinator calls, in the same order, as lines 41-55.
- The `double` arithmetic has exact integer forms:
  - `pow(2, k)` is `Pow2(k)`.
  - The ratio test `bUsed/(aUsed+1) >= t/s` of `createPVector` is
    `bUsed*s >= t*(aUsed+1)`. The source compares two rounded `double`
    quotients, so this is exact only for small arguments. Every call has
    s+t <= 1024: the Theorem 1 guard gives s+t = 2^m with m <= 10, and the
    Theorem 2 guard gives s+t = 2^r with r <= 6. `Theorem1GuardBounds` and
    `Theorem2GuardBounds` prove these bounds. At that size two different
    quotients are never rounded to the same `double`.
- The combinators print "Constraints for Theorem 1/2 are not satisfied" when
  their guard fails. Here they return `ok == false` instead, and nothing in
  the table changes.
- `computeMinGap`/`computeMaxGap` leave the count argument unassigned when no
  key passes the test. The model takes the caller's previous count as an input
  and returns it unchanged.

`computeRunLengths` works as follows. In its first pass, a value seen for the
first time is stored at offset i, and later sightings at offset |t|+i. The
second pass records, for each position, the distance back to the previous
occurrence of the same value. Reading t as a cycle, that is the cyclic
distance. The exception is a value that occurs only once in t: it is recorded
with gap 2·|t|, because its first-pass offset is i and not |t|+i. The model
keeps this behaviour as written (`GapStats.GapAt`). In every code the
constructor builds, each bit is flipped an even number of times, at least
twice, so this case never arises for them. `GapStats.RunLengthHistogram`
proves that when every value occurs at least twice, every recorded gap lies in
[1, |t|-1].

## Model

| member | source | states |
|---|---|---|
| GrayCodeTable.LargeGapGrayCode.constructor | src/LargeGapGrayCode.cpp:22-56 | every one of the 20 slots holds a code of length 2^(k+1) with all bits below k+1; slots 0-3 and 5 hold the literal seeds; the 20 labels are "by hand" ×4, "backtrack", "(2 + 2 + 1)" and the fourteen "(n + m)" of the combinator calls |
| GrayCodeTable.LargeGapGrayCode.Seed | src/LargeGapGrayCode.cpp:26-39 | storing a seed changes exactly slot k of both arrays and keeps every slot well formed |
| GrayCodeTable.LargeGapGrayCode.EveryWidthBuilt | src/LargeGapGrayCode.cpp:41-55 | once each of the twenty slots has been filled, every width 1..20 has a code of length 2^w |
| GrayCodeTable.LargeGapGrayCode.BuildFromSeeds | src/LargeGapGrayCode.cpp:41-44 | the calls (2 + 2 + 1), (5 + 2), (6 + 2), (7 + 2) all pass their guards and fill widths 5, 7, 8 and 9, with those labels, leaving the seeds alone |
| GrayCodeTable.LargeGapGrayCode.BuildMiddleWidths | src/LargeGapGrayCode.cpp:45-49 | the calls (5 + 5), (9 + 2), (7 + 5), (8 + 5), (7 + 7) all pass their guards and fill widths 10 to 14 with those labels |
| GrayCodeTable.LargeGapGrayCode.BuildLargeWidths | src/LargeGapGrayCode.cpp:50-55 | the calls (10 + 5) … (10 + 10) all pass their guards and fill widths 15 to 20 with those labels |
| GrayCodeTable.LargeGapGrayCode.GetTransitionSequence | src/LargeGapGrayCode.cpp:62-71 | the stored sequence for widths up to 20, the empty sequence above 20; the result is empty or has length 2^w, and its bits are below w |
| GrayCodeTable.LargeGapGrayCode.GetBinaryCode | src/LargeGapGrayCode.cpp:73-87 | 2^w codewords of 20 bits; the first is all zero, codeword i is the word after i flips, and consecutive codewords differ exactly in bit ts[i] |
| GrayCodeTable.LargeGapGrayCode.CreateTransitionSequenceTheorem1 | src/LargeGapGrayCode.cpp:291-310 | the output is Merge2: position i holds A[#a in Z[..i] mod \|A\|] for an 'a' and B[#b in Z[..i] mod \|B\|]+n for a 'b' |
| GrayCodeTable.LargeGapGrayCode.CreateTransitionSequenceTheorem2 | src/LargeGapGrayCode.cpp:313-337 | the output is Merge3: as Theorem 1, plus C[#c in Z[..i] mod \|C\|]+n+m for a 'c' |
| GrayCodeTable.LargeGapGrayCode.CreateCodeFromTheorem1 | src/LargeGapGrayCode.cpp:129-143 | returns true exactly when the guard holds; then only slot n+m-1 changes: it holds the Theorem 1 interleaving of code(n) and code(m) along 2^n copies of P(s,t), has length 2^(n+m), and is labelled FromTheorem1(n, m), whose text is "(" + n + " + " + m + ")"; on failure neither array changes |
| GrayCodeTable.LargeGapGrayCode.CreateCodeFromTheorem2 | src/LargeGapGrayCode.cpp:146-162 | returns true exactly when the guard holds; then only slot n+m+r-1 changes: it holds the Theorem 2 interleaving of code(n), code(m) and code(r), has length 2^(n+m+r), and is labelled FromTheorem2(n, m, r), whose text is "(" + n + " + " + m + " + " + r + ")"; on failure neither array changes |
| GrayCodeTable.LargeGapGrayCode.ComputeRunLengths | src/LargeGapGrayCode.cpp:165-195 | the two nested loops compute the histogram of the gaps of all positions, and its counts add up to \|t\| |
| GrayCodeTable.Theorem2Pattern | src/LargeGapGrayCode.cpp:149-152 | the pattern word of Theorem 2 (2^m copies of Q, where Q is 2^n copies of P with its last 'b' relabelled 'c'), of length (s+t)·2^n·2^m |
| GrayCodeTable.Theorem1Slot | src/LargeGapGrayCode.cpp:131-135 | under the guard, the stored Theorem 1 sequence has length 2^(n+m) and every bit below n+m |
| GrayCodeTable.Theorem2Slot | src/LargeGapGrayCode.cpp:148-154 | under the guard, the stored Theorem 2 sequence has length 2^(n+m+r) and every bit below n+m+r |
| GrayCodeTable.Theorem1MergedIsMerge2 | src/LargeGapGrayCode.cpp:132-134 | the pointwise description of the stored Theorem 1 slot is the same as Merge2 along the Theorem 1 word |
| GrayCodeTable.Theorem2MergedIsMerge3 | src/LargeGapGrayCode.cpp:149-153 | the pointwise description of the stored Theorem 2 slot is the same as Merge3 along the Theorem 2 word |
| GrayCodeTable.StoreSlot | src/LargeGapGrayCode.cpp:135 | writing a well-formed code into its slot keeps every slot of the table well formed |
| GrayCodeTable.Width6SeedWellFormed | src/LargeGapGrayCode.cpp:38 | the backtracked width-6 seed has 64 transitions, all below 6 |
| GrayCodeTable.Theorem1GuardBounds | src/LargeGapGrayCode.cpp:131 | a call that passes the Theorem 1 guard names existing slots (1 <= m <= n, n+m-1 < 20) and has s, t >= 1 with s+t <= 1024 |
| GrayCodeTable.Theorem2GuardBounds | src/LargeGapGrayCode.cpp:148 | a call that passes the Theorem 2 guard names existing slots (1 <= r <= m <= n, n+m+r-1 < 20) and has s, t >= 1 with s+t <= 64 |
| GrayCodeTable.Theorem1Label | src/LargeGapGrayCode.cpp:136-138 | the stored text "(n + m)" reads back: its two fields are the decimal forms of n and m, between "(", " + " and ")" |
| GrayCodeTable.Theorem2Label | src/LargeGapGrayCode.cpp:155-157 | the stored text "(n + m + r)" reads back: its three fields are the decimal forms of n, m and r, between "(", " + ", " + " and ")" |
| GrayCodeTable.StoredTheorem1Range | src/LargeGapGrayCode.cpp:132-135 | the code stored by Theorem 1 names only bits below n+m when code(n) and code(m) stay within their widths |
| GrayCodeTable.StoredTheorem2Range | src/LargeGapGrayCode.cpp:149-154 | the code stored by Theorem 2 names only bits below n+m+r when code(n), code(m) and code(r) stay within their widths |
| GrayCodeTable.Decimal | src/LargeGapGrayCode.cpp:137 | the decimal text of a number is non-empty and made of digits |
| GrayCodeTable.DecimalValue | src/LargeGapGrayCode.cpp:137 | the digits of the text read back as the number itself, with no leading zero |
| BalancedWords.IsOddPositive | src/LargeGapGrayCode.cpp:248-255 | true exactly for positive values of the form 2k+1 |
| BalancedWords.CreatePVector | src/LargeGapGrayCode.cpp:258-276 | the loop fills the word the greedy rule defines, P(s,t) |
| BalancedWords.PWordProperties | src/LargeGapGrayCode.cpp:258-276 | P(s,t) has length s+t, exactly s 'a's and t 'b's, only those two symbols, and starts with 'b' |
| BalancedWords.GreedyPrefixCounts | src/LargeGapGrayCode.cpp:265-274 | while fewer than s+t symbols are emitted, the greedy rule never exceeds s 'a's or t 'b's, and every step emits one of them |
| BalancedWords.GreedyStep | src/LargeGapGrayCode.cpp:266-273 | the ratio test never picks a symbol whose quota is used up |
| BalancedWords.GreedyPrefixIsPrefix | src/LargeGapGrayCode.cpp:265-274 | the first k symbols of a longer greedy run are the greedy run of length k |
| BalancedWords.MultiCopyVector | src/LargeGapGrayCode.cpp:279-288 | the nested loops produce numCopies copies of v, of length \|v\|·numCopies |
| BalancedWords.RepeatAt | src/LargeGapGrayCode.cpp:284 | element i·\|v\|+j of k copies of v is v[j] |
| BalancedWords.RepeatOccurrences | src/LargeGapGrayCode.cpp:279-288 | every symbol occurs k times as often in k copies |
| BalancedWords.ReplaceLastBWithC | src/LargeGapGrayCode.cpp:339-347 | the backwards scan relabels, in place, exactly the last 'b' of the vector |
| BalancedWords.ReplacedLastBProperties | src/LargeGapGrayCode.cpp:339-347 | only the highest-index 'b' becomes 'c', every other position is kept, a word without 'b' is unchanged, and one 'b' count moves to 'c' |
| BalancedWords.Theorem1WordCounts | src/LargeGapGrayCode.cpp:132-133 | the Theorem 1 word has (s+t)·2^n letters: s·2^n 'a's and t·2^n 'b's |
| BalancedWords.Theorem2WordCounts | src/LargeGapGrayCode.cpp:149-152 | the Theorem 2 word has s·2^(n+m) 'a's, (t·2^n-1)·2^m 'b's and exactly 2^m 'c's, one per copy of Q |
| BalancedWords.RelabelledCopiesCounts | src/LargeGapGrayCode.cpp:150-151 | Q has (s+t)·2^n letters, exactly one of them 'c' |
| Interleave.CursorStep | src/LargeGapGrayCode.cpp:300-308 | reading one more letter of Z advances only that letter's cursor |
| Interleave.Merge2Range | src/LargeGapGrayCode.cpp:291-310 | when A's bits lie in [0,n) and B's in [0,m), every output bit lies in [0,n+m) |
| Interleave.Merge3Range | src/LargeGapGrayCode.cpp:313-337 | when C's bits also lie in [0,r), every output bit lies in [0,n+m+r) |
| Codewords.AllZero | src/LargeGapGrayCode.cpp:78 | the default bitset<20> has 20 bits, all clear |
| Codewords.Flip | src/LargeGapGrayCode.cpp:83 | flipping bit b changes bit b and no other |
| Codewords.CodewordParity | src/LargeGapGrayCode.cpp:78-84 | bit j of the codeword after k flips is set exactly when j was flipped an odd number of times |
| Codewords.CodewordListAt | src/LargeGapGrayCode.cpp:80-84 | entry i of the pushed list is the word after i flips |
| Codewords.CodewordSteps | src/LargeGapGrayCode.cpp:80-84 | the words after i and i+1 flips differ exactly in bit ts[i] |
| GapStats.GapIsCyclicDistance | src/LargeGapGrayCode.cpp:172-191 | for a value that occurs at least twice, the recorded gap d is the cyclic distance back to its previous occurrence: 1 <= d <= \|t\|-1, t[(i-d) mod \|t\|] == t[i], and nothing in between holds t[i] |
| GapStats.GapOfSingleOccurrence | src/LargeGapGrayCode.cpp:174-179 | a value that occurs once is recorded with gap 2·\|t\| |
| GapStats.GapBounds | src/LargeGapGrayCode.cpp:178 | every recorded gap lies in [1, 2·\|t\|] |
| GapStats.FirstPassStep | src/LargeGapGrayCode.cpp:173-179 | a first-pass step stores i for a first sighting and \|t\|+i otherwise, and leaves every other entry alone |
| GapStats.SecondPassStep | src/LargeGapGrayCode.cpp:173-180 | a second-pass step stores 2·\|t\|+i, and the offset difference is the gap of position i |
| GapStats.PassStep | src/LargeGapGrayCode.cpp:172-191 | one step of either pass, in the offsets the scan uses, and the histogram update of the second pass |
| GapStats.TableStep | src/LargeGapGrayCode.cpp:174-179 | the whole transitionLastSeen vector after a step is the one before with entry t[i] overwritten |
| GapStats.RecordedStep | src/LargeGapGrayCode.cpp:181-188 | the second pass adds one count for the offset difference, and the first pass records nothing |
| GapStats.ScanAgrees | src/LargeGapGrayCode.cpp:172-191 | after any prefix of either pass, the scan's vector and histogram are the ones the offsets predict |
| GapStats.ScanComputesHistogram | src/LargeGapGrayCode.cpp:165-195 | after both passes the histogram is that of the gaps of all positions |
| GapStats.HistogramCounts | src/LargeGapGrayCode.cpp:181-188 | the histogram has a key exactly for each gap value, and each count is how often that gap occurs |
| GapStats.HistogramTotal | src/LargeGapGrayCode.cpp:181-188 | when every gap lies in a range, the counts over that range add up to the number of gaps |
| GapStats.RunLengthHistogram | src/LargeGapGrayCode.cpp:165-195 | the counts add up to \|t\|, every gap lies in [1, 2·\|t\|], and when every value occurs at least twice every gap lies in [1, \|t\|-1] |
| GapStats.ComputeMinGap | src/LargeGapGrayCode.cpp:198-208 | the smallest key and its count when some key is below 999; otherwise 999 with the count untouched |
| GapStats.ComputeMaxGap | src/LargeGapGrayCode.cpp:211-221 | the largest key and its count when some key is above 0; otherwise 0 with the count untouched |
| GapStats.HasLeast | src/LargeGapGrayCode.cpp:202 | a non-empty set of keys has a least one, the key an ordered std::map visits first |

## Left out

- Printing: `printAllStatistics`, `printStatisticsHeader` and `printStatistics` (src/LargeGapGrayCode.cpp:90-126) only format output to `std::cout`.
- The "Constraints … are not satisfied" messages are modelled only as `ok == false`.
- `computeGapVariance` (src/LargeGapGrayCode.cpp:224-244) is floating point with a truncating `int` accumulator, so it is not modelled.
- src/examples.cpp and src/imagePatterns.cpp are not part of this model. They are a demo driver and an OpenCV image viewer.
- src/LargeGapGrayCode.h has declarations only. The model takes its field types from it (lines 49-50).
- `int` overflow is not modelled. After a guard has passed, every width is at most 20, so every length and offset stays below 2^22.
- GrayCodeTable.Theorem1Guard and GrayCodeTable.Theorem2Guard: the source adds `n+m` (or `n+m+r`) in `int` before anything bounds n (src/LargeGapGrayCode.cpp:131, :148). For n near INT_MAX, as in `createCodeFromTheorem1(2147483647, 1, 1, 1)`, that sum overflows, which is undefined behaviour in C++. Under the usual wrap-around the sum is negative and the source's guard accepts the call. The model's guard adds unbounded integers and rejects it: `ok == false` and nothing changes.
- GrayCodeTable.LargeGapGrayCode.ComputeRunLengths: the source indexes slot `bitWidth-1` without a check (src/LargeGapGrayCode.cpp:167), and `printStatistics(int)` passes its argument straight through (src/LargeGapGrayCode.cpp:112). The model requires 1 <= bitWidth <= 20. A width outside that range reads outside the array in the source.
- `getTransitionSequence` with `bitWidth < 1` reads index -1 in the source. The model requires `bitWidth >= 1`.
- `getBinaryCode` on an empty slot or a width above 20 reads past the end of an empty vector. The model requires a filled slot with 1 <= w <= 20.
- The interleavers index modulo the component lengths, which divides by zero on an empty component. The model requires non-empty components.
- GrayCodeTable.LargeGapGrayCode.constructor: states the length, bit range and label of every slot, and the literal seeds. It does not restate what each built slot contains. `CreateCodeFromTheorem1` and `CreateCodeFromTheorem2` state that content, one call at a time. The constructor's concrete 2^20-length sequences are not evaluated.
- GrayCodeTable.LargeGapGrayCode.BuildFromSeeds: states lengths, labels and that the seed slots are kept. Content is left to the combinator contracts, as for the constructor.
- GrayCodeTable.LargeGapGrayCode.BuildMiddleWidths: states that widths 1 to 14 are filled, the labels of widths 10 to 14, and that the seed slots and the earlier labels are kept. Content is left to the combinator contracts, as for the constructor.
- GrayCodeTable.LargeGapGrayCode.BuildLargeWidths: states that all twenty widths are filled, the labels of widths 15 to 20, and that the seed slots and the earlier labels are kept. Content is left to the combinator contracts, as for the constructor.
- BalancedWords.CreatePVector: the `double` ratio test is modelled by its exact integer form. For s+t above about 2^26 the two rounded quotients can coincide where the exact ratios differ, for example s = 2^29+1, t = 2^29-1 and aUsed = bUsed = 2^28-1; then the source may write 'a' where the model writes 'b'. No call in the table comes near this: s+t <= 1024.
- BalancedWords.CreatePVector: the source's local `std::vector<char> tmp(s+t)` is a sequence here. It is zero-filled and written position by position, and nothing else sees it before it is returned.
- That Theorem 1 and 2 outputs are genuine Gray codes with large minimum gaps is a combinatorial theorem, not a promise of the code. It is not proved. The model proves lengths, bit ranges, the interleaving, symbol counts and which slots change.
