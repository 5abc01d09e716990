# Verified models of Volterra's native kernels and upload protocol

Dafny models of the hardest algorithms in this repository and proofs of what they are for. Each module follows one
source file or one algorithm. Code that changes arrays, lists or fields step by step is a method over arrays or class
fields, proved against a specification; the lemmas then say what the specification means.

- **Decimal to binary conversion** (fast_float): `Powers`, `MachineWords`, `Digits`, `Pow5Table`, `Ieee754`, `Decimals`,
  `Conversion`, `EightDigits`, `NumberText`, `AsciiNumber`, `DecimalText`, `NumberGrammar`, `ProductApproximation`,
  `Packing`, `FloatWords`, `FastConversion`, `PowerRange`, `FastTable`, `FastTop`, `FastTies`, `FastRounding`,
  `FromChars`. The result is specified over the reals as the nearest value, ties to even (section 4.3.1 of IEEE 754-2019),
  independent of the digits, and the value of a text with all the digits of its exponent. `NumberGrammar` says in literal
  bytes which texts are numbers and what they mean, `FloatWords` what the bits of the result mean.
- **Coloured Weinberg code** (PTM): `RotationSystem`, `WeinbergWalk`, `WeinbergOrder`, `WeinbergNumbers`, `WeinbergCode`,
  `WeinbergRelabel`, `WeinbergComplete`, `FacetTable`, `CanonicalForm`, `CanonicalInvariance`, `CanonicalComplete`,
  `CanonicalRegular`, `RegularTorus`. The walk is a depth-first search on the rotation system of a closed triangulated
  surface.
- **Minimum-weight perfect matching** (mwm_csp): `Sums`, `Duality`, `EdgeIndex`, `GreedyMatching`, the `Blossom...`
  modules, `MatchingFacts`, `MatchingStart`, `FreshBlossoms`, `Augmentation`, `AlternatingForest`, `ForestContraction`,
  `AugmentingPath`, `ForestGrowth`, `DualRounds`, `SearchOrder`, `Units`, `DualProgress`, `DualParity`, the class
  `MatchingState.Matching` and `MinimumMatching` for the entry points, and `CentralSymmetry` for what the value says of
  the points. A ghost family of trees stands for the nested blossoms; `Whole` ties it to the arrays `outer`, `deep`,
  `shallow`, `active` and `free`, `Certified` ties `slack` and `dual` to the costs, and `IsForest` says what the labels,
  parents and roots of the search mean. The ghost sets `base` and `stops` are the nodes and the blossoms that have a dual
  and cannot be opened during one search. `Units` stands for the grid on which the numbers of a machine lie: if all costs
  are even numbers of units, all duals are whole numbers of units, so that no round raises them by less.
- **Convex hull insertion** (PTM): `HullInsertion`.
- **Alloy code** (PTM): `AlloyCode`.
- **k nearest neighbours and matrix inversion** (Geogram): `NearestNeighbors`, `GaussJordan`.
- **Upload parking** (server queues): `UploadQueue`. Redis scripts and MULTI blocks are single steps, and every other await
  is a point where other processes may step.
- `Sequences`, `Bits`: facts about lists and about the bits of numbers that several modules use.

`dafny verify dfyconfig.toml` checks everything.

## What the proofs found

- `parse_decimal` can leave a trailing zero digit: when it cuts the list at 768 digits it does not trim again. The last
  digit stored is zero if and only if more than 768 digits remain without trailing zeros and the 768th of them is zero
  (`DecimalText.ParseDecimal`); a one, 767 zeros and a one are such a text (`ZeroEnd`; ascii_number.h:291-294).
- The exponent of a text is read only up to 0x10000, so a text with a million zeros and an exponent that undoes them is
  misread (`LongTextMisread`): it writes one and is given the word of zero (`LongTextRounds`). What is read is the number
  written if and only if the cap changes nothing or all digits are zero (`CapMeaning`). The word is right in these cases,
  and otherwise if and only if both numbers overflow or both round to zero (`CapRounds`), as in every text of up to 65000
  bytes (`ShortTextRounds`).
- `parse_decimal` reads an exponent whatever the format says. With a format without exponents the two readers see the same
  number if and only if none follows that matters (`SameNumber`); 1e5 is a text on which they differ (`FixedOnlyDiffers`).
- `compute_float(q, w)` does not clear the hidden bit in its subnormal branch. Its result is outside the fields of the
  format if and only if the bits of the product that are kept there are all ones (`FinishFields`); 2.2250738585072012e-308
  is such a case (`EdgeResult`). The bitwise or of `to_float` still packs every result into the word of an encoding
  (`FinishPacks`), and into the right one (`FinishRounds`, and `EdgeEncodes` for this number).
- `compute_float(q, w)` is right whenever it decides (`FastRounding.ComputeFloatFast`), given the meaning of its table:
  5^q with 128 bits, rounded down, and rounded up for q from -27 to -1. The subnormal branch needs no test for ties
  (`NoSubnormalTie`), and the test of the normal branch, which looks at one word of the product only, never takes anything
  else for a tie (`TiesRight`).
- The code of the walk determines the coloured surface: equal canonical codes come from isomorphic surfaces, of whatever
  genus, and the two labellings together are an isomorphism (`FormsMatch`, `SameCodeIffIsomorphic`). It is not read off the
  code directly: the walk skips edges it has taken, so the turn at a corner is seen only where both neighbours were found
  before (`LowTurn`), and the other turns follow from the vertices found last to those found first (`TurnMatches`).
- Where all degrees and colours are equal only one start is tried (ptm_canonical_coloured.cpp:100-103). Equal codes then say
  more than that the surfaces are isomorphic: some isomorphism takes the first edge listed to the first edge listed
  (`RegularForms`). This is no restriction for edge-transitive surfaces (`TransitiveInvariant`). On a torus with eight
  vertices of degree six the code depends on the order of the facets (`OrderMatters`).
- The comment on the table says that the powers are rounded toward one (fast_table.h:37). The entries below 5^-27 are less
  than one and rounded down; `IsEntry` follows the entries.
- The comments on the two decimal shifts are interchanged (simple_decimal_conversion.h:153, 195).
- The range exits inside the scaling loops of the decimal conversion are never taken (simple_decimal_conversion.h:286-291,
  307-312).
- With `bit_precision` 64 the mask of the product approximation lets a word through that needed the correction
  (`FullPrecisionMisses`); below 64 bits it does not.
- Matrix inversion swaps rows although its comment speaks of columns (Delaunay_psm.h:4096).
- The constructor of the neighbour buffer sets one slot instead of all k + 1, because its loop runs to the count and not
  to the maximum; nothing reads the others before they are written (Delaunay_psm.h:7592).
- A job that is put back or parked is removed from the processing list twice: by the handler, and again by `finishJob`
  (analysis-processing-queue.ts:127-138, queue-core.ts:336). If the same job has been taken by another worker in between,
  the second removal takes that worker's copy, and the job it works on is in no list (`RemovedTwice`). Every unfinished
  job is still queued, waiting or held by a worker (`NoJobLost`), but what `recoverOnStartup` would find of it after a
  restart is gone. The lists hold every unfinished job if and only if no removal takes a copy that cannot be spared
  (`ListedUnlessHarmed`).
- A parking message that is delayed past the 600 seconds of the flag can strand its job. A job that asked to park waits
  throughout a run if and only if the flag was not up when it asked and no later step completes the upload or processes
  what is pending for it (`StrandedExactly`); after an upload that was completed this takes an expiry
  (`StrandedOnlyByExpiry`).
- The list of horizon edges has 28 places and no check. It can only overflow if some vertex meets more than two horizon
  edges (`HorizonFits`, with the seventeen points of the largest template), and then the surface does not close again
  either (`ClosedAgain`).
- The solver's outer loop ends for every even number of points (`Solve`). An odd number has no perfect matching, and only
  an assertion of the caller keeps it away (mwm_csp.cpp:65).
- `Expand` needs an edge without slack between a node and its mate; without one it would look up the mate of nothing. Its
  contract asks for the edge, and every call, from `Augment`, `UpdateDualCosts` and `Solve`, provides it.

## Model

| member | source | states |
|---|---|---|
| Pow5Table.TableMeaning | opendxa/dependencies/fast_float/simple_decimal_conversion.h:36-113 | the digits written in the table between the packed offsets of a shift are those of 5^shift, and the upper bits of the packed entry are the digit growth above that power |
| Decimals.Decimal.Trim | opendxa/dependencies/fast_float/simple_decimal_conversion.h:26-30 | only zero digits are dropped, and all trailing ones are |
| Decimals.Decimal.NumberOfDigitsDecimalLeftShift | opendxa/dependencies/fast_float/simple_decimal_conversion.h:34-125 | for shift <= 60 the number found by comparing with the table digits is the exact growth in decimal digits under multiplication by 2^shift |
| Decimals.Decimal.MultiplyDigits | opendxa/dependencies/fast_float/simple_decimal_conversion.h:159-186 | the right-to-left pass emits the digits of digits * 2^shift, within 64 bits and 768 places, and never writes before the first place |
| Decimals.Decimal.LeftShift | opendxa/dependencies/fast_float/simple_decimal_conversion.h:154-193 | multiplies by 2^shift exactly unless truncated is set; truncated is set exactly when a non-zero digit was lost; the first digit stays non-zero |
| Decimals.Decimal.FirstDigit | opendxa/dependencies/fast_float/simple_decimal_conversion.h:197-214 | reads just enough digits for a first quotient digit between 1 and 9 |
| Decimals.Decimal.DivideDigits | opendxa/dependencies/fast_float/simple_decimal_conversion.h:223-238 | the left-to-right pass emits the digits of digits / 2^shift, each at most 9 |
| Decimals.Decimal.DivideTail | opendxa/dependencies/fast_float/simple_decimal_conversion.h:229-236 | the tail loop ends, because each pass gains a factor of two, with the remaining digits written, or their loss recorded |
| Decimals.Decimal.RightShift | opendxa/dependencies/fast_float/simple_decimal_conversion.h:196-240 | divides by 2^shift exactly unless truncated is set or the result is below the decimal range, in which case the number becomes zero |
| Decimals.Decimal.Round | opendxa/dependencies/fast_float/simple_decimal_conversion.h:127-151 | the nearest integer to the value, ties to even, with a truncated tail counted as above the tie; the maximal word beyond 18 digits |
| Ieee754.RoundTiesToEvenUnique | opendxa/dependencies/fast_float/simple_decimal_conversion.h:244-352 | section 4.3.1 of IEEE 754-2019 determines one result: two packed results that both are the nearest value, ties to even, are equal |
| Ieee754.RoundBetween | opendxa/dependencies/fast_float/parse_number.h:119-123 | what lies between two numbers that round to the same packed result rounds to it too |
| Conversion.ScaleRight | opendxa/dependencies/fast_float/simple_decimal_conversion.h:282-293 | one downward scaling step keeps value * 2^exp2, never overshoots the point, and makes progress |
| Conversion.ScaleLeft | opendxa/dependencies/fast_float/simple_decimal_conversion.h:295-314 | one upward scaling step keeps value * 2^exp2 and makes progress |
| Conversion.ShiftDown | opendxa/dependencies/fast_float/simple_decimal_conversion.h:281-293 | the first scaling loop ends with a value below one and keeps value * 2^exp2; the range exit inside it is never taken |
| Conversion.ShiftUp | opendxa/dependencies/fast_float/simple_decimal_conversion.h:295-314 | the second scaling loop ends only with a value in [1/2, 1) and keeps value * 2^exp2; the overflow exit inside it is never taken |
| Conversion.ShiftSubnormal | opendxa/dependencies/fast_float/simple_decimal_conversion.h:316-325 | afterwards the exponent is at least the least one, and only subnormals lie below 1/2 |
| Conversion.RoundAndPack | opendxa/dependencies/fast_float/simple_decimal_conversion.h:326-352 | rounding, the carry to the next binade, infinity and packing give the nearest value, ties to even, unless digits were lost |
| Conversion.ComputeFloat | opendxa/dependencies/fast_float/simple_decimal_conversion.h:244-352 | for every normalised decimal the conversion ends; without lost digits its result is the binary value nearest the decimal, ties to even, with subnormals and infinity; a decimal within the digit budget never loses digits |
| EightDigits.EightDigitsTest | opendxa/dependencies/fast_float/ascii_number.h:62-65 | the word test with one carry trick holds exactly when all eight bytes are decimal digits |
| EightDigits.EightDigitsValue | opendxa/dependencies/fast_float/ascii_number.h:47-55 | three wrapping 64-bit multiplications read the decimal numeral of the eight bytes |
| AsciiNumber.ReadBlock | opendxa/dependencies/fast_float/ascii_number.h:118-125 | an eight-digit block gives the same word and place as eight single steps |
| AsciiNumber.ScanDigits | opendxa/dependencies/fast_float/ascii_number.h:101-133 | the scan stops at the end of the digits with their numeral modulo 2^64, their count and the exponent of the fraction |
| NumberText.CappedExact | opendxa/dependencies/fast_float/ascii_number.h:157-163 | the capped exponent is exact if and only if all digits but the last stay below 0x10000 |
| NumberText.CapMeaning | opendxa/dependencies/fast_float/ascii_number.h:157-163 | an accepted text is read as the number it writes if and only if the capped exponent is the written one or all digits are zero |
| NumberText.LongTextMisread | opendxa/dependencies/fast_float/ascii_number.h:157-163 | a text of a million and eleven bytes that writes one and is read as 10^-900001 |
| NumberGrammar.AcceptedTexts | opendxa/dependencies/fast_float/ascii_number.h:84-172 | in literal bytes: a text is accepted if and only if it consists of a sign, digits with or without the point, an exponent as the format asks for, and what follows, each as long as it can be |
| NumberGrammar.Spelled | opendxa/dependencies/fast_float/ascii_number.h:84-172 | such a text means the numeral of its digits times ten to the signed numeral of the exponent less the digits of the fraction, is negative exactly if it starts with a minus sign, and is read up to what follows |
| NumberGrammar.ExponentMeaning | opendxa/dependencies/fast_float/ascii_number.h:137-166 | a mantissa followed by e or E, a minus sign and digits is the mantissa divided by that power of ten; with a plus sign or none it is the mantissa times that power |
| NumberGrammar.ReadAsWritten | opendxa/dependencies/fast_float/ascii_number.h:295-313 | with an exponent below 0x10000 both readers read that number |
| AsciiNumber.ScanExponent | opendxa/dependencies/fast_float/ascii_number.h:138-170 | the exponent part is read, ignored or refused as the number format says |
| AsciiNumber.DiscountZeros | opendxa/dependencies/fast_float/ascii_number.h:184-188 | what is left of the digit count after discounting leading zeros is the number of significant digits |
| AsciiNumber.Rescan | opendxa/dependencies/fast_float/ascii_number.h:189-211 | the second pass takes a prefix of the digits that is at least 10^18 and below 10^19, with the exponent that fits it |
| AsciiNumber.ParseNumberString | opendxa/dependencies/fast_float/ascii_number.h:84-216 | accepts exactly the valid texts; mantissa * 10^exponent is the value as read when there are at most 19 significant digits, and otherwise the value lies in [mantissa, mantissa + 1) * 10^exponent with 10^18 <= mantissa < 10^19; the same holds of the value written if and only if the cap on the exponent is harmless |
| DecimalText.StoreBlocks | opendxa/dependencies/fast_float/ascii_number.h:257-265 | eight digits at a time are stored as eight single steps would, within the 768 places |
| DecimalText.CollectDigits | opendxa/dependencies/fast_float/ascii_number.h:234-274 | all significant digits are counted and the first 768 of them stored, leading zeros skipped on both sides of the point |
| DecimalText.FinishDecimal | opendxa/dependencies/fast_float/ascii_number.h:278-316 | trailing zeros are taken off across the point; the buffer holds the first 768 of the remaining digits, and is truncated exactly when they do not give the value of the text |
| DecimalText.ParseDecimal | opendxa/dependencies/fast_float/ascii_number.h:223-319 | the buffer holds the first 768 significant digits up to the last non-zero one, with the value of the text as read, and is truncated exactly when digits were dropped; its last digit is zero exactly when the 768th digit is and more follow |
| DecimalText.ZeroEnd | opendxa/dependencies/fast_float/ascii_number.h:291-294 | a text of 769 digits whose decimal ends in a zero |
| DecimalText.SameNumber | opendxa/dependencies/fast_float/ascii_number.h:135-170 | both readers see the same number of an accepted text if and only if the format takes exponents, or none follows, or its value is zero, or all digits are zero |
| DecimalText.FixedOnlyDiffers | opendxa/dependencies/fast_float/ascii_number.h:295-313 | with a format without exponents 1e5 is read as one, and parse_decimal reads 10^5 |
| FromChars.ReadersAgree | opendxa/dependencies/fast_float/ascii_number.h:84-319 | whenever both see the same number, what parse_decimal stores of a text lies in the bracket that parse_number_string reports for it when there are more than nineteen digits, also when the decimal was cut, and equals mantissa * 10^exponent otherwise |
| FromChars.ParseLongMantissa | opendxa/dependencies/fast_float/simple_decimal_conversion.h:354-358 | the long way gives the nearest value, ties to even, for every text within the digit budget, from a decimal that agrees with what the other reader reported |
| FromChars.RecheckSound | opendxa/dependencies/fast_float/parse_number.h:118-123 | if the conversion decides alike for mantissa and mantissa + 1, and what it decides is right, its result is packed into the nearest value for the whole bracket |
| FromChars.CapRounds | opendxa/dependencies/fast_float/ascii_number.h:157-163 | rounding the value read is rounding the value written if and only if the cap is harmless, or both overflow, or neither is above half the smallest positive number |
| FromChars.ShortTextRounds | opendxa/dependencies/fast_float/ascii_number.h:157-163 | one of these holds in every text of up to 65000 bytes |
| FromChars.LongTextRounds | opendxa/dependencies/fast_float/ascii_number.h:157-163 | the text of `LongText` writes one, and is given the word of zero |
| Packing.ToFloatCorrect | opendxa/dependencies/fast_float/parse_number.h:64-80 | fraction, exponent and sign joined by bitwise or are the word of the number with its sign |
| FloatWords.DoubleWord | opendxa/dependencies/fast_float/float_common.h:225-262 | the word of a binary64 number has 64 bits, its sign in the highest one, and exponent and fraction of the nearest number of the format by the value of each field, or those of infinity from 2^1024 - 2^970 on |
| FloatWords.SingleWord | opendxa/dependencies/fast_float/float_common.h:225-263 | the same for binary32 |
| Packing.PackedCarry | opendxa/dependencies/fast_float/parse_number.h:64-67 | a fraction of 2^52 beside an odd exponent is packed as the fraction zero |
| FromChars.FromCharsAdvanced | opendxa/dependencies/fast_float/parse_number.h:92-129 | for every text with the parts of a number the sign and the end are those of the parts; with the table of powers of five, and whenever both readers see the same number, the fast, rechecked and long paths together give the word of the nearest value of the number that the parts mean, ties to even, if and only if the cap on the exponent does not change the rounding; the other exits are the empty and the invalid text |
| ProductApproximation.Umul128 | opendxa/dependencies/fast_float/float_common.h:139-149 | the four 32-bit products and two carries give the exact 128-bit product |
| ProductApproximation.FullMultiplication | opendxa/dependencies/fast_float/float_common.h:156-173 | the exact 128-bit product |
| ProductApproximation.ComputeProductApproximation | opendxa/dependencies/fast_float/decimal_to_binary.h:20-41 | with the second multiplication the product is floor(w * T / 2^64); without it the top bits below 64 agree with that exact result; the result is never above it and less than 2^64 below, and the second multiplication is done exactly when the bits below the precision are all ones |
| ProductApproximation.FullPrecisionMisses | opendxa/dependencies/fast_float/decimal_to_binary.h:25-27 | with all 64 bits asked for, the mask lets a word through whose top bits are wrong |
| FastConversion.FinishPacks | opendxa/dependencies/fast_float/decimal_to_binary.h:97-169 | whatever the product, the result is undecided or is packed into the word of an encoding: the fraction without the hidden bit, and the exponent |
| PowerRange.BinaryMeaning | opendxa/dependencies/fast_float/decimal_to_binary.h:43-62 | the multiplication and shift give the place of the leading bit of 10^q, for all exponents between -643 and 643 |
| FastTable.Normalised | opendxa/dependencies/fast_float/fast_table.h:25-35 | the power of five shifted by that place has exactly 128 bits |
| FastTop.TopRight | opendxa/dependencies/fast_float/decimal_to_binary.h:97-115 | for every word and every exponent of the table the bits kept of a decided product are those of the exact product with the power of five, although the entry is rounded and the second word may be left out |
| FastTies.NoHalfProduct | opendxa/dependencies/fast_float/decimal_to_binary.h:146-154 | with a reciprocal and without the second word no product looks like a tie |
| FastRounding.TiesRight | opendxa/dependencies/fast_float/decimal_to_binary.h:143-154 | the branch for ties is taken if and only if the number lies exactly in the middle and the lower neighbour is even |
| FastRounding.NoSubnormalTie | opendxa/dependencies/fast_float/decimal_to_binary.h:128-131 | no number of the subnormal branch is a tie, so rounding half up is enough there |
| FastRounding.FinishRounds | opendxa/dependencies/fast_float/decimal_to_binary.h:98-169 | whatever is decided, in the normal, the subnormal and the zero branch, is packed into the nearest value, ties to even |
| FastRounding.ComputeFloatFast | opendxa/dependencies/fast_float/decimal_to_binary.h:72-169 | with the entry for q, the result for every word and every exponent is undecided or packed into the nearest value, ties to even, with zero below and infinity above the powers of the table; it is undecided exactly outside the safe exponents when the low word of the product is all ones |
| FromChars.TableExists | opendxa/dependencies/fast_float/fast_table.h:25-40 | all entries fit two words of 64 bits |
| FastConversion.FinishFields | opendxa/dependencies/fast_float/decimal_to_binary.h:119-140 | a decided result is outside the fields of the format if and only if the number is subnormal and the bits kept of the product are all ones, so that rounding carries into the hidden bit |
| FastConversion.EdgeResult | opendxa/dependencies/fast_float/decimal_to_binary.h:119-140 | for 22250738585072012 * 10^-324 the subnormal branch returns the fraction 2^52 and the exponent 1 |
| FastConversion.EdgeEncodes | opendxa/dependencies/fast_float/decimal_to_binary.h:130-139 | the word packed for it is that of the nearest number, the smallest normal one |
| RotationSystem.CycleCovers | opendxa/dependencies/ptm/ptm_graph_tools.cpp:9-32 | once turning round a vertex has come back to its first edge, every further turn repeats an edge of that cycle |
| WeinbergWalk.TurnHasFree | opendxa/dependencies/ptm/ptm_canonical_coloured.cpp:61-70 | the inner search for an unused edge finds one as long as an edge is left |
| WeinbergWalk.WalkSearches | opendxa/dependencies/ptm/ptm_canonical_coloured.cpp:30-75 | after any number of steps the walk is a depth-first search: its stack, the edges swept round every vertex of it and the paired use of the others |
| WeinbergWalk.WalkTakesEachEdgeOnce | opendxa/dependencies/ptm/ptm_canonical_coloured.cpp:31-75 | the 2E steps use each directed edge exactly once |
| WeinbergNumbers.WalkRules | opendxa/dependencies/ptm/ptm_canonical_coloured.cpp:47-74 | from a over b the walk goes on to the third corner of the facet if b is new, back if that way is free, and otherwise around b to the first free edge, said with the vertices visited alone |
| WeinbergOrder.LowTurn | opendxa/dependencies/ptm/ptm_canonical_coloured.cpp:61-69 | from a vertex found earlier than z, other than the one z was found from, the walk comes straight back to z and goes to the next vertex around z, if that was found earlier too |
| WeinbergCode.LeaveVertex | opendxa/dependencies/ptm/ptm_canonical_coloured.cpp:47-70 | the three cases and the inner loop choose the edge of the walk |
| WeinbergCode.CompareWalk | opendxa/dependencies/ptm/ptm_canonical_coloured.cpp:18-75 | the in-place comparison stops exactly when the code is lost, and else has overwritten the best code from the first smaller place on |
| WeinbergCode.WeinbergColoured | opendxa/dependencies/ptm/ptm_canonical_coloured.cpp:9-84 | the best code becomes the lexicographically smaller one of itself and the code of the whole walk, and the labelling changes exactly when the code wins |
| WeinbergRelabel.AfterRenamed | opendxa/dependencies/ptm/ptm_canonical_coloured.cpp:30-75 | renaming the vertices renames the walk after any number of steps |
| WeinbergRelabel.CodeRenamed | opendxa/dependencies/ptm/ptm_canonical_coloured.cpp:18-75 | the code of a start does not depend on the names of the vertices |
| WeinbergComplete.TurnMatches | opendxa/dependencies/ptm/ptm_canonical_coloured.cpp:30-75 | if two walks come to vertices of equal numbers, taking each vertex to the one with the same number keeps the rotation at every corner |
| WeinbergComplete.CodeDetermines | opendxa/dependencies/ptm/ptm_canonical_coloured.cpp:18-75 | two walks with equal codes: that map renames the one surface into the other, with the colours of all vertices |
| FacetTable.BuildFacetMap | opendxa/dependencies/ptm/ptm_graph_tools.cpp:9-32 | fails exactly when two facets share a directed edge, and else holds the third corner of every directed edge |
| FacetTable.EdgeCount | opendxa/dependencies/ptm/ptm_canonical_coloured.cpp:89-91 | a table built without clash has three directed edges for each facet |
| FacetTable.EdgesEven | opendxa/dependencies/ptm/ptm_canonical_coloured.cpp:89-89 | so 3 * num_facets is even and twice the number of edges |
| CanonicalForm.BestDegree | opendxa/dependencies/ptm/ptm_canonical_coloured.cpp:106-124 | the largest of the packed degree triples over all facets and rotations, and one that occurs |
| CanonicalForm.StartMeaning | opendxa/dependencies/ptm/ptm_canonical_coloured.cpp:121-146 | the walks start from the edges whose degrees at the two ends and the third corner are greatest, the first difference deciding |
| CanonicalForm.TryAll | opendxa/dependencies/ptm/ptm_canonical_coloured.cpp:126-148 | every start of maximal degree triple is tried |
| CanonicalForm.ShiftLabels | opendxa/dependencies/ptm/ptm_canonical_coloured.cpp:151-153 | the labels lose their colours and move up one place without being overwritten first |
| CanonicalForm.HashCode | opendxa/dependencies/ptm/ptm_canonical_coloured.cpp:155-163 | the hash folds the whole code, four bits a step |
| CanonicalForm.HashBits | opendxa/dependencies/ptm/ptm_canonical_coloured.cpp:155-163 | bit p of the hash is the parity of the entries at the indices i with i mod 16 = p / 4 that have, after i mod 8 was added, a one at place p mod 4 |
| CanonicalForm.HashFits | opendxa/dependencies/ptm/ptm_canonical_coloured.cpp:155-163 | the hash has 64 bits |
| CanonicalForm.CanonicalFormColoured | opendxa/dependencies/ptm/ptm_canonical_coloured.cpp:86-167 | fails exactly on a clash; else the code is the least over all starts of maximal degree and the labels belong to a start that has it |
| CanonicalInvariance.FacetsRenamed | opendxa/dependencies/ptm/ptm_graph_tools.cpp:9-32 | renamed facets, in any order and each written from any of its corners on, give the renamed table |
| CanonicalInvariance.CanonicalCodeRenamed | opendxa/dependencies/ptm/ptm_canonical_coloured.cpp:104-149 | least codes of renamed surfaces are equal |
| CanonicalInvariance.FormInvariant | opendxa/dependencies/ptm/ptm_canonical_coloured.cpp:104-166 | renaming the vertices, reordering the facets and rotating each of them changes neither the code nor the hash, in the branch that tries all starts |
| CanonicalComplete.FormsMatch | opendxa/dependencies/ptm/ptm_canonical_coloured.cpp:86-167 | two forms with equal codes, in either branch: taking each vertex to the one with the same canonical label renames the facets of the one surface into those of the other, with the colours |
| CanonicalComplete.SameCodeIffIsomorphic | opendxa/dependencies/ptm/ptm_canonical_coloured.cpp:86-167 | with the degrees of the graph, and where all starts are tried, two surfaces have equal codes if and only if one is the other with its vertices renamed, colours included |
| CanonicalRegular.RegularForms | opendxa/dependencies/ptm/ptm_canonical_coloured.cpp:95-103 | where all degrees and colours are equal, two lists of facets have equal codes if and only if a renaming of the one surface into the other takes the first edge of the one list to the first edge of the other |
| CanonicalRegular.SameCodeIffSymmetric | opendxa/dependencies/ptm/ptm_canonical_coloured.cpp:35-84 | two starts of one surface have the same code if and only if a symmetry of the surface that keeps the colours takes the one edge to the other |
| CanonicalRegular.TransitiveInvariant | opendxa/dependencies/ptm/ptm_canonical_coloured.cpp:95-103 | so the single start is as good as any on a surface whose symmetries take every edge to every other: its code does not depend on names, order or rotations |
| RegularTorus.OrderMatters | opendxa/dependencies/ptm/ptm_canonical_coloured.cpp:95-103 | a torus with eight vertices of degree six and one colour, its facets listed in two orders: no code is the form of both |
| EdgeIndex.IndexIsBijection | opendxa/dependencies/mwm_csp/matching.cpp:120-124 | two pairs have the same place exactly when they are the same edge, and places are in range |
| EdgeIndex.IndexOnto | opendxa/dependencies/mwm_csp/matching.cpp:120-124 | every place belongs to an edge |
| Duality.WeakDuality | opendxa/dependencies/mwm_csp/matching.cpp:532-641 | no perfect matching costs less than the sum of the duals, whatever the family of odd sets |
| Duality.ComplementaryIsOptimal | opendxa/dependencies/mwm_csp/matching.cpp:532-641 | a perfect matching on edges without slack that leaves every set with a dual once costs no more than any other |
| BlossomTree.FewBlossoms | opendxa/dependencies/mwm_csp/matching.cpp:143-148 | a tree of odd circuits over m vertices contains at most (m - 1) / 2 blossoms, so that n numbers always suffice |
| BlossomFamily.FreeNotEmpty | opendxa/dependencies/mwm_csp/matching.cpp:143-148 | the free list is never empty when a number is taken |
| BlossomPartition.VertexTree | opendxa/dependencies/mwm_csp/matching.cpp:281-379 | each vertex lies in the deep list of its outer node, which is active and its own outer |
| BlossomPartition.DeepPartition | opendxa/dependencies/mwm_csp/matching.cpp:281-379 | the deep lists of outermost nodes partition the vertices and have odd length |
| BlossomPartition.ActiveNode | opendxa/dependencies/mwm_csp/matching.cpp:281-379 | an active blossom has an odd circuit of three or more parts and is not on the free list |
| BlossomCircuit.CircuitIsOdd | opendxa/dependencies/mwm_csp/matching.cpp:486-508 | two alternating paths to a common root close an odd circuit of at least three different nodes |
| BlossomCircuit.CircuitIsTight | opendxa/dependencies/mwm_csp/matching.cpp:486-508 | neighbours on the circuit are joined by edges without slack |
| BlossomCircuit.MergeWhole | opendxa/dependencies/mwm_csp/matching.cpp:511-527 | contracting an odd circuit keeps the arrays in agreement with the family |
| MatchingState.Matching.constructor | opendxa/dependencies/mwm_csp/matching.cpp:648-682 | the start: single vertices, no matching, and costs lowered so that none is negative, with a certificate |
| MatchingState.Matching.LowerCosts | opendxa/dependencies/mwm_csp/matching.cpp:675-682 | all costs move by the same amount and none stays negative |
| MatchingState.Matching.DestroyBlossom | opendxa/dependencies/mwm_csp/matching.cpp:281-300 | opens exactly the blossoms that are not held by a dual; all list and pointer invariants hold again |
| MatchingState.Matching.Reset | opendxa/dependencies/mwm_csp/matching.cpp:420-454 | opens what is not held in all outermost blossoms, clears the forest, and labels and lists exactly the unmatched nodes |
| MatchingState.Matching.FindTip | opendxa/dependencies/mwm_csp/matching.cpp:471-483 | the first node on the way up from v that is also on the way up from u |
| MatchingState.Matching.WalkCircuit | opendxa/dependencies/mwm_csp/matching.cpp:486-508 | the stored list is the circuit: from the tip down to u and up from v |
| MatchingState.Matching.Blossom | opendxa/dependencies/mwm_csp/matching.cpp:457-530 | the circuit becomes one node with all structure kept; the new node takes the place of its tip in the forest |
| MatchingState.Matching.FindEdge | opendxa/dependencies/mwm_csp/matching.cpp:304-323 | the edge without slack of least place between the two nodes |
| MatchingState.Matching.TurnTo | opendxa/dependencies/mwm_csp/matching.cpp:330-346 | turns the circuit until the part with p stands first |
| MatchingState.Matching.Expand | opendxa/dependencies/mwm_csp/matching.cpp:302-379 | the node becomes the unblocked parts of its inside: one is matched to the partner, the others among themselves, over edges without slack, and every opened odd set is left exactly once |
| MatchingState.Matching.ExpandPairs | opendxa/dependencies/mwm_csp/matching.cpp:353-377 | the rest of the circuit is matched in pairs of neighbours, each pair over one edge without slack |
| MatchingState.Matching.StepSize | opendxa/dependencies/mwm_csp/matching.cpp:541-585 | the step keeps all slacks and blossom duals non-negative and meets one of its bounds; it is zero only if one is met or there is none |
| BlossomDuals.DualSumChange | opendxa/dependencies/mwm_csp/matching.cpp:587-619 | the sum of the duals of the sets that separate u and v moves by what their labels say |
| BlossomDuals.StepKeepsCertificate | opendxa/dependencies/mwm_csp/matching.cpp:587-619 | a step keeps every slack and blossom dual non-negative and slack = cost - duals of the separating sets |
| MatchingState.Matching.UpdateDualCosts | opendxa/dependencies/mwm_csp/matching.cpp:532-641 | the whole operation: the step respects and meets its bounds, the certificate holds again, blocked means a positive dual, and blossoms whose dual is gone are opened with the structure kept |
| BlossomRetrieve.DualCrossedOnce | opendxa/dependencies/mwm_csp/matching.cpp:699-702 | once everything is opened, every set with a positive dual is left by exactly one edge of the matching |
| BlossomRetrieve.RetrievedIsOptimal | opendxa/dependencies/mwm_csp/matching.cpp:699-702 | after everything is opened the vertex matching is perfect and costs no more than any other |
| MatchingState.Matching.ExpandAll | opendxa/dependencies/mwm_csp/matching.cpp:699-702 | the last loop turns a matching of the outermost nodes without slack into a cheapest perfect matching of the vertices |
| MatchingStart.CheapestForCosts | opendxa/dependencies/mwm_csp/matching.cpp:675-682 | a cheapest matching for the lowered costs is cheapest for the costs given |
| MatchingState.Matching.Heuristic | opendxa/dependencies/mwm_csp/matching.cpp:239-278 | matches free nodes over edges without slack, keeps existing pairs, and leaves no vertex with a free neighbour |
| MatchingState.Matching.ReadMatching | opendxa/dependencies/mwm_csp/matching.cpp:704-722 | each pair is listed once and the sum of its costs is the cost of the matching |
| FreshBlossoms.PiecePartner | opendxa/dependencies/mwm_csp/matching.cpp:212-222 | a node built during the search has its mate through one of its old parts, and the mate of that part is in the mate node |
| FreshBlossoms.ContractGood | opendxa/dependencies/mwm_csp/matching.cpp:457-530 | contracting a circuit whose nodes are matched in pairs but for its tip keeps the matching of the old parts inside the new node |
| FreshBlossoms.GoodIsPartly | opendxa/dependencies/mwm_csp/matching.cpp:164-228 | every matched outermost node is the mate of its mate, over an edge without slack |
| Augmentation.FlipStep | opendxa/dependencies/mwm_csp/matching.cpp:395-402 | one more pair of the path is matched and expanded; what was not on the path is as before |
| Augmentation.FlipEnd | opendxa/dependencies/mwm_csp/matching.cpp:382-418 | when all pairs of a path closed under mates are turned, the same nodes with a dual remain, none loses its mate, and all on the path have one |
| AugmentingPath.PathsClosed | opendxa/dependencies/mwm_csp/matching.cpp:384-417 | the two ways up from u and v together contain the mate of each of their matched nodes |
| AlternatingForest.ClimbsApart | opendxa/dependencies/mwm_csp/matching.cpp:205-207 | the ways up from nodes with different roots have no node in common |
| AlternatingForest.LabelTwo | opendxa/dependencies/mwm_csp/matching.cpp:185-203 | an unlabelled node and its mate join the tree: every even node still has an alternating way without slack to its root |
| ForestContraction.TipIsEven | opendxa/dependencies/mwm_csp/matching.cpp:471-483 | two ways up from even nodes meet in an even node |
| ForestContraction.CircuitPairs | opendxa/dependencies/mwm_csp/matching.cpp:486-508 | around the circuit all nodes but the tip are matched to a neighbour |
| ForestContraction.MeetsCircuit | opendxa/dependencies/mwm_csp/matching.cpp:457-530 | a way up that meets the circuit enters it, follows it and leaves it at the tip |
| ForestContraction.ShortClimb | opendxa/dependencies/mwm_csp/matching.cpp:511-527 | with the circuit replaced by the new node it is again an alternating way without slack to the root |
| ForestContraction.EvensAfter | opendxa/dependencies/mwm_csp/matching.cpp:212-222 | so every even node still has its way to its root after a contraction |
| MatchingState.Matching.FlipAlong | opendxa/dependencies/mwm_csp/matching.cpp:393-403 | the loop turns the matching of all pairs on one way up and expands them |
| MatchingState.Matching.TurnPath | opendxa/dependencies/mwm_csp/matching.cpp:384-417 | the pair u - v and both ways to the roots are turned |
| MatchingState.Matching.Augment | opendxa/dependencies/mwm_csp/matching.cpp:382-418 | fewer nodes with a dual are unmatched afterwards, over edges without slack, and the structure is kept |
| ForestGrowth.AugmentReady | opendxa/dependencies/mwm_csp/matching.cpp:207-208 | what the next search needs holds after an augmentation |
| MatchingState.Matching.GrowTwo | opendxa/dependencies/mwm_csp/matching.cpp:185-203 | the forest grows by a node and its mate, fewer nodes are without label, and no edge that could go on is forgotten |
| ForestGrowth.ContractForest | opendxa/dependencies/mwm_csp/matching.cpp:212-222 | a contraction inside a tree leaves an alternating forest |
| MatchingState.Matching.ContractAt | opendxa/dependencies/mwm_csp/matching.cpp:215-224 | the circuit becomes an even node on the work list; there are fewer outermost nodes, the same unmatched ones, and no edge that could go on is forgotten |
| MatchingState.Matching.Meet | opendxa/dependencies/mwm_csp/matching.cpp:181-225 | one edge without slack from an even node: the forest grows, the matching grows or a blossom is contracted; each is progress in a well-founded order |
| MatchingState.Matching.Restart | opendxa/dependencies/mwm_csp/matching.cpp:208-208 | the blossoms of the search are opened again and the forest starts from the unmatched nodes |
| MatchingState.Matching.Explore | opendxa/dependencies/mwm_csp/matching.cpp:166-227 | all vertices of the node and all their edges are looked at, until the search has to start again |
| MatchingState.Matching.Grow | opendxa/dependencies/mwm_csp/matching.cpp:157-235 | the search ends with a forest and a matching without slack, in which no edge without slack leads from an even node to another one that is not odd; true exactly when every outermost node is matched |
| SearchOrder.PendingGrow | opendxa/dependencies/mwm_csp/matching.cpp:184-202 | after a step of growth every edge that could go on is still to be looked at |
| SearchOrder.PendingContract | opendxa/dependencies/mwm_csp/matching.cpp:215-224 | so it is after a contraction: what was being explored is inside the new node, which is on the work list |
| SearchOrder.EntryNode | opendxa/dependencies/mwm_csp/matching.cpp:164-171 | the entry taken from the work list leads to an outermost node, never to a nested one |
| ForestGrowth.ForestMates | opendxa/dependencies/mwm_csp/matching.cpp:532-533 | the labels of a forest are what the dual step needs: mates are both unlabelled or one even and one odd |
| ForestGrowth.CertifiedStays | opendxa/dependencies/mwm_csp/matching.cpp:157-235 | a search that only touches blossoms without dual keeps the certificate |
| DualRounds.StrongExpand | opendxa/dependencies/mwm_csp/matching.cpp:620-640 | opening a blossom whose dual is gone keeps the matching of all other nodes and matches its parts |
| DualRounds.RoundReady | opendxa/dependencies/mwm_csp/matching.cpp:686-696 | after the dual step every blossom with a dual is blocked and every unblocked one is loose again, so that the next round can start |
| DualRounds.NoneExposed | opendxa/dependencies/mwm_csp/matching.cpp:692-692 | when Grow returns true no node is unmatched, at any level |
| MatchingState.Matching.SolveRound | opendxa/dependencies/mwm_csp/matching.cpp:686-697 | one round keeps the certificate, the units and what the next round needs; after a perfect one all outermost nodes are matched without slack, and any other one raises the sum of the duals |
| DualProgress.PositiveStep | opendxa/dependencies/mwm_csp/matching.cpp:541-585 | the dual step after a search that leaves a node unmatched is positive |
| DualProgress.MoreEven | opendxa/dependencies/mwm_csp/matching.cpp:164-228 | a forest with an unmatched node has more even nodes than odd ones |
| DualProgress.DualsGrow | opendxa/dependencies/mwm_csp/matching.cpp:587-619 | so the step raises the sum of the duals by at least itself |
| DualProgress.DualsBounded | opendxa/dependencies/mwm_csp/matching.cpp:532-641 | the sum of the duals never exceeds the cost of a perfect matching |
| Units.DualTriangle | opendxa/dependencies/mwm_csp/matching.cpp:587-619 | the duals that separate three vertices pairwise add up to an even number of units |
| DualParity.TreeAlike | opendxa/dependencies/mwm_csp/matching.cpp:486-527 | the slacks between the vertices of one node are even numbers of units |
| DualParity.EvensAlike | opendxa/dependencies/mwm_csp/matching.cpp:541-585 | so are those between all vertices of even nodes |
| DualParity.StepUnits | opendxa/dependencies/mwm_csp/matching.cpp:541-585 | so the step, which may be half a slack, is a whole number of units |
| DualParity.RoundUnits | opendxa/dependencies/mwm_csp/matching.cpp:686-696 | a round keeps all duals whole numbers of units, and raises their sum by at least two units unless every node is matched |
| MatchingState.Matching.Solve | opendxa/dependencies/mwm_csp/matching.cpp:684-722 | the loop ends, and the value and the pairs are those of a perfect matching that costs no more than any other |
| MinimumMatching.EdgeCosts | opendxa/dependencies/mwm_csp/matching.cpp:727-731 | the list of slacks holds the cost of each edge at its place |
| MinimumMatching.MinimumCostPerfectMatching | opendxa/dependencies/mwm_csp/matching.cpp:725-755 | ends for every even number of points with the least cost of a perfect matching for the matrix and with such a matching |
| GreedyMatching.NearestPartner | opendxa/dependencies/mwm_csp/mwm_csp.cpp:37-49 | the nearest other point, first among equals, and its weight |
| GreedyMatching.GreedyEdgeAssignment | opendxa/dependencies/mwm_csp/mwm_csp.cpp:31-60 | half the sum of row minima, and whether the nearest partners form a perfect matching |
| GreedyMatching.RowMinimaBound | opendxa/dependencies/mwm_csp/mwm_csp.cpp:35-59 | half the sum of row minima is a lower bound on every perfect matching |
| GreedyMatching.GreedyIsOptimal | opendxa/dependencies/mwm_csp/mwm_csp.cpp:53-59 | when nearest partners are mutual, the bound is the optimum |
| MinimumMatching.CalculateMwmCsp | opendxa/dependencies/mwm_csp/mwm_csp.cpp:62-93 | ends with the least sum, over all perfect matchings of the points and over their pairs, of (xi + xj)^2 + (yi + yj)^2 + (zi + zj)^2, whether the early return is taken or the blossom solver runs; it is zero if and only if the points can be paired with their opposites |
| CentralSymmetry.PairsTwice | opendxa/dependencies/mwm_csp/mwm_csp.cpp:65-79 | the sum over all points counts every pair twice |
| MinimumMatching.BinaryInUnits | opendxa/dependencies/mwm_csp/mwm_csp.cpp:62-91 | numbers of a binary format are whole multiples of one unit, for binary64 of 2^-1074 |
| HullInsertion.Hull.Initialize | opendxa/dependencies/ptm/ptm_convex_hull_incremental.cpp:252-278 | the four facets over four different vertices are a closed surface without any other vertex, and face outward |
| HullInsertion.MetIsSides | opendxa/dependencies/ptm/ptm_convex_hull_incremental.cpp:326-360 | marking sides facet by facet counts, for every undirected edge, the visible and the hidden facets that have it |
| HullInsertion.Hull.Scan | opendxa/dependencies/ptm/ptm_convex_hull_incremental.cpp:326-387 | in spite of the swaps each facet is looked at once; the hidden ones remain in order; an edge is listed, once, exactly when it is met from both kinds |
| HullInsertion.HorizonCounts | opendxa/dependencies/ptm/ptm_convex_hull_incremental.cpp:362-384 | a listed edge has exactly one visible and one hidden facet, any other has none or two of each |
| HullInsertion.HorizonIsEven | opendxa/dependencies/ptm/ptm_convex_hull_incremental.cpp:362-384 | every vertex has an even number of horizon edges |
| HullInsertion.Hull.AddFacet | opendxa/dependencies/ptm/ptm_convex_hull_incremental.cpp:195-250 | the facet is oriented, rotated to its least vertex, written behind the others, and refused exactly when it is there already |
| HullInsertion.NotThere | opendxa/dependencies/ptm/ptm_convex_hull_incremental.cpp:241-247 | a facet of the cone is never there already |
| HullInsertion.DirectedOut | opendxa/dependencies/ptm/ptm_convex_hull_incremental.cpp:195-239 | if of the two orientations of a triangle the barycentre sees exactly one, a facet that is turned round where it is seen faces away from it |
| HullInsertion.Hull.AddCone | opendxa/dependencies/ptm/ptm_convex_hull_incremental.cpp:389-400 | error -4 exactly when the table would overflow, error -5 never; each facet spans its edge and the new point, turned round where the barycentre would see it |
| HullInsertion.InsertedAway | opendxa/dependencies/ptm/ptm_convex_hull_incremental.cpp:319-400 | every edge away from the new point is again in two facets or in none |
| HullInsertion.InsertedAt | opendxa/dependencies/ptm/ptm_convex_hull_incremental.cpp:319-400 | an edge at the new point is in as many facets as its other end has horizon edges |
| HullInsertion.ClosedAgain | opendxa/dependencies/ptm/ptm_convex_hull_incremental.cpp:319-400 | the surface is closed again if and only if no vertex has more than two horizon edges |
| HullInsertion.HorizonFits | opendxa/dependencies/ptm/ptm_convex_hull_incremental.cpp:319-387 | a horizon on which no vertex meets more than two edges has at most as many edges as there are points, and with at most seventeen points it fits the 28 places of the list |
| HullInsertion.Hull.Insert | opendxa/dependencies/ptm/ptm_convex_hull_incremental.cpp:319-400 | the whole insertion: hidden facets and the cone remain, every edge has an even number of facets, and never a duplicate; if all facets faced outward they all do again; if no vertex meets more than two horizon edges the surface is closed again and the horizon fits its 28 places |
| AlloyCode.CodeInjective | opendxa/dependencies/ptm/ptm_alloy_types.cpp:69-71 | different colourings have different codes |
| AlloyCode.MappedCode | opendxa/dependencies/ptm/ptm_alloy_types.cpp:66-71 | the bits are those of the colouring carried along by the mapping |
| AlloyCode.CanonicalAlloyRepresentation | opendxa/dependencies/ptm/ptm_alloy_types.cpp:56-77 | the least code over all mappings, where the bit at the place to which the mapping takes an atom tells whether it is of another kind than the central one; zero if and only if all atoms are of the central kind |
| AlloyCode.SameCodeIffEquivalent | opendxa/dependencies/ptm/ptm_alloy_types.cpp:56-77 | when the mappings form a group, two colourings have the same canonical code if and only if a mapping carries one to the other |
| NearestNeighbors.Buffer.constructor | opendxa/dependencies/geogram/Delaunay_psm.h:7582-7597 | an empty buffer; the loop sets only the first slot because the count is still zero |
| NearestNeighbors.Buffer.Insert | opendxa/dependencies/geogram/Delaunay_psm.h:7608-7630 | insertion in front of the first candidate that is no nearer, within k + 1 slots; a full buffer forgets its last one; the k nearest of all offered remain, in order |
| NearestNeighbors.Buffer.Offer | opendxa/dependencies/geogram/Delaunay_psm.h:7600-7630 | offering those no farther than the furthest keeps the buffer the k nearest of all candidates |
| NearestNeighbors.KeptIsOrderStatistic | opendxa/dependencies/geogram/Delaunay_psm.h:7600-7630 | the i-th distance in the buffer is the i-th smallest of everything offered |
| NearestNeighbors.SameDistances | opendxa/dependencies/geogram/Delaunay_psm.h:7600-7630 | the distances kept do not depend on the order of the candidates |
| GaussJordan.FindPivot | opendxa/dependencies/geogram/Delaunay_psm.h:4083-4090 | the first entry of largest size on or below the diagonal |
| GaussJordan.PivotStep | opendxa/dependencies/geogram/Delaunay_psm.h:4082-4122 | one column: rows are swapped, scaled and subtracted in both matrices, keeping tmp = result * M and the kernel; no pivot means a kernel vector |
| GaussJordan.SwapKeeps | opendxa/dependencies/geogram/Delaunay_psm.h:4092-4101 | swapping rows of both keeps the product and the kernel |
| GaussJordan.DivideKeeps | opendxa/dependencies/geogram/Delaunay_psm.h:4107-4110 | so does scaling a row |
| GaussJordan.EliminateKeeps | opendxa/dependencies/geogram/Delaunay_psm.h:4112-4121 | so does subtracting a multiple of a row |
| GaussJordan.ComputeInverse | opendxa/dependencies/geogram/Delaunay_psm.h:4076-4125 | if true then result * M = I and, for all vectors, M * x = b exactly when result * b = x; true if and only if no non-zero vector is in the kernel |
| UploadQueue.Redis.WakeScript | server/queues/analysis-processing-queue.ts:88-98 | one atomic step: the whole waiting list goes to the queue and disappears |
| UploadQueue.DoneStaysDone | server/queues/cloud-upload.ts:39-49 | after an upload is completed nothing waits for it, no job that asks to be parked for it is parked, and its jobs are the next to be taken after those already queued |
| UploadQueue.RequeueKeeps | server/queues/analysis-processing-queue.ts:127-130 | a job put back is the last to be taken; no copy of any job is lost, and there is one more exactly if processing had none |
| UploadQueue.WakeKeepsOrder | server/queues/cloud-upload.ts:42-48 | jobs woken are dequeued in the order in which they were parked, after those already queued |
| UploadQueue.FirstInFirstOut | server/queues/base/queue-core.ts:403-427 | in every run that submits jobs to an empty queue and then takes some, the k-th worker to take one runs the k-th job submitted |
| UploadQueue.AddedRunLater | server/queues/analysis-processing-queue.ts:88-130 | jobs that a step submits, puts back or wakes are run after all that were queued before, in their order, and those queued before are run as if the step had not been |
| UploadQueue.SubmitKeepsNext | server/queues/base/queue-core.ts:480-487 | submitting a job does not change which job the next worker gets |
| UploadQueue.StepInv | server/queues/base/queue-core.ts:213-337 | every step of every process, the removals that come late and twice included, keeps the invariant: each unfinished job is queued, waiting or with a worker, processing lists no more than is held or about to be removed, and nothing waits under a flag |
| UploadQueue.RunInv | server/queues/analysis-processing-queue.ts:105-143 | so does every run, however the steps interleave |
| UploadQueue.NoJobLost | server/queues/analysis-processing-queue.ts:105-143 | in every run each unfinished job is in the queue, waiting, or held by a worker, counted with identical copies; the lists hold no surplus; and they hold a copy for each unfinished job if and only if processing does not fall short of what the workers hold |
| UploadQueue.ListedExactly | server/queues/base/queue-core.ts:326-337 | when exactly a step leaves a job with too few copies in the lists: if and only if it takes the job off the processing list, another copy is there to be found, and the lists have none to spare |
| UploadQueue.ListedUnlessHarmed | server/queues/analysis-processing-queue.ts:126-139 | in every run the lists hold a copy for each unfinished job throughout if and only if no such step occurs |
| UploadQueue.ExactUnlessStruck | server/queues/base/queue-core.ts:336-336 | only the removal that is done twice can upset the processing list, and it does if and only if it finds another copy |
| UploadQueue.UnstruckBalance | server/queues/analysis-processing-queue.ts:126-139 | as long as it finds none, the copies are exactly the unfinished jobs, those parked and still listed, and those about to be removed |
| UploadQueue.RemovedTwice | server/queues/base/queue-core.ts:326-337 | two runs, one with a job put back and one with a job parked and woken, in which the second removal takes another worker's copy: that worker is busy with an unfinished job that is in no list |
| UploadQueue.NothingWaitsUnderFlag | server/queues/cloud-upload.ts:32-55 | while the flag is there its list is empty, and each unfinished job is in the queue or held by a worker; it is in the queue or in processing as long as the lists hold a copy for each |
| UploadQueue.FlagSinceCompletion | server/queues/cloud-upload.ts:39-40 | in every run a flag is up exactly if its upload was completed and the flag has not expired since |
| UploadQueue.StrandedOnlyByExpiry | server/queues/cloud-upload.ts:40-40 | in every run a job can wait for an upload that was completed only if the flag expired after the last completion |
| UploadQueue.ParkWaits | server/queues/analysis-processing-queue.ts:116-125 | right after a job asked to park something waits for its upload exactly if the flag is not up, and then the job is the last to wait |
| UploadQueue.ParkedStay | server/queues/analysis-processing-queue.ts:88-98 | in every run without a step that wakes them the parked jobs keep their places |
| UploadQueue.StrandedExactly | server/queues/analysis-processing-queue.ts:107-145 | a job that asked to park leaves its upload waited for throughout a run if and only if the flag was not up and no later step wakes the upload |
| UploadQueue.ExpiryStrands | server/queues/cloud-upload.ts:40-40 | a run in which an upload completes, its flag expires, and its only job is then parked: in the end it waits, and queue and processing are empty |

## Left out

- FromChars.FromCharsAdvanced: does not model Clinger's exact fast path and `parse_infnan`, which are floating-point operations of the host or string tables. The table of powers of five is a parameter; that its 1302 words are what `IsTable` says is data.
- FastRounding.ComputeFloatFast: says nothing of an undecided product; how often there is one is not modelled.
- Conversion.ComputeFloat: says nothing about a decimal that lost digits past the 768th, where the code itself can only be one ulp close; `WithinBudget` is a sufficient condition for losing none. `decimal_point` and `exp2` are unbounded integers; no text shorter than 2^31 bytes brings them near 32 bits.
- Pow5Table.TableMeaning: the table of digits is written in lines of twenty-four digits, each as one numeral.
- AsciiNumber.ParseNumberString: the decimal-point character may be any byte that is not a digit; text is a sequence of bytes, and `exponent` is an unbounded integer.
- FromChars.ReadersAgree: says nothing where the two readers see different numbers; `SameNumber` says when that is.
- ProductApproximation.ComputeProductApproximation: the two table words are parameters; the contents of the table of powers of five are not modelled.
- CanonicalInvariance.FormInvariant: does not cover the branch in which all degrees and colours are equal, where the code tries a single start; `RegularForms` says exactly when two forms are equal there. That the regular templates are edge-transitive is data.
- CanonicalForm.CanonicalFormColoured: at most 16 nodes, so that labels and packed degrees fit a signed byte, as the callers of the code have it; facets must be those of a connected closed surface.
- MatchingState.Matching.Expand: costs are reals and EPSILON is zero; rounding in slacks and duals is not modelled.
- MatchingState.Matching.Solve: costs are real numbers that are whole multiples of some unit, as all numbers of a binary format are; without such a unit the end of the loop is not proved. The number of points is even.
- MinimumMatching.CalculateMwmCsp: the limit of 32 points is left out.
- HullInsertion.Hull.Insert: visibility and orientation are arbitrary predicates of the facet, in place of the plane distances, and are therefore the same for equal facets; that all facets face outward is promised for a barycentre that lies in the plane of no facet (`FlipsOne`); the list of edges to add is unbounded, while the code writes it unchecked into 28 places, which suffice under the condition of `HorizonFits`. The search for the first four points, the loop over all points, which goes on with a surface that did not close, and the scan for the central atom are left out.
- AlloyCode.CanonicalAlloyRepresentation: the mappings are parameters; the reference tables and the comparison with the known alloy codes are data.
- NearestNeighbors.Buffer.Insert: the copies to and from the user's arrays and the tree search around the buffer are left out.
- UploadQueue.NoJobLost: a dequeue is one atomic move from the right end of the queue to processing together with the assignment of a worker, the queue keys of both services are one list, and the time step in a worker's message is that of its job. A worker that crashes does so while it runs its job, not while its parking is under way; job status, retries counters, sessions and the recovery at startup (server/queues/base/recovery-manager.ts), which puts back what is in processing and what is marked as running, are left out.
- The rest of the server and client (routes, models, storage, sockets, user interface) is input and output around libraries, with nothing of this kind to prove.
- Geogram's Delaunay triangulations, spin locks, logging and environment classes are only declared in the header or are system code.
