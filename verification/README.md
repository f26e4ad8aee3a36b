# Verified kernels of the scripting engine

This project models five parts of the engine's C libraries in Dafny and proves that they compute
what they are for.

**Limb arithmetic** (`Arith`, `Limbs`, `LimbOps`, `LimbMul`, `UdivNorm`, `DivStep`, `RecipMath`,
`RecipSteps`, `LargeDivMath`, `LargeDivSteps`, `LongDivision`, `SqrtTable`, `SqrtMath`, `SqrtWord`,
`SqrtRem`, `FastDiv`, `Radix`). A section of an array of 64-bit words denotes a number (`Limbs.Val`). The
loops work in place on arrays with wrapping words and carries, as the C code does, and each is
proved against the number its result denotes: long division by schoolbook and by Newton reciprocal,
the recursive square root down to its table, division by multiplication, and conversion to and from
other bases.

**Products by transforms** (`ModWords`, `PolySums`, `NttTables`, `NttInit`, `NttStage`, `NttFft`,
`NttSplit`, `NttColumns`, `NttConv`, `FftSize`, `LimbToNtt`, `MixedRadix`, `NttToLimb`, `FftProduct`,
`FftMul`). The whole path of a long product: digits modulo up to five primes, number theoretic
transforms with words kept below twice the prime, cyclic convolution (through rows and columns for
long operands), Chinese remainders and carries. `FftMultiply.FftMul` is the product of its operands.

**Floating-point rounding** (`RoundSpec`, `Bits`, `RoundMath`, `BfRound`, `BfNormalize`, `BfDigits`,
`BfCompare`, `BfGrid`, `BfDiv`, `BfAdd`, `BfLaws`). A number is an object with sign, exponent and limbs.
`RoundSpec` says what rounding to a multiple of a unit is in each direction of IEEE 754-2008
(section 4.3); addition, division and square root are proved to return the exact result rounded
once, with the right status. `RoundLaws` restates the outcome, the flags and what is stored in
numbers alone: the grid of subnormal results, the limits of the exponents, and which way an
overflow goes.

**Regular expressions** (`ReOpcode`, `RePattern`, `ReClass`, `ReCode`, `ReMachine`, `ReSimple`,
`RePlaced`, `ReLoops`, `ReAdvance`, `RePieces`, `ReQuant`, `ReCorrect`, `ReScan`, `DynBuffer`,
`ReEmit`, `ReParse`, `ReProgram`, `ReCompile`, `ReExec`, `ReAlike`, `ReLazy`, `ReDiverge`, `ReDepth`,
`ReStack`, `ReLaws`, `ReAnswer`). `RePattern.Ends` is a reference matcher: the ordered list of the ways a pattern can
match. `ReParse` and `ReCompile` emit bytes by appending, inserting, copying and patching;
`ReMachine` is the machine, one step at a time, and `ReExec` its interpreter loop. The main theorem
is that the bytes of a compiled pattern, run by the machine, answer with the first match of the
reference matcher. The stack depth of every run equals what the linear scan computes, and the
termination of unchecked loops is characterised exactly. `PatternLaws` and `AnswerLaws` say what a
match records: captures are unset or intervals of the input, and a quantifier that matches nothing
leaves the captures of its atom unset.

**Code-point sets and sorting** (`CharSets`, `CharRange`, `SortSpec`, `HeapSort`, `Partition`,
`RqSort`). Sets are sorted lists of boundary points, merged and normalised in place. The hybrid sort
works for every total preorder with its fixed stack of 50 segments.

To check the whole project: `dafny verify dfyconfig.toml`.

## Findings

- The comment at `quickjs/libbf.c:1346` bounds the reciprocal by `a*r + 2`; what holds is
  `a*r < B^(2n) < a*(r + 2)` (`LongDivision.MpRecip`), the bound of the cited algorithm 3.5 of Modern
  Computer Arithmetic.
- Non-greedy unbounded quantifiers get no zero-advance check (`quickjs/libregexp.c:1574-1576`), so
  `(?:)*?a` compiles and runs for ever on the empty input (`ReDiverge.NonGreedyRunsForever`). The
  search of such a loop, when what follows fails, ends exactly if no repetitions of its body lead to
  a point where the body can match without moving (`ReLazy.StarLazyExact`, `ReLazy.PlusLazyExact`). A
  body whose minimal width is positive never stalls (`ReAdvance.WideMoves`, `ReLazy.MovingNeverStalls`).
- The last entry of `mp_pow_div` (`quickjs/libbf.c:5526`) is not what `fast_udiv_init` computes for
  10^19 when the shift by the whole word width is taken mathematically; its multiplier is two too
  large (`FastDivision.TableLastDiffers`). Division by that entry is exact nevertheless
  (`FastDivision.LastEntryExact`).
- `bf_get_fft_size` (`quickjs/libbf.c:8282-8329`) aborts exactly for products longer than 2^52 limbs
  (`FftSize.GetFftSize`).
- `get_limb_radix` (`quickjs/libbf.c:2680-2690`) returns 0 for the radices 2, 4 and 16, whose largest
  power is 2^64 (`RadixConversion.LimbRadix`); conversion is stated for a base of at least 1.

## Model

| member | source | states |
|---|---|---|
| `LimbOps.MpAdd` | quickjs/libbf.c:1023-1040 | sum of two limb sections plus a carry: result plus B^n times the carry out is the exact sum; nothing outside the result changes, also when it overlays an operand |
| `LimbOps.MpSub` | quickjs/libbf.c:1058-1074 | difference of two sections minus a borrow, exact with the borrow out |
| `LimbOps.MpNeg` | quickjs/libbf.c:1077-1092 | negation modulo B^n with its borrow, exact |
| `LimbOps.MpAddUi` | quickjs/libbf.c:1042-1056 | one limb added in place; the early exit loses no carry |
| `LimbOps.MpSubUi` | quickjs/libbf.c:1094-1109 | one limb subtracted in place; the early exit loses no borrow |
| `LimbOps.MpCmp` | quickjs/libbf.c:1415-1427 | the sign of the result is the order of the two numbers, in both directions |
| `LimbOps.MpScanNz` | quickjs/libbf.c:362-370 | answers whether the section denotes a number other than zero |
| `LimbMul.MpMul1` | quickjs/libbf.c:1130-1142 | section times a limb plus a limb, exact with the high limb |
| `LimbMul.MpAddMul1` | quickjs/libbf.c:1145-1158 | accumulates a product with a limb, exact with the high limb |
| `LimbMul.MpSubMul1` | quickjs/libbf.c:1198-1211 | subtracts a product with a limb; the limb returned is what is owed to the next one |
| `LimbMul.MpMul` | quickjs/libbf.c:1161-1172 | the basecase product is the product of the two numbers |
| `LimbMul.MpShr` | quickjs/libbf.c:1113-1127 | shift right by 1 to 63 bits with bits shifted in at the top, exact with the bits shifted out |
| `Limbs.ValInjective` | quickjs/libbf.c:1024-1427 | sections of one length that denote the same number are equal, so each result above is unique |
| `UdivNorm.UdivInit` | quickjs/libbf.c:1213-1220 | the reciprocal word is floor((B^2-1)/d) - B |
| `UdivNorm.Udiv` | quickjs/libbf.c:1222-1242 | for every a1 < d and normalised d: exact quotient and remainder, with every word wrapping |
| `UdivNorm.UdivEstimate` | quickjs/libbf.c:1229-1232 | the estimate from the high product word is the quotient or one less, and the product never overflows a double word |
| `UdivNorm.MpDiv1norm` | quickjs/libbf.c:1244-1265 | division by one limb: the reciprocal loop and the hardware loop meet one exact contract |
| `LongDivision.MpDivnorm` | quickjs/libbf.c:1271-1344 | a = q*b + r with r < b, top quotient limb at most 1, for every normalised divisor; schoolbook and reciprocal paths alike |
| `LongDivision.SchoolbookLimbs` | quickjs/libbf.c:1310-1342 | the quotient limbs below the first: after each limb the dividend is quotient times divisor plus remainder |
| `DivStep.EstimateNotTooSmall` | quickjs/libbf.c:1311-1320 | the quotient limb estimated from the two leading limbs is never too small |
| `DivStep.ReduceWindow` | quickjs/libbf.c:1321-1340 | multiply and subtract, then add back until the carry cancels: the loop ends with the exact digit and a remainder below the divisor |
| `DivStep.FirstQuotient` | quickjs/libbf.c:1296-1308 | the top quotient limb is 0 or 1 and the leading limbs are reduced below the divisor |
| `LongDivision.MpRecip` | quickjs/libbf.c:1346-1412 | a*r < B^(2n) < a*(r+2) with top limb 1, for every normalised n-limb a, by recursion to half length |
| `RecipMath.NewtonStep` | quickjs/libbf.c:1385-1403 | one Newton step keeps the reciprocal bounds although it truncates twice |
| `RecipSteps.RecipLower` | quickjs/libbf.c:1389-1393 | the adjusting loop ends, having lowered the half-length reciprocal to one that is not too large |
| `RecipSteps.RecipCombine` | quickjs/libbf.c:1399-1403 | the sum of the shifted reciprocal and its correction; the carry of the last addition, which the code ignores, is zero |
| `RecipMath.ReciprocalRange` | quickjs/libbf.c:1346-1350 | the bounds determine the reciprocal up to one and force its top limb |
| `LongDivision.MpDivnormLarge` | quickjs/libbf.c:1432-1522 | division through a truncated reciprocal: a = q*b + r, r < b, top limb at most 1 |
| `LargeDivMath.QuotientEstimate` | quickjs/libbf.c:1473-1478 | the quotient estimated with a truncated reciprocal is never too large, and less than ten too small |
| `LargeDivSteps.LargeFixup` | quickjs/libbf.c:1494-1510 | the correction loop ends with the exact quotient and remainder |
| `SqrtTable.TableEntries` | quickjs/libbf.c:1880-1894 | each of the 192 table entries is the root of its argument to within one unit |
| `SqrtWord.Sqrtrem1` | quickjs/libbf.c:1886-1928 | one limb: s = floor(sqrt(a)) and a - s^2, from the table and two rounds |
| `SqrtWord.Isqrt` | quickjs/libbf.c:1930-1942 | floor of the square root of any limb, through an even shift |
| `SqrtWord.Sqrtrem2` | quickjs/libbf.c:1944-1970 | two limbs: exact root and remainder, including the dropped carry of the first quotient |
| `SqrtMath.SqrtStep` | quickjs/libbf.c:1976-2042 | the recurrence of the recursive square root: at most one correction is needed |
| `SqrtRecursion.SqrtremRec` | quickjs/libbf.c:1974-2042 | in-place recursion: root and remainder with its top limb, for every radicand whose top limb is at least B/4 |
| `SqrtRecursion.SqrtQuotient` | quickjs/libbf.c:1998-2014 | the quotient by twice the root, divided by the root and halved, and its remainder with the carry |
| `SqrtRecursion.SubtractSquare` | quickjs/libbf.c:2025-2034 | the square of the quotient is subtracted in place; for a quotient of B^l a carry does it |
| `SqrtRecursion.SqrtCorrect` | quickjs/libbf.c:2034-2041 | the final decrement restores 0 <= a - s^2 <= 2s |
| `SqrtRecursion.MpSqrtrem` | quickjs/libbf.c:2045-2068 | s = floor(sqrt(a)) and a - s^2 stored on n + 1 limbs, for every n >= 1 |
| `SqrtMath.SqrtRemIsFloor` | quickjs/libbf.c:2045-2049 | the two conditions on root and remainder hold for the largest s with s^2 <= a and no other |
| `FastDivision.FastUdivExact` | quickjs/libbf.c:5435-5464 | prepared multiplication equals a/d for every word a and every d other than zero, the length of d - 1 taken mathematically |
| `FastDivision.DataExact` | quickjs/libbf.c:5458-5464 | any multiplier that is the rounded-up reciprocal divides exactly |
| `FastDivision.DecimalPowers` | quickjs/libbf.c:5466-5490 | entry i of the table is 10^i, by a recursively defined power |
| `FastDivision.TableRight` | quickjs/libbf.c:5492-5528 | the entries for 10^0 to 10^18 are what the preparation computes for those powers |
| `FastDivision.TableLastDiffers` | quickjs/libbf.c:5526 | the entry for 10^19 is not: its multiplier is two too large |
| `FastDivision.LastEntryExact` | quickjs/libbf.c:5526-5533 | that entry divides every word exactly all the same |
| `FastDivision.FastShrDecExact` | quickjs/libbf.c:5530-5533 | dropping decimal digits through the table is a / 10^shift for every word and every shift up to 19 |
| `FastDivision.DivdqBase` | quickjs/libbf.c:5383-5406 | quotient and remainder of a double word by 10^19, exact for every a1 < 2^63 although every intermediate word wraps |
| `FastDivision.CorrectTwice` | quickjs/libbf.c:5397-5405 | two additions masked with the sign turn an estimate up to two too small into the exact quotient and remainder |
| `RoundSpec.RoundDirected` | quickjs/libbf.c:401-440 | toward zero is the largest multiple not above, away from zero the smallest not below; down and up follow the sign |
| `RoundSpec.RoundNearest` | quickjs/libbf.c:401-440 | no multiple of the unit is nearer; ties go to the even multiple or away from zero |
| `RoundSpec.RoundNeighbour` | quickjs/libbf.c:401-440 | in every mode, faithful rounding included, the result is one of the two neighbouring multiples, and x itself if x is one |
| `RoundSpec.StickyRounds` | quickjs/libbf.c:993-994 | with two bits to spare, or-ing 1 into the lowest bit for what was dropped rounds like the exact number |
| `Bits.GetBit` | quickjs/libbf.c:341-348 | bit of the number at a position, zero outside |
| `Bits.ScanBitNz` | quickjs/libbf.c:372-391 | whether any bit up to a position is set |
| `BfDigits.GetBits` | quickjs/libbf.c:317-339 | 64 bits of the number from any bit position, before, across and past its limbs |
| `BfDigits.GetLimbz` | quickjs/libbf.c:309-315 | limb at an index, zero outside |
| `BfRound.GetRndAdd` | quickjs/libbf.c:393-446 | the addend that rounding the mantissa to the unit calls for, and whether bits are lost |
| `BfRound.SetOverflow` | quickjs/libbf.c:448-477 | infinity or the largest finite number, by mode and sign |
| `BfRound.Round` | quickjs/libbf.c:479-589 | the mantissa rounded to the precision, with exponent range, subnormals, overflow and every status flag |
| `BfNormalize.NormalizeAndRound` | quickjs/libbf.c:591-625 | any array and exponent: the exact value rounded once, top bit set, lowest limb not zero, inexact exactly if the value changed |
| `BfNormalize.OutcomeScaled` | quickjs/libbf.c:592-625 | shifting the mantissa left and the exponent down changes nothing in the outcome |
| `BfCompare.CmpU` | quickjs/libbf.c:738-761 | the order of two magnitudes, in both directions, for mantissas of any lengths |
| `BfCompare.CountCancelled` | quickjs/libbf.c:816-866 | the difference of two close magnitudes is shorter by at most the number of bits counted |
| `BfGrid.OutcomeOnGrid` | quickjs/libbf.c:926-1004 | an outcome proved for the value cut to fewer limbs with a sticky bit is the outcome for the exact value |
| `BfAdd.Discard` | quickjs/libbf.c:935-981 | the limbs below the result, those jumped over included, give the exact carry and the exact sticky answer |
| `BfAdd.Fill` | quickjs/libbf.c:982-992 | the limbs of the result are the exact upper part of the sum or difference |
| `BfAdd.AddInternal` | quickjs/libbf.c:868-1010 | for finite operands other than zero: the exact sum or difference rounded once, in every mode, with status and sign of zero |
| `BfDiv.Div` | quickjs/libbf.c:1652-1722 | for finite operands other than zero: the exact quotient rounded once, in every mode, with status |
| `BfDiv.Sqrt` | quickjs/libbf.c:2126-2188 | for positive finite numbers: the exact root rounded once, in every mode, with status |
| `BfDiv.StickyNumber` | quickjs/libbf.c:1710-1716 | with prec + 2 bits the sticky bit stands for the whole remainder in number and status |
| `DynBuffer.DynBuf.Insert` | quickjs/libregexp.c:112-119 | a gap is opened at a position; everything before and after keeps its bytes |
| `DynBuffer.DynBuf.PutSelf` | quickjs/cutils.c:148-157 | a copy of an earlier stretch of the buffer is appended, also across a reallocation |
| `DynBuffer.DynBuf.Put` | quickjs/cutils.c:137-146 | appending keeps the contents and adds the bytes |
| `DynBuffer.DynBuf.MoveLastBlock` | quickjs/libregexp.c:1692-1704 | reversing two adjacent blocks through a gap, as lookbehind needs |
| `ReOpcode.DecodeEncode` | quickjs/libregexp.c:2070-2082 | what the emitter writes for an instruction is what the machine reads back |
| `ReEmit.REParseState.EmitRange` | quickjs/libregexp.c:813-849 | the bytes of a class: nothing emitted for too many intervals, a never-matching character for none, 16 or 32 bits otherwise |
| `ReClass.ClassRoundTrip` | quickjs/libregexp.c:813-849 | the class instruction accepts exactly the members of the set, for every code point, the empty set and the open upper end included |
| `ReClass.SearchTable` | quickjs/libregexp.c:2346-2368 | bisection over the byte table answers membership; the index never wraps |
| `ReScan.IsSimpleQuantifier` | quickjs/libregexp.c:1024-1063 | the scan of the bytes computes the character count of straight-line code or -1 |
| `ReScan.CheckAdvance` | quickjs/libregexp.c:940-1022 | the scan of the bytes computes the zero-advance analysis |
| `ReScan.ComputeStackSize` | quickjs/libregexp.c:1738-1781 | the scan computes the largest depth, or -1 beyond the limit |
| `ReAdvance.AdvanceWidth` | quickjs/libregexp.c:940-1022 | an answer of 1 is given only for patterns whose matches read at least one character |
| `ReAdvance.WidthMoves` | quickjs/libregexp.c:1572-1576 | a match reads at least as many characters as its pattern is wide |
| `ReAdvance.AdvanceMoves` | quickjs/libregexp.c:940-1022 | an answer of 1 means that every match moves |
| `ReEmit.REParseState.MakeSimple` | quickjs/libregexp.c:1549-1569 | inserting the simple quantifier in front of the atom just emitted |
| `ReEmit.REParseState.MakeStar` | quickjs/libregexp.c:1597-1612 | inserting split and, with the check, the position push in front of the atom, and the jump back |
| `ReEmit.REParseState.AppendMore` | quickjs/libregexp.c:1640-1661 | the optional repetitions after a copy of the atom |
| `ReParse.Quantify` | quickjs/libregexp.c:1546-1664 | all the byte insertion, copying and patching of a quantifier leaves the bytes of its code |
| `ReParse.ParseTerm` | quickjs/libregexp.c:1202-1673 | a term emits the bytes of its code or fails exactly when it is not acceptable |
| `ReParse.ParseAlternative` | quickjs/libregexp.c:1675-1707 | terms in sequence, in reverse order for lookbehind |
| `ReParse.ParseDisjunction` | quickjs/libregexp.c:1709-1736 | alternatives: a split inserted in front and a jump patched after |
| `ReCompile.Compile` | quickjs/libregexp.c:1787-1875 | header, search loop and code; fails exactly when captures, intervals or stack exceed their limits |
| `ReMachine.Step` | quickjs/libregexp.c:2055-2460 | one step of the machine: the instruction at pc, or the unwinding of saved states |
| `ReExec.REExecContext.Execute` | quickjs/libregexp.c:2140-2455 | the interpreter loop body takes the machine step |
| `ReExec.REExecContext.PopState` | quickjs/libregexp.c:2083-2140 | unwinding the state stack takes the machine steps of success and failure |
| `ReExec.REExecContext.Backtrack` | quickjs/libregexp.c:2055-2460 | the whole loop ends with the answer of the machine run |
| `RePattern.Ends` | quickjs/libregexp.c:1202-1736 | the reference matcher: the ordered list of ways to match, with the rules of this code for empty iterations and capture reset |
| `RePattern.EndsOnward` | quickjs/libregexp.c:2055-2460 | matches stay inside the input and never move against the direction of matching |
| `ReSimple.SimpleQuantExplores` | quickjs/libregexp.c:2416-2455 | the counted step-back of a simple quantifier tries the same continuations in the same order as the general search |
| `ReSimple.QuantDown` | quickjs/libregexp.c:2103-2125 | stepping back one repetition at a time is the greedy search over repetitions |
| `ReLoops.StarExplores` | quickjs/libregexp.c:1597-1612 | the split loop, with and without check, goes through the repetitions in order |
| `ReLoops.PlusExplores` | quickjs/libregexp.c:1624-1627 | the short form of one or more repetitions |
| `ReLoops.CountedExplores` | quickjs/libregexp.c:1613-1623 | the loop counted on the machine stack goes through at most n repetitions in order |
| `ReLoops.RepeatExplores` | quickjs/libregexp.c:1629-1639 | the mandatory repetitions |
| `ReCorrect.CodeWorks` | quickjs/libregexp.c:1202-1736 | wherever the code of a pattern is placed, it goes through the matches of the pattern in order and leaves the stack as it was |
| `ReProgram.ProgramCorrect` | quickjs/libregexp.c:1820-1842 | the program with its search loop terminates and answers with the captures of the first match |
| `ReCompile.CompiledCorrect` | quickjs/libregexp.c:1787-1875 | the bytecode of every pattern of the fragment, on every input, halts with the first match of the reference matcher |
| `ReExec.CompileAndExec` | quickjs/libregexp.c:2462-2501 | compiler and interpreter together compute the first match |
| `ReDepth.CodeJumps` | quickjs/libregexp.c:1597-1664 | every jump lands on an instruction whose scanned depth is the depth at the jump |
| `ReStack.StackAsScanned` | quickjs/libregexp.c:1738-1781 | at every moment of every run of every accepted pattern the stack is as deep as the linear scan says, so never beyond the recorded maximum |
| `ReAlike.EndsAlike` | quickjs/libregexp.c:2223-2242 | captures are recorded and never consulted: the positions of the matches depend on the start position alone |
| `ReLazy.LazyExplores` | quickjs/libregexp.c:1597-1612 | an unchecked loop that does not stall goes through the repetitions in order, for any atom |
| `ReLazy.LazyForever` | quickjs/libregexp.c:1574-1576 | an unchecked loop that stalls never halts when what follows it fails |
| `ReLazy.StarLazyExact` | quickjs/libregexp.c:1572-1612 | a non-greedy unbounded loop ends exactly if no repetitions lead to a point where the atom can match without moving |
| `ReLazy.PlusLazyExact` | quickjs/libregexp.c:1624-1627 | the same for the short form of one or more repetitions |
| `ReDiverge.NonGreedyRunsForever` | quickjs/libregexp.c:1574-1576 | (?:)*?a compiles, and on the empty input its run never ends |
| `CharRanges.CharRange.AddPoint` | quickjs/libunicode.h:68-76 | appends a point, growing the buffer |
| `CharRanges.CharRange.AddInterval` | quickjs/libunicode.h:78-87 | appends two points |
| `CharRanges.CharRange.Compress` | quickjs/libunicode.c:326-352 | in place: the strictly increasing list with the same members |
| `CharRanges.CharRange.Op` | quickjs/libunicode.c:355-405 | union, intersection or symmetric difference of two sorted lists, in normal form, for every code point |
| `CharRanges.MergeStep` | quickjs/libunicode.c:362-402 | adding a point exactly when the in/out status changes keeps the merged list right for every code point |
| `CharRanges.CharRange.Union1` | quickjs/libunicode.c:407-417 | union with a further list into a new buffer |
| `CharRanges.CharRange.Invert` | quickjs/libunicode.c:419-431 | complement below UINT32_MAX, in normal form |
| `CharRanges.ComplementInvolution` | quickjs/libunicode.c:419-431 | complementing twice gives back the same points |
| `CharRanges.CharRange.UnionInterval` | quickjs/libunicode.h:91-97 | adds the code points of a closed interval |
| `CharRanges.CharRange.Canonicalize` | quickjs/libregexp.c:246-269 | adds the upper-case form of every lower-case letter and nothing else |
| `CharRanges.ClassAcceptsMembers` | quickjs/libregexp.c:813-849 | the class instruction emitted for a set accepts exactly its members |
| `CharSets.NormalUnique` | quickjs/libunicode.c:326-352 | strictly increasing lists with the same members are equal |
| `CharSets.MemberInterval` | quickjs/libunicode.c:355-405 | an odd number of points not above c is the same as c lying in one of the intervals |
| `HeapSorting.SiftDown` | quickjs/cutils.c:469-474 | sinking a node restores the heap and only rearranges the range |
| `HeapSorting.Sort` | quickjs/cutils.c:459-491 | ordered rearrangement of the range, for every total preorder |
| `HeapSorting.RootIsLargest` | quickjs/cutils.c:477-490 | no element of a heap is above its root |
| `Partitioning.Med3` | quickjs/cutils.c:493-498 | the index of an element that lies between the two others |
| `Partitioning.Partition` | quickjs/cutils.c:536-562 | equal, smaller, greater and equal parts; the scans meet with nothing unseen |
| `Partitioning.Regroup` | quickjs/cutils.c:563-588 | two block exchanges bring the equal elements to the middle; at least the pivot is there |
| `RqSorting.InsertionSort` | quickjs/cutils.c:612-617 | ordered rearrangement of a short range |
| `RqSorting.SortSegment` | quickjs/cutils.c:518-617 | one segment popped: larger parts pushed with strictly growing depth, and every push finds room |
| `RqSorting.RqSort` | quickjs/cutils.c:500-618 | for every total preorder the first n elements end up ordered and rearranged, the others untouched; the 50-entry stack suffices and the sort terminates |
| `ModWords.ModFast` | quickjs/libbf.c:7361-7380 | the remainder of every double word below 2^125 by any modulus between 2^61 and 2^62, from one multiplication and two masked additions with wrapping words |
| `ModWords.MulModFast3` | quickjs/libbf.c:7415-7426 | a product with a prepared multiplier, for every word a: the remainder or the remainder plus the modulus |
| `ModWords.MulModFast2` | quickjs/libbf.c:7401-7413 | a product with a prepared multiplier, reduced exactly |
| `NttInit.Constants` | quickjs/libbf.c:7270-7276 | each of the five moduli comes with a root of order 2^51 and its inverse, by fifty squarings of the tabulated word |
| `NttInit.InitField` | quickjs/libbf.c:8239-8264 | the tables of one modulus: a root of order 2^k and its inverse for every k up to 51, and the inverse of every 2^k |
| `NttInit.StaticInit` | quickjs/libbf.c:8220-8280 | all five moduli set up |
| `NttTables.NttState.GetTrig` | quickjs/libbf.c:7791-7827 | the table of the powers of the root of order 2^k, made once and kept; none above the limit |
| `NttTransform.Butterfly` | quickjs/libbf.c:7724-7728 | for words below 2m: sum and difference times the multiplier modulo m, both below 2m again, no step wrapping wrongly |
| `NttTransform.Pass` | quickjs/libbf.c:7719-7734 | one pass writes rows 2i and 2i+1 from rows i and i+h, all words staying below 2m |
| `NttStage.StageStep` | quickjs/libbf.c:7713-7740 | what a pass keeps: the values of the columns at the powers of the root are those of the input |
| `NttStage.LastStage` | quickjs/libbf.c:7741-7750 | after the last sums and differences entry k is the value of the input polynomial at the k-th power of the root |
| `NttTransform.NttFft` | quickjs/libbf.c:7695-7752 | in place, for every length 2^1 to 2^19 and both directions: the transform of the input modulo m, words below 2m |
| `PolySums.InverseTransform` | quickjs/libbf.c:7758-7772 | values at the powers of a primitive root, read as coefficients, have at the powers of the inverse root the order times the coefficients |
| `PolySums.CyclicPoly` | quickjs/libbf.c:7754-7775 | where z^n is 1 the cyclic convolution has the product of the values |
| `NttConv.VecMul` | quickjs/libbf.c:7754-7775 | entry by entry products times the inverse length, below 2m |
| `NttColumns.MulTrig` | quickjs/libbf.c:7777-7788 | the words times the powers of a constant |
| `NttColumns.TransformColumns` | quickjs/libbf.c:7870-7904 | all columns of the matrix transformed, sixteen at a time, each turned by its power of the root before or after |
| `NttSplit.SplitConvolution` | quickjs/libbf.c:7929-7943 | columns transformed and turned, rows convolved, columns turned back: the cyclic convolution of the whole |
| `NttConv.Conv` | quickjs/libbf.c:7913-7944 | for every length 2^1 to 2^51, split recursively above 2^19: the cyclic convolution of both buffers modulo m, scaled by the tabulated inverse length |
| `FftSize.GetFftSize` | quickjs/libbf.c:8282-8329 | digits cover the product, the transform is within the tables and the sums are within the moduli; no choice exactly when the product is longer than 2^58 bits |
| `LimbToNtt.DigitWords` | quickjs/libbf.c:7970-7993 | a digit of up to 188 bits gathered from up to four limbs, cut at bit 63 when long |
| `LimbToNtt.Convert` | quickjs/libbf.c:7947-8005 | entry i for each prime is digit i of the operand modulo that prime, and zero beyond the last digit |
| `MixedRadix.MixedDigits` | quickjs/libbf.c:8153-8165 | the double loop turns the residues of a number into its mixed radix digits, no difference going below zero |
| `MixedRadix.InitPairs` | quickjs/libbf.c:8266-8278 | the ten tabulated words are the inverses of each modulus modulo each later one |
| `MixedRadix.ToLimbs` | quickjs/libbf.c:8167-8188 | mixed radix digits plus the carry as limbs, without overflow |
| `NttToLimb.PutBits` | quickjs/libbf.c:7214-7230 | a word written at any bit position above the bits set so far, cut at the end of the result |
| `NttToLimb.PutDigit` | quickjs/libbf.c:8198-8204 | the low bits of the rebuilt number written at the position of the digit |
| `NttToLimb.NextCarry` | quickjs/libbf.c:8205-8215 | the rest of the number becomes the carry, for digit sizes that are whole limbs and others |
| `NttToLimb.ToResult` | quickjs/libbf.c:8120-8217 | the limbs of the sum of all numbers at their positions, cut to the digits and to the result |
| `FftProduct.SumsFit` | quickjs/libbf.c:8293-8306 | every sum of products of digits is below the product of the moduli in use |
| `FftProduct.DigitsProduct` | quickjs/libbf.c:8348-8351 | transforms as long as the product never wrap round: the convolution of the digits has the product as its value |
| `FftMultiply.FftMul` | quickjs/libbf.c:8331-8431 | the result is the product of the two operands, for all operands of three limbs together or more; it fails, where the code aborts, exactly above 2^58 bits |
| `FftMultiply.MulByLength` | quickjs/libbf.c:1174-1194 | schoolbook or transforms by the length of the shorter operand, one exact contract |
| `RadixConversion.PowUi` | quickjs/libbf.c:2261-2277 | binary powering from the highest bit, exact |
| `RadixConversion.SplitLengths` | quickjs/libbf.c:2703-2708 | a section at level k has floor(n0/2^k) limbs or one more; both halves are of the next level, not empty, and the level has its slot in the table of powers |
| `RadixConversion.FromRadixRec` | quickjs/libbf.c:2693-2729 | the number its digits denote; every cached power is the one its level needs |
| `RadixConversion.Adjust` | quickjs/libbf.c:3418-3432 | from any estimate the two loops end with the exact quotient and remainder |
| `RadixConversion.ToRadixRec` | quickjs/libbf.c:3372-3440 | the n digits of every a below radix^n, whatever the rounding of the estimates |
| `RadixConversion.DigitsUnique` | quickjs/libbf.c:3372-3440 | digits of one length that denote the same number are equal |
| `RadixConversion.RoundTrip` | quickjs/libbf.c:2731-2753 | converting the number that digits denote gives back the digits |
| `RadixConversion.GetLimbRadix` | quickjs/libbf.c:2680-2690 | the tabulated power of the radix, wrapped to a word |
| `RadixConversion.LimbRadix` | quickjs/libbf.c:2672-2690 | for every radix from 2 to 36 the table has the largest exponent that fits; the word is zero exactly for 2, 4 and 16 |
| `FastDivision.DecimalBase` | quickjs/libbf.h:48 | the decimal base is 10^19, the largest power of ten in a word, and the constant of the double-word division is its reciprocal |
| `FftSize.LongestProductIs` | quickjs/libbf.c:8282-8329 | the longest product has 2^58 bits, which are 2^52 limbs |
| `RoundLaws.OutcomeInNumbers` | quickjs/libbf.c:490-589 | the magnitude rounded at the last place 3 - 2^(expBits-1) - prec or higher; zero, too large or finite by comparison with powers of two; the exponent of a finite result and its limits |
| `RoundLaws.StatusInNumbers` | quickjs/libbf.c:490-589 | inexact exactly when the stored value is not the exact one, overflow exactly when too large, underflow exactly when below every normal number (and inexact, if gradual) or when no bit is kept |
| `RoundLaws.GradualUnderflow` | quickjs/libbf.c:500-525 | below the normal numbers every result is a multiple of 2^(3 - 2^(expBits-1) - prec), whatever the exponent, and nearer to the exact value than that unit |
| `RoundLaws.GradualUnderflowFlag` | quickjs/libbf.c:552-565 | underflow is then raised exactly when the result is inexact and still below the normal numbers |
| `RoundLaws.OverflowStored` | quickjs/libbf.c:448-477 | an overflow stores infinity or prec ones with the largest exponent; which one in the modes without a direction |
| `RoundLaws.OverflowDirection` | quickjs/libbf.c:453-459 | in the directed modes an overflow is infinite exactly if that mode takes an inexact magnitude of the sign away from zero |
| `RoundLaws.StoredDirected` | quickjs/libbf.c:448-589 | the stored number is never beyond the exact one towards zero and never short of it away from zero, infinity included, except when flushed to zero below the normal numbers |
| `RoundLaws.ExponentsApart` | quickjs/libbf.h:65-85 | a finite result never has one of the exponents that mark zero and infinity |
| `CharRanges.OpMembers` | quickjs/libunicode.c:384-396 | members of the union, the intersection and the symmetric difference, in terms of the two lists |
| `CharRanges.OpCommutes` | quickjs/libunicode.c:355-405 | exchanging the operands gives the same points |
| `CharRanges.XorTwice` | quickjs/libunicode.c:392-394 | a second symmetric difference with the same list gives back the normal form of the first |
| `CharRanges.XorOfParts` | quickjs/libunicode.c:384-396 | the symmetric difference is the union without the intersection, as lists of points |
| `PatternLaws.EndsRecord` | quickjs/libregexp.c:2223-2242 | a match changes no capture outside its pattern, and captures that are unset or intervals of the input stay so |
| `PatternLaws.CaptureRecords` | quickjs/libregexp.c:2223-2228 | after a group, forward or backward, its capture holds the positions before and after the match of its body, smaller first |
| `PatternLaws.SkippedQuantifier` | quickjs/libregexp.c:1579-1588 | a quantifier that may match nothing always has that end, last if greedy and first if not: at the start position, with exactly the captures of its atom unset |
| `AnswerLaws.AnswerCaptures` | quickjs/libregexp.c:2465-2500 | in an answer capture 0 is the match, at the asked position if sticky; every capture is unset or an interval of the input; captures the pattern lacks are unset |
| `AnswerLaws.AssertionsMean` | quickjs/libregexp.c:2193-2296 | word boundaries, ^ and $ in terms of literal word characters and line terminators |
| `AnswerLaws.CharactersMean` | quickjs/libregexp.c:2145-2222 | which characters a literal, the dot and a class read, with and without folding, in both directions |
| `AnswerLaws.FlagBits` | quickjs/libregexp.h:33-38 | each flag is its bit of the flag byte |
| `AnswerLaws.AcceptableExactly` | quickjs/libregexp.c:1319-1324 | a pattern is accepted exactly if it has at most 255 captures, the match included, and fewer than 65535 intervals in every class |
| `AnswerLaws.NestingLimit` | quickjs/libregexp.c:1739-1790 | counted loops nested n deep compile exactly for n up to 255 |

## Left out

- Division and square root call the schoolbook product; `FftMultiply.MulByLength` has the same exact
  contract, so they would not change with it.
- `FftMultiply.FftMul`: at least three limbs in all, since a transform needs two entries; callers have a
  hundred in each operand. Results that overlay an operand, and the vector instructions variant, are
  not part of this model.
- `NttTransform.NttFft`: input and output buffer are the same, as in every call. The cached tables are
  never dropped.
- `RadixConversion.ToRadixRec`: the rounded inverse and quotient are arbitrary numbers, corrected by the
  loops that follow, so nothing is said about how many corrections there are.
- 32-bit limbs, and every branch compiled only for them.
- Allocation failure, and the memory limits of the byte buffer and the state stack.
- NaN, infinities and zero operands of addition, division and square root: one branch each before
  the code modelled here. `NormalizeAndRound` does cover a mantissa of zero.
- `BfRound.Round` covers a precision counted after the radix point; addition, division and square root
  are stated for a precision in bits, the only way the source calls them.
- Correct rounding of functions computed by repeated approximation, and conversion to and from text.
- `FastDivision.FastUdivInit`: a divisor above 2^63 makes the C code shift by the whole word width, which
  C leaves undefined; the model takes that shift mathematically.
- Decimal arithmetic, apart from division by the decimal base and by powers of ten.
- `ReParse.ParseTerm`: works on the tree of a pattern; reading it from text, with escapes, named groups
  and property names, is not part of this model.
- Back references and UTF-16 surrogate pairs: the input is one unit per character. Case folding is an
  arbitrary function.
- `ReCompile.CompiledCorrect`: non-greedy unbounded loops are covered when the minimal width of their body
  is positive; what the others do is the subject of `ReLazy`.
- `ReLazy.StarLazyExact` and `ReLazy.PlusLazyExact`: stated for an empty stack of saved states and for a
  continuation that fails at every point, so that the whole loop is searched.
- The byte codes of instructions for back references, and the dump of bytecode.
- `CharRanges.CharRange.UnionInterval`: the last code point of an interval is below UINT32_MAX, since the code
  adds one to it.
- Reading case and property tables of Unicode.
- `RqSorting.RqSort`: compares and exchanges elements by index; the width-dependent byte exchanges of the C
  code are one exchange here.
