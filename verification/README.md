# Verified models of the QuickJS algorithms

The wrapper repository embeds QuickJS. This project models the algorithmic C code under it in Dafny and proves what
that code computes. `dafny verify dfyconfig.toml` checks everything.

## Regular expressions (`libregexp.c`)

* `RegexText`, `CharSet`, `CharRange`, `UnicodeTable`: code units and surrogate pairs, code-point sets as end-point
  lists, property tables. `UnicodeCode`: what the bytes of a table mean, by an encoder that lookup and expansion undo.
* `RegexPattern`: the syntax tree of a pattern and a reference matcher. `Matches` lists every way to match, in priority
  order, with positions and captures; it knows nothing of bytecode.
* `RegexOrder`, `RegexMeaning`: what it means that a pattern matches, without that matcher: a relation between a state,
  the state after the match and the choices made, said of code units and positions alone. The choices order the results.
  `RegexResults`, `RegexListing`, `RegexRepeats`: the matcher lists exactly those results, in that order. `RegexGroups`:
  what a result says of the groups. `RegexAnswer`: the answer of a search, which this meaning determines.
* `RegexCode`, `RegexCodegen`: instructions with their byte sizes, and the code that is emitted for each pattern, with
  relative jumps.
* `RegexVM`, `RegexSim`: the backtracking machine as a step function over an explicit stack of frames, and the
  simulation relation `Yields`: from here the machine visits these results, in this order, and backtracks out.
* `RegexAtoms`, `RegexBlocks`, `RegexLoops`, `RegexGreedy`, `RegexLayout`, `RegexProgress`, `RegexCorrect`: the code of
  every construct yields the results of the reference matcher. `RegexTheorem`: the whole program halts with the
  reference answer. `RegexStart`: this holds of all programs from exactly the start positions that do not split a
  surrogate pair; `lre_exec` accepts the others too, and a `lastIndex` set by the caller can be one.
* `RegexDepth`, `RegexChecked`: for every pattern, also one whose program runs forever, each instruction has one operand
  stack depth, the net effect of the code before it; every jump target has the depth its source leaves; and at every
  step of every run the operand stack, and every saved frame, has that depth, within the declared stack size.
* `RegexFragment`: which patterns the halting theorem covers, by shape. Two kinds of loop have no zero-advance check and
  can run forever, and for both the programs that halt are characterised: `RegexLazy`, a lazy unbounded quantifier over
  an atom that can match nothing, and `RegexOwn`, a greedy one over an atom that reads a capture of its own.
  `RegexRounds`: that condition within a fixed number of rounds.
* `RegexCompiler`, `RegexMachine`, `RegexMatch`: the compiler and the machine as they are written, a buffer that is
  inserted into and patched, and a loop over arrays; proved equal to the functions above.

The reference matcher follows the code where it departs from section 21.2.2.5.1 of ECMA-262 (11th edition): captures
inside a quantified atom are reset once, on entry to a quantifier whose minimum is 0, and not at every iteration; the
zero-advance check ends the loop instead of rejecting the iteration. `RegexStandard` holds the matcher of the standard
beside it, with the patterns on which both agree and one on which they do not. `re_check_advance` does not count the last capture
of a `save_reset` as written; the model does not either.

## Sorting (`cutils.c`)

`SortSpec`, `Introsort`: `rqsort` with its three-way partition, its 50-entry stack, insertion sort below seven elements
and heap sort at depth 50. The comparator is an object that answers its n-th question in any way, so the same two
elements may be answered differently at different times, as `js_array_cmp_generic` does once its callback has thrown;
order is promised when the answers follow a total preorder.

## Limb arithmetic (`libbf.c`)

Numbers are little-endian sequences of limbs; `Val(b, s)` is the value in base `b`, and the kernels work in place on a
segment of an array. Limb arithmetic wraps around at the base. The base is a parameter wherever the code does not depend
on it.

* `Limbs`, `LimbKernels`, `LimbUnary`, `LimbProduct`: the carry loops and the schoolbook product.
* `LimbDivision`: two limbs by one limb with a precomputed reciprocal. `LimbDivnorm`: schoolbook division.
* `NewtonStep`, `LimbRecip`: Newton reciprocal. `LimbDivlarge`: division by multiplication with it. The comment above
  `mp_recip` gives the bound `a*r < B^(2n) < a*r + 2`; the code meets `a*r < B^(2n) < a*(r + 2)`, which is proved.
* `DecKernels`, `DecDivision`: carry loops and division in base 10^19, with the division of a double limb by the
  constant base. The base is a parameter here too, under the hypothesis `DecBase`, which is proved of 10^19 and 2^64.
* `NttPoly`, `NttStage`, `NttWord`, `NttFft`, `NttCyclic`, `NttInverse`: the number-theoretic transform between two
  buffers, with entries kept below 2m, and the cyclic convolution built on it. `NttSplit`, `NttConvolve`: convolutions
  longer than one transform, by the recursive split into rows and columns.
* `NttChunks`, `NttCrt`, `NttLimbs`, `NttExact`, `NttSize`, `NttMultiply`: splitting the limbs into digits, their
  residues, Chinese remaindering in mixed radix with the running carry, the choice of digit size and moduli, and the
  whole product. `NttConstants`, `NttRoots`: the moduli, inverses, bit counts and roots of the source have every
  property that the product needs.
* `SqrtWord`, `LimbSqrt`: square root of one limb (table and two iterations), two limbs, and Karatsuba square root.

## Floating point (`libbf.c`)

A finite number is `tab * 2^(expn - bits)` with the top bit of `tab` set. `RoundSpec` says what it means for a magnitude,
integer or real, to be rounded to a multiple of a unit in each of the six deterministic modes, and that a number cut
with a sticky bit rounds as the whole number does.

* `FloatBits`, `FloatRound`, `BigFloat`: rounding in place, with full carry, subnormal results, underflow and overflow.
* `FloatMeaning`: the same, and the operations below, as one statement about real numbers: the place of the last bit,
  the multiple of it that each mode chooses, the exponent range and the flags.
* `FloatSqrt`: `bf_sqrt` is the correctly rounded square root, stated for the real root and, without it, by squares.
* `FloatDigits`, `FloatCancel`, `FloatSum`, `FloatNormalize`, `FloatUnits`, `FloatAdd`: `bf_add` and `bf_sub` are the
  correctly rounded exact sum, for every exponent gap and precision, through the count of cancelled bits, the sticky
  loop with its jump over empty limbs, and normalisation.
* `FloatExact`: at infinite precision the same code adds exactly. `BitLogic`, `FloatLogic`: `bf_logic_op` on infinite
  two's complement.
* `FloatProduct`: `bf_mul` and `bf_div`, correctly rounded. `FloatDivrem`: `bf_divrem` in every rounding mode.
* `RadixSizes`, `RadixEstimate`, `RadixConvert`: divide-and-conquer conversion of integers from and to a radix.

## Model

| member | source | states |
|---|---|---|
| `CharSet.SearchCorrect` | src_c++/libregexp.c:2391-2402 | the binary search over sorted closed intervals answers membership in one of them, for every bound pair |
| `CharSet.Range16Correct` | src_c++/libregexp.c:2367-2405 | on the 16-bit operands of a canonical set, with 0xffff as infinity, the range test accepts exactly the members of the set |
| `CharSet.Range32Correct` | src_c++/libregexp.c:821-857 | the same for 32-bit operands |
| `CharRange.InIsMember` | src_c++/libunicode.c:355-405 | on ordered lists of even length, an odd number of end points up to c is membership in an interval |
| `CharRange.CanonicalUnique` | src_c++/libunicode.c:325-352 | a strictly increasing end-point list is determined by its set |
| `CharRange.MergeStep` | src_c++/libunicode.c:364-402 | one point taken from either or both operands keeps the parity of the output equal to the combined parities, at every code point |
| `CharRange.CharRange.Compress` | src_c++/libunicode.c:326-352 | in-place compaction keeps the set and leaves a strictly increasing list made of the old end points |
| `CharRange.CharRange.Combined` | src_c++/libunicode.c:355-405 | union, intersection and symmetric difference have as members the code points in either, in both, in exactly one of the operands, and are canonical, for operands with empty and touching intervals |
| `CharRange.CharRange.Union1` | src_c++/libunicode.c:407-417 | set union, canonical |
| `CharRange.CharRange.UnionInterval` | src_c++/libunicode.h:91-97 | union with a closed interval, canonical |
| `CharRange.CharRange.Invert` | src_c++/libunicode.c:419-431 | complement below UINT32_MAX, canonical |
| `CharRange.InterByUnion` | src_c++/libunicode.c:389-391 | the list of an intersection is the list of the inverse of the union of the inverses, end point by end point |
| `CharRange.XorByOthers` | src_c++/libunicode.c:392-394 | the list of a symmetric difference is that of the union without the intersection |
| `CharRange.InvertTwice` | src_c++/libunicode.c:419-431 | inverting a canonical list twice gives the list back |
| `UnicodeTable.Decides` | src_c++/libunicode.c:212-237 | the table entry that covers a code point decides, later code points depend on the later entries only |
| `UnicodeTable.SameFrom` | src_c++/libunicode.c:172-203 | decoding from a state on the way gives the same answer for all later code points |
| `UnicodeTable.ExpandTable` | src_c++/libunicode.c:1129-1166 | the expansion appends the intervals of the table |
| `UnicodeTable.IndexPos` | src_c++/libunicode.c:172-203 | the index search finds a decoder state at or before the code point, and none exactly when the code point is beyond the table |
| `UnicodeTable.IsInTable` | src_c++/libunicode.c:205-239 | the indexed lookup terminates inside the table and agrees with membership in the linear expansion, for every well-formed index and code point |
| `UnicodeCode.PointsOfRuns` | src_c++/libunicode.c:205-239 | expanding the bytes of any list of entries, two runs of 1 to 8 or one run in one, two or three bytes, gives exactly the runs at odd places |
| `UnicodeCode.EncodeRuns` | src_c++/libunicode.c:1129-1166 | every list of runs of 1 to 2^21 code points has such an encoding |
| `UnicodeCode.LookupOfRuns` | src_c++/libunicode.c:205-239 | a code point is in the table of an encoded list if and only if it lies in a run at an odd place |
| `UnicodeCode.IndexOfPlaces` | src_c++/libunicode.c:160-203 | an index written from states on the way, 21 bits of code point and the offset in the block, least significant byte first, is well formed |
| `RegexText.PrevUndoesNext` | src_c++/libregexp.c:1924-2012 | stepping back undoes stepping forward if and only if the position is not inside a surrogate pair |
| `RegexText.NextAligned` | src_c++/libregexp.c:1924-1960 | stepping forward from any position ends outside surrogate pairs and advances |
| `RegexText.PrevAligned` | src_c++/libregexp.c:1985-2012 | the same for stepping back |
| `RegexProgress.MatchesOnward` | src_c++/libregexp.c:2089-2494 | every result of every pattern stays aligned, moves in the direction of the match, and keeps the number of captures and their being positions between characters |
| `RegexProgress.MatchesPast` | src_c++/libregexp.c:950-1032 | when the advance analysis answers 1 for the code of a pattern, every match of it strictly advances |
| `RegexResults.SpellsIs` | src_c++/libregexp.c:1924-1960 | reading forward gives the unit, or the code point of the surrogate pair of a wide text, and the position behind it |
| `RegexResults.SpellsBack` | src_c++/libregexp.c:1961-2012 | reading backward gives the one character that ends at a position |
| `RegexResults.AcceptsIs` | src_c++/libregexp.c:2176-2254 | a single character is accepted by equality, by not ending a line, or by an interval of the class that contains it |
| `RegexResults.AssertsIs` | src_c++/libregexp.c:2231-2330 | line and word assertions, said of the two units next to the position |
| `RegexResults.RepeatsIs` | src_c++/libregexp.c:2323-2365 | a back reference, in either direction, accepts exactly the stretch with the same code units as the capture |
| `RegexRepeats.MatchesListed` | src_c++/libregexp.c:2089-2494 | the reference matcher lists exactly the results that the meaning of the pattern allows, a relation between states and choices, in the order of the choices, for every pattern, direction and state |
| `RegexGroups.MeansKeeps` | src_c++/libregexp.c:2257-2276 | a result leaves the captures of all other groups alone and never moves against the direction of the match |
| `RegexGroups.GroupsTold` | src_c++/libregexp.c:2257-2276 | after a result the two ends of a group are what they were, unset, or bracket a stretch of the text that the body of the group matches |
| `RegexStandard.StdAgrees` | src_c++/libregexp.c:1563-1691 | when quantified atoms have no groups and always consume, the matches are those of the RepeatMatcher of the standard, in order |
| `RegexStandard.OptionalNothingDiffers` | src_c++/libregexp.c:1603-1620 | a pattern on which the two differ, on every text: the engine keeps the capture of an empty optional iteration that the standard rejects |
| `RegexLayout.NetZero` | src_c++/libregexp.c:1773-1815 | the code of every pattern leaves the operand stack as deep as it found it |
| `RegexGreedy.CountRepeat` | src_c++/libregexp.c:2450-2489 | the counting loop of the simple greedy quantifier finds the position from which going back one atom at a time visits the results of the generic loop in order |
| `RegexGreedy.SimpleYields` | src_c++/libregexp.c:2137-2159 | the single frame of the simple greedy quantifier yields exactly the results of the generic greedy loop |
| `RegexCorrect.Correct` | src_c++/libregexp.c:1215-1702 | for every well-formed guarded pattern, direction, capture count and stack, the emitted code yields the reference matches in order |
| `RegexCorrect.AltRuns` | src_c++/libregexp.c:1738-1770 | the code of an alternative yields the matches of the left branch, then those of the right branch |
| `RegexCorrect.CatRuns` | src_c++/libregexp.c:1704-1736 | the code of a sequence, reversed for a backward match, yields the matches of the sequence |
| `RegexCorrect.GroupRuns` | src_c++/libregexp.c:1336-1353 | the code of a capture group yields the matches with the group saved, in either direction |
| `RegexCorrect.LookRuns` | src_c++/libregexp.c:1281-1313 | the code of a lookahead or lookbehind, positive or negative, yields what the reference does, and drops the frames of the inner match |
| `RegexCorrect.QuantRuns` | src_c++/libregexp.c:1563-1691 | the code of every quantifier shape yields the repeated matches in greedy or lazy order |
| `RegexTheorem.FindIsFirst` | src_c++/libregexp.c:1850-1858 | the unanchored search finds the first start position from which the pattern matches |
| `RegexTheorem.ExecCorrect` | src_c++/libregexp.c:2089-2535 | the compiled program, run from any aligned start, halts with the captures of the reference search, or with no match when there is none |
| `RegexAnswer.FindMeans` | src_c++/libregexp.c:1851-1870 | what the search finds is the first position, from the start on, with a result, and the preferred result there: capture 0 runs from that position to where the result ends, each group is unset or brackets a match of its body; nothing is found exactly when no position has a result |
| `RegexAnswer.AnswerUnique` | src_c++/libregexp.c:2499-2535 | that answer is determined by the meaning of the pattern |
| `RegexAnswer.ExecMeans` | src_c++/libregexp.c:2089-2535 | the compiled program halts with that answer, whatever is the answer |
| `RegexStart.StartsExactly` | src_c++/libregexp.c:2499-2535 | all compiled programs return the reference answer from a position if and only if it does not split a surrogate pair |
| `RegexStart.BehindWrong` | src_c++/libregexp.c:2444-2449 | from inside a pair, a lookbehind for the first unit of the pair fails although the reference finds it, on every text |
| `RegexDepth.DepthIsNet` | src_c++/libregexp.c:1773-1815 | the static depth at a program counter, one forward scan as in the stack analysis, is the net stack effect of the code before it |
| `RegexDepth.PeakIsGreatest` | src_c++/libregexp.c:1773-1815 | the stack size in the header is the greatest of these depths, and is reached |
| `RegexDepth.FineStep` | src_c++/libregexp.c:2089-2494 | one step of the machine, running, backtracking or accepting, keeps the depth of the operand stack and of every saved frame equal to the static depth |
| `RegexChecked.PatternNeutral` | src_c++/libregexp.c:1215-1702 | the code of every pattern ends with the stack it began with and never goes below it |
| `RegexChecked.PatternGood` | src_c++/libregexp.c:1215-1702 | every instruction emitted for a pattern has its jump targets inside the code, at the depth that the jump leaves |
| `RegexChecked.ProgramSound` | src_c++/libregexp.c:1821-1909 | the whole program, with the search prefix and the final match, satisfies the same at every instruction |
| `RegexChecked.JumpsAgree` | src_c++/libregexp.c:1773-1815 | in every emitted program each instruction has a depth within the stack size, and its successor and the target of its goto, split, loop, lookahead or zero-advance check have the depth it leaves |
| `RegexChecked.StackDepth` | src_c++/libregexp.c:2089-2494 | after any number of steps from any start, for every pattern, the operand stack and every saved frame have the static depth of their program counter, within the declared size |
| `RegexChecked.NeverStuck` | src_c++/libregexp.c:2050-2086 | no run of any emitted program, halting or not, reads outside the program, pops an empty stack or pushes beyond the declared size |
| `RegexFragment.FragmentGuarded` | src_c++/libregexp.c:1592-1598 | without back references, and with consuming atoms under lazy unbounded quantifiers, every loop makes progress or is checked |
| `RegexFragment.FragmentCorrect` | src_c++/libregexp.c:1215-1770 | the halting and correctness theorem for that fragment |
| `RegexLazy.LazyHalts` | src_c++/libregexp.c:1592-1598 | the loop of a lazy unbounded quantifier that must fail halts if and only if iterating the atom settles |
| `RegexLazy.LazyHaltsIffNeverEmpty` | src_c++/libregexp.c:1592-1598 | for an atom without captures it halts if and only if the atom never matches the empty string at a position it reaches |
| `RegexLazy.EmptyLazyDiverges` | src_c++/libregexp.c:1592-1598 | a concrete pattern whose program, as emitted, runs forever, on every text |
| `RegexLazy.EmptyLazyCompiled` | src_c++/libregexp.c:1592-1598 | what the compiler emits for that pattern is one of the programs that the halting theorem is about |
| `RegexOwn.OwnHalts` | src_c++/libregexp.c:950-1032 | a greedy loop over an atom whose analysis answers -1 halts from a position if and only if the chain of preferred matches of the atom from there ends |
| `RegexOwn.OwnReferenceDiverges` | src_c++/libregexp.c:950-1032 | a concrete pattern, a group that matches nothing followed by a reference to it, whose program, as emitted, runs forever on every text |
| `RegexOwn.OwnReferenceCompiled` | src_c++/libregexp.c:950-1032 | the analysis answers -1 on that pattern, so what the compiler emits is one of the programs that the halting theorem is about |
| `RegexRounds.ChainEndsWithin` | src_c++/libregexp.c:950-1032 | a chain of preferred matches ends if and only if it ends within (n + 2)^(1 + 2c) rounds, for n code units and c captures |
| `RegexRounds.OwnHaltsWithin` | src_c++/libregexp.c:950-1032 | the loop halts if and only if the chain ends within that number of rounds |
| `RegexCompiler.ComputeCheckAdvance` | src_c++/libregexp.c:950-1032 | the scan with its capture bitmap computes the advance analysis |
| `RegexCompiler.ComputeSimpleCount` | src_c++/libregexp.c:1034-1071 | the scan computes the number of characters of a simple atom, or that it is not simple |
| `RegexCompiler.ComputeStackSize` | src_c++/libregexp.c:1773-1815 | the scan computes the peak stack depth, or fails above the limit |
| `RegexCompiler.JumpOverSuffix` | src_c++/libregexp.c:409-416 | a jump back to the start of the last piece of the buffer has the size of that piece as its offset |
| `RegexCompiler.Compiler.WrapStar` | src_c++/libregexp.c:1621-1638 | the atom at the end of the buffer becomes the loop code around it |
| `RegexCompiler.Compiler.WrapUpTo` | src_c++/libregexp.c:1639-1649 | the same for a bounded loop |
| `RegexCompiler.Compiler.QuantifyOptional` | src_c++/libregexp.c:1603-1649 | the minimum-0 shapes, with the reset of captures |
| `RegexCompiler.Compiler.QuantifyAtLeast` | src_c++/libregexp.c:1654-1690 | the minimum-above-0 shapes, where the atom is copied |
| `RegexCompiler.Compiler.Quantify` | src_c++/libregexp.c:1560-1691 | insertion, patching and copying leave the code of the quantified pattern |
| `RegexCompiler.Compiler.CompileAlt` | src_c++/libregexp.c:1738-1770 | the buffer gains the code of the alternative; fails exactly on too many captures or intervals |
| `RegexCompiler.Compiler.CompileGroup` | src_c++/libregexp.c:1336-1353 | the buffer gains the code of the group and the next capture index |
| `RegexCompiler.Compiler.CompileLook` | src_c++/libregexp.c:1281-1313 | the buffer gains the code of the look-around with its patched length |
| `RegexCompiler.Compile` | src_c++/libregexp.c:1821-1909 | the whole program, capture count and stack size, or an error exactly when a limit is exceeded |
| `RegexMachine.BinarySearch` | src_c++/libregexp.c:2391-2402 | the loop computes the search over the intervals |
| `RegexMachine.CompareForward` | src_c++/libregexp.c:2334-2350 | the back reference loop compares the captured text forward |
| `RegexMachine.CompareBackward` | src_c++/libregexp.c:2351-2365 | and backward |
| `RegexMachine.CountSimple` | src_c++/libregexp.c:2450-2489 | the loop counts the iterations of a simple atom and the end position |
| `RegexMachine.Machine.PopOnFail` | src_c++/libregexp.c:2118-2172 | backtracking restores the state of the last frame |
| `RegexMachine.Machine.PopOnMatch` | src_c++/libregexp.c:2118-2172 | a match inside a look-around leaves its frames and keeps or restores the captures |
| `RegexMachine.Machine.ExecOne` | src_c++/libregexp.c:2102-2494 | one turn of the loop is one step of the machine |
| `RegexMachine.Execute` | src_c++/libregexp.c:2499-2535 | the loop terminates and returns the answer of the reference search, which is the first match by the meaning of the pattern, with the captures of the preferred result |
| `RegexMatch.Match` | src_c++/libregexp.c:1821-2535 | compiling and running a pattern gives the first match by the meaning of the pattern, with the captures of the preferred result, or the compile error exactly when a limit is exceeded |
| `Introsort.InsertionSort` | src_c++/cutils.c:623-627 | permutes the segment, whatever the comparator answers; sorts it when the answers follow a total preorder |
| `Introsort.HeapSort` | src_c++/cutils.c:470-502 | permutes the segment, whatever the comparator answers; sorts it when the answers follow a total preorder |
| `Introsort.Median` | src_c++/cutils.c:504-509 | one of the three positions, and its element lies between the other two when the answers follow a total preorder |
| `Introsort.Partition` | src_c++/cutils.c:542-599 | permutes the segment, whatever the comparator answers; less, equal, greater than the pivot when the answers follow a comparison; the pointers stay inside for any answers |
| `Introsort.SplitStep` | src_c++/cutils.c:535-621 | the larger part is stacked one level deeper, and the pending segments still cover every unsorted cut |
| `Introsort.SortSegment` | src_c++/cutils.c:529-628 | the stack never holds more than 50 segments, for any answers, because stacked depths strictly increase |
| `Introsort.Sort` | src_c++/cutils.c:512-629 | terminates and permutes the array for every comparator, also one that answers the same question differently each time; sorts it when the answers follow a total preorder |
| `LimbKernels.AddLimb` | src_c++/libbf.c:1031-1038 | sum and carry of two limbs from two wrap-around tests |
| `LimbKernels.SubLimb` | src_c++/libbf.c:1065-1072 | difference and borrow of two limbs |
| `LimbKernels.SubMulLimb` | src_c++/libbf.c:1206-1208 | the double-limb difference and the borrow limb |
| `LimbKernels.MpAdd` | src_c++/libbf.c:1024-1040 | exact sum with carry; nothing outside the segment changes |
| `LimbKernels.MpSub` | src_c++/libbf.c:1058-1074 | exact difference with borrow |
| `LimbKernels.MpAddMul1` | src_c++/libbf.c:1145-1158 | exact multiply-accumulate with the high limb |
| `LimbKernels.MpSubMul1` | src_c++/libbf.c:1198-1211 | exact multiply-subtract with the limb to subtract above |
| `LimbUnary.MpAddUi` | src_c++/libbf.c:1042-1056 | exact increment with carry, through the early exit |
| `LimbUnary.MpSubUi` | src_c++/libbf.c:1094-1109 | exact decrement with borrow |
| `LimbUnary.MpNeg` | src_c++/libbf.c:1077-1092 | exact negation modulo the power of the base |
| `LimbUnary.MpShr` | src_c++/libbf.c:1113-1127 | exact division by a power of two with the lost bits returned |
| `LimbUnary.MpCmp` | src_c++/libbf.c:1415-1427 | compares the values |
| `LimbUnary.MpScanNz` | src_c++/libbf.c:362-370 | whether the value is not zero |
| `LimbProduct.MpMul1` | src_c++/libbf.c:1130-1142 | exact product with one limb |
| `LimbProduct.MpMul` | src_c++/libbf.c:1161-1172 | exact product of two numbers |
| `LimbDivision.ReciprocalBounds` | src_c++/libbf.c:1214-1220 | the precomputed number plus the base is the quotient of B^2 - 1 by the divisor |
| `LimbDivision.UDiv1NormExact` | src_c++/libbf.c:1224-1242 | with all its wrap-around, the reciprocal division returns the exact quotient and remainder |
| `LimbDivnorm.EstimateGood` | src_c++/libbf.c:1310-1320 | the estimated quotient digit is never too small and at most two too large |
| `LimbDivnorm.DivDigit` | src_c++/libbf.c:1310-1342 | one digit: exact digit and remainder, at most two additions back |
| `LimbDivnorm.MpDiv1Norm` | src_c++/libbf.c:1245-1264 | exact division by one limb, by reciprocal or by division |
| `LimbDivnorm.DivnormBase` | src_c++/libbf.c:1275-1344 | a = q b + r with 0 <= r < b, top quotient limb 0 or 1 |
| `NewtonStep.NewtonUpper` | src_c++/libbf.c:1384-1403 | the Newton step never overshoots |
| `NewtonStep.NewtonLower` | src_c++/libbf.c:1384-1403 | and misses by less than two |
| `LimbRecip.Residual` | src_c++/libbf.c:1387-1396 | the residual after lowering the approximation is positive and below 2a |
| `LimbRecip.MpRecip` | src_c++/libbf.c:1351-1412 | a r < B^(2n) < a (r + 2) and the top limb of r is 1, for every normalised a of any length |
| `LimbDivlarge.EstimateSizes` | src_c++/libbf.c:1444-1478 | the quotient from the approximate inverse is never too large and less than five too small, whether the divisor was extended or cut and rounded up |
| `LimbDivlarge.DivnormLarge` | src_c++/libbf.c:1433-1522 | exact quotient and remainder, with fewer than five increments |
| `LimbDivlarge.MpDivnorm` | src_c++/libbf.c:1275-1344 | exact quotient and remainder by whichever method the sizes select |
| `DecKernels.DivBase` | src_c++/libbf.c:5412-5431 | the division of a double limb by the constant base, with its wrap-around and two corrections, gives the exact quotient and remainder |
| `DecKernels.SourceBase` | src_c++/libbf.c:5412-5431 | 10^19 and 2^64 meet the hypothesis on the base, and the constant of the source is the inverse it needs |
| `DecKernels.AddLimbDec` | src_c++/libbf.c:5573-5581 | sum and carry of two decimal limbs from one wrap-around test |
| `DecKernels.SubLimbDec` | src_c++/libbf.c:5613-5620 | difference and borrow of two decimal limbs |
| `DecKernels.SubMulLimbDec` | src_c++/libbf.c:5690-5702 | multiply-subtract of one decimal limb; the borrow limb stays below the base |
| `DecKernels.MpAddDec` | src_c++/libbf.c:5565-5583 | exact decimal sum with carry; nothing outside the segment changes |
| `DecKernels.MpSubDec` | src_c++/libbf.c:5605-5622 | exact decimal difference with borrow |
| `DecKernels.MpMul1Dec` | src_c++/libbf.c:5645-5658 | exact decimal product with one limb |
| `DecKernels.MpSubMul1Dec` | src_c++/libbf.c:5681-5704 | exact decimal multiply-subtract with the limb to subtract above |
| `DecDivision.UDivDecExact` | src_c++/libbf.c:5762-5774 | shifting the divisor and the double limb up, dividing with the reciprocal and shifting the remainder down is the exact division |
| `DecDivision.MpDiv1Dec` | src_c++/libbf.c:5724-5785 | exact division by one limb, halving or by reciprocal or by division |
| `DecDivision.MultTop` | src_c++/libbf.c:5866-5866 | the factor base / (r + 1) brings the top limb of the divisor to at least half the base without a carry |
| `DecDivision.ScaledDivisor` | src_c++/libbf.c:5866-5874 | the scaled divisor has the same length and is normalised |
| `DecDivision.CorrectDec` | src_c++/libbf.c:5899-5918 | adding back ends when the top limb reaches the base, after at most two additions, with the exact digit and remainder |
| `DecDivision.DivDigitDec` | src_c++/libbf.c:5884-5920 | one digit: the estimate is never too small, at most two additions back, exact digit and remainder |
| `DecDivision.FirstDigitDec` | src_c++/libbf.c:5852-5863 | the top quotient digit of a normalised divisor, by comparison |
| `DecDivision.MpDivDec` | src_c++/libbf.c:5831-5934 | a = q b + r with 0 <= r < b, through scaling by the factor and undoing it in the remainder, for every divisor with a nonzero top limb |
| `SqrtWord.SqrtStep` | src_c++/libbf.c:1902-1911 | from the root of the high half to the root of the whole, with a single correction |
| `SqrtWord.Sqrtrem1Correct` | src_c++/libbf.c:1887-1930 | floor square root and remainder of every limb of at least B / 4, from the table |
| `SqrtWord.Sqrtrem2Correct` | src_c++/libbf.c:1944-1970 | floor square root and remainder of two limbs, through the wrapping case q = 2^32 |
| `SqrtWord.SqrtUnique` | src_c++/libbf.c:1944-1970 | floor square root and remainder are determined by the number |
| `LimbSqrt.HalveQuotient` | src_c++/libbf.c:1998-2014 | dividing by s and halving gives the quotient and remainder by 2s |
| `LimbSqrt.SubtractSquare` | src_c++/libbf.c:2025-2034 | the square of the quotient is subtracted, with the shortcut for q = B^l |
| `LimbSqrt.CorrectRoot` | src_c++/libbf.c:2035-2040 | the single correction of a negative remainder, through the wrap-around of the root |
| `LimbSqrt.MpSqrtremRec` | src_c++/libbf.c:1976-2042 | s = floor(sqrt(a)) and r = a - s^2 with 0 <= r <= 2s, for every 2n-limb a with top limb at least B / 4 |
| `LimbSqrt.MpSqrtrem` | src_c++/libbf.c:2050-2069 | the same, with the top bit of the remainder stored above its limbs |
| `NttWord.MulFast3Correct` | src_c++/libbf.c:7444-7452 | with a precomputed factor the result is congruent to the product and below 2m, for any limb |
| `NttWord.MulFast2Correct` | src_c++/libbf.c:7429-7439 | the same, reduced below m |
| `NttWord.ModFastCorrect` | src_c++/libbf.c:7390-7407 | the remainder of any double limb in range, with two corrections |
| `NttStage.StageStep` | src_c++/libbf.c:7738-7765 | one stage of sums and twisted differences halves every column and keeps the transform |
| `NttFft.ButterflyWords` | src_c++/libbf.c:7750-7757 | from entries below 2m the two results are below 2m and congruent to the sum and the multiplied difference |
| `NttFft.Trig` | src_c++/libbf.c:7818-7853 | the table holds the powers of the root of its level |
| `NttFft.RunRow` | src_c++/libbf.c:7749-7758 | the inner loop does all butterflies of a row and writes nothing else |
| `NttFft.RunStage` | src_c++/libbf.c:7745-7761 | the double loop does all butterflies of a stage |
| `NttFft.Fft` | src_c++/libbf.c:7721-7778 | every entry of the result is the input polynomial at that power of the root, in natural order and below 2m, for every length 2^k |
| `NttCyclic.CyclicIs` | src_c++/libbf.c:7940-7970 | the convolution by rotations is the sum of x[i] y[(t - i) mod n] |
| `NttCyclic.EvalCyclic` | src_c++/libbf.c:7940-7970 | the transform of a cyclic convolution is the product of the transforms |
| `NttCyclic.GeoZero` | src_c++/libbf.c:8281-8288 | the powers of a root sum to zero for every exponent that is not a multiple of the length |
| `NttInverse.InverseCorrect` | src_c++/libbf.c:7780-7801 | the inverse transform of the normalised transform gives the coefficients back, times the normalisation factor and the length |
| `NttInverse.LengthInverse` | src_c++/libbf.c:8273-8279 | the stored factor is the inverse of the length |
| `NttInverse.VecMul` | src_c++/libbf.c:7780-7801 | entry-wise product and normalisation, below 2m |
| `NttInverse.ConvolveOnce` | src_c++/libbf.c:7940-7970 | for a length within one transform, buf1 becomes the cyclic convolution modulo m times the normalisation, entries below 2m |
| `NttSplit.RowConvolution` | src_c++/libbf.c:7962-7966 | convolving one row of the split transforms gives that row of the transform of the whole convolution |
| `NttConvolve.FftPartial` | src_c++/libbf.c:7882-7936 | every column is transformed and twisted by the powers of its root, in this order or the reverse |
| `NttConvolve.Convolve` | src_c++/libbf.c:7940-7970 | buf1 becomes the cyclic convolution of both buffers modulo m, for every length, through the recursive row and column split |
| `NttChunks.ReadDigit` | src_c++/libbf.c:7997-8019 | the digit of dpl bits at a position, in the two pieces that the reductions take, for every digit size |
| `NttChunks.LimbToNtt` | src_c++/libbf.c:7973-8031 | the rows hold the residues of the digits of the number modulo each modulus |
| `NttCrt.Garner` | src_c++/libbf.c:8179-8191 | the differences multiplied by the inverses are the mixed radix digits of the one number below the product of the moduli with the given residues |
| `NttCrt.Expand` | src_c++/libbf.c:8193-8214 | the limbs are that number plus the carry, without overflow |
| `NttLimbs.PutBits` | src_c++/libbf.c:7241-7256 | or-ing a limb at a bit position adds it there, cut at the length |
| `NttLimbs.WriteDigit` | src_c++/libbf.c:8224-8230 | the low dpl bits are written at the position of the digit |
| `NttLimbs.NextCarry` | src_c++/libbf.c:8231-8241 | the carry becomes the quotient by 2^dpl |
| `NttLimbs.ToLimbs` | src_c++/libbf.c:8146-8243 | from the residues of coefficients below the product of the moduli, the limbs of the sum of coefficients times powers of 2^dpl, cut at the length |
| `NttExact.ExactCyclic` | src_c++/libbf.c:8374-8377 | when the lengths fit, the cyclic convolution is the product of the polynomials |
| `NttExact.CoefficientsExact` | src_c++/libbf.c:8374-8377 | and its value at the digit base is the product of the numbers |
| `NttSize.GetFftSize` | src_c++/libbf.c:8308-8355 | the digit size, moduli and length found leave room for every coefficient; none is found only if none exists |
| `NttMultiply.FftMul` | src_c++/libbf.c:8358-8457 | the exact product of two numbers of any length, unless no size exists |
| `NttMultiply.Multiply` | src_c++/libbf.c:1176-1196 | the exact product by whichever method the length selects |
| `NttConstants.InversesAreInverse` | src_c++/libbf.c:7304-7309 | every entry of the remainder table is the inverse of one modulus by another |
| `NttConstants.ConstantsAreGood` | src_c++/libbf.c:7290-7309 | moduli, bit counts and inverses meet the hypotheses of the product, given the roots; a size exists up to 2^52 limbs |
| `NttRoots.SourceIsGood` | src_c++/libbf.c:8246-8306 | with the roots of the source as well, so that nothing is assumed: each squares down to -1 and the two tables are inverse |
| `RoundSpec.RoundedUnique` | src_c++/libbf.c:395-446 | each mode determines the rounded number |
| `RoundSpec.AddOneCorrect` | src_c++/libbf.c:395-446 | truncation plus the addend of the mode is the rounded number, exact when the dropped bits are zero |
| `RoundSpec.StickyRounds` | src_c++/libbf.c:993-994 | folding the lost part into the last of two spare bits does not change the rounding, in any mode |
| `RoundSpec.StickyReal` | src_c++/libbf.c:2171-2181 | the same for a real magnitude cut to an integer |
| `FloatBits.GetBit` | src_c++/libbf.c:341-348 | the bit of the number, none outside |
| `FloatBits.ScanBitNz` | src_c++/libbf.c:373-391 | whether some bit up to a position is set |
| `FloatBits.RoundingAddend` | src_c++/libbf.c:395-446 | for a positive precision, the addend rounds correctly, and inexact means that the value changes |
| `FloatRound.AddUnit` | src_c++/libbf.c:525-550 | one unit is added, with the shift on a full carry |
| `FloatRound.KeepBits` | src_c++/libbf.c:570-588 | the low bits are cleared and zero limbs removed, the lowest limb left is not zero |
| `FloatRound.RoundLimbs` | src_c++/libbf.c:484-589 | the mantissa is rounded to any positive precision in every mode, top bit set, lowest limb not zero, inexact if and only if changed |
| `BigFloat.SmallRounds` | src_c++/libbf.c:515-524 | rounding to no bits or fewer gives zero or one unit, correctly |
| `BigFloat.BigFloat.SetOverflow` | src_c++/libbf.c:448-477 | infinity or the largest finite number, by mode and sign; the precision 0 is excluded only in the modes that need a largest finite number |
| `BigFloat.BigFloat.Round` | src_c++/libbf.c:484-589 | correct rounding with the exponent range: flags, subnormal precision, underflow to zero, overflow; for every input but those of `OverflowsEmpty` |
| `BigFloat.TruncationKeeps` | src_c++/libbf.c:448-477 | the modes that overflow to the largest finite number never raise the exponent |
| `BigFloat.EmptyExactly` | src_c++/libbf.c:448-477 | the rounding stores into a number of 0 limbs if and only if the options, the sign and the exponent say so beforehand: precision 0 from the radix point, a positive exponent above the largest one, a mode that truncates |
| `BigFloat.OverflowByMode` | src_c++/libbf.c:448-477 | a mode overflows to infinity if and only if it rounds 3/4 up to 1: not toward zero, not down on positive and not up on negative numbers |
| `FloatMeaning.CorrectMeans` | src_c++/libbf.c:492-589 | what the operations call correct is, over the reals: the exact value rounded to a multiple of the place of its last bit, which with gradual underflow is 2^(max(e, eMin) - p), then zero below the smallest exponent, infinity or the largest number above the largest, with the flags of each |
| `FloatMeaning.RoundMeans` | src_c++/libbf.c:484-589 | the same of what `BigFloat.Round` promises |
| `FloatMeaning.GradualGrid` | src_c++/libbf.c:501-506 | with gradual underflow every finite result is a multiple of 2^(eMin - p) |
| `FloatSqrt.RealRoot` | src_c++/libbf.c:2165-2181 | the real root lies between the integer root and its successor, on it exactly when nothing was lost |
| `FloatSqrt.RootLimbs` | src_c++/libbf.c:2153-2181 | the integer root of the scaled mantissa with its sticky bit |
| `FloatSqrt.RootBySquares` | src_c++/libbf.c:2165-2181 | the result is the rounding of the root, said by comparing squares with the argument alone; inexact exactly when its square differs |
| `FloatSqrt.Sqrt` | src_c++/libbf.c:2126-2188 | the correctly rounded square root of every positive number, for every precision and mode, also stated by squares; special values with their flags |
| `FloatMeaning.SqrtMeans` | src_c++/libbf.c:2126-2188 | the result is every real root of the argument rounded in the sense of `CorrectMeans` |
| `FloatDigits.GetBitsCorrect` | src_c++/libbf.c:318-338 | the limb read at any bit position, also below and above the number |
| `FloatCancel.FirstDifference` | src_c++/libbf.c:837-839 | the leading zeros of the exclusive or locate the first different bit |
| `FloatCancel.GapBound` | src_c++/libbf.c:806-815 | the difference has at most the counted number of leading zero bits |
| `FloatCancel.CountCancelled` | src_c++/libbf.c:816-866 | the limb-wise count ends where the leading bits differ by two |
| `FloatSum.PartialGap` | src_c++/libbf.c:959-981 | one limb stands for a whole stretch of empty limbs: same carry, same sticky flag |
| `FloatSum.GapBounds` | src_c++/libbf.c:959-974 | the jump goes forward and only over limbs empty in both operands |
| `FloatSum.SumLow` | src_c++/libbf.c:935-981 | carry and sticky flag of the part below the result, jumps included |
| `FloatSum.SumHigh` | src_c++/libbf.c:982-992 | the limbs of the result |
| `FloatNormalize.Normalize` | src_c++/libbf.c:599-622 | zero limbs dropped, top bit shifted up, value kept |
| `FloatUnits.CutRounds` | src_c++/libbf.c:993-1004 | rounding the cut, shifted number is rounding the exact number |
| `FloatAdd.CmpMagnitude` | src_c++/libbf.c:738-760 | compares magnitudes across exponents and lengths |
| `FloatAdd.CancelledBits` | src_c++/libbf.c:914-929 | the allowance covers the leading bits that the operation can lose |
| `FloatAdd.CutSum` | src_c++/libbf.c:926-1002 | the computed limbs are the exact sum or difference, cut with its sticky bit |
| `FloatAdd.NormalizeAndRound` | src_c++/libbf.c:592-625 | the normalised number is correctly rounded |
| `FloatAdd.AddFinite` | src_c++/libbf.c:908-1004 | the correctly rounded exact sum or difference of two finite numbers, for every exponent gap and precision |
| `FloatAdd.AddInternal` | src_c++/libbf.c:868-1010 | all operands: zeros, infinities, not-a-number, exact cancellation with its sign, each with its flags, and the rest correctly rounded |
| `FloatAdd.Add` | src_c++/libbf.c:1012-1016 | correctly rounded sum |
| `FloatAdd.Sub` | src_c++/libbf.c:1018-1022 | correctly rounded difference |
| `FloatMeaning.SumMeans` | src_c++/libbf.c:868-1010 | the exact sum of the real values, rounded in this sense, with its sign; a zero sum has the sign of the mode |
| `FloatExact.AddExact` | src_c++/libbf.c:868-1010 | at infinite precision the sum or difference is exact, and a zero has the sign of the mode |
| `BitLogic.OpBit` | src_c++/libbf.c:2309-2320 | each bit of the limb operation is the or, exclusive or, and of the bits |
| `FloatLogic.BitsDetermine` | src_c++/libbf.c:2322-2406 | an integer is determined by the bits of its infinite two's complement |
| `FloatLogic.LogicUnique` | src_c++/libbf.c:2322-2406 | so is the result of a logical operation |
| `FloatLogic.LogicOp` | src_c++/libbf.c:2322-2406 | every bit of the infinite two's complement of the result is the and, or, exclusive or of the bits of the operands, for every combination of signs, minus zero, and the shortened length of an and; a zero result has no sign |
| `FloatLogic.LogicSums` | src_c++/libbf.c:2309-2406 | of the results on the same integers: or + and == x + y, and exclusive or + 2 and == x + y |
| `FloatLogic.LogicDeMorgan` | src_c++/libbf.c:2309-2406 | the complement of the or is the and of the complements |
| `FloatProduct.Mul` | src_c++/libbf.c:1524-1590 | correctly rounded product of all operands, special values with their flags |
| `FloatMeaning.ProductMeans` | src_c++/libbf.c:1524-1590 | the exact product of the real values, rounded in the sense of `CorrectMeans` |
| `FloatProduct.QuotientLimbs` | src_c++/libbf.c:1687-1712 | the quotient limbs with the remainder in the sticky bit |
| `FloatProduct.Div` | src_c++/libbf.c:1652-1722 | correctly rounded quotient of all operands, special values, invalid operation and division by zero |
| `FloatMeaning.QuotientMeans` | src_c++/libbf.c:1652-1722 | the same of the real quotient |
| `FloatDivrem.Rint` | src_c++/libbf.c:2299-2302 | the number rounded to an integer by any mode, infinity exactly when that is beyond the exponent range |
| `FloatDivrem.TruncDivRem` | src_c++/libbf.c:1638-1650 | floor of the quotient of magnitudes, and the exact remainder |
| `FloatDivrem.DecisionRounds` | src_c++/libbf.c:1758-1815 | the decision to go up, by the mode, signs, twice the remainder and the parity of the quotient, is the rounding of the real quotient |
| `FloatDivrem.DivRemFinite` | src_c++/libbf.c:1758-1818 | a = q b + r with q the real quotient rounded by the mode, or 0 <= r < |b| in the Euclidean mode, for every combination of signs; a zero quotient has the sign of the quotient and a zero remainder that of a |
| `FloatDivrem.DivRem` | src_c++/libbf.c:1732-1824 | the same for all operands, with special values and the remainder rounded to its own format |
| `FloatMeaning.RoundingMeans` | src_c++/libbf.c:1815-1824 | the remainder is the exact one, rounded in the sense of `CorrectMeans` |
| `FloatDivrem.UnroundedRemainder` | src_c++/libbf.c:1732-1824 | at infinite precision the remainder is kept, so a = q b + r holds of the result |
| `FloatDivrem.QuotientNeedsRoom` | src_c++/libbf.c:1638-1650 | when the exponents of the operands differ by more than the largest exponent, every right quotient, by any mode, has an exponent above it: the condition on the quotient is needed |
| `RadixSizes.PartSizes` | src_c++/libbf.c:2703-2706 | both parts of a split have the floor or ceiling of n0 / 2^level as their size, and the high part at most one digit more |
| `RadixSizes.LevelInside` | src_c++/libbf.c:2741-2741 | a level that still splits is inside the table of powers |
| `RadixConvert.FromRadixRec` | src_c++/libbf.c:2693-2729 | the value of the digits; the cached power of a level serves every call at that level |
| `RadixConvert.FromRadix` | src_c++/libbf.c:2732-2753 | the value of the digits |
| `RadixEstimate.EstimateQuotient` | src_c++/libbf.c:3413-3419 | the quotient by the rounded inverse is within two of the exact one |
| `RadixConvert.CorrectQuotient` | src_c++/libbf.c:3421-3441 | exact quotient and remainder after at most two corrections |
| `RadixConvert.ToRadixRec` | src_c++/libbf.c:3373-3456 | the digits below the radix whose value is the number, written in their place only |
| `RadixConvert.ToRadix` | src_c++/libbf.c:3459-3482 | the digits below the radix whose value is the number |
| `Limbs.DigitsUnique` | src_c++/libbf.c:3459-3482 | digits are determined by their value |
| `RadixConvert.ToThenFrom` | src_c++/libbf.c:3373-3482 | converting to a radix and back gives the number, for every number that fits |
| `RadixConvert.FromThenTo` | src_c++/libbf.c:2693-2753 | converting from a radix and back gives the digits, for every digit string |
| `RadixConvert.SourceWide` | src_c++/libbf.h:150-160 | the default exponent range of the source has the room that the conversion needs, for every number of up to 2^53 limbs |

## Left out

- Transcendental functions, constants and the decimal conversions built on Ziv's strategy: the source states no error bound for them.
- The rest of the decimal layer (`bfdec_*`, decimal square root, `mp_mul_basecase_dec`, conversion between decimal limbs and digits): it repeats the binary code on the kernels that are modelled.
- The strips of 16 columns in `ntt_fft_partial`, which are a matter of cache: one column is copied, transformed and written back at a time. The residues modulo the several moduli are rows of their own, not parts of one buffer.
- In-place aliasing of results and operands (`r == a` in `bf_mul`, the overlap flags of `fft_mul`): results are new objects.
- Faithful rounding (`BF_RNDF`), which is not deterministic by design.
- Allocation failure, growth of dynamic buffers and the encoding of instructions into bytes: a buffer is a sequence, and instructions carry their sizes.
- The textual syntax of regular expressions: the model starts from the syntax tree and keeps the code-generation half of the parser.
- Case-insensitive matching and its canonicalisation tables.
- Unicode property tables as data: `WellFormedIndex` is the hypothesis about them.
- Interrupts and the limit of the C stack in the matcher.
- The AVX2 code, the 32-bit limb configuration, the JNI glue and the Java wrapper.
- RegexTheorem.ExecCorrect: `Guarded` asks that each unbounded loop advances or has the zero-advance check of the source; outside it programs may run forever. `RegexLazy` and `RegexOwn` say when, for both kinds of loop without the check. The start is not inside a surrogate pair: `RegexStart` shows that there the statement is false.
- RegexRepeats.MatchesListed: the position and the captures of the state lie between characters (`Good`); by `RegexProgress.MatchesOnward` a match from such a state reaches no other.
- RegexLazy.LazyHalts: the pattern is the loop and then a class that matches nothing, run sticky.
- RegexOwn.OwnHalts and RegexRounds.OwnHaltsWithin: the pattern is the loop alone, run sticky.
- Introsort.Sort: the comparator does not write to the array.
- CharRange.CharRange.UnionInterval: the upper end is below UINT32_MAX, because the source computes its successor in 32 bits.
- CharRange.CharRange.Combined: the target range is empty at the start, as at every call in the source.
- FloatBits.RoundingAddend: the precision is positive; BigFloat.SmallRounds and BigFloat.BigFloat.Round have the other cases.
- BigFloat.BigFloat.Round: the inputs of `OverflowsEmpty` are excluded, where the source has no result: `bf_set_overflow` computes a length of 0 limbs and still writes `tab[0]` (src_c++/libbf.c:463-469). `BigFloat.EmptyExactly` says that these are all such inputs.
- FloatSqrt.Sqrt: a precision counted from the radix point is excluded, as the documentation of that flag does.
- FloatAdd.AddInternal: the same.
- FloatProduct.Mul and FloatProduct.Div: the same; the limbs of the product come from the schoolbook method, with which `NttMultiply.Multiply` agrees.
- FloatProduct.Div, FloatDivrem.DivRem and RadixConvert.ToRadix: a limb has at least 4 bits, the source has 64.
- FloatLogic.LogicOp: the exponents of the operands are below the largest exponent, since the result can have one bit more.
- FloatDivrem.DivRem: the exponents of the operands, of their quotient and of their last bits are inside the exponent range (`Room`), so that the intermediate results are exact; `FloatDivrem.QuotientNeedsRoom` says that the part about the quotient is needed.
- RadixConvert.FromRadixRec, RadixConvert.FromRadix and RadixConvert.CorrectQuotient: integers are held as values; `FloatProduct.MulExact` and `FloatExact.AddExact` are what `bf_mul` and `bf_add` do to them.
- RadixConvert.ToRadix and RadixConvert.ToRadixRec: the same, except in the estimate of the quotient, and the inverse of a power is computed again at each use instead of kept in the table. The exponent range holds the number and the inverse (`Wide`, which `RadixConvert.SourceWide` shows for the range of the source).
- LimbRecip.MpRecip: the base is at least 6; LimbDivlarge.DivnormLarge and LimbDivlarge.MpDivnorm take a base of at least 10, the source has 2^64.
