# Models of the regular-expression engine, number conversion, sorting and Unicode ranges of the C library

This project models four self-contained parts of `lib/` and proves what they promise. Dafny checks all of it with
`dafny verify dfyconfig.toml`.

**Regular expressions (`lib/libregexp.c`).** Patterns are syntax trees (`Regex.dfy`). The reference semantics,
`Regex.Matches`, is the ordered list of all states in which a backtracking matcher may end. `Parser.dfy` is the compiler:
a class whose `byteCode` grows and is patched in place, with gaps inserted before code already emitted, atoms copied and
relative jumps filled in. `CodeGen.dfy` says which instructions come out, `Bytecode.dfy` how they lie in bytes. `Matcher.dfy`
is the matcher as a machine that takes one step at a time over program counter, position, counter stack and choice stack;
`Driver.dfy` is the loop of `lre_exec_backtrack` with these as fields. `CodeCorrect.CodeDoes` connects the two: code delivers
the reference list, in order, at any address and above any choice stack. It composes from facts about sequencing,
splits and lookahead (`Simulation.dfy`), loops (`Loops.dfy`) and the fast greedy quantifier (`SimpleQuant.dfy`).
`Engine.CompiledRuns` adds the search for the leftmost match and termination, `StackDepth.StackSound` the counter stack.
What code and reference share, single characters, assertions, back references and captures, is pinned down separately:
`Characters.dfy` says what they mean in terms of the code points of the text, `Captures.dfy` what the captures of a match are.

**Numbers (`lib/dtoa.c`).** `Limbs.dfy`, `Reciprocal.dfy` and `Bignum.dfy` are the limb arrays, with wrap-around written out.
`Rounding.IsRound` says what a rounded quotient is, without saying how it is found; `PowerScaling.dfy` and `Binary64.dfy`
prove scaling by powers of the radix and rounding to binary64 against it. `FreeFormat.dfy` is the loop that looks for the
fewest digits, `Dtoa.dfy` and `JsAtod.dfy` are `js_dtoa` (free format) and `js_atod` on the bits of a double.
`RoundTrip.PrintedReadsBack` puts them together: printing and reading back is the identity on every double other than NaN, in
every radix and exponent mode. `NumberGrammar.dfy` says what is read, in every form the grammar allows, and `NumberShape.dfy`
what is printed: when an exponent is shown, where the point stands, and that there are no needless zeros. Nothing is assumed about the numeric tables: `Logarithms.dfy` certifies close rational bounds on
the logarithm of every radix, and every table of digit counts, exponents and multipliers is checked against them.

**Sorting (`lib/cutils.c`).** `Sorting.dfy` is `rqsort` on an array, in place, with its stack of 50 segments, three-way
partition, heapsort fallback and insertion finish, for any comparison that is a total preorder.

**Character ranges and tables (`lib/libunicode.c`).** `CharRanges.dfy` and `CaseFolding.dfy` are boundary lists as mutable
objects, with membership as a parity of points below. `UnicodeTables.dfy` is linear decoding and indexed lookup of the
run-length tables, `RunLengths.dfy` the encoding they are made by, `Normalization.dfy` canonical ordering.

Conventions. A method that follows a C function is proved against a function or predicate on values, and the lemmas are about
that. `|` of disjoint bit ranges is written as `+`, masks and shifts as `%`, `/` and `*` with powers of two; a variable that
only collects whether something was non-zero is a `bool`. Where the code and the specification of the language differ, the
model follows the code: captures are reset only before a quantifier whose minimum is zero (`lib/libregexp.c:2221-2230`), not
before every round as in section 22.2.2.3.1 of ECMA-262.

One thing the documentation does not mention: what `js_dtoa` prints for NaN is a number in the radixes from 24 on, where `n`
and `a` are digits. `RoundTrip.NaNReadsBack` states exactly where it is read back as NaN.

Nor is it said that the lower limit for exponents in automatic mode is the double nearest to radix^-6 and not the power itself:
`NumberShape.MillionthIsBelow` is the number for which that matters in radix 10.

## Model

| member | source | states |
|---|---|---|
| Subjects.PrevUndoesGet | lib/libregexp.c:2558-2640 | stepping back undoes stepping forward at a position if and only if that position is not inside a surrogate pair |
| Subjects.NextAligned | lib/libregexp.c:2558-2573 | reading a character from a position outside every pair ends at such a position |
| Characters.CharsOfUtf16 | lib/libregexp.c:2558-2573 | the characters read one after the other are the code points that the UTF-16 text encodes |
| Characters.PeekPrevSeesChar | lib/libregexp.c:2591-2606 | looking back at the end of a character sees the character that was read |
| Characters.CharMeaning | lib/libregexp.c:2813-2826 | a literal, dot or class matches exactly when it stands for the next character of the text, and consumes that one |
| Characters.AssertionMeaning | lib/libregexp.c:2869-2974 | line starts, line ends and word boundaries hold by the characters on both sides of the position alone |
| Characters.RepeatMeaning | lib/libregexp.c:2989-3004 | the loop over a group succeeds exactly when its folded characters are a prefix of those that follow, and ends behind that prefix |
| Characters.BackrefMeaning | lib/libregexp.c:2975-3004 | a reference to an unset group matches the empty string; otherwise the characters of the group must come next, folded where case is ignored, and exactly they are consumed |
| Captures.ResetMeaning | lib/libregexp.c:2907-2920 | resetting forgets both ends of exactly the groups named |
| Captures.OwnCaptures | lib/libregexp.c:1792-2387 | a match changes no captures but those of the groups in its own pattern |
| Captures.GroupCaptures | lib/libregexp.c:2901-2906 | a group captures where its match starts and where it ends |
| Bytecode.FetchEnc | lib/libregexp.c:583-617 | every instruction whose operands fit decodes to itself from its bytes, at any address |
| Bytecode.LoadedFromBytes | lib/libregexp.c:583-617 | a whole instruction list survives encoding and decoding wherever its bytes end up |
| LeafCode.SearchIsScan | lib/libregexp.c:3022-3062 | the binary search over intervals finds a character exactly when a linear scan of ordered intervals would |
| LeafCode.ClassAccepts | lib/libregexp.c:1165-1199 | the instruction emitted for a class accepts exactly the members of its range, through the 16-bit, 32-bit and open-ended cases |
| LeafCode.CharAccepts | lib/libregexp.c:1165-1215 | the one instruction emitted for a literal, dot or class consumes exactly the characters the pattern accepts |
| EncodableCode.CodeEncodable | lib/libregexp.c:598-617 | code that fits the size limit has every relative offset and operand in range, so nothing is truncated when it is written |
| Simulation.DoesBind | lib/libregexp.c:2738-2812 | code that delivers a list of states, followed by code that delivers a list for each, delivers the concatenation in order, over any choice stack |
| Simulation.DoesFork | lib/libregexp.c:2832-2850 | a split delivers the results of its preferred branch, then those of the other |
| Simulation.DoesLook | lib/libregexp.c:2851-2862 | a lookahead succeeds with the first result of its body, or fails, and leaves the stacks as they were |
| StraightLine.SimpleAtom | lib/libregexp.c:1562-1607 | an atom that the scan accepts consumes a fixed number of characters, matches at most one way, and sets no capture |
| StraightLine.AdvancingAtom | lib/libregexp.c:1498-1558 | an atom for which the scan asks for no check moves the position forward in every match |
| SimpleQuant.SimpleQuantDoes | lib/libregexp.c:2775-2797 | the fast greedy quantifier delivers the same states in the same order as the general loop |
| SimpleQuant.WalkBack | lib/libregexp.c:2775-2797 | backing up one round at a time revisits the positions the forward run passed, last first |
| Loops.UnlimitedDoes | lib/libregexp.c:2233-2246 | the emitted unbounded loop delivers every number of rounds in order of preference, with or without the advance check |
| Loops.CountedDoes | lib/libregexp.c:2247-2263 | the emitted counted loop delivers up to the bound of rounds in order of preference and drops its counter |
| Loops.ExactlyDoes | lib/libregexp.c:2269-2280 | the emitted minimum loop delivers exactly the states after that many rounds |
| Loops.PlusDoes | lib/libregexp.c:2264-2267 | the backward split after an advancing atom delivers one or more rounds in order of preference |
| CodeCorrect.CodeDoes | lib/libregexp.c:1792-2387 | compilation preserves meaning: the code of any pattern, wherever it lies and whatever is on the stacks, delivers the matches of the ordered backtracking reference in the same order |
| Captures.LeftmostMeaning | lib/libregexp.c:2483-2505 | the answer of a search has capture 0 at the first position that has a match and is the preferred match there; there is none exactly when no position has a match |
| Captures.HereMeaning | lib/libregexp.c:2483-2505 | the answer of a sticky search is the preferred match at the start |
| Engine.StartMeaning | lib/libregexp.c:3192-3198 | the search starts at the greatest position up to the index that splits no surrogate pair: the index, or the position before it |
| Engine.WholeSearches | lib/libregexp.c:2483-2505 | the search prefix makes the preferred match of the program the preferred match at the first position that has one |
| Engine.CompiledRuns | lib/libregexp.c:2725-3204 | a compiled pattern halts on every text, from the starting position of every index, with the captures of the preferred leftmost match or with failure |
| StackDepth.CodeSafe | lib/libregexp.c:2389-2434 | the linear depth scan is consistent across every jump of compiled code, before and after relocation |
| StackDepth.LandsUnique | lib/libregexp.c:2389-2434 | the scan assigns at most one depth to an address |
| StackDepth.MaxDepthBounds | lib/libregexp.c:2389-2434 | the size computed bounds the scanned depth at every address |
| StackDepth.MaxDepthLeast | lib/libregexp.c:2389-2434 | the size computed is the greatest scanned depth itself, and the scan fails exactly when that exceeds the limit |
| StackDepth.StackSound | lib/libregexp.c:2389-2434 | in every state a compiled pattern can reach the counter stack has the scanned depth: it never exceeds the size in the header and no pop finds it empty |
| Scans.ReIsSimpleQuantifier | lib/libregexp.c:1562-1607 | the loop over the bytes computes the straight-line length of the decoded code, or -1 |
| Scans.ReNeedCheckAdvance | lib/libregexp.c:1498-1558 | the loop over the bytes answers whether the decoded code may fail to advance |
| Scans.ComputeStackSize | lib/libregexp.c:2390-2434 | the loop over the bytes computes the greatest scanned depth of the decoded code |
| Parser.ParseState.DbufInsert | lib/libregexp.c:118-125 | opens a gap in the emitted code and moves what follows it |
| Parser.ParseState.EmitRange | lib/libregexp.c:1165-1199 | appends the bytes of the class instruction; fails exactly when the range has too many intervals |
| Parser.ParseState.ParseDisjunction | lib/libregexp.c:2355-2387 | inserting a split before code already emitted and patching the jump yields the bytes of the alternation |
| Parser.ParseState.Quantify | lib/libregexp.c:2179-2308 | insertion, atom copying and jump patching turn the emitted atom into the bytes of the quantified atom, in each of the quantifier cases |
| Parser.ParseState.ParseRepeat | lib/libregexp.c:2118-2308 | appends the bytes of the quantified pattern to what was there, for any position of the atom |
| Parser.ParseState.Parse | lib/libregexp.c:1792-2387 | appends exactly the bytes of the code of the pattern and counts its groups; gives up exactly when a limit is exceeded |
| Driver.LreCompile | lib/libregexp.c:2451-2543 | reports an error exactly when a limit on captures, intervals, size or stack is exceeded; otherwise header and body are those of the pattern |
| Driver.RepeatFreeCompiles | lib/libregexp.c:2451-2543 | patterns without quantifiers compile exactly when they are within the limits on groups, intervals and size |
| Driver.ExecContext.ResetCaptures | lib/libregexp.c:2907-2920 | the loop unsets the groups in place |
| Driver.ExecContext.MatchBackReference | lib/libregexp.c:2975-3004 | the loop over the characters of a group takes the step of the specified machine |
| Driver.ExecContext.PushState | lib/libregexp.c:2676-2712 | saves a choice point on the state stack |
| Driver.ExecContext.ExecuteOne | lib/libregexp.c:2738-3154 | one turn of the loop over the fields is one step of the specified machine, back references compared character by character included |
| Driver.ExecContext.RecurseOne | lib/libregexp.c:2749-2811 | popping a choice point after success or failure is one step of the specified machine |
| Driver.ExecContext.Backtrack | lib/libregexp.c:2725-3154 | the whole loop ends in the configuration the specified machine halts in |
| Driver.LreExec | lib/libregexp.c:3159-3204 | run on a compiled program, returns the captures of the preferred match at the first position from the starting position on (only there when sticky), or none |
| Heaps.RootIsLargest | lib/cutils.c:472-504 | the root of a heap is at least every element |
| Heaps.HeapSort | lib/cutils.c:472-504 | leaves a sorted rearrangement of one segment and nothing else changed |
| Partition.Med3IsMedian | lib/cutils.c:506-511 | the position chosen holds an element between the two others, for any total preorder |
| Partition.FourBands | lib/cutils.c:549-581 | the two scans end with bands equal, smaller, greater and equal around the pivot, a rearrangement of the segment |
| Partition.GatherEqual | lib/cutils.c:582-607 | exchanging the shorter of each pair of blocks brings all equal elements to the middle |
| Partition.ThreeWay | lib/cutils.c:544-607 | one round leaves the segment in smaller, equal and greater bands, the middle one not empty |
| Segments.SettledSplit | lib/cutils.c:608-623 | after a round every out-of-order pair lies inside one pending segment again |
| Segments.SettledDone | lib/cutils.c:625-629 | sorting a pending segment settles every pair inside it |
| Sorting.InsertionSort | lib/cutils.c:625-629 | leaves a sorted rearrangement of the short segment |
| Sorting.RisingPush | lib/cutils.c:608-623 | depths on the stack rise strictly and stay within the cut-off, so a push always finds a free slot |
| Sorting.Rqsort | lib/cutils.c:513-631 | sorts every array under every total preorder into a permutation of itself, through all fallbacks, and terminates within the fixed stack |
| Limbs.MpAddUi | lib/dtoa.c:75-89 | adds one limb to the number, the carry included |
| Limbs.MpMul1 | lib/dtoa.c:92-104 | multiplies the number by a limb and adds another, the high limb included |
| Limbs.MpDiv1 | lib/dtoa.c:137-148 | exact quotient and remainder by a limb |
| Limbs.MpShr | lib/dtoa.c:152-166 | exact quotient and remainder by a power of two below a limb |
| Limbs.MpShl | lib/dtoa.c:170-184 | multiplies by a power of two below a limb, the bits shifted out included |
| Limbs.ValueBound | lib/dtoa.c:69-73 | a limb array stands for a number below 2^(32 n) |
| Reciprocal.Udiv1normInit | lib/dtoa.c:107-113 | the wrapped computation yields the reciprocal of every normalised divisor |
| Reciprocal.Estimate | lib/dtoa.c:117-135 | the first quotient estimate is exact or one too small, for every normalised divisor |
| Reciprocal.Udiv1norm | lib/dtoa.c:117-135 | exact quotient and remainder in wrapping arithmetic, for every normalised divisor and high limb below it |
| Reciprocal.MpDiv1norm | lib/dtoa.c:186-199 | divides an array of any length in place, exactly, by the divisor before normalisation |
| LimbBits.LimbBitIsBit | lib/dtoa.c:300-310 | the bit read from the limbs is the bit of the number, also beyond its end |
| LimbBits.LowBitsZero | lib/dtoa.c:351-361 | the limbwise look at the lower bits tells whether the number is a multiple of the power of two |
| Bignums.Bignum.ShiftUp | lib/dtoa.c:318-335 | multiplies by any power of two |
| Bignums.Bignum.ShiftDown | lib/dtoa.c:374-396 | divides by any power of two and adds the increment, a carry into a new limb included, within the limbs it had |
| Bignums.Bignum.ShrRound | lib/dtoa.c:313-398 | the result is the number over 2^shift rounded in the given mode, for either sign of the shift |
| Bignums.Bignum.FloorLog2 | lib/dtoa.c:448-456 | the position of the highest set bit of a normalised number |
| Bignums.Bignum.MulBase | lib/dtoa.c:1333-1351 | multiplies by the base (2^32 for zero) and adds a limb |
| Rounding.RoundUnique | lib/dtoa.c:294-298 | a quotient has at most one rounding in each mode |
| Rounding.IncrementRounds | lib/dtoa.c:338-372 | deciding from the lowest kept bit, the first dropped bit and the rest is mathematical rounding in every mode |
| Rounding.StickyRounds | lib/dtoa.c:945-952 | with two guard bits, rounding the truncated quotient with its sticky bit is rounding the exact quotient |
| Powers.Pow5Tables | lib/dtoa.c:220-231 | the table entries are the powers of five |
| Powers.Inverse5 | lib/dtoa.c:233-238 | the stored inverses are the reciprocals of the normalised powers of five |
| Powers.PowUi | lib/dtoa.c:242-269 | the power in 64-bit arithmetic, by table or by squaring |
| Powers.PowUiInv | lib/dtoa.c:271-292 | the normalised power with its shift and reciprocal |
| Powers.DigitsFit | lib/dtoa.c:702-708 | a limb holds every number with the tabulated count of digits |
| PowerScaling.DivideByPower | lib/dtoa.c:935-952 | chunked divisions amount to one floor division, and their remainders tell whether it was exact |
| PowerScaling.MulPow | lib/dtoa.c:893-956 | scales by any power of the radix, exactly or with a sticky bit, with the guard bits that rounding needs |
| PowerScaling.MulPowRound | lib/dtoa.c:958-967 | m * 2^e * radix^f correctly rounded, for either sign of e and f and every mode |
| Binary64.RoundToD | lib/dtoa.c:969-1001 | mantissa and exponent of the number rounded at binary64 precision, with gradual underflow and the carry out of 53 bits |
| Binary64.MulPowRoundToD | lib/dtoa.c:1003-1013 | a * radix^f rounded to binary64, with a mantissa of exactly 53 bits or zero |
| Binary64.DoubleUnique | lib/dtoa.c:969-1001 | a positive ratio has at most one rounding to binary64 |
| Logarithms.CloseBounds | lib/dtoa.c:461-471 | certified neighbouring fractions on both sides of 1 / log2(radix), for every radix that is not a power of two |
| Exponents.MulLog2RadixExact | lib/dtoa.c:474-488 | the multiplication by a tabulated constant is the exact floor of a / log2(radix) for -2048 <= a <= 2047 and every radix |
| FreeFormatFacts.EnoughDigits | lib/dtoa.c:722-725 | the tabulated digit counts exceed 53 bits of precision and still fit 64 bits |
| FreeFormatFacts.CloseRounds | lib/dtoa.c:1216-1222 | whatever lies within half a unit of a double (a quarter below a power of two) rounds to it, subnormals included |
| FreeFormatFacts.TryNext | lib/dtoa.c:1198-1207 | when the first exponent overflows the digits, the next one does not, so the inner loop ends after at most two tries |
| FreeFormatSearch.ShorterCandidate | lib/dtoa.c:1208-1212 | when rounding to P digits ends in a zero, rounding to P-1 digits gives the same number and exponent |
| FreeFormatSearch.SearchUnique | lib/dtoa.c:1180-1236 | the digits, their count and the exponent that the search settles on are determined by the double and the radix |
| FreeFormatSearch.DropDigit | lib/dtoa.c:1208-1212 | digits convert back exactly when they do without their trailing zero |
| FreeFormatLoop.FirstFound | lib/dtoa.c:1213-1215 | the unchecked first try at the largest digit count converts back to the double, for every radix |
| FreeFormatLoop.Mantissa | lib/dtoa.c:1196-1207 | the mantissa found for P digits has exactly P digits, after at most one more exponent, and fits the 64-bit word it is read from |
| FreeFormatLoop.Strip | lib/dtoa.c:1208-1212 | removing trailing zero digits keeps the number, and every digit count passed on the way would have led to it too |
| FreeFormatLoop.Back | lib/dtoa.c:1216-1222 | converting back and comparing decides whether the digits round to the double |
| FreeFormatLoop.FreeFormat | lib/dtoa.c:1180-1236 | the loop terminates; it finds the least digit count such that the rounded digits of that count and of every larger one up to P_max convert back to the double, with those digits, the last of them not zero |
| DigitStrings.ReadPrinted | lib/dtoa.c:561-588 | reading n printed digits gives the number back modulo radix^n |
| DigitStrings.PrintedSplit | lib/dtoa.c:847-889 | printing chunk by chunk is printing at once |
| DigitOutput.RadixBaseIs | lib/dtoa.c:710-720 | radix_base_table holds the powers that digits_per_limb_table promises |
| DigitOutput.OutputDigits | lib/dtoa.c:847-889 | writes the lowest digits of the number with the point in place, in every radix |
| NumberReading.ReadMantissa | lib/dtoa.c:1442-1505 | the two loops over the digits collect the leading significant digits, the position of the point and whether anything else was not zero |
| NumberLimits.LeastCounts | lib/dtoa.c:722-751 | the digit counts for printing and the exponents of overflow and underflow are the least that do |
| NumberLimits.GreatestKept | lib/dtoa.c:727-733 | the digits kept for reading are all that fit 128 bits, or 64 bits in a radix that is a power of two |
| NumberRounding.ExponentsBound | lib/dtoa.c:735-751 | numbers from radix^max_exponent overflow and numbers up to radix^min_exponent underflow |
| NumberRounding.BinaryMagnitude | lib/dtoa.c:1572-1607 | in a radix that is a power of two the nearest double of all the digits, however many there are |
| NumberRounding.OtherMagnitude | lib/dtoa.c:1582-1607 | in any other radix the nearest double of the digits kept |
| JsAtod.ReadExponent | lib/dtoa.c:1513-1563 | sign and digits of the exponent, exact below the cut-off |
| JsAtod.LongExponent | lib/dtoa.c:1549-1562 | an exponent too long to be added up lies beyond overflow or underflow for every literal of fewer than 500,000,000 digits |
| NumberGrammar.ToDigitMeaning | lib/dtoa.c:1320-1330 | digits and letters of either case have their value; everything else has none |
| NumberGrammar.ParseNumeral | lib/dtoa.c:1367-1563 | every number that the grammar allows, in either case, with or without sign, prefix, point, exponent and text behind it, is read part by part |
| NumberGrammar.ParseInfinity | lib/dtoa.c:1415-1418 | Infinity is read by its name, with its sign |
| JsAtod.Atod | lib/dtoa.c:1354-1620 | a string is rejected exactly when it has no number; otherwise the result is zero, an infinity, or the nearest double of what it denotes, with its sign, whatever the exponent (with 500,000,000 digits or more an exponent that is cut off decides), and the end is where the number ends |
| DoubleBits.NearestIs | lib/dtoa.c:1591-1607 | a number that rounds to a finite double is read as the bits of that double |
| DoubleDecoding.DecodeAssemble | lib/dtoa.c:1123-1165 | splitting a double into mantissa and exponent and putting them together again is the identity, subnormals included |
| DtoaRoom.FreeRoom | lib/dtoa.c:64 | DBIGNUM_LEN_MAX limbs suffice for every scaling the free-format loop does, for every double and radix |
| NumberRounding.AtodRoom | lib/dtoa.c:64 | DBIGNUM_LEN_MAX limbs suffice for every scaling that js_atod does not shortcut |
| NumberText.IntegerDigits | lib/dtoa.c:590-603 | the digit loop yields the digits without leading zeros within its fixed buffer |
| NumberText.U64toaRadix | lib/dtoa.c:657-689 | integers below 2^53 are written with all their digits and no leading zero |
| NumberText.PutNumber | lib/dtoa.c:1278-1312 | writes the layout of the digits, whose shape and limits are those of NumberShape.PrintedShape |
| JsDtoa.Dtoa | lib/dtoa.c:1108-1318 | the text written is the free format of the double and never exceeds the promised length |
| JsDtoa.PrintsUnique | lib/dtoa.c:1108-1318 | the text is determined by the bits of the double, the radix and the flags |
| NumberLimits.FoundAbove | lib/dtoa.c:1180-1236 | the exponent found is above k exactly for the doubles from radix^k on and the one nearest to it, where the limits are powers 0, -6 and MaxDigits + 4 |
| NumberShape.PrintedShape | lib/dtoa.c:1278-1312 | said of the double alone: an exponent is shown always, never, or exactly outside the limits; with one there is one digit other than zero before the point, without one a zero before the point exactly below 1 and a point exactly for numbers that are no integers; no zero too many |
| NumberShape.ZeroShape | lib/dtoa.c:1139-1154 | zero is one digit, with exponent zero where one is demanded, and with its sign on request |
| NumberShape.DecimalLimits | lib/dtoa.c:1282-1284 | in radix 10 the limits are 10^21 and the double nearest to 10^-6 |
| NumberShape.MillionthIsBelow | lib/dtoa.c:1282-1284 | the double nearest to 10^-6 lies below it and is still printed without an exponent, so the limit is not the power itself |
| RoundTrip.LayoutForm | lib/dtoa.c:1278-1312 | in each of the layouts the digits, the point and the exponent denote the number printed |
| RoundTrip.PrintedReadsBack | lib/dtoa.c:1108-1620 | whatever is printed in free format for a double other than NaN, in any radix and exponent mode, is read back as the same bits; only a zero printed without its sign loses the sign |
| RoundTrip.NaNReadsBack | lib/dtoa.c:1128-1138 | NaN is read back as NaN exactly in the radixes up to 23 |
| PointSets.InIsInterval | lib/libunicode.c:433-459 | counting boundary points at or below a code point is membership in one of the intervals |
| PointSets.CanonicalUnique | lib/libunicode.c:432-459 | two strictly increasing boundary lists of the same set are equal |
| CharRanges.CharRange.Merge | lib/libunicode.c:462-513 | the merge of two ordered lists denotes the union, intersection, difference or exclusive or |
| CharRanges.CharRange.Compress | lib/libunicode.c:433-459 | removes empty and touching intervals in place without changing the set; the result is canonical |
| CharRanges.CharRange.Combine | lib/libunicode.c:462-515 | denotes the operation, in canonical form, with no point that was not in an argument |
| CharRanges.CharRange.Combine1 | lib/libunicode.c:517-527 | combines a range with a list of points in place |
| CharRanges.OpUnique | lib/libunicode.c:461-515 | the result depends on the sets alone, not on the lists that denote them |
| CharRanges.CharRange.Invert | lib/libunicode.c:529-541 | denotes the complement below 2^32 - 1, in canonical form |
| CharRanges.DoubleInverse | lib/libunicode.c:529-541 | inverting twice gives the same boundary list back |
| CaseFolding.SortIntervals | lib/libunicode.c:622-628 | the same intervals, sorted by where they start |
| CaseFolding.SortAndRemoveOverlap | lib/libunicode.c:622-656 | any list of intervals, unordered and overlapping, becomes the canonical list of their union |
| CaseFolding.FoldAll | lib/libunicode.c:681-725 | the run-merging loop emits exactly the images of the members |
| CaseFolding.RegexpCanonicalize | lib/libunicode.c:660-742 | the result denotes exactly the images of the members under case folding |
| RunLengths.TableMeaning | lib/libunicode.c:1467-1473 | a table encoded in the four forms has as members exactly the code points of every other run, and ends where the runs end |
| RunLengths.TableIsEncoded | lib/libunicode.c:1467-1473 | every table of whole tokens is the encoding of some runs |
| RunLengths.EntryMeaning | lib/libunicode.c:263-302 | an index entry made of 21 bits of code point and 3 bits of offset, low byte first, is read as that code point and place |
| UnicodeTables.UnicodeProp1 | lib/libunicode.c:1458-1503 | the linear decoding of a compressed table is a canonical range of what the table says |
| UnicodeTables.FromBoundary | lib/libunicode.c:271-302 | decoding may start at any token boundary of even parity |
| UnicodeTables.GetIndexPos | lib/libunicode.c:271-302 | the block found begins at or below the code point, at a boundary; -1 exactly beyond the table |
| UnicodeTables.LreIsInTable | lib/libunicode.c:304-345 | the indexed lookup agrees with linear decoding for every code point |
| Normalization.ReorderOrders | lib/libunicode.c:1091-1125 | canonical order, a permutation, every starter in its place |
| Normalization.ReorderStable | lib/libunicode.c:1091-1125 | up to every starter, characters of the same class keep their order |
| Normalization.ReorderTwice | lib/libunicode.c:1091-1125 | canonical ordering is idempotent |
| Normalization.SortCc | lib/libunicode.c:1091-1125 | the in-place loops compute the canonical ordering |

## Left out

- Lexing of pattern text, class syntax, named groups, `\p` and the v flag: patterns are syntax trees.
- Lookbehind and the opcodes that only it uses; inline modifiers are resolved in the tree (each literal carries its case mode).
- `lre_canonicalize` is a parameter of the subject text, as are the contents of the Unicode tables.
- The nested call for the fast greedy quantifier is a frame of the machine, not a recursive call; the counter stack of the caller is restored from the frame.
- The size limit is checked on the finished code, not while an atom that is later dropped is in the buffer.
- Allocation failure, growth of dynamic buffers, timeouts, interrupts and the C stack check.
- The byte-wise `exchange_*` functions of the sort: elements are swapped as wholes.
- The fixed and fractional formats of `js_dtoa`, and `mpb_cmp`, which only they use.
- JsDtoa.MaxLength: with exponents disabled it is a constant of its own; `js_dtoa_max_len` estimates that case from the exponent.
- FreeFormatLoop.FreeFormat: not claimed to be the shortest, because the search stops at the first digit count that fails; the count is the least from which all larger ones work.
- NumberRounding.OtherMagnitude: digits beyond `atod_max_digits_table` are dropped in radixes that are not powers of two, as the code does; correct rounding is claimed for the digits kept.
- JsAtod.Atod: options other than the default ones are not modelled. From 500,000,000 digits on, an exponent that is cut off gives zero or infinity by its sign alone, as in the code, which need not be the nearest double. Exponents are unbounded integers; C multiplies them by the bits of the radix in 32 bits.
- Binary64.RoundToD: exponents are unbounded, and shifting a zero mantissa is zero whatever the count, where C leaves counts of 64 and more undefined.
- U64toa: only for numbers below 2^53, as `js_dtoa` calls it.
- Reciprocal.MpDiv1norm: in place only, as it is called; the C function reads its input after shifting it into its output.
- CaseFolding.RegexpCanonicalize: the mask computed by `unicode_case1` and the per-run folding are parameters that must agree with one folding function.
- Normalization other than canonical ordering, scripts, general categories and property names.
- The hash set of strings in `lib/libregexp.c`, `lib/list.h` and the UTF-8 and string utilities.
