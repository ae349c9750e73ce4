# A verified model of the QuickJS support code and of moe's token list

The procedural macros of moe run on a vendored QuickJS. This project models the parts of it that carry the weight, and the
list that the token streams are kept in:

- the regexp engine (`libregexp.c`): patterns as a tree, the compiler that appends, patches, shifts and copies byte code in a
  buffer, and the backtracking executor with its stack of saved states;
- reading and printing of numbers (`dtoa.c`): bignums of 32-bit limbs, division by a precomputed inverse, scaling by a power
  of the radix with a sticky bit, rounding to binary64, the search for few digits, and `js_atod` with its grammar of numerals
  in every radix;
- sorting and transcoding (`cutils.c`): `rqsort` with its explicit stack, and the UTF-8 codecs over buffers;
- character sets, run-length tables and normalization (`libunicode.c`), and the generator of such a table (`unicode_gen.c`);
- the message pipe that workers share (`quickjs-libc.c`), as interleaved steps of any number of threads;
- the intrusive circular list (`moe_list.c`), on the heap.

Code that changes things step by step is modelled by classes and methods over arrays and fields; each is proved against a
specification function, and what the program promises is proved about that function. Files are grouped by prefix: `Re` regexp,
`Dt` numbers, `Sort`, `Utf`, `Cr` and `Uni` sets, tables and normalization, `Pipe`, `MoeList`. `dafny verify dfyconfig.toml`
checks everything.

How the main chains hang together:

- `ReMatch.Results` is a reference matcher: all ways a pattern can match, in the order in which a backtracking matcher tries
  them. Its back references and assertions are stated on the characters of the string (`ReChars`), not by the loops that look
  for them. `ReEmit.LreCompile` writes the program for a pattern into its buffer; `ReCorrect.CompileCorrect` says that the
  program, run by the step machine of `ReVM`, finds exactly these results in this order; `ReProgram.ExecCorrect` that a search
  ends with the first of them; `ReHalt.ExecHalts` that it ends from every start; `ReStack.StackBounded` that the stack stays
  within the bound found by a linear scan; and `ReExec.LreExec` that the imperative executor does what the step machine does.
- `DtDouble.NearestTo` says what the nearest binary64 number is. `DtScale.MulPowRound` and `DtDouble.MulPowRoundToD` compute
  exactly rounded values from bignums; `DtMeaning.Answers` states what `js_atod` answers, `DtMeaning.NearestIff` when that is
  the nearest number, and `DtRoundTrip.PrintThenParse` that every number survives being printed and read. `DtNumeral` says
  which texts are numerals and what they mean; `DtNumeral.ParseNumeral` and `DtGrammar.OnlyNumerals` are the two halves of
  "these are read, and nothing else". `DtShortest` compares the printed digits with all other decimals, and `DtEcma` the printed
  text with the one that ECMAScript prescribes.
- `PipeSafe` proves an invariant over all interleavings of `PipeModel.Step`; `PipeClass.MessagePipe` performs the same steps
  on mutable fields.
- `UniOrder.Order` is the canonical order that exchanging neighbours leads to; `UniNormalize.UnicodeNormalize` works on
  buffers what `UniNorm.Nfc` says; `UniNorm` proves what that keeps, and `UniLaw` which characters join and that nothing is left
  that could.
- `UniBuild.BuildPropTable` generates a run-length table and its index; `UniTable.IsInTable` looks characters up in them.

## Findings

Six properties that one would expect do not hold of the code. Each has its exact condition and an input.

1. **A regexp search that starts between the halves of a surrogate pair** (`lastIndex` is handed over unadjusted,
   `quickjs.c:45735-45740`) can report captures the pattern cannot make: giving back the first greedy iteration steps back over
   the whole pair. `ReMidPair.RightFromIff`: the engine agrees with the reference matcher on every pattern exactly from the
   positions that split no pair. `ReMidPair.MidPairExample`: `.?(.{1})` (flags `su`) on one emoji, from index 1, captures from 0 to 2. It still
   halts, and never reads outside the string (`ReHalt.ExecHalts`).
2. **The exponent of a number is added up in an `int`** (`dtoa.c:1538-1585`). `123456789e+2147483639` reads as 0, not Infinity
   (`DtRoundTrip.OverflowExample`); in radix 16, `1@536870912` reads as 0 (`DtMeaning.ShiftedExample`).
   `DtMeaning.NearestIff`: the answer is the nearest number exactly when the place of the first digit fits an `int`, or the
   wrapped place happens to lie beyond the same end of the range; for the radices that are no powers of two
   (`DtMeaning.NearestIffPlain`) exactly when it fits or the exponent is refused as too large. C leaves signed overflow
   undefined; the model wraps around, which is one possible outcome.
3. **`cr_sort_and_remove_overlap` keeps a stray empty interval**, so its points need not be strictly increasing:
   `[5, 5]` stays (`CrPairs.StrayExample`). `CrRange.CharRange.SortAndRemoveOverlap`: they are exactly when every empty interval
   touches one that is not empty (`CrPairs.NoStray`).
4. **Composition takes U+11A7 for a trailing consonant** (`libunicode.c:942-945`), which section 3.12 of the Unicode Standard
   does not: behind a syllable without one it is swallowed. U+AC00 U+11A7 normalizes to U+AC00 (`UniNorm.LostExample`).
   `UniNorm.NfcKeeps`: the composed text has the same decomposition as the original exactly when no leading consonant, vowel
   and U+11A7 stand in a row in it.
5. **`moe_list_iterate` runs off the list when the callback unlinks the node it is called on**
   (`MoeList.Iterate`: exactly then, behind the first such node); `moe_list_iterate_safe` never does (`MoeList.IterateSafe`).
6. **The digits that js_dtoa prints are not always the fewest** (`dtoa.c:1193-1234`, "find the minimum number of digits"; ECMA-262
   asks for as few as possible): the search rounds the number to ever fewer digits and gives up at the first count whose nearest
   decimal is read as another number, though the next decimal above may be read as this one. 2^-44 is printed with 17 digits, and
   5.684341886080802e-14 has 16 (`DtShortest.SkippedExample`). `DtShortest.ShortestIff`: the digits are the fewest exactly when
   there is no count below 17 for which that happens; it happens to powers of two only (`DtShortest.SkipsLopsided`), where the
   number below is half as far as the one above.

## Model

| member | source | states |
|---|---|---|
| ReCorrect.CompileCorrect | vendors/qjs/quickjs/libregexp.c:1172-1730 | wherever the code of a pattern stands, running it leaves through its end with exactly the results of the reference matcher, in their order, and fails when they are used up; for every pattern, direction and stack below |
| ReEmit.REParseState.EmitNode | vendors/qjs/quickjs/libregexp.c:1172-1730 | the emitter, with its inserts, copies, reversals and patched jumps in the buffer, appends the bytes of that code and nothing else, and fails exactly when there are more than 255 captures |
| ReEmit.LreCompile | vendors/qjs/quickjs/libregexp.c:1781-1872 | compilation succeeds exactly when captures and stack fit their bytes; header and body then describe the pattern |
| ReChars.ForwardIff | vendors/qjs/quickjs/libregexp.c:2311-2323 | a back reference matches forward to a position exactly when the characters from here to there, one by one under canonicalization, are those of the group |
| ReChars.BackwardIff | vendors/qjs/quickjs/libregexp.c:2324-2337 | the same backward |
| ReChars.CharsAre | vendors/qjs/quickjs/libregexp.c:1887-1968 | the characters that are read one by one are those whose UTF-16 form the units are, a surrogate pair never read as two |
| ReChars.AssertionsAre | vendors/qjs/quickjs/libregexp.c:2202-2219 | line and word assertions, stated on the units next to the position and the characters that ECMA-262 lists |
| ReMatch.ResetCapsAt | vendors/qjs/quickjs/libregexp.c:2238-2251 | resetting unsets the captures of the groups from the first to the last, and no others |
| ReScan.NeedCheckAdvanceScan | vendors/qjs/quickjs/libregexp.c:929-981 | the scan over bytes answers the question on instructions that AlwaysMoves is about |
| ReMoves.AlwaysMoves | vendors/qjs/quickjs/libregexp.c:929-981 | where the scan finds no check needed, every result of the fragment has moved |
| ReScan.SimpleCountScan | vendors/qjs/quickjs/libregexp.c:985-1023 | the scan over bytes finds the number of characters one pass of a simple fragment takes |
| ReGreedy.GreedyCorrect | vendors/qjs/quickjs/libregexp.c:2425-2466 | the simple greedy opcode tries the same continuations in the same order as the general loop, from the longest run down to the minimum |
| ReInput.ForwardThenBack | vendors/qjs/quickjs/libregexp.c:1887-1968 | one character forward and one back return to the start exactly from positions that split no pair |
| ReProgram.ExecCorrect | vendors/qjs/quickjs/libregexp.c:2056-2472 | a compiled program, started outside a pair, ends with the first result of the reference search, or with none |
| ReHalt.ExecHalts | vendors/qjs/quickjs/libregexp.c:2056-2472 | every run of a compiled program ends properly, from every position of the string, also inside a pair |
| ReMidPair.RightFromIff | vendors/qjs/quickjs/libregexp.c:2425-2466 | from a position the engine agrees with the reference matcher on all patterns exactly when the position splits no pair |
| ReMidPair.MidPairExample | vendors/qjs/quickjs/libregexp.c:2425-2466 | the smallest instance: the captures reported, and those expected |
| ReStack.StackBounded | vendors/qjs/quickjs/libregexp.c:2007-2043 | in every state a run reaches the stack, and every saved stack, has the depth the linear scan assigns to the place, at most the bound in the header |
| ReEmit.ComputeStackSize | vendors/qjs/quickjs/libregexp.c:1733-1775 | the scan over bytes finds the largest depth, or refuses what does not fit a byte |
| ReEmit.ProgramNeverUnderflows | vendors/qjs/quickjs/libregexp.c:1733-1775 | no instruction of a compiled program pops from an empty stack |
| ReExec.LreExec | vendors/qjs/quickjs/libregexp.c:2477-2514 | the imperative executor, on its arrays and stack of states, halts with the outcome of the step machine from every start; outside a pair that is the first result of the reference search with its captures |
| ReRange.RangeInstrCorrect | vendors/qjs/quickjs/libregexp.c:773-809 | the range opcode emitted for a class, 16 or 32 bits wide with 0xffff as infinity, accepts a code point exactly when it is in the class |
| ReRange.BinarySearchCorrect | vendors/qjs/quickjs/libregexp.c:2342-2418 | the executor's binary search answers membership in the bounds, and its indices stay natural numbers |
| DtLimb.UDiv1Norm | vendors/qjs/quickjs/dtoa.c:107-135 | division by a normalized limb with its precomputed inverse gives the exact quotient and remainder |
| DtLimb.MpDiv1Norm | vendors/qjs/quickjs/dtoa.c:186-199 | the same in place, for any number of limbs and the divisor before normalization |
| DtPow.Pow5InvTable | vendors/qjs/quickjs/dtoa.c:233-238 | the precomputed inverses of the powers of five are those udiv1norm_init computes |
| DtPow.PowUiInv | vendors/qjs/quickjs/dtoa.c:271-292 | a power comes back normalized, with its shift and its inverse, by table or not |
| DtBig.Mpb.ShrRound | vendors/qjs/quickjs/dtoa.c:313-398 | shifting in place rounds the exact quotient in the mode asked for |
| DtArith.StickyRounds | vendors/qjs/quickjs/dtoa.c:918-951 | a quotient with two further bits and a sticky bit rounds as the exact fraction does |
| DtScale.MulPow | vendors/qjs/quickjs/dtoa.c:893-956 | chained limb divisions leave the exact scaled value, with the sticky bit set when any left a remainder, and enough bits |
| DtScale.MulPowRound | vendors/qjs/quickjs/dtoa.c:959-967 | m * 2^e * radix^f, correctly rounded to an integer, for every f and mode |
| DtDouble.RoundedNearest | vendors/qjs/quickjs/dtoa.c:970-1001 | what round_to_d makes of a scaled bignum is the binary64 number nearest to the exact value, ties to even, through subnormals and overflow (section 4.3.1 of IEEE 754-2019) |
| DtDouble.MulPowRoundToD | vendors/qjs/quickjs/dtoa.c:1006-1013 | a bignum times a power of the radix gives the bits of the nearest binary64 number |
| DtDouble.NearestUnique | vendors/qjs/quickjs/dtoa.c:970-1001 | there is only one nearest number |
| DtDouble.CutNearest | vendors/qjs/quickjs/dtoa.c:1572-1581 | a bignum whose last bit stands for dropped ones rounds to the number nearest to all the bits |
| DtMeaning.KeptCut | vendors/qjs/quickjs/dtoa.c:1479-1511 | in a power-of-two radix, the kept digits with the last bit set when another digit was not zero stand in that way for all digits |
| DtRange.InfinityIff | vendors/qjs/quickjs/dtoa.c:1577-1597 | infinity is the nearest number exactly from halfway between the largest one and 2^1024 on |
| DtRange.ZeroIff | vendors/qjs/quickjs/dtoa.c:1577-1601 | zero is the nearest number exactly up to half of the least one |
| DtTables.LimbEntries | vendors/qjs/quickjs/dtoa.c:702-722 | for every radix, the digits of a limb fit, and the radix base is their power |
| DtTables.RangeEntries | vendors/qjs/quickjs/dtoa.c:735-752 | for every radix that is no power of two, the largest and least exponents lie beyond the range of binary64 |
| DtTables.RoomEntries | vendors/qjs/quickjs/dtoa.c:727-752 | for every radix, 52 limbs are enough for the digits that are kept, the largest number and the division |
| DtAtod.JsAtod | vendors/qjs/quickjs/dtoa.c:1354-1620 | for every radix, flag and string, js_atod answers as DtMeaning.Answers says of what DtText.Parse reads: sign, prefix, digits, separators, exponent, and where reading stops |
| DtMeaning.NearestIff | vendors/qjs/quickjs/dtoa.c:1568-1609 | the answer is the nearest number (of all digits, or of the kept ones when the radix is no power of two) exactly when the place of the first digit fits an int or comes out beyond the same end |
| DtMeaning.NearestIffPlain | vendors/qjs/quickjs/dtoa.c:1582-1591 | the same for the other radices, where nothing comes back into the range |
| DtMeaning.ShiftedExample | vendors/qjs/quickjs/dtoa.c:1572-1581 | a large exponent in radix 16 that reads as zero |
| DtRoundTrip.OverflowExample | vendors/qjs/quickjs/dtoa.c:1582-1591 | a decimal string that reads as zero, while infinity is nearest |
| DtLog.LogExact | vendors/qjs/quickjs/dtoa.c:474-488 | the estimate of the decimal logarithm is exact over the exponents of binary64 |
| DtSearch.FreeDigits | vendors/qjs/quickjs/dtoa.c:1184-1241 | the search ends with the number correctly rounded to some count of digits, the last not zero: with this count and every larger one it reads back, the unchecked first try of 17 included, and with one digit less it does not |
| DtShortest.ClosestDecimal | vendors/qjs/quickjs/dtoa.c:1197-1212 | no decimal with at most as many digits is nearer to the number than the one it is rounded to |
| DtShortest.FewerDigits | vendors/qjs/quickjs/dtoa.c:1193-1234 | if a decimal of so few digits is read as the number, but not the one it is rounded to, then that one lies below a power of two, and the next one above is read as the number |
| DtShortest.ShortestIff | vendors/qjs/quickjs/dtoa.c:1193-1234 | no decimal with fewer digits than those found is read as the number, exactly when no count of digits is skipped in that way |
| DtShortest.SkippedExample | vendors/qjs/quickjs/dtoa.c:1193-1234 | a number that is printed with 17 digits where 16 are enough |
| DtDecimal.InsideIff | vendors/qjs/quickjs/dtoa.c:970-1001 | a fraction is read as a number exactly between the middles towards its neighbours, and on them when it is even |
| DtDouble.BitsOnce | vendors/qjs/quickjs/dtoa.c:1218-1222 | mantissa and exponent are told by the bits: comparing them compares the numbers |
| DtDtoa.JsDtoa | vendors/qjs/quickjs/dtoa.c:1108-1318 | the text in the free format is a layout of such digits, or of the exact integer |
| DtEcma.AutoText | vendors/qjs/quickjs/dtoa.c:1278-1318 | in the automatic layout it is the text of Number::toString in ECMA-262 for digits that are read as the number and end in no zero, the fewest unless a shorter decimal is skipped |
| DtEcma.IntegerShortest | vendors/qjs/quickjs/dtoa.c:1168-1178 | the digits of an integer below 2^53 without its trailing zeros are the fewest that are read as it |
| DtNumeral.DigitValue | vendors/qjs/quickjs/dtoa.c:1320-1330 | the value of a digit is its place in 0-9a-z, in either case |
| DtNumeral.ParseNumeral | vendors/qjs/quickjs/dtoa.c:1354-1566 | a numeral of any radix, behind 0x, 0o, 0b, a legacy zero or no prefix, with separators, fraction and exponent, under every option that admits it, is read in its radix as what it means, to its end, whatever delimits it |
| DtNumeral.WrittenThenRead | vendors/qjs/quickjs/dtoa.c:1354-1566 | an integer written in any radix, in whatever case and behind a prefix that is admitted, is read back |
| DtGrammar.OnlyNumerals | vendors/qjs/quickjs/dtoa.c:1354-1566 | whatever is read as a number is such a numeral, admitted by the options, and means what has been read |
| DtGrammar.NumeralIff | vendors/qjs/quickjs/dtoa.c:1354-1566 | a string is read as a number to its end exactly when it is an admitted numeral |
| DtRoundTrip.PrintThenParse | vendors/qjs/quickjs/dtoa.c:1108-1620 | every number comes back from its text, in every layout and under every option for decimal numerals; only the sign of zero needs its flag |
| SortQuick.Med3 | vendors/qjs/quickjs/cutils.c:767-772 | the index it gives holds a median of the three |
| SortHeap.HeapSort | vendors/qjs/quickjs/cutils.c:733-765 | the segment is sorted in place, a rearrangement of itself, and nothing else changes |
| SortQuick.Partition | vendors/qjs/quickjs/cutils.c:805-861 | three-way partition around a median of three, equal elements swapped to the middle, nothing outside the segment touched |
| SortQuick.RqSort | vendors/qjs/quickjs/cutils.c:775-892 | the array ends sorted and a permutation of what it was, for every total preorder; the stack of 50 never overflows |
| UtfCode.EncodeIs | vendors/qjs/quickjs/cutils.c:260-289 | the bytes of a code point are the one sequence with the bit fields of section 3 of RFC 3629, for all four lengths; beyond U+10FFFF they are those of U+FFFD |
| UtfText.UnitsAre | vendors/qjs/quickjs/cutils.c:483-507 | the 16-bit units of a code point are itself, or the two surrogates of section 2.1 of RFC 2781 |
| UtfCode.DecodeExact | vendors/qjs/quickjs/cutils.c:303-394 | a byte string decodes to a code point exactly when it begins with its shortest encoding, and otherwise to one replacement character |
| UtfText.RoundTrip | vendors/qjs/quickjs/cutils.c:483-591 | the UTF-8 form of any 16-bit units, lone surrogates included, decodes to them |
| UtfText.ErrorsCounted | vendors/qjs/quickjs/cutils.c:407-445 | a byte string without errors is the encoding of what it decodes to; every error costs two bytes |
| UtfBuf.EncodeBuf16 | vendors/qjs/quickjs/cutils.c:553-591 | the full length is returned whatever the room, and as many whole characters as fit are stored, with a terminator |
| UtfBuf.EncodeThenDecode | vendors/qjs/quickjs/cutils.c:483-591 | through the two buffers every 16-bit array comes back |
| UtfScan.Scan | vendors/qjs/quickjs/cutils.c:407-445 | the count equals the units that decoding gives, and the kind tells what is among them, on every byte string |
| UtfScan.ScanThenDecode | vendors/qjs/quickjs/cutils.c:407-507 | a buffer of the size scanned is filled exactly; errors are reported exactly when the text is no encoding |
| UtfScan.EncodeThenDecode8 | vendors/qjs/quickjs/cutils.c:455-544 | the 8-bit codecs undo each other |
| CrRange.CharRange.CrOp | vendors/qjs/quickjs/libunicode.c:455-505 | the result denotes the union, intersection or symmetric difference of the two sets, for any nondecreasing points, and is strictly increasing |
| CrRange.CharRange.Invert | vendors/qjs/quickjs/libunicode.c:519-531 | the result denotes the complement, strictly increasing |
| CrRange.CharRange.SortAndRemoveOverlap | vendors/qjs/quickjs/libunicode.c:1345-1379 | the result denotes the union of the intervals, and is strictly increasing exactly when no empty interval stands alone |
| CrPairs.StrayExample | vendors/qjs/quickjs/libunicode.c:1345-1379 | an interval that stands alone and empty, and stays |
| CrSets.StrictUnique | vendors/qjs/quickjs/libunicode.c:426-452 | strictly increasing points are determined by the set they denote |
| UniTable.GetIndexPos | vendors/qjs/quickjs/libunicode.c:272-303 | the binary search gives the last block whose code is not beyond the character, or tells that it is outside |
| UniTable.IsInTable | vendors/qjs/quickjs/libunicode.c:305-338 | the indexed lookup answers membership as the intervals decoded from the whole table do |
| UniTable.UnicodeProp1 | vendors/qjs/quickjs/libunicode.c:1227-1264 | the whole table adds exactly these intervals |
| UniBuild.EntryBack | vendors/qjs/quickjs/unicode_gen.c:1509-1545 | an entry that codes one run or two short ones is read as these runs, of one, two or three bytes |
| UniBuild.BuildPropTable | vendors/qjs/quickjs/unicode_gen.c:1471-1568 | the generated table holds exactly the characters of the property, and its index has the marks that the lookup needs; it fails exactly when the first character has the property or a mark comes too late |
| UniBuild.BuildThenLook | vendors/qjs/quickjs/libunicode.c:305-338 | looking a character up in a generated table by its generated index gives the property back |
| UniOrder.SortCc | vendors/qjs/quickjs/libunicode.c:878-905 | the buffer comes into canonical order by exchanges of reorderable neighbours, and every starter stays where it is |
| UniOrder.CanonicalOrder | vendors/qjs/quickjs/libunicode.c:878-905 | wherever exchanging neighbours comes to an end, it is with that order (section 3.11 of the Unicode Standard) |
| UniOrder.SameOrder | vendors/qjs/quickjs/libunicode.c:878-905 | texts have the same canonical order exactly when the marks of each class stand in the same order between the same starters: the sort is stable |
| UniHangul.SyllableBack | vendors/qjs/quickjs/libunicode.c:915-945 | the jamo of every Hangul syllable compose to it again (section 3.12 of the Unicode Standard) |
| UniHangul.PairsBack | vendors/qjs/quickjs/libunicode.c:936-949 | a composite decomposes into its parts again, except that U+11A7 is lost |
| UniHangul.NfdStepwise | vendors/qjs/quickjs/libunicode.c:907-933 | replacing any character by one step of its decomposition leaves the full decomposition the same |
| UniNormalize.ToNfdRec | vendors/qjs/quickjs/libunicode.c:907-933 | the recursion appends the full decomposition to the buffer |
| UniNormalize.UnicodeNormalize | vendors/qjs/quickjs/libunicode.c:951-1022 | decompose, sort and compose in place give the normal form; the shortcut for characters below 0x100 gives the same |
| UniLaw.RoundLaw | vendors/qjs/quickjs/libunicode.c:995-1019 | in each round the character joins the last starter exactly when everything between is no starter, the nearest of it has a smaller class, and the two have a composite; otherwise it is appended |
| UniLaw.NfcSettled | vendors/qjs/quickjs/libunicode.c:951-1022 | the result has no character that is not blocked (definition D115 of the Unicode Standard) from a starter it composes with, for tables whose composites end in characters that do not decompose and whose decompositions are in canonical order |
| UniNorm.NfcKeeps | vendors/qjs/quickjs/libunicode.c:951-1022 | decomposing the composed text gives the decomposition of the original exactly when no leading consonant, vowel and U+11A7 stand in a row |
| UniNorm.NfcAgain | vendors/qjs/quickjs/libunicode.c:951-1022 | composing twice is composing once, on every text |
| UniNorm.ComposedStays | vendors/qjs/quickjs/libunicode.c:966-975 | Hangul syllables and characters below 0x100 are in composed form already |
| UniNorm.LostExample | vendors/qjs/quickjs/libunicode.c:942-945 | a text of two characters that loses one |
| PipeSafe.NoWakeupLost | vendors/qjs/quickjs/quickjs-libc.c:2508-2531 | after any interleaving, while the mutex is free, exactly one wake-up byte is pending when the queue is not empty, and none otherwise |
| PipeSafe.ClearNeverBlocks | vendors/qjs/quickjs/quickjs-libc.c:2481-2493 | whoever is about to clear the waker finds exactly one byte to read |
| PipeSafe.Fifo | vendors/qjs/quickjs/quickjs-libc.c:3984-3992 | messages taken, dropped at the end and still queued are those posted, in that order |
| PipeSafe.NoUseAfterFree | vendors/qjs/quickjs/quickjs-libc.c:3728-3748 | the pipe is freed at most once, and no thread is about to touch it afterwards |
| PipeSafe.AllFreed | vendors/qjs/quickjs/quickjs-libc.c:3728-3748 | once every thread has let go, the pipe has been freed exactly once and every message released exactly once |
| PipeSafe.SomeoneMoves | vendors/qjs/quickjs/quickjs-libc.c:2508-2531 | while an operation is under way some thread can always move: no deadlock |
| PipeSafe.TakeWhole | vendors/qjs/quickjs/quickjs-libc.c:2508-2563 | left alone, a handler takes the first message, or leaves an empty pipe as it was |
| PipeClass.MessagePipe.Run | vendors/qjs/quickjs/quickjs-libc.c:3693-3748 | the pipe on mutable fields follows every schedule as the state machine does, and keeps its invariant |
| MoeList.AddHead | moe/common/moe_list.c:22-32 | the node comes in behind the head, links mutually inverse, also into an empty list |
| MoeList.AddTail | moe/common/moe_list.c:34-44 | the node comes in at the end |
| MoeList.Replace | moe/common/moe_list.c:58-73 | the new node takes the old one's place, also in a ring of one; the old one is detached |
| MoeList.Remove | moe/common/moe_list.c:75-83 | the ring closes behind the node, which is detached |
| MoeList.IterateSafe | moe/common/moe_list.c:104-111 | every element is visited once and in order, whether the callback keeps it, unlinks it, or frees it with or without unlinking; no freed node is read, and what is left is a ring |
| MoeList.Iterate | moe/common/moe_list.c:85-91 | the plain iteration runs off the list exactly when the callback unlinks, behind the first such node |
| MoeList.IteratePredicated | moe/common/moe_list.c:93-102 | the elements up to and including the first that stops it |
| MoeList.ReverseIteratePredicated | moe/common/moe_list.c:113-130 | the same from the end |

## Left out

Regexps:

- The parser from text to tree: syntax, escapes, error texts, group names, `\p{...}`, case-insensitive classes
  (`cr_regexp_canonicalize`), modifiers. Patterns are given as trees of the constructs that the emitter distinguishes.
- Allocation failure, byte code of 2^31 bytes and more (`ReEmit.ProgramFits`), the timeout poll and the limit of the stack of
  states. `canonicalize` is a parameter; `cbuf_type` 0 and 1 are the same model, since both read single units.
- Captures inside a repeated group are reset only where the emitted code does so, which is less often than ECMA-262 asks.
- lre_byte_swap, lre_get_groupnames and the dump routines.

Numbers:

- JsDtoa: only the free format in radix 10; fixed, fractional and exponential digit counts, and other radices, are not
  modelled, and neither are the integer printers for other radices.
- JsAtod: strings as long as the interpreter's (below 2^30 characters), so that its counters do not overflow. Or-ing digits and
  the sticky bit is modelled as "any is not zero" and as adding one to an even limb.
- Clearing and setting of single bits, shifts and masks on limbs are written as arithmetic.

Sorting and transcoding:

- RqSort: elements are swapped whole; the byte-wise exchange functions by width are not modelled.
- The bit operations of the codecs are written as arithmetic; scanning by or-ing bytes together is a test per byte. CESU-8
  helpers, fp16 conversion, time and threads.

Sets, tables, normalization:

- The contents of `libunicode-table.h`: tables are parameters with well-formedness predicates (`UniTable.GoodIndex`,
  `UniHangul.WellFormed`, `UniLaw.Closed`, `UniNorm.Latin1Tables`). Scripts, general categories, case conversion. Of the
  generator, everything but `build_prop_table`.
- CharRange: allocation failure, and `cr_union_interval`; the sort casts points to pairs, which the model does by copying.
- UnicodeNormalize: allocation failure.

Worker pipe:

- Everything else in `quickjs-libc.c`; writing and reading the wake-up bytes is reliable, the reference counter does not
  overflow, counts of shared buffers and the Windows event are not modelled.

List:

- Node memory itself: a freed node is one whose fields hold anything. `list.h` has the same shape.
- IterateSafe: a callback that unlinks a node next to one it has freed in place would write to freed memory; it is excluded
  (`MoeList.Allowed`).
