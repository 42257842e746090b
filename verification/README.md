# The entropy-coding back end of the JPEG compressor, verified

A Dafny model of the part of libjpeg-turbo's compressor that turns DCT blocks into bytes, and of
the integer arithmetic in front of it. The decoders of the same repository are modelled as far as
they are needed to say that nothing is lost. `dafny verify dfyconfig.toml` checks the whole project.

What is modelled, from the bottom up:

* **Arithmetic coder.** `IntervalCoder` is a binary coder of unbounded precision. `ArithEncoder`
  is the register machine of `src/jcarith.c` with its deferred carries, stacked 0xFF bytes and
  pending zeros; every call is one step of the exact coder, and termination writes the one code
  string of the final interval. `ArithDecoder` is the decoder of `src/jdarith.c`; it returns the
  encoded decisions. `Binarization`, `ArithScan` and `ArithScanEncoder` put the coefficients, the
  statistics bins, the MCUs and the restart intervals on top. `EstimatorRows`, `EstimatorLaws`,
  `EstimatorSums` and `Adaptation` say what the probability estimator of `Aritab` does,
  `BinarizationLaws` and `ArithPrediction` what decisions, contexts and predictions are.
* **Order of the coefficients.** `ZigZag`, with `ZigZagWalk` and `ZigZagLaws`.
* **Huffman coder.** `Words` and `BitPacker` are the word-wide bit accumulator with its test for
  0xFF bytes. `HuffTable` derives codes; `MergeSteps`, `HuffTree`, `CodeLengths`, `TreeDepth`,
  `LengthLimit` and `OptimalTable` generate tables from counts, and `LimitLaws` and `TableLaws` say
  what becomes of the symbols. `BlockSymbols` and `BlockCoder` code and count blocks, with the laws
  of `HuffmanLaws`; `HuffScan`, `HuffEncoder`, `HuffScanDecoder` and `HuffGather` do so for
  whole scans, with restart markers and destinations that suspend; `HuffTwoPass` puts counting,
  table generation and output together;
  `HuffPrediction` says what is predicted from what.
* **Lossless Huffman coder.** `LosslessCoder` is the other bit packer and the difference code,
  `LosslessGather` its two-pass use.
* **Quantiser.** `Quantizer` replaces division by multiplication with a reciprocal; `Products`
  has the laws of products that this takes.
* **Coefficient controller.** `ScanGeometry` and `CoefController` have the single-pass and the
  full-buffer path, and the later passes from the full-image arrays; `ScanOrder` says where every
  block of the image goes.
* **Strip splicing.** `StripSplice` joins scans encoded in parallel, `StripFiles` their files.

How it is modelled. What the source updates in place is a class or an array here, with the
source's fields: the registers of the arithmetic encoder, the bit accumulator, the arrays of the
table generator, the destination's buffer, the controller's counters and block buffers. Each of
these methods is tied to a specification by functions, and the theorems are about those: bit
strings and byte strings, the stuffed segment of a bit string (`Bits.SegmentOf`), a scan
(`ArithScan.ScanBytes`, `HuffScan.ScanBytes`), the padded image (`CoefController.Padded`). Ghost
fields name the history, such as the MCUs committed so far. Integers are unbounded; where the
source's width matters the reduction is written out: the accumulators of 64 or 32 bits, the
lossless register, DCTELEM of 16 or 32 bits (both widths are parameters), the byte counters of
the table generator, the 16-bit coefficients and differences. The forward DCT with quantisation
is, for the controller, an arbitrary function of component, block row and block column. Error
exits are failing results.

Encoder and decoder share specification functions, so a round trip alone would not notice if both
were wrong in the same way. The shared functions therefore have laws of their own, which speak of
blocks, differences, counts and bins instead: the estimator (`Adaptation`), the zig-zag order
(`ZigZagLaws`), decisions and contexts (`BinarizationLaws`), predictions (`ArithPrediction`,
`HuffPrediction`), symbols and segments (`HuffmanLaws`), limited lengths and tables (`LimitLaws`,
`TableLaws`), and the order of a scan (`ScanOrder`).

Three properties hold only under a condition, which is stated exactly, with an input that shows
the failure. The arithmetic decoder accepts a DC difference if and only if its magnitude is at
most 32768, although the encoder codes larger ones; a restart interval is read back if and only
if its own differences are (`ArithScan.IntervalSurvives`), and `ArithScan.WideStepIsNotReadBack` is
a scan that is not. 8-bit and 12-bit samples never come near (`ArithScan.NarrowScanIsSmall`). The
ISLOW quantiser divides by eight times the quantisation value if and only if that is at most 8191
(`Quantizer.IslowDividesByEightfold`). A Huffman table can be generated if and only if no length
that Huffman's procedure gives to the counts exceeds 32 (`OptimalTable.HasTable`, a function of the
counts). That is so for counts adding up to at most 9227464, hence for scans of at most 146467
blocks, and for at most 32 symbols; counts with one more in total, and with 33 symbols, need not
have a table (`OptimalTable.DeepCountsHaveNoTable`).

Where a comment in the source and its code differ the code is modelled. The comment at
src/jchuff.c:428-436 allows two codes of 16 bits for each coefficient; the code merges them into
at most 31 bits and rejects coefficients out of range, which is why `BlockCoder.EncodeBlock`
has a smaller bound.

## Model

| member | source | states |
|---|---|---|
| Adaptation.LpsAdapts | src/jcarith.c:246-252 | the less probable symbol switches the sense of a bin exactly in rows 0, 14, 36, 64, 80, 88, 95, 105, 110 and 112; in every other row but the fixed one it strictly raises the estimate and brings the switch one decision nearer |
| Adaptation.MpsAdapts | src/jcarith.c:253-265 | with renormalisation the more probable symbol keeps the sense and strictly lowers the estimate, but for row 13, which it does not leave |
| Adaptation.SensesAreAlike | src/jaricom.c:34-157 | a state and the one with the other sense have the same estimate and mirrored successors |
| Adaptation.AdaptsWithRenorm | src/jcarith.c:253-257 | a bin changes exactly when the interval is renormalised, and then by the step of the symbol coded |
| Adaptation.OtherBinsStay | src/jcarith.c:240-265 | a decision leaves all bins but its own alone, and the fixed bin in any case |
| Adaptation.BinLearns | src/jcarith.c:246-265 | how many equal decisions make the bin expect them, from any state: exactly the number that its row says |
| Adaptation.AnyBinLearns | src/jcarith.c:246-265 | from every state but the fixed one 29 equal decisions are enough |
| Adaptation.LastRowIsSlow | src/jaricom.c:34-157 | and from row 13 fewer are not |
| Adaptation.TwoOnes | src/jcarith.c:235-265 | a fresh bin that codes 1 twice ends as 0x81 in an interval of 0x8eb4, with one renormalisation shift |
| EstimatorLaws.RowsAreLawful | src/jaricom.c:34-157 | what the above rests on, for each of the 113 rows: where it switches, how far it is from switching, and how its estimate compares with those of its successors |
| EstimatorSums.EntriesAddUp | src/jaricom.c:30-157 | weighted sums of the packed entries, six at a time |
| IntervalCoder.PartsPartition | src/jcarith.c:235-265 | with or without conditional exchange the two sub-intervals are nonempty, disjoint, and together exactly the old interval; the upper one has the size of the estimate, and the more probable symbol has the lower one unless that is the smaller |
| IntervalCoder.RunIsInside | src/jcarith.c:235-265 | a code string that lies in the interval left after any run of decisions lies in the interval before the run, with renormalisation in between |
| CodeString.FinalCodeHasMostTrailingZeros | src/jcarith.c:144-163 | no number of the final interval is divisible by a higher power of two than the one termination chooses |
| CodeString.CodeStringIsInside | src/jcarith.c:138-199 | the terminating code string, followed by zeros without end and read as a fraction, lies in the final interval |
| CodeString.CodeStringIsThis | src/jcarith.c:138-199 | a code string spelling the chosen number without trailing zero bytes is the only one: what is written depends on the decisions alone |
| ArithEncoder.Encoder.Encode | src/jcarith.c:224-317 | one call of the register machine (C, A, CT, pending zeros, stacked 0xFF bytes, stored byte) is exactly one step of the unbounded-precision interval coder with its adaptive bins; bytes out, pending bytes and C together always equal the exact low end of the interval |
| ArithEncoder.Encoder.TopOfRegister | src/jcarith.c:267-275 | in every reachable state what comes out at the top of C is at most 0x11F, and above 0xFF only when a byte is stored that can take the carry |
| ArithEncoder.Encoder.TakeByte | src/jcarith.c:270-311 | a byte with or without a carry joins the bytes so far: their value becomes 256 times the old plus the new, the stored byte is never 0xFF, and there are never zeros at the end of what is written |
| ArithEncoder.Encoder.ByteOut | src/jcarith.c:267-316 | byte output leaves the interval untouched and restores the bound on C |
| ArithEncoder.Encoder.Finish | src/jcarith.c:138-199 | ends the segment with the interval's code string, stuffed, and with no zero byte at its end |
| ArithEncoder.Encoder.Restart | src/jcarith.c:324-359 | the segment, its marker 0xFF 0xD0+n, and then the state of a fresh encoder with cleared bins |
| ArithEncoder.CarryIntoByte | src/jcarith.c:273-287 | a carry turns the stacked 0xFF bytes into zeros and adds one to the stored byte without changing the number the bytes stand for |
| ArithEncoder.NoCarryWithoutBuffer | src/jcarith.c:267-275 | while only 0xFF bytes are stacked and none is stored, no carry can arise |
| ArithDecoder.StartTracks | src/jdarith.c:114-160 | a decoder set to the start of a finished segment in data that a marker follows is in step with a fresh encoder |
| ArithDecoder.DecodeTracks | src/jdarith.c:114-193 | a decoder in step returns exactly the next encoded decision and stays in step, bins included |
| ArithDecoder.MarkerIsFound | src/jdmarker.c:890-931 | wherever in a segment decoding stopped, the marker behind it is found, with no stuffed byte mistaken for it |
| Binarization.DcIsRead | src/jdarith.c:525-571 | the decoder accepts a DC difference exactly if its magnitude is at most 32768, and then returns it and leaves the rest of the decisions; beyond that the encoder still codes but the decoder gives up, without having left the segment |
| Binarization.AcIsRead | src/jdarith.c:576-620 | the coefficients from any position on, with their end-of-block decisions and zero runs, are read back |
| Binarization.CategoryOverflows | src/jdarith.c:542-551 | a magnitude category beyond 14 always ends in the decoder's overflow exit, still inside the segment |
| Binarization.DcRegions | src/jcarith.c:720-757 | for differences up to 32768 the context, category and bit-pattern decisions fall into bins 0-19, 20-34 and 35-48: three disjoint regions |
| Binarization.DcBinsSuffice | src/jcarith.c:720-757 | every difference of two 16-bit coefficients stays inside its table's 64 bins |
| Binarization.SizeRegions | src/jcarith.c:780-813 | an AC magnitude uses its own bin at most twice, then 14 category bins, then 14 pattern bins |
| Binarization.AcBinsUsed | src/jcarith.c:763-817 | a block's AC decisions use only bins 0-244 of their table and the fixed bin |
| BinarizationLaws.ContextOfDifference | src/jcarith.c:721-757 | the context that a difference leaves, said of the difference: 0 if and only if it is zero or, for L > 0, of magnitude at most 2^(L-1); otherwise 4 or 8 by sign up to 2^U and 12 or 16 by sign above |
| BinarizationLaws.DcDecisionsAre | src/jcarith.c:720-757 | every decision for a DC difference by its position: bin and value |
| BinarizationLaws.CoefDecisionsAre | src/jcarith.c:774-813 | every decision for a nonzero AC coefficient by its position; its magnitude category starts at bin 189 if and only if k <= Kx, and at 217 otherwise |
| BinarizationLaws.RunIsCoded | src/jcarith.c:769-817 | a run of zeroes and the coefficient behind it: one end-of-block decision, one decision for each zero, and those of the coefficient |
| BinarizationLaws.TablesAreApart | src/jcarith.c:715-763 | the bins of different tables never meet, nor the fixed bin |
| ArithPrediction.PredictionIsPrevious | src/jcarith.c:686-757 | in a restart interval the prediction is the DC value, and the context the category, of the last block of the same component; 0 if there is none |
| ArithPrediction.BlockFollows | src/jcarith.c:710-817 | the decisions of an interval are, block by block, those of the difference to that block in that context, and the AC decisions |
| ArithPrediction.IntervalStartsFresh | src/jcarith.c:331-358 | an interval starts from the whole unit interval with every bin in state 0 but the fixed one in 113 |
| ZigZagLaws.OrderIsWalk | src/jutils.c:59-70 | the order is the walk of figure A.6: from the DC coefficient to the right, along antidiagonals, and at each edge one step on to the next antidiagonal and back |
| ZigZagLaws.ZigZagIsWalk | src/jutils.c:59-70 | so element k of a reordered block is the coefficient where that walk is after k steps |
| ZigZagLaws.AntidiagonalsInOrder | src/jutils.c:59-70 | antidiagonal comes after antidiagonal, and along each of them the rows fall if it is even and rise if it is odd |
| ZigZag.ZigZagIsUndone | src/jutils.c:59-70 | reordering is undone both ways |
| ArithScan.ScanRoundTrip | src/jdarith.c:198-235 | for every configuration, restart interval and sequence of MCUs: in each restart interval the decoder returns the MCUs up to the first DC difference beyond 32768, loses the rest of that interval, and starts afresh behind the next marker |
| ArithScan.SurvivorAt | src/jdarith.c:504-624 | an MCU comes back if and only if no DC difference up to it in its own interval exceeds 32768 |
| ArithScan.IntervalSurvives | src/jdarith.c:504-624 | a restart interval comes back whole if and only if its own differences are at most 32768, whatever the other intervals hold |
| ArithScan.WholeScanSurvives | src/jdarith.c:504-624 | a scan comes back whole if and only if that holds of all its intervals |
| ArithScan.WideStepIsLost | src/jdarith.c:542-551 | one component with the DC values -32768 and 32767: the second MCU is lost without restarts, and comes back with a restart in between |
| ArithScan.WideStepIsNotReadBack | src/jdarith.c:504-624 | so this legal scan, wherever it lies and whatever marker follows, is decoded to something else than was encoded |
| ArithScan.NarrowScanIsSmall | src/jcarith.c:686-820 | scans with 15-bit DC values, as 8-bit and 12-bit samples give them, always meet that bound |
| ArithScan.NarrowScanRoundTrip | src/jdarith.c:504-624 | hence such a scan, wherever it lies in a file and whatever marker follows, is read back completely, without any further condition |
| ArithScan.RestartIsFound | src/jdarith.c:198-235 | wherever in an interval decoding stopped, in an error or at its end, the decoder finds the marker that follows the interval |
| ArithScanEncoder.CodeDc | src/jcarith.c:720-757 | the in-place loops code exactly the decisions of sections F.1.4.1 and F.1.4.4.1 and return the next context |
| ArithScanEncoder.CodeAc | src/jcarith.c:763-817 | the loops over a block code exactly the AC decisions of section F.1.4.2; the zero-skipping loop stops at or before the last nonzero coefficient |
| ArithScanEncoder.ScanIsClosedAndOpen | src/jcarith.c:695-704 | a scan is its closed restart intervals and the open one, each coded from a fresh state |
| ArithScanEncoder.ScanEncoder.EncodeMcu | src/jcarith.c:686-820 | one call commits one MCU, with a restart marker first exactly when the open interval is full |
| ArithScanEncoder.ScanEncoder.FinishPass | src/jcarith.c:138-199 | the output is then the scan of all MCUs encoded: the concatenation of independently coded restart intervals with markers numbered modulo 8 |
| RestartIntervals.OneMoreMcu | src/jchuff.c:733-742 | how one more MCU moves the restart counter and the marker number, for both entropy coders |
| RestartIntervals.RestartsInClosedForm | src/jchuff.c:733-742 | after count MCUs the open interval has (count - 1) mod interval + 1 of them and (count - 1) / interval markers have been numbered, modulo 8 |
| Words.SwarTestFindsFF | src/jchuff.c:354 | for every word the carry-propagating 64-bit or 32-bit test is nonzero exactly if some byte is 0xFF |
| BitPacker.Packer.PutBits | src/jchuff.c:409-418 | appends the code to the list of bits put so far; shifts stay inside the accumulator; stale bits above the pending ones never matter |
| BitPacker.Packer.FlushBits | src/jchuff.c:469-513 | what is in the buffer is the stuffed list of bits padded with ones to a byte (section F.1.2.3), and the accumulator is empty |
| BitPacker.Packer.EmitByte | src/jchuff.c:344-348 | the speculative zero counts exactly behind 0xFF |
| BitPacker.Packer.Extent | src/jchuff.c:420-447 | the write position is at most two bytes for every eight bits put |
| HuffTable.MakeDerivedTable | src/jchuff.c:221-308 | succeeds exactly if the table has at most 256 codes, a Kraft sum below one, and distinct symbols in range; then every listed symbol has its Annex C code and no other symbol has one |
| HuffTable.MakeCodes | src/jchuff.c:262-283 | the counter that the loop advances gives canonical codes, and the overrun test fails exactly if the lengths do not leave room |
| HuffTable.AssignCodes | src/jchuff.c:285-307 | rejects exactly the tables with a repeated or out-of-range symbol |
| HuffTable.CodeIsPrefixFree | src/jchuff.c:262-283 | no code begins another one, and none is all ones, so padding is never taken for a code |
| HuffTable.SymbolIsDecoded | src/jdhuff.c:435-471 | the bit-sequential decoder returns the symbol of a code and takes no bit more |
| HuffmanLaws.CodesAreCanonical | src/jchuff.c:262-283 | the first code is 0 and the next always the last plus one, shifted up by the difference of the lengths (Annex C) |
| HuffTree.FindTwo | src/jchuff.c:954-975 | finds the two lightest trees, on ties those with the larger index, or that only one is left |
| MergeSteps.PickedAreLightest | src/jchuff.c:954-975 | no tree is lighter than the first picked, none of the others than the second, and among equals they have the largest indices |
| MergeSteps.PickedIsFirst | src/jchuff.c:954-975 | which two trees a round merges is determined by the weights, so the code lengths are a function of the counts |
| HuffTree.BuildLengths | src/jchuff.c:949-1024 | the merge loop over freq, others and codesize computes that function, and its lengths have Kraft sum exactly one, least total cost among all prefix codes, and none longer than the pseudo-symbol's |
| HuffTree.TreeLengthsAreOptimal | src/jchuff.c:949-1024 | the same of the function: the lengths it gives to any weights are optimal |
| TreeDepth.DeepTreeIsHeavy | src/jchuff.c:949-1031 | a symbol of length d needs a total weight of at least Fib(d + 2) |
| TreeDepth.FibWeightsAreDeep | src/jchuff.c:949-1031 | the bound is met: n weights adding up to Fib(n + 1) for which a symbol has length n - 1 |
| CodeLengths.MergeLightest | src/jchuff.c:954-1024 | any assignment of lengths can be turned into one where the two lightest share a parent without getting dearer |
| LengthLimit.MoveTwo | src/jchuff.c:1058-1068 | two codes of the overlong length go, one takes their prefix, and the greatest length in use that is at least two shorter gives up a code for two of the next length |
| LengthLimit.LimitLengths | src/jchuff.c:1058-1069 | the loop computes the repetition of that step; it ends with no length above 16, the code still complete, and as many codes as before |
| LimitLaws.KeptIfPossible | src/jchuff.c:1039-1069 | the lengths up to m keep all their codes if and only if that is possible at all: if some prefix code of as many codes, none longer than 16, has the same number of each of these lengths |
| LimitLaws.DonorIsLonger | src/jchuff.c:1058-1062 | while the longer codes fit behind the lengths up to m, the length that gives up a code is above m |
| LengthLimit.DonorExists | src/jchuff.c:1058-1062 | in a complete code of fewer than 256 symbols an overlong length holds an even number of codes, and a donor length of at least 1 exists |
| LengthLimit.MovedKeeps | src/jchuff.c:1064-1067 | one round of the loop keeps the code space and the number of codes |
| LengthLimit.DropLongest | src/jchuff.c:1071-1074 | takes the pseudo-symbol's place out of the longest length, leaving the Kraft sum below one |
| OptimalTable.GenOptimalTable | src/jchuff.c:930-1091 | success is decided by the counts: it yields a table if and only if Huffman's procedure gives none of them a length above 32; the table is then the one of these lengths, lists every counted symbol and is accepted by the derivation |
| OptimalTable.SafeCountsHaveTable | src/jchuff.c:1026-1031 | counts that add up to at most 9227464 with the pseudo-symbol always have a table |
| OptimalTable.DeepCountsHaveNoTable | src/jchuff.c:1026-1031 | the bound is sharp: counts of 33 symbols that add up to 9227465, far below the sentinel values, take the failing exit |
| OptimalTable.FewSymbolsHaveTable | src/jchuff.c:1026-1031 | counts of up to 32 symbols have a table, however large they are; so DC tables and lossless tables always do |
| OptimalTable.SymbolsListed | src/jchuff.c:1036-1087 | the list of symbols holds every real symbol once and has no hole where the pseudo-symbol was |
| OptimalTable.ListedInOrder | src/jchuff.c:1076-1087 | the symbols are listed by the lengths of the tree and then by value, whatever the limiting did to the lengths |
| OptimalTable.LengthKept | src/jchuff.c:1036-1087 | while there is room behind its length a symbol keeps the length the tree gave it |
| TableLaws.KeptWhilePossible | src/jchuff.c:1036-1087 | the same without naming room: while some prefix code within 16 bits has the same number of codes of each length up to it |
| TableLaws.AllKept | src/jchuff.c:1036-1087 | when no length was above 16 every symbol keeps the length the tree gave it |
| TableLaws.OrderIsKept | src/jchuff.c:1076-1087 | no symbol gets a longer code than one with a greater tree length, so the list need not consider the changed lengths |
| TableLaws.HeavierIsShorter | src/jchuff.c:949-1024 | in optimal lengths a symbol with the greater count is never longer |
| TableLaws.FrequentIsShort | src/jchuff.c:930-1091 | in a table that needed no limiting, a symbol that occurs more often never has a longer code |
| TableLaws.ChainIsLimited | src/jchuff.c:1058-1074 | for 17 symbols with the counts 1, 2, 4, ... it is length 15 that gives up its code: one code of each length up to 14, and three of 16 |
| OptimalTable.TableIsAcceptable | src/jchuff.c:930-1091 | every generated table is accepted by jpeg_make_c_derived_tbl |
| OptimalTable.CountedSymbolsHaveCodes | src/jchuff.c:1099-1135 | in what is derived from a generated table a symbol has a code of 1 to 16 bits exactly if its count is not zero |
| HuffmanLaws.RunSymbols | src/jchuff.c:604-616 | a coefficient behind r zeroes: a symbol 0xF0 for each 16 of them, then the rest of the run and the number of bits in one symbol |
| HuffmanLaws.RunIsSent | src/jchuff.c:586-620 | the AC symbols are those of one nonzero coefficient after the other, each with the zeroes before it |
| HuffmanLaws.EndIsSent | src/jchuff.c:633-636 | zeroes at the end are one symbol 0x00, and none are no symbol |
| HuffmanLaws.DcSymbol | src/jchuff.c:559-582 | the first symbol of a block is the number of bits of its DC difference |
| HuffmanLaws.ExtraBits | src/jchuff.c:563-582 | the extra bits are the magnitude in binary, each bit inverted for a negative value |
| HuffmanLaws.InRangeIs | src/jchuff.c:569-605 | what can be coded: AC magnitudes below 2^m and DC differences below 2^(m+1) |
| HuffmanLaws.PaddingIsOnes | src/jchuff.c:469-513 | a segment is padded with ones to the next whole byte |
| HuffmanLaws.ByteOfBits | src/jchuff.c:344-392 | byte i of a segment before stuffing is made of bits 8 i to 8 i + 7, the first the most significant |
| HuffmanLaws.NoMarkerInside | src/jchuff.c:344-348 | no marker can be found inside a segment: every 0xFF in it is followed by a zero |
| BlockSymbols.BlockRoundTrip | src/jdhuff.c:551-640 | decoding the bits of a block returns the difference and the 63 other coefficients and leaves the following bits untouched, for every block in range and tables that code its symbols |
| BlockSymbols.ExtendIsRight | src/jdhuff.c:474-503 | sign extension undoes the ones' complement of negative values |
| BlockCoder.EncodeBlock | src/jchuff.c:545-643 | succeeds exactly for blocks in range; the bits put are those of the block's symbols, and at most 496 bytes are written whatever the accumulator held, so neither the local buffer nor a direct one is overrun |
| BlockCoder.CountBlock | src/jchuff.c:794-860 | counts exactly the symbols that the output pass sends for the block, and fails for exactly the same blocks |
| BlockCoder.CountBits | src/jchuff.c:809-814 | shifting out a magnitude bit by bit counts its bits |
| HuffScan.ScanIsClosedAndOpen | src/jchuff.c:650-742 | a scan is its closed restart intervals, padded and stuffed, with their markers, and the open interval |
| HuffScan.ScanGrows | src/jchuff.c:676-745 | one more MCU joins the open interval, or closes a full one with the next marker modulo 8 |
| HuffPrediction.BlockIsPredicted | src/jchuff.c:650-726 | every block is coded with a prediction that is the DC value of the last block of its component in the restart interval; 0 if there is none |
| HuffPrediction.BlockIsDifference | src/jchuff.c:545-643 | and what is coded of it is the difference, behind the blocks before it and in front of the rest |
| HuffPrediction.FirstDifference | src/jchuff.c:660-664 | so the first difference of a component in every restart interval is the DC value itself |
| HuffEncoder.StoreBuffer | src/jchuff.c:447-466 | copies the bytes out across any number of buffer dumps; fails only on a destination that suspends and has no room, and then nothing before the working position has changed |
| HuffEncoder.ScanWriter.EncodeMcu | src/jchuff.c:676-745 | a finished MCU is committed; a suspended one leaves saved state, restart counters and output exactly as they were; it fails only for coefficients out of range and suspends only for lack of room |
| HuffEncoder.ScanWriter.FinishPass | src/jchuff.c:753-776 | the output is then the scan of all committed MCUs |
| HuffEncoder.EncodeScan | src/jchuff.c:676-776 | with any pattern of suspensions and drains a finished scan has the same bytes as an uninterrupted one; without suspension, or if every drain leaves room for an MCU and there is one for each MCU and one for the end, it is finished if and only if no coefficient is out of range |
| HuffScanDecoder.ScanRoundTrip | src/jdhuff.c:511-545 | decoding a scan through unstuffing, padding and restart markers gives back its MCUs, if every symbol that occurs has a code |
| HuffScanDecoder.SegmentIsRead | src/jdhuff.c:286-375 | reading up to a marker undoes byte stuffing and finds the marker |
| HuffGather.Gatherer.EncodeMcu | src/jchuff.c:869-897 | the statistics are those of exactly the symbols that the output pass sends for the same MCUs and restart interval; succeeds exactly where that pass does |
| HuffGather.CountedScanIsCoded | src/jchuff.c:869-897 | tables with a code for every counted symbol have one for every symbol sent |
| HuffGather.OptimizedScanIsCoded | src/jchuff.c:869-1135 | a two-pass optimised scan never sends a symbol of code length zero |
| HuffGather.OptimizedScanRoundTrip | src/jchuff.c:676-1135 | a scan coded with the tables made from its own counts is decoded to the same MCUs |
| HuffGather.ScanCountsAreUsable | src/jchuff.c:930-950 | whatever a scan holds, only the 16 DC or 226 AC symbols that can occur are counted, so the counts, as long as their total fits, meet what the table generator needs |
| HuffTwoPass.FinishPassGather | src/jchuff.c:1099-1135 | every table in use is made once from its own counts; succeeds if and only if all of them have a table |
| HuffTwoPass.DeriveTables | src/jchuff.c:137-193 | all components get the codes of their tables; fails if and only if some table is not acceptable |
| HuffTwoPass.ScanIsUsable | src/jchuff.c:869-950 | every table's counts add up to at most 63 for each block, so the counts of a scan can be taken as long as that stays below the sentinel values |
| HuffTwoPass.SmallScanHasTables | src/jchuff.c:1026-1031 | a scan of at most 146467 blocks always gets its tables, whatever the blocks hold |
| HuffTwoPass.EncodeOptimized | src/jchuff.c:676-1135 | both passes: counting, table generation, derivation and output work if and only if no coefficient is out of range and the counts have tables, and decoding the output with these tables gives back the MCUs |
| LosslessCoder.EmitBits | src/jclhuff.c:246-281 | appends the low bits of the code, writes whole bytes stuffed, and keeps at most 7 bits; fails on size 0, otherwise only by suspension |
| LosslessCoder.FlushBits | src/jclhuff.c:284-293 | writes the same stuffed, one-padded bits as the word-wide packer's flush |
| LosslessCoder.SplitDifference | src/jclhuff.c:353-370 | the masked arithmetic finds the magnitude modulo 2^16 and, except for 32768, the number whose low bits are sent |
| LosslessCoder.DifferenceRoundTrip | src/jdlhuff.c:250-265 | for every difference the decoder's value is congruent to it modulo 2^16, including 32768, which sends no extra bits |
| LosslessCoder.SamplesRoundTrip | src/jdlhuff.c:245-272 | the differences of an MCU are decoded one after the other, each congruent to the original, and following bits are untouched |
| LosslessCoder.EmitSamples | src/jclhuff.c:347-394 | the inner loop puts exactly the bits of the MCU's differences |
| LosslessGather.DifferenceGatherer.EncodeMcus | src/jclhuff.c:463-530 | the counters hold, for every table and symbol, how many samples are sent with it, whatever the grouping into calls and the restart interval |
| LosslessGather.CountedIfSent | src/jclhuff.c:463-530 | a symbol is counted if and only if some sample is sent with it, 32768 included |
| LosslessGather.FewDifferences | src/jclhuff.c:534-558 | at most 17 symbols occur, so every table can be made |
| LosslessGather.FinishPassGather | src/jclhuff.c:534-558 | every table in use is made once from its own counts, and none can fail |
| LosslessGather.OptimizeDifferences | src/jclhuff.c:347-558 | both passes: the derived tables have codes for exactly the symbols that are sent, and every MCU counted is decoded to differences congruent modulo 2^16, with following bits untouched |
| Quantizer.Flss | src/jcdctmgr.c:74-104 | the binary search on a shifting 16-bit value finds the bit length |
| Quantizer.RoundedIsNearest | src/jcdctmgr.c:429-483 | the specification: the quotient is the one number whose multiple lies nearest, halves away from zero |
| Quantizer.RoundDownCase | src/jcdctmgr.c:186-203 | a reciprocal rounded down, with one added to the correction, divides every 15-bit magnitude |
| Quantizer.RoundUpCase | src/jcdctmgr.c:186-203 | a reciprocal rounded up does |
| Quantizer.PowerOfTwoCase | src/jcdctmgr.c:186-203 | the halved reciprocal of a power of two does |
| Quantizer.ComputeReciprocal | src/jcdctmgr.c:164-219 | for every 16-bit divisor and both DCTELEM widths the stored entry divides exactly, other columns stay, and at 16 bits 1 is returned exactly if the two-step high multiplication is right as well |
| Quantizer.Quantize | src/jcdctmgr.c:416-451 | the multiply-and-shift loop equals rounded division for every coefficient of magnitude up to 32767 |
| Quantizer.QuantizeByDivision | src/jcdctmgr.c:453-487 | the plain-division loop is the same function |
| Quantizer.IslowDividesByEightfold | src/jcdctmgr.c:254-276 | all coefficients are divided by eight times the quantisation value if and only if that value is at most 8191, since the divisor is passed in 16 bits; for every larger value 32764 is a coefficient that should give 0 and does not |
| Quantizer.StartPassIslow | src/jcdctmgr.c:254-276 | fills a whole table, and allows the multiply-only quantiser exactly if it is right in every column |
| Quantizer.QuantizeIslow | src/jcdctmgr.c:254-451 | a table made and then used: every coefficient becomes its rounded quotient by the passed divisor, which for quantisation values up to 8191 is eight times the value |
| ScanGeometry.BlocksCoverSamples | src/jcmaster.c:243-255 | every sample of a component lies in one of its blocks of DCTSIZE by DCTSIZE, and every block has a sample |
| ScanOrder.BlockIsSquare | src/jcmaster.c:243-248 | a block holds DCTSIZE rows of DCTSIZE values |
| ScanGeometry.RoundedTwice | src/jcmaster.c:242-261 | rounding up to blocks and then to MCUs is rounding up to MCUs at once, so all components have the same number of MCUs |
| ScanGeometry.SetupFits | src/jcmaster.c:483-566 | what per_scan_setup computes fits together for interleaved and single-component scans of every image |
| CoefController.MakeMcu | src/jccoefct.c:157-220 | the blocks made for an MCU are those of the image padded as in section A.2.4, at the right edge, the lower edge and the corner |
| CoefController.LoadComponent | src/jccoefct.c:270-340 | the padded array of an iMCU row holds the same padded image |
| CoefController.GatherMcu | src/jccoefct.c:375-410 | the blocks gathered for an MCU are those of the padded image |
| CoefController.Controller.CompressData | src/jccoefct.c:145-236 | after every call exactly the MCUs before the saved counters have been accepted, each once, in raster order; a refused MCU is the next to be sent |
| CoefController.Controller.CompressFirstPass | src/jccoefct.c:262-345 | the same, although a suspended call transforms and pads the row again; the arrays of all components of the image, in the scan or not, then hold the padded image up to that row |
| CoefController.Controller.CompressOutput | src/jccoefct.c:358-426 | the same from the padded arrays |
| ScanOrder.OneComponentIsRaster | src/jccoefct.c:83-92 | a scan of one component has as many MCUs as the component has blocks, and MCU r * width + c is the block in row r and column c of the image |
| ScanOrder.InterleavedIsGrid | src/jccoefct.c:157-220 | an interleaved scan has perRow * imcuRows MCUs, and the block in row r and column c of a component's padded grid is in MCU (r / v) * perRow + c / h, at place (r mod v) * h + c mod h of that component's blocks |
| ScanOrder.SlotsDiffer | src/jccoefct.c:157-220 | no two blocks go to the same place, so none is sent twice |
| ScanOrder.SlotHasBlock | src/jccoefct.c:157-220 | and every place is that of some block of the grid |
| ScanOrder.DummiesRepeat | src/jccoefct.c:183-212 | padding changes no block of the image, and every dummy block has only a DC value, that of the block of its component sent just before it in the MCU |
| CoefController.RunSinglePass | src/jccoefct.c:145-236 | however often it is suspended, the single-pass path sends the MCUs of the padded image in raster order |
| CoefController.RunFullBuffer | src/jccoefct.c:262-426 | the full-buffer path sends the very same sequence, and leaves the whole padded image in the arrays |
| CoefController.AnyScanIsLoaded | src/jccoefct.c:358-388 | padding does not depend on the scan: any scan of the image, interleaved or not, finds its blocks in the arrays |
| CoefController.RunFromArrays | src/jccoefct.c:358-426 | a later pass over any scan of the image sends from the arrays what the single-pass path would |
| CoefController.RunPasses | src/jcmaster.c:578-650 | all passes of an image, statistics and output passes of any scans: each sends exactly the MCUs of its scan, however it is suspended |
| StripSplice.ComputeStripBounds | src/jcparallel.c:21-72 | the strips partition the rows, all but the last in whole MCU rows, none of them empty unless the image is, and there are no more than asked for |
| StripSplice.FindEntropyEnd | src/jcparallel.c:287-314 | finds the EOI behind scan data exactly where stuffed zeros and restart markers end |
| StripSplice.RenumberInPlace | src/jcparallel.c:419-444 | the in-place loop renumbers exactly the restart markers and touches nothing else |
| StripFiles.HeaderIsFound | src/jcparallel.c:235-281 | whatever marker segments a header has, the walk stops behind SOS and remembers the last SOF0 |
| StripFiles.PatchIsHeight | src/jcparallel.c:399-406 | the two bytes written into the copied header are the height of its frame header and change nothing else |
| StripFiles.Splice | src/jcparallel.c:317-455 | patched header of the first file, renumbered data with a marker between strips, EOI; fails exactly if there is no strip, the first file has no frame header in place, or some file has no header or no EOI behind its data |
| StripFiles.SplicedFileIsSerial | src/jcparallel.c:317-455 | splicing the files of separately encoded strips of whole restart intervals gives byte for byte the file of one encoder for the image |
| StripSplice.ScanInTwo | src/jcparallel.c:317-455 | a scan cut between restart intervals is two scans with a marker in between |
| StripSplice.SplicedIsSerial | src/jcparallel.c:419-444 | the same of the scan data: joined and renumbered, it is the scan of one encoder |
| StripSplice.StripIsFound | src/jcparallel.c:287-314 | what the splicer takes out of a strip's file is the strip's scan data, all of it |

## Left out

- Progressive entropy coding: the encode_mcu_DC and encode_mcu_AC routines of src/jcarith.c and all of src/jcphuff.c.
- SIMD kernels and encode_one_block_simd: assembly. Of their quantiser only the arithmetic is modelled (`Quantizer.ComputeReciprocal`).
- The forward DCT bodies, the floating-point DCT and quantiser, and the IFAST scaling of divisors.
- The lookahead tables of src/jdhuff.c and its fast MCU decoder: the decoder here is the bit-sequential one from length 1, without warnings, suspension or data running out.
- HuffScanDecoder.ScanRoundTrip: the decoder's bit buffer is read as a whole segment, unstuffed up to the next marker, instead of byte by byte, and coefficients are integers: the casts to 16 bits are not modelled there.
- OptimalTable.GenOptimalTable: counts with 256 or more used symbols, the pseudo-symbol included, could overflow its byte counters, and counts adding up to more than 1000000000 its sentinel values; both are excluded. The first is proved never to come from a scan (`HuffGather.ScanCountsAreUsable`), the second only from one of more than 15 million blocks (`HuffTwoPass.ScanIsUsable`).
- HuffTwoPass.EncodeOptimized: a scan has fewer than 1000000000 / 63 blocks, for that reason, and LosslessGather.OptimizeDifferences fewer than 1000000000 samples.
- BlockCoder.EncodeBlock: the precision is at most 12 bits, as data_precision is for every DCT-based process.
- Quantizer.Quantize: workspace values have a magnitude of at most 32767, the range that the reciprocals are made for; -32768 has no magnitude in a 16-bit DCTELEM.
- ArithEncoder.Encoder.Restart: clears the whole statistics area, where the source clears the areas of the scan's own tables; the other areas are not used by the scan.
- ArithScan.ScanRoundTrip: what the decoder leaves in the blocks of an MCU that it loses, and its resynchronisation at a restart marker with another number, are not modelled.
- ArithDecoder.DecodeTracks: data that ends without any marker reads as if EOI followed; a data source that suspends is an error in this decoder and is not modelled.
- HuffEncoder.EncodeScan: a destination either always empties its buffer or always refuses; one that does now this and now that is not modelled. Exhausting the given drains counts as not finished; that enough of them finish the scan is proved only for drains that each leave room for a whole MCU.
- HuffEncoder.ScanWriter.FinishPass: a destination that refuses is an error exit in the source, a failing result here.
- LosslessCoder.EmitSamples: one MCU in a working state. The MCU loop around it in the output pass, the placing of restart markers between calls, and the predictors of src/jcdiffct.c are not modelled.
- CoefController.Controller.CompressData: the entropy encoder is an object that takes or refuses each MCU; that a refused MCU leaves no trace is proved of the Huffman encoder separately.
- Virtual arrays and the memory manager: the full-image arrays are plain arrays that stay in place.
- StripFiles.Splice: the parallel encoding itself is not modelled, and no allocation fails. Segments, lengths and positions are not limited to the width of the source's types.
- Colour conversion, downsampling, marker writing, the adaptive driver, ICC profiles, command-line programs and bindings: they would only add easy members or are input and output.
