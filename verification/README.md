# Entropy coders and codecs of TurboBench, verified

A Dafny model of the codecs that TurboBench carries in source form, with proofs of what they are for: that decoding
gives back what was encoded, for every input, through every carry, renormalisation, model update, block and packet.
`dafny verify dfyconfig.toml` checks the whole project.

Code that changes state in the source is imperative here too: classes with the source's fields, arrays written in
place, loops with invariants. Every such method is tied by its contract to a specification on values, and the
properties are proved about that specification. A module named `...Spec` holds the specification of the module it is
named after.

| module | what it models |
|---|---|
| `Arith`, `Bytes`, `ByteWindow`, `Registers`, `SymbolCounts` | shared arithmetic, bits and bytes, bit registers, tables of counts |
| `Carry` | nested intervals on unbounded integers: a code is a carry and bytes; narrowing and shifting are undone from the later code to the earlier one |
| `CountingSort` | the slot of every place in a stable counting sort by byte |
| `PermuteArgs` | getopt's in-place exchange of two blocks by gcd-many cycles |
| `FpaqcSpec`, `Fpaqc` | the asymmetric binary coder: reciprocals for divisions, blocks coded backwards through two stacks |
| `FpaqShSpec`, `FpaqSh` | the binary range coder that delays carries in a cached byte and a run of 0xFF bytes |
| `FpaqLearning` | what the predictors of these two learn |
| `FastAcModel`, `FastAcSpec`, `FastAc`, `FastAcLearning` | FastAC: carries written back into bytes already out, adaptive models, table-driven decoder |
| `SubbotinSpec`, `Subbotin`, `SubbotinLearning` | the carryless range coder that truncates its range, with its four search paths |
| `BcmSpec`, `Bwt`, `Bcm`, `BcmLearning` | bcm: context mixing, binary coder, and the inverse of the Burrows-Wheeler transform |
| `QuickLz`, `QuickLzPacker`, `QuickLzReader`, `QuickLzMatch`, `QuickLzCompress` | what both QuickLZ levels share: tokens, control words, header, copying, the literal tail, giving up |
| `QuickLz1Parse`, `QuickLz1`, `QuickLz1Packets` | level 1: only hashes are sent, and the reader rebuilds the index lazily |
| `QuickLz3Parse`, `QuickLz3`, `QuickLz3Packets` | level 3: offsets in five shapes, and sessions of packets over a streaming buffer |
| `FpcBase`, `FpcSort`, `FpcLengths`, `FpcBuild` | FPC's histogram, radix sort and package-merge |
| `FpcTables`, `FpcHeader`, `FpcBits`, `FpcEncoder`, `FpcDecoder` | canonical codes and tables, the nibble run-length header, the three interleaved streams |
| `FpcSymbols`, `FpcBlock`, `FpcFile` | the code with the fewest bits for a block, blocks and files |
| `FpcAdaptive`, `FpcEstimates`, `FpcCostBounds` | the choice of block sizes through ring buffers, what its estimates mean, and which inputs its ints can handle |
| `FastHfTree`, `FastHfForm`, `FastHfCode` | FastHF's Huffman tree in the memory of the heap it consumes, and the walk that sets codewords and table |
| `FastHfOptimal` | no prefix code takes fewer bits than the tree |
| `FastHfSpec`, `FastHf`, `FastHfLearning` | the adaptive code and the bit coder around it |

Words of 32 and 64 bits are integers with the reduction written out wherever the source can wrap: `low % WORD`, the
64-bit product cut to 32 bits, counters modulo 256. Shifts and masks by constants are divisions and remainders. The
test `(low ^ (low + range)) < 2^24` is equality of the two top bytes and `-low & 0xFFFF` a remainder; on bit-vectors
both are stated as `SubbotinSpec.SameTopIsXor` and `SubbotinSpec.TruncationIsMask`. FPC's and FastHF's registers are
sequences of bits. Code buffers are unbounded unless the bound is what is proved (QuickLZ's destination, FPC's output,
FastHF's 32-bit buffer and stack of 32).

A round trip says nothing about how short the code is: a coder that learnt nothing, or took no match, would have it too.
The modules named `...Learning` prove that every adaptive model follows the data it codes, the modules named `...Parse`
which tokens a source is coded as, `FpcSymbols` and `FastHfOptimal` that the prefix codes are the shortest, and
`FpcEstimates` that the block sizes are chosen by sizes in bytes.

Three properties do not follow from what the source checks.

- Subbotin's `ModelInit` accepts any increment, but with a large one the total passes 2^16 even after halving, and then a
  short range has no room for every symbol. `SubbotinSpec.TotalsStayIff`, `StaysCodableIff` and `RunsCoveredIff` give the
  exact conditions for all 32-bit increments, and the coder is proved under the condition that keeps every symbol codable.
  `SubbotinSpec.RangeSpent` is a run of one symbol that breaks without it: the range is 2^16, the total more, and the next
  `range / total` is 0. `RunsCoveredIff` allows models that shared the encoder before; for a single model from the
  start, `RangeCoversIff` is exact for the first symbol of a message over 4 to 65282 symbols.
- `ModelInit` adds up the counts in 32 bits, so RC_OK alone does not bound their true total: `SubbotinSpec.WrappedTotal`
  names counts that pass, and by `SubbotinSpec.PartsFitIff` such counts never fit a range. The coder is proved for true
  totals within 2^16.
- FPC's adaptive mode keeps the input's length, places and costs in ints. From 2^31 + 1 bytes on it counts nothing
  (`FpcCostBounds.BlindCosts`), but the file is still right; from 2^31 + 2048 bytes on, up to 2^32 + 2047,
  no block size is chosen and the last loop stays at step 0 for ever. `FpcAdaptive.RoundTrip` gives the round trip exactly up to 2^31 + 2047 bytes. Sums of
  costs that leave an int wrap in the model as two's complement. They cannot with up to 1048509 steps, where the
  choice is optimal, and with every larger number some input has such a sum (`FpcCostBounds.CostsFitIff`).

FPC's package-merge compares over two sentinels of 65535, and a package can weigh more than that. The comparison then
takes the sentinel for a leaf; `FpcBuild.SentinelTaken` is such a run. `FpcLengths.EntryLight` shows that this happens to
the last entry of a level at most, and `FpcLengths.RestLight` that no such entry is used, so the lengths are the optimal
ones all the same.

## Model

| member | source | states |
|---|---|---|
| PermuteArgs.GcdBezout | vs/getopt.c:137-150 | Euclid's result divides both block lengths and is an integer combination of them, so it is their greatest common divisor |
| PermuteArgs.ComputeGcd | vs/getopt.c:137-150 | the remainder loop ends in Euclid's result for every positive second argument |
| PermuteArgs.ScheduleExists | vs/getopt.c:167-175 | the slots fall into gcd-many cycles of one length; every slot belongs to one cycle and has one turn in it, and cycle i starts at slot i of the second block |
| PermuteArgs.TurnNext | vs/getopt.c:175-179 | one step of a cycle moves to the slot with the next turn, wrapping round only after a whole cycle |
| PermuteArgs.TurnInjective | vs/getopt.c:172-180 | no slot is visited twice: two slots of one cycle never share a turn |
| PermuteArgs.ProgressStep | vs/getopt.c:180-184 | storing the carried entry completes exactly one more slot and leaves the others as they were |
| PermuteArgs.RunCycle | vs/getopt.c:172-186 | one cycle puts the right entry into each of its slots and touches no other |
| PermuteArgs.PermuteArguments | vs/getopt.c:157-187 | the array afterwards is the old one with the two adjacent blocks exchanged, order kept inside each and everything outside unchanged |
| FpaqcSpec.DecodeInverts | EC/fpaqc/fpaqc.cpp:359-370 | taking a state apart gives back the bit and the state it was coded on, for every probability 1..4095 |
| FpaqcSpec.CodeWordGrows | EC/fpaqc/fpaqc.cpp:391-402 | a state of at least 2^12 stays so when a bit is coded, and after a byte is shifted out of an overflowing state coding still reaches 2^12 |
| FpaqcSpec.PushDecodes | EC/fpaqc/fpaqc.cpp:391-404 | the new state lies in [2^12, 2^20), decodes to the bit, and refilling reads back exactly the bytes that were shifted out |
| FpaqcSpec.FlushInRange | EC/fpaqc/fpaqc.cpp:387-406 | after any number of items, coded from the last to the first, the state is in [2^12, 2^20) |
| FpaqcSpec.FirstItemDecodes | EC/fpaqc/fpaqc.cpp:341-375 | from a state and input that hold a block, one decoding step yields the first item and holds the remaining ones, across block ends |
| FpaqcSpec.TracksEnd | EC/fpaqc/fpaqc.cpp:344-348 | when no bits are left the state is back at 2^12 and no input is left |
| FpaqcSpec.RoundTrip | EC/fpaqc/fpaqc.cpp:417-440 | for every file, over any number of blocks, absd returns the file from the output of absc, in the base state and with every byte read |
| FpaqLearning.UpdateLearnsC | EC/fpaqc/fpaqc.cpp:69-73 | only the context of the bit learns: its estimate comes a 32nd of the distance closer to the bit, and the context goes on to the bits so far or starts again behind the ninth |
| FpaqLearning.ProbabilityFollowsC | EC/fpaqc/fpaqc.cpp:65-73 | asked again in the same context, the probability of the bit just coded has not fallen |
| FpaqLearning.StartsEvenC | EC/fpaqc/fpaqc.cpp:60-67 | at first every bit has a chance of about one half |
| FpaqLearning.ContextDrivenC | EC/fpaqc/fpaqc.cpp:69-73 | while a context sees only one bit, every visit brings its estimate closer to that bit, until it is within 2^5 of it |
| FpaqLearning.ItemsTrain | EC/fpaqc/fpaqc.cpp:417-440 | every bit of a file is coded with the probability of the model trained on the bits before it |
| FpaqLearning.StateGrows | EC/fpaqc/fpaqc.cpp:391-397 | coding a bit multiplies the state by one over its probability, to within one step |
| Fpaqc.UpperInverseExact | EC/fpaqc/fpaqc.cpp:333-336 | the 2^44 reciprocal rounded up gives floor(w * 2^12 / q) for every q and every reachable w |
| Fpaqc.LowerInverseExact | EC/fpaqc/fpaqc.cpp:333-336 | the reciprocal rounded down gives the bit-0 state for every reachable w, also where the product is 2^64 |
| Fpaqc.MultipliedExact | EC/fpaqc/fpaqc.cpp:395-397 | the 64-bit multiplication and shift of the encoder equals the division it stands for, entry by entry |
| Fpaqc.FillInverses | EC/fpaqc/fpaqc.cpp:333-336 | the constructor's interleaved writes leave the right reciprocal in every entry |
| Fpaqc.Predictor.Update | EC/fpaqc/fpaqc.cpp:69-73 | the probability slot and the context change in place as the model says |
| Fpaqc.Encoder.Encode | EC/fpaqc/fpaqc.cpp:378-384 | one bit is queued with its model probability; a full input stack is coded and written first |
| Fpaqc.Encoder.CodeItem | EC/fpaqc/fpaqc.cpp:391-405 | the loop over reciprocals computes the state and shifted bytes the divisions define |
| Fpaqc.Encoder.Flush | EC/fpaqc/fpaqc.cpp:387-413 | the stack is coded backwards and written in front of its output bytes: the archive becomes the blocks of all items so far |
| Fpaqc.Encoder.constructor | EC/fpaqc/fpaqc.cpp:328-339 | an empty encoder with its reciprocal table filled |
| Fpaqc.Decoder.ReadHeader | EC/fpaqc/fpaqc.cpp:344-357 | a block header is read exactly when the previous block has ended, and refused unless the old state is 2^12 and the new one in range |
| Fpaqc.Decoder.Decode | EC/fpaqc/fpaqc.cpp:341-375 | one bit of the reference decoder, or the archive error |
| Fpaqc.BlocksAppend | EC/fpaqc/fpaqc.cpp:387-413 | writing one more block after full blocks is writing all items in blocks |
| Fpaqc.AbsCompress | EC/fpaqc/fpaqc.cpp:417-429 | absc produces the reference code of the file |
| Fpaqc.AbsDecompress | EC/fpaqc/fpaqc.cpp:431-440 | absd returns the reference decoding, and the file itself on every output of absc |
| Carry.ShiftBack | EC/fpaq0p/fpaq0p_sh.cpp:40-41 | undoing one shift puts the byte shifted out, with any later carry, in front of the code and keeps it inside the interval |
| Carry.SettleBack | EC/fpaq0p/fpaq0p_sh.cpp:40-41 | renormalisation keeps the code inside the interval and a reader follows it byte by byte |
| Carry.NarrowBack | EC/fpaq0p/fpaq0p_sh.cpp:37-41 | the code of the chosen part lies in that part of the earlier interval, and the reader goes on from there |
| Carry.EmitTotal | EC/fpaq0p/fpaq0p_sh.cpp:44-52 | bytes emitted while settling, followed by the later code, are the earlier code as a whole |
| Carry.EmitNarrowTotal | EC/fastac/arithmetic_codec.cpp:223-246 | carrying into bytes already out and then emitting yields the ideal code, which has room for the carry |
| FpaqShSpec.IdealDecodes | EC/fpaq0p/fpaq0p_sh.cpp:83-89 | from the ideal code of any bits the decoder reads those bits and leaves what follows untouched |
| FpaqShSpec.ForwardIdeal | EC/fpaq0p/fpaq0p_sh.cpp:74-81 | what the encoder has sent, closed with its low, is the ideal code behind the bytes already out |
| FpaqShSpec.CompressLength | EC/fpaq0p/fpaq0p_sh.cpp:44-52 | the output is exactly five bytes plus one for every shift of the range |
| FpaqShSpec.RoundTrip | EC/fpaq0p/fpaq0p_sh.cpp:74-89 | rcshd returns every file from the output of rcshc and reads exactly the bytes rcshc wrote |
| FpaqLearning.StepLearnsS | EC/fpaq0p/fpaq0p_sh.cpp:64-67 | only the context of the bit learns: its estimate comes a 32nd of the distance closer to the bit, and the context goes on to the bits so far or starts again behind the eighth |
| FpaqLearning.StartsEvenS | EC/fpaq0p/fpaq0p_sh.cpp:60 | at first every bit has a chance of one half |
| FpaqLearning.PartShareS | EC/fpaq0p/fpaq0p_sh.cpp:34-38 | a 0 gets the share of the range that its estimate says, rounded down by less than the estimate |
| FpaqLearning.ContextDrivenS | EC/fpaq0p/fpaq0p_sh.cpp:64-67 | while a context sees only one bit, every visit brings its estimate closer to that bit, until it is within 2^5 of it |
| FpaqSh.CarryThroughRun | EC/fpaq0p/fpaq0p_sh.cpp:46-49 | a carry turns pending 0xFF bytes into zeros and stops at the cached byte |
| FpaqSh.CarryOnce | EC/fpaq0p/fpaq0p_sh.cpp:39-40 | a carry already waiting and one that comes later act like a single carry of the exact low |
| FpaqSh.Predictor.Update | EC/fpaq0p/fpaq0p_sh.cpp:64-67 | the probability of the context moves by a 32nd of its distance and the bit enters the context |
| FpaqSh.Encoder.FlushCache | EC/fpaq0p/fpaq0p_sh.cpp:47-48 | the cached byte takes the carry and the pending run comes out as 0xFF or as zeros |
| FpaqSh.Encoder.ShiftLow | EC/fpaq0p/fpaq0p_sh.cpp:44-52 | cache, pending count and low always denote the exact output; the byte cached can still take every carry that may come |
| FpaqSh.Encoder.Renormalize | EC/fpaq0p/fpaq0p_sh.cpp:40 | the loop shifts out exactly the bytes of the settled interval |
| FpaqSh.Encoder.Process | EC/fpaq0p/fpaq0p_sh.cpp:35-42 | coding a bit narrows the interval to the bit's part and emits the bytes of the exact arithmetic |
| FpaqSh.Encoder.Quit | EC/fpaq0p/fpaq0p_sh.cpp:31-33 | five shifts flush the cache and the four bytes of the final low |
| FpaqSh.Decoder.Process | EC/fpaq0p/fpaq0p_sh.cpp:35-42 | the decoder reads the bit whose part holds the code and follows the interval |
| FpaqSh.Decoder.constructor | EC/fpaq0p/fpaq0p_sh.cpp:26-29 | five bytes shifted into 32 bits leave the last four, whatever was there before |
| FpaqSh.Compress | EC/fpaq0p/fpaq0p_sh.cpp:74-81 | rcshc produces the reference code |
| FpaqSh.Decompress | EC/fpaq0p/fpaq0p_sh.cpp:83-89 | rcshd produces the reference decoding, and the file itself on every output of rcshc |
| FastAcModel.BitUpdate | EC/fastac/arithmetic_codec.cpp:640-657 | the estimate stays strictly between 0 and 1 and the counts leave room for the next cycle |
| FastAcModel.DistributionIsOk | EC/fastac/arithmetic_codec.cpp:788-796 | from positive counts of at most 2^15 every symbol gets a nonempty part and all starts lie below 2^15 |
| FastAcModel.DataUpdate | EC/fastac/arithmetic_codec.cpp:779-812 | halving, rescaling and the longer cycle keep the model valid for 2..2048 symbols |
| FastAcModel.DataStep | EC/fastac/arithmetic_codec.cpp:384-385 | counting one symbol keeps the model valid, through every periodic update |
| FastAcLearning.StepCounts | EC/fastac/arithmetic_codec.cpp:384-385 | the count of the coded symbol is raised, all are halved upwards exactly where an update finds them beyond 2^15, the distribution is then that of the counts, and the next cycle is a quarter longer |
| FastAcLearning.CountsFollow | EC/fastac/arithmetic_codec.cpp:384-385 | while 2^15 is not passed, each count is 1 plus the occurrences of its symbol in the message |
| FastAcLearning.DistributionFollows | EC/fastac/arithmetic_codec.cpp:779-812 | the distribution a symbol is coded with is that of the message up to the last update, less than a cycle ago: each start is 2^15 times the share of the symbols below, rounded down by less than 2 |
| FastAcLearning.StepBit | EC/fastac/arithmetic_codec.cpp:640-657 | the zeros counted, the halving of both counts beyond 2^13, the probability and the longer cycle are as the update says |
| FastAcLearning.BitsFollow | EC/fastac/arithmetic_codec.cpp:640-657 | while 2^13 is not passed, the probability a bit is coded with is the share of zeros in the message up to the last update, rounded down by less than 2 |
| FastAcModel.FindIs | EC/fastac/arithmetic_codec.cpp:415-432 | the only symbol whose part holds the value is the one a search finds |
| FastAcModel.TableEncloses | EC/fastac/arithmetic_codec.cpp:400-404 | two neighbouring table entries enclose the symbol of every scaled value in their part |
| FastAcSpec.OpFits | EC/fastac/arithmetic_codec.cpp:223-246 | every raw bit, bit group, modelled bit and symbol has a nonempty part inside the range |
| FastAcSpec.PartShare | EC/fastac/arithmetic_codec.cpp:229-240 | a modelled bit or symbol gets the share of the range that its model says, of the range rounded down to a multiple of the scale |
| FastAcSpec.PartsInOrder | EC/fastac/arithmetic_codec.cpp:367-378 | the parts of the symbols stand in their order from the start of the range and fill it; a 0 comes before a 1 |
| FastAcSpec.EndWithin | EC/fastac/arithmetic_codec.cpp:546-570 | the one or two last bytes pin the code inside the final interval whatever follows them |
| FastAcSpec.EndEmits | EC/fastac/arithmetic_codec.cpp:551-564 | stop_encoder's offset, carry and renormalisation emit exactly those bytes |
| FastAcSpec.ForwardIdeal | EC/fastac/arithmetic_codec.cpp:80-95 | bytes rewritten by carries along the way are in the end the ideal code of the whole message |
| FastAcSpec.DecodeOpIs | EC/fastac/arithmetic_codec.cpp:126-139 | a value inside an op's part is decoded as that op |
| FastAcSpec.IdealDecodes | EC/fastac/arithmetic_codec.cpp:390-443 | all models stay equal on both sides and every op of a message is decoded in turn, under the model it names |
| FastAcSpec.RoundTrip | EC/fastac/arithmetic_codec.cpp:497-570 | for any number of bit models and of data models with 2..2048 symbols, and every message whose calls name them, the code followed by arbitrary bytes decodes to the message |
| FastAc.AdaptiveBitModel.Update | EC/fastac/arithmetic_codec.cpp:640-657 | the fields change in place as the model says |
| FastAc.AdaptiveBitModel.Count | EC/fastac/arithmetic_codec.cpp:245 | one coded bit is counted, with an update when the cycle ends |
| FastAc.AdaptiveDataModel.constructor | EC/fastac/arithmetic_codec.cpp:747-775 | every alphabet of 2..2048 symbols starts uniform, with a valid table where it has one |
| FastAc.AdaptiveDataModel.HalveCounts | EC/fastac/arithmetic_codec.cpp:783-787 | every count is halved upwards and the sum returned is theirs |
| FastAc.AdaptiveDataModel.FillDistributionAndTable | EC/fastac/arithmetic_codec.cpp:797-806 | one pass fills the distribution and leaves each table entry as the last symbol that starts below its part |
| FastAc.AdaptiveDataModel.Update | EC/fastac/arithmetic_codec.cpp:779-812 | distribution, counts and cycle become those of the model; the decoder's table agrees with them |
| FastAc.AdaptiveDataModel.Count | EC/fastac/arithmetic_codec.cpp:439-440 | one coded symbol is counted, with an update when the cycle ends |
| FastAc.Encoder.PropagateCarry | EC/fastac/arithmetic_codec.cpp:80-85 | the bytes written become their number plus one |
| FastAc.Encoder.RenormEncInterval | EC/fastac/arithmetic_codec.cpp:89-95 | the loop emits exactly the bytes of the settled interval |
| FastAc.Encoder.Advance | EC/fastac/arithmetic_codec.cpp:116-121 | moving the base, carrying and renormalising is one exact narrowing of the interval |
| FastAc.Encoder.PutBit | EC/fastac/arithmetic_codec.cpp:108-122 | a raw bit narrows the interval to its half |
| FastAc.Encoder.PutBits | EC/fastac/arithmetic_codec.cpp:143-156 | a group of 1..20 raw bits narrows the interval to its part |
| FastAc.Encoder.EncodeBit | EC/fastac/arithmetic_codec.cpp:223-246 | a modelled bit narrows the interval to its part and updates the model |
| FastAc.Encoder.EncodeSymbol | EC/fastac/arithmetic_codec.cpp:359-386 | a symbol narrows the interval to its part and updates the model |
| FastAc.Encoder.Stop | EC/fastac/arithmetic_codec.cpp:546-570 | the last bytes are those the end of the code requires |
| FastAc.PartInTable | EC/fastac/arithmetic_codec.cpp:400-404 | the scaled value passes 2^15 by less than 64, so the look-up never leaves the table and the entry behind its end is needed |
| FastAc.Decoder.Advance | EC/fastac/arithmetic_codec.cpp:99-104 | taking a part off and reading bytes follows the encoder's interval |
| FastAc.Decoder.GetBits | EC/fastac/arithmetic_codec.cpp:160-173 | the group whose part holds the value is read |
| FastAc.Decoder.DecodeBit | EC/fastac/arithmetic_codec.cpp:250-273 | the modelled bit whose part holds the value is read and the model updated |
| FastAc.Decoder.SearchTable | EC/fastac/arithmetic_codec.cpp:398-413 | look-up and bisection on the distribution find the symbol whose part holds the value |
| FastAc.Decoder.SearchProducts | EC/fastac/arithmetic_codec.cpp:415-432 | bisection by products finds the same symbol |
| FastAc.Decoder.DecodeSymbol | EC/fastac/arithmetic_codec.cpp:390-443 | the symbol whose part holds the value is read and the model updated |
| FastAc.NewModels | EC/fastac/arithmetic_codec.cpp:733-775 | new models are at their start, and no two of them share an array |
| FastAc.EncodeSymbolWith | EC/fastac/arithmetic_codec.cpp:359-386 | coding a symbol with one of many models moves that one on and leaves the others as they are |
| FastAc.DecodeSymbolWith | EC/fastac/arithmetic_codec.cpp:390-443 | decoding a symbol with one of many models moves that one on and leaves the others and their tables as they are |
| FastAc.EncodeMessage | EC/fastac/arithmetic_codec.cpp:497-570 | the methods in sequence, each with the model its op names, produce the reference code of a message |
| FastAc.DecodeMessage | EC/fastac/arithmetic_codec.cpp:510-521 | the decoder's methods in sequence return the message from its code followed by anything |
| SubbotinSpec.TruncationOk | EC/subotin/range.c:91-92 | the truncated range is never 0, never longer than the range, and ends on a multiple of 2^24 |
| SubbotinSpec.TurnOk | EC/subotin/range.c:91-96 | low + range never exceeds 2^32 and every turn of the loop gets closer to its end, so it ends |
| SubbotinSpec.SettleBack | EC/subotin/range.c:91-96 | truncated or not, shifting keeps the code inside the interval it came from and the decoder drops the same bytes |
| SubbotinSpec.PartOk | EC/subotin/range.c:89-90 | every codable symbol has a nonempty part inside the interval while the total is at most 2^16 |
| SymbolCounts.SumHalved | EC/subotin/range.c:150-151 | halving every count upwards at least halves the total but for one per symbol and keeps it positive |
| SubbotinSpec.AdaptedStays | EC/subotin/range.c:146-155 | where increment and alphabet leave room, the total stays positive and within 2^16 |
| SubbotinSpec.RaisedPlain | EC/subotin/range.c:146-148 | an increment of at most 2^32 - 1 - 2^16 lets neither a count nor the total wrap |
| SubbotinSpec.AdaptedShrinks | EC/subotin/range.c:146-152 | an increment of 2^32 - 1 wraps to taking 1 off the count, and the total gets smaller |
| SubbotinSpec.AdaptedOverflows | EC/subotin/range.c:146-152 | every larger increment but 2^32 - 1 gives some table of counts, that passes the check at the start, a 32-bit total beyond 2^16 |
| SubbotinSpec.TotalsStayIff | EC/subotin/range.c:267-269 | for every 32-bit increment, the totals stay within 2^16 for all tables of counts if and only if increment and alphabet size together are at most 2^16 + 1 or the increment is 2^32 - 1 |
| SubbotinSpec.StaysCodableIff | EC/subotin/range.c:146-152 | the total stays positive and within 2^16 and no codable symbol loses its part if and only if increment and alphabet size together are at most 2^16 + 1 |
| SubbotinSpec.PartsFitIff | EC/subotin/range.c:89-90 | for counts whose 32-bit total is positive and at most the range, the parts of all symbols fit into the range if and only if the true total is below 2^32 |
| SubbotinSpec.WrappedTotal | EC/subotin/range.c:248-271 | two counts of about 2^31 have a 32-bit total of 1, which passes the check, and a true total beyond 2^32 |
| SubbotinSpec.Step | EC/subotin/range.c:145-155 | adapting to a symbol keeps the totals in bounds and every codable symbol codable |
| SubbotinLearning.StepCounts | EC/subotin/range.c:146-155 | a static model stays; an adaptive one raises the count of the symbol and halves all counts upwards exactly where the total passes the maximum |
| SubbotinLearning.CountsFollow | EC/subotin/range.c:146-148 | while the maximum is not passed, each count has been raised by the increment once for each occurrence of its symbol |
| SubbotinLearning.PartShare | EC/subotin/range.c:89-90 | a symbol gets the share of the range that its count has in the total, of the range rounded down to a multiple of the total |
| SubbotinSpec.DecodeIs | EC/subotin/range.c:164-168 | a code inside a symbol's part is decoded as that symbol |
| SubbotinSpec.CodeDecodes | EC/subotin/range.c:160-230 | every message is decoded from its code with equal models on both sides, reading exactly the bytes of the code |
| SubbotinSpec.CodeNext | EC/subotin/range.c:86-97 | the code of a message is what its first symbol shifts out followed by the code of the rest |
| SubbotinSpec.RoundTrip | EC/subotin/range.c:55-111 | from the start, the decoder returns every message from its code and leaves what follows unread |
| SubbotinSpec.RangeSpent | EC/subotin/range.c:89-96 | where increment and alphabet leave no room and nothing wraps, a first symbol leaves the range at 2^16 and adapting puts the total above it, so that the next range / total is 0 |
| SubbotinSpec.RangeCoversIff | EC/subotin/range.c:89-96 | for 4 to 65282 symbols and increments that wrap nothing, the range covers the adapted total after every first symbol if and only if both add up to at most 2^16 + 1, or 2^16 + 2 where both are odd |
| SubbotinSpec.RunsCoveredIff | EC/subotin/range.c:86-97 | for every alphabet and every 32-bit increment, the range has a part for every count throughout all runs, whatever models the encoder used before, if and only if both add up to at most 2^16 + 1 or the increment is 2^32 - 1 |
| SubbotinSpec.EmptyNeverSettles | EC/subotin/range.c:87-96 | however often the loop turns, it does not end on the empty part of a symbol whose count is 0 |
| Subbotin.RcModel.constructor | EC/subotin/range.c:237-265 | the counts are those given, or ones, and totFreq what 32 bits hold of their total; a nonempty alphabet with room for the increment, whose true total and limit are within 2^16, starts valid |
| Subbotin.ModelInit | EC/subotin/range.c:233-272 | RC_ERROR is reported exactly where the limit or the 32-bit total passes 2^16, and the model is set up in either case; where the true total is positive and below 2^32, RC_OK means a model to code with |
| Subbotin.RcModel.Locate | EC/subotin/range.c:123-141 | on each of the four paths the sum returned is the true prefix sum, the remembered pair stays true, and no path between the symbol and the remembered one or the end on its side is shorter |
| Subbotin.RcModel.Search | EC/subotin/range.c:170-202 | on each of the four paths the symbol found is the one whose counts hold the value |
| Subbotin.RcModel.Adapt | EC/subotin/range.c:206-227 | raising a count, and halving all counts past the maximum, keeps the remembered pair true; the decoder's three sums stay those of the counts up to the first halving |
| Subbotin.RcModel.Rescale | EC/subotin/range.c:219-220 | the counts are halved upwards and the total is theirs |
| Subbotin.RcEncoder.Encode | EC/subotin/range.c:86-97 | the interval becomes the symbol's part, settled, and the bytes shifted out are appended |
| Subbotin.RcEncoder.Renormalize | EC/subotin/range.c:91-96 | the loop ends in the settled interval |
| Subbotin.RcEncoder.Finish | EC/subotin/range.c:64-69 | the four bytes of low are written |
| Subbotin.RcDecoder.Renormalize | EC/subotin/range.c:105-110 | the decoder shifts in one byte for every byte the encoder shifted out |
| Subbotin.RcDecoder.DecodeSymbol | EC/subotin/range.c:160-230 | the symbol error is reported exactly where the reference reports it; otherwise symbol, interval and model follow it |
| Subbotin.EncodeSymbol | EC/subotin/range.c:114-158 | a symbol outside the alphabet is refused; otherwise its interval, bytes and adapted model are those of the reference |
| Subbotin.EncodeMessage | EC/subotin/range.c:55-69 | symbols in sequence produce the reference code |
| Subbotin.DecodeMessage | EC/subotin/range.c:71-82 | symbols in sequence return the message from its code followed by anything |
| BcmSpec.ShiftOk | turbobench_/bcm/bcm.cpp:93-98 | while the top bytes agree, shifting keeps low <= high and widens their distance, so the loop ends |
| BcmSpec.SettleBack | turbobench_/bcm/bcm.cpp:113-118 | shifting keeps the code inside the span and the decoder reads the same bytes, also past the end of its input |
| BcmSpec.Interpolated | turbobench_/bcm/bcm.cpp:201 | the estimate between two counters lies between them, whichever is larger |
| BcmSpec.Probability | turbobench_/bcm/bcm.cpp:192-205 | the mixed 18-bit probability is below 2^18 |
| BcmSpec.LearnOk | turbobench_/bcm/bcm.cpp:203-234 | counters, run and contexts stay in range after every bit and byte |
| BcmLearning.MovedTowards | turbobench_/bcm/bcm.cpp:135-143 | a counter never moves away from the bit, comes closer by the part of the distance its rate says, and strictly while the distance is that large |
| BcmLearning.MixedFollows | turbobench_/bcm/bcm.cpp:192-208 | asked again in the same contexts, the mix has not moved away from the bit, and has moved strictly towards it while the order-0 counter is twelve away from its end |
| BcmLearning.RefinedFollows | turbobench_/bcm/bcm.cpp:196-213 | the two final counters around the mix move towards the bit, and so does what is interpolated between them |
| BcmLearning.EstimatesWeigh | turbobench_/bcm/bcm.cpp:160-205 | the mix counts once and the final estimate three times; at first they are the same but for the last sixteenth |
| BcmLearning.StartsEven | turbobench_/bcm/bcm.cpp:128-205 | the first bit of a file has a chance of one half |
| BcmLearning.CounterDriven | turbobench_/bcm/bcm.cpp:135-143 | while a context sees only one bit, every visit takes its order-0 counter closer to that bit's end, until it is within 2^2 of it |
| BcmLearning.HistoryIs | turbobench_/bcm/bcm.cpp:227-233 | after any file the model's history is the last two bytes and how often the last one has been repeated |
| BcmLearning.FlagIs | turbobench_/bcm/bcm.cpp:187-199 | the second set of final counters is in use while the last four bytes are the same |
| BcmLearning.CodeTrains | turbobench_/bcm/bcm.cpp:185-234 | the code of events goes on, behind the bytes of their first part, as the code of the rest under the model trained on that part |
| BcmSpec.Middle | turbobench_/bcm/bcm.cpp:85 | the split point leaves both bits a part, at any valid probability |
| BcmLearning.PartShare | turbobench_/bcm/bcm.cpp:85-90 | a 1 gets the share of the codes that its probability says, to within one code, and comes first |
| BcmSpec.CodeDecodes | turbobench_/bcm/bcm.cpp:82-121 | every event comes back and the models on both sides stay in lock step |
| BcmSpec.EventsRoundTrip | turbobench_/bcm/bcm.cpp:67-121 | any events come back from their code, and what follows the code is left unread |
| BcmSpec.PackRoundTrip | turbobench_/bcm/bcm.cpp:424-438 | bcmdec returns every file from the output of bcmenc and reads exactly the bytes bcmenc wrote |
| Bcm.Counters.Estimate | turbobench_/bcm/bcm.cpp:192-201 | the arrays yield the model's probability |
| Bcm.Counters.Update | turbobench_/bcm/bcm.cpp:207-213 | exactly the four counters of the bit move, also where contexts coincide |
| Bcm.Counters.EndOfByte | turbobench_/bcm/bcm.cpp:227-233 | the finished byte enters the history and the run |
| Bcm.Coder.EncodeBit | turbobench_/bcm/bcm.cpp:83-99 | the span becomes the bit's part, settled, and the bytes shifted out are appended |
| Bcm.Coder.DecodeBit | turbobench_/bcm/bcm.cpp:102-121 | the bit whose part holds the code is read and the span follows |
| Bcm.Put32 | turbobench_/bcm/bcm.cpp:170-174 | 32 even bits, highest first, are sent |
| Bcm.Get32 | turbobench_/bcm/bcm.cpp:176-183 | 32 even bits are read into their number |
| Bcm.Put | turbobench_/bcm/bcm.cpp:185-234 | a byte's eight modelled bits are sent and the model moves on |
| Bcm.Get | turbobench_/bcm/bcm.cpp:236-283 | a byte is read as the reference reads it and the model moves on in lock step |
| Bcm.Enc | turbobench_/bcm/bcm.cpp:424-430 | bcmenc produces the reference code |
| Bcm.Dec | turbobench_/bcm/bcm.cpp:432-438 | bcmdec produces the reference decoding, and the file itself on every output of bcmenc |
| Bwt.RankOrders | turbobench_/bcm/bcm.cpp:361 | suffixes, closed by a smallest sentinel, compare as their ranks do |
| Bwt.SuffixOrderExists | turbobench_/bcm/bcm.cpp:361 | every text has a suffix order, so the transform is defined for every text |
| Bwt.EmptySuffixFirst | turbobench_/bcm/bcm.cpp:361-365 | the empty suffix is first, so the primary index of a nonempty text is between 1 and its length |
| Bwt.OriginsSorted | turbobench_/bcm/bcm.cpp:399-402 | the places that hold the first bytes of consecutive sorted rows are in the order of a stable sort |
| Bwt.SlotOfOrigin | turbobench_/bcm/bcm.cpp:399-402 | the counting sort puts the origin of every sorted row at that row |
| Bwt.LinkPlaces | turbobench_/bcm/bcm.cpp:401-402 | the links, shifted by one in front of the primary index, end up in stable byte order |
| Bwt.FirstByte | turbobench_/bcm/bcm.cpp:406-412 | eight halving steps find the byte whose counts hold the row |
| Bwt.FirstByteIs | turbobench_/bcm/bcm.cpp:399-412 | that byte is the first byte of the sorted row |
| Bwt.NextRow | turbobench_/bcm/bcm.cpp:402-414 | following a link leads from a suffix to the next one |
| Bwt.Rebuild | turbobench_/bcm/bcm.cpp:404-415 | the walk from the primary index spells the text |
| Bwt.Invert | turbobench_/bcm/bcm.cpp:396-416 | counting, links and walk rebuild every nonempty text from its transform and primary index |
| Bcm.BlockDecodes | turbobench_/bcm/bcm.cpp:366-370 | index, bytes and closing word come back from the code of a block |
| Bcm.Compress | turbobench_/bcm/bcm.cpp:354-375 | bcmcompress produces the reference block from a suffix order |
| Bcm.Decompress | turbobench_/bcm/bcm.cpp:377-422 | bcmdecompress returns the file from the output of bcmcompress, whatever follows it |
| QuickLz.HashOfThree | turbobench_/quicklz/src/quicklz.c:90-97 | the hash depends on the first three bytes only, though four are fetched |
| QuickLz.HashBits | turbobench_/quicklz/src/quicklz.c:90-97 | every bit of the hash is the exclusive or of two bits of the word, twelve apart |
| QuickLz.ReadBack | turbobench_/quicklz/src/quicklz.c:99-121 | a word fetched where the low bytes of another were stored agrees with it on those bytes |
| QuickLz.BodySplit | turbobench_/quicklz/src/quicklz.c:273-285 | tokens that use up the flags in hand leave a stream that starts with a fresh control word |
| QuickLz.FillingStep | turbobench_/quicklz/src/quicklz.c:310 | the control word in progress shifts one flag in and keeps its sentinel |
| QuickLz.FillingFull | turbobench_/quicklz/src/quicklz.c:273-279 | the sentinel reaches bit 0 exactly after 31 flags, and the stored word then holds those flags |
| QuickLz.BodyLength | turbobench_/quicklz/src/quicklz.c:255-262 | only control words make a stream longer than what it stands for |
| QuickLz.HeaderReadBack | turbobench_/quicklz/src/quicklz.c:177-199 | both header forms give back header size, packed size and original size |
| QuickLzPacker.FastWrite | turbobench_/quicklz/src/quicklz.c:131-174 | the bytes stored are the low bytes of the word; three are written as four |
| QuickLzPacker.Packer.NextWord | turbobench_/quicklz/src/quicklz.c:279-283 | the full control word is stored in its reserved place and the next one opened |
| QuickLzPacker.Packer.PutLiteral | turbobench_/quicklz/src/quicklz.c:355-358 | one literal and its 0 flag join the stream |
| QuickLzPacker.Packer.PutMatch | turbobench_/quicklz/src/quicklz.c:310-313 | one match of any shape and its 1 flag join the stream |
| QuickLzPacker.Packer.DropUnusedFlags | turbobench_/quicklz/src/quicklz.c:543-546 | shifting the sentinel down leaves the word of the flags used |
| QuickLzPacker.Packer.Finish | turbobench_/quicklz/src/quicklz.c:543-549 | what has been written is the stream of all tokens, reported as at least 9 bytes |
| QuickLzPacker.ShortPacket | turbobench_/quicklz/src/quicklz.c:786-791 | a short packet's length fits the one byte its header has for it |
| QuickLzPacker.TooLowMeans | turbobench_/quicklz/src/quicklz.c:276 | the compressor gives up when more than half has been read and the stream has not saved a 32nd of that |
| QuickLzPacker.WriteHeader | turbobench_/quicklz/src/quicklz.c:786-801 | the header written gives back both sizes, level and mode, and leaves the body alone |
| QuickLzCompress.RoomLeft | turbobench_/quicklz/src/quicklz.c:255-260 | the destination never overflows: size + 400 bytes leave room for the next token and control word |
| QuickLzCompress.OpenWord | turbobench_/quicklz/src/quicklz.c:273-285 | before a token there is a free flag, unless the control word is full and the stream has become too long past the middle, and exactly then it gives up |
| QuickLzCompress.TailLiteral | turbobench_/quicklz/src/quicklz.c:508-541 | one literal of the tail joins the stream, under a new control word where needed |
| QuickLzCompress.Sealing | turbobench_/quicklz/src/quicklz.c:543-549 | the finished stream stands for the source and fits the destination |
| QuickLzReader.StreamGoesOn | turbobench_/quicklz/src/quicklz.c:587 | the stream has four more bytes wherever four more bytes are to come, so the fetch stays inside |
| QuickLzReader.NextControlWord | turbobench_/quicklz/src/quicklz.c:572-580 | where no flag is left, the next four bytes are the next control word |
| QuickLzReader.NextToken | turbobench_/quicklz/src/quicklz.c:589-597 | bit 0 tells a literal from a match, and its bytes are next in the stream |
| QuickLzReader.BitlutZeros | turbobench_/quicklz/src/quicklz.c:561 | the 16-entry table gives at least one and at most four literals, never past a 1 flag |
| QuickLzReader.TakeLiterals | turbobench_/quicklz/src/quicklz.c:685-695 | n zero flags announce the next n bytes themselves, so four can be copied and n kept |
| QuickLzReader.TailIsPlain | turbobench_/quicklz/src/quicklz.c:700-717 | from the last match start on only literals follow, so the tail may ignore the flags |
| QuickLzReader.MemcpyUp | turbobench_/quicklz/src/quicklz.c:202-222 | four-byte copies at stride three equal the byte-wise overlapping copy for every distance of at least three; at most three bytes behind are overwritten |
| QuickLzReader.LiteralTail | turbobench_/quicklz/src/quicklz.c:700-722 | the tail loop writes exactly the last bytes |
| QuickLz1.HashedLast | turbobench_/quicklz/src/quicklz.c:245-252 | of the positions entered, the last with a hash is found under it |
| QuickLz1.HashedSplit | turbobench_/quicklz/src/quicklz.c:245-252 | hashing lazily in two goes is hashing in one |
| QuickLz1.LiteralInStep | turbobench_/quicklz/src/quicklz.c:354-360 | a literal keeps the compressor's table in step with the index a reader can have |
| QuickLz1.MatchInStep | turbobench_/quicklz/src/quicklz.c:349-350 | a match keeps them in step although its interior is never hashed |
| QuickLz1.RunRepeats | turbobench_/quicklz/src/quicklz.c:299 | inside a run of one byte the match at distance one is a match at distance three |
| QuickLz1.MatchResolves | turbobench_/quicklz/src/quicklz.c:291-300 | at every match the compressor takes, the entry under the transmitted hash in the reader's index yields the same bytes, in the run case too |
| QuickLz1.MatchLength | turbobench_/quicklz/src/quicklz.c:317-337 | the match returned is real, stays inside the limits and is the longest |
| QuickLz1Parse.LongestUnique | turbobench_/quicklz/src/quicklz.c:317-337 | only one length is the longest |
| QuickLz1Parse.GreedyUnique | turbobench_/quicklz/src/quicklz.c:255-365 | the source alone decides the tokens: at each position the last token start with the same hash is taken as a match whenever it is usable and three bytes agree, as far as it goes, and otherwise the token is a literal |
| QuickLz1Parse.ParseUnique | turbobench_/quicklz/src/quicklz.c:255-550 | the source alone decides where the tokens end: at its end, or at the first full control word at which the stream is too long |
| QuickLz1.Lookup | turbobench_/quicklz/src/quicklz.c:287-347 | the table entry is replaced; there is a match exactly where the old entry is usable and three bytes agree, and then it is the longest and resolves for the reader |
| QuickLz1.Step | turbobench_/quicklz/src/quicklz.c:286-365 | one token is added, the one that the tokens so far and the source decide, it resolves, and table, index and count of literals stay in step |
| QuickLz1.Turn | turbobench_/quicklz/src/quicklz.c:270-365 | one turn of the main loop adds the next token of the parse, or gives up where the parse ends |
| QuickLz1.CompressCore | turbobench_/quicklz/src/quicklz.c:255-550 | the stream written is that of the source's parse, stands for the source and resolves against the index rebuilt from it; 0 exactly where the parse gives up |
| QuickLz1.LiteralsAdvance | turbobench_/quicklz/src/quicklz.c:685-697 | taking n literals at once advances the index as one by one |
| QuickLz1.UpdateHashUpto | turbobench_/quicklz/src/quicklz.c:245-252 | the table gains exactly the positions after the last one hashed |
| QuickLz1.CopyMatch | turbobench_/quicklz/src/quicklz.c:675-681 | the match is spelled out and then hashed up to its start |
| QuickLz1.DecompressCore | turbobench_/quicklz/src/quicklz.c:552-727 | from a resolving stream the source comes back, with a table nobody has cleared |
| QuickLz1Packets.Compress | turbobench_/quicklz/src/quicklz.c:729-807 | every source of 1..2^32-401 bytes gives a packet that carries it: coded, and as long as its parse says, exactly where the parse reaches the end, and stored otherwise; others give none |
| QuickLz1Packets.Decompress | turbobench_/quicklz/src/quicklz.c:809-847 | a packet that carries a source gives it back |
| QuickLz1Packets.RoundTrip | turbobench_/quicklz/src/quicklz.c:729-847 | decompress(compress(x)) = x, whatever both tables held before |
| QuickLz3.OneByteShape | turbobench_/quicklz/src/quicklz.c:439-443 | the one-byte shape is recognised and holds offset and length |
| QuickLz3.TwoByteShapes | turbobench_/quicklz/src/quicklz.c:444-455 | both two-byte shapes are told apart and hold offset and length |
| QuickLz3.ThreeByteShape | turbobench_/quicklz/src/quicklz.c:457-462 | the three-byte shape is told from the four-byte one and holds offset and length |
| QuickLz3.FourByteShape | turbobench_/quicklz/src/quicklz.c:463-468 | the four-byte shape holds offset and length |
| QuickLz3.ReadNear | turbobench_/quicklz/src/quicklz.c:631-662 | whatever bytes follow the token, its shape, offset, length and size are read back |
| QuickLz3.Tables.Find | turbobench_/quicklz/src/quicklz.c:379-418 | the match found is the longest among the last sixteen positions entered under the hash, or those since the counter wrapped, and of equally long ones the nearest |
| QuickLz3.Tables.Insert | turbobench_/quicklz/src/quicklz.c:419-421 | the position is entered under its hash: the slots hold the last sixteen and the counter wraps at 256 |
| QuickLz3Parse.MatchIsLongest | turbobench_/quicklz/src/quicklz.c:385-418 | a position three bytes back or more at which three bytes agree offers all that agree up to the first difference or the limit, any other offers nothing |
| QuickLz3Parse.ChoiceUnique | turbobench_/quicklz/src/quicklz.c:367-476 | what has been entered decides the token: the longest and nearest match when it is three bytes or more and nearer than 131071, otherwise a literal |
| QuickLz3Parse.ParseUnique | turbobench_/quicklz/src/quicklz.c:255-550 | the packet and what was entered before it decide all its tokens, and where it gives up |
| QuickLz3.PutNear | turbobench_/quicklz/src/quicklz.c:439-468 | a match is stored in the shape its offset and length select |
| QuickLz3.Step | turbobench_/quicklz/src/quicklz.c:367-476 | one token is added, the one that the entries decide, it spells out the next bytes, and every position passed is entered |
| QuickLz3.CompressCore | turbobench_/quicklz/src/quicklz.c:255-550 | the stream written is that of the packet's parse and spells out the packet after the history; 0 exactly where the parse gives up |
| QuickLz3.DecompressCore | turbobench_/quicklz/src/quicklz.c:552-727 | from such a stream and the same history the packet comes back |
| QuickLz3Packets.Pack | turbobench_/quicklz/src/quicklz.c:770-801 | one packet carries its bytes to a reader with the same history: coded, and as long as its parse says, exactly where the parse reaches the end, and stored otherwise |
| QuickLz3Packets.Compressor.Compress | turbobench_/quicklz/src/quicklz.c:743-785 | the streaming buffer and the reset at its end give a packet of the parse for every size, and the entries are kept, or dropped with the buffer or a stored packet |
| QuickLz3Packets.Decompressor.Decompress | turbobench_/quicklz/src/quicklz.c:813-845 | with the same history the packet gives its bytes back, and both histories stay equal |
| QuickLz3Packets.Session | turbobench_/quicklz/src/quicklz.c:729-847 | any sequence of packets through one compressor and one decompressor comes back |
| FpcSort.ByteCount | EC/FPC/fpc.c:413-442 | the four interleaved tables add up to the histogram |
| FpcSort.MovedMultiset | EC/FPC/fpc.c:467-478 | entries moved to distinct places are still the same entries |
| FpcSort.TwoPasses | EC/FPC/fpc.c:467-478 | a stable pass by high bytes after a stable pass by low bytes sorts and permutes |
| FpcSort.SortInc | EC/FPC/fpc.c:445-479 | the list is sorted by frequency in place and holds the same entries |
| FpcLengths.MergeIsLeast | EC/FPC/fpc.c:584-604 | no choice of leaves and packages weighs less than the front of the merged list |
| FpcLengths.ListIsLeast | EC/FPC/fpc.c:564-606 | no choice of leaves at all levels weighs less than the front of the top list |
| FpcLengths.LeafUsedAbove | EC/FPC/fpc.c:611-619 | a leaf used at one level is used at every level above |
| FpcLengths.BitsOfLengths | EC/FPC/fpc.c:611-623 | the computed lengths cost exactly what the front of the top list weighs |
| FpcLengths.DemandCost | EC/FPC/fpc.c:611-613 | any assignment of lengths makes a choice of leaves that costs no more and is heavy enough by its Kraft sum |
| FpcLengths.CoversByWeight | EC/FPC/fpc.c:611-613 | leaf counts make up t packages exactly when their scaled weight reaches t |
| FpcLengths.Optimal | EC/FPC/fpc.c:564-624 | for sorted positive frequencies of 2..256 symbols no lengths 1..11 that satisfy Kraft cost less |
| FpcLengths.EveryLeaf | EC/FPC/fpc.c:611-613 | every symbol is among the first 2n - 2 entries, so every length is at least 1 |
| FpcLengths.LengthsAreFull | EC/FPC/fpc.c:564-624 | all lengths are 1..11 and their Kraft sum is exactly 1 |
| FpcLengths.PackageLight | EC/FPC/fpc.c:579-606 | one more package costs no more than one more bit for every symbol, so every package of a level but the last weighs at most what the frequencies add up to |
| FpcLengths.EntryLight | EC/FPC/fpc.c:579-606 | every entry of a merged list but the very last weighs at most what the frequencies add up to |
| FpcLengths.RestLight | EC/FPC/fpc.c:614-618 | the entries a level needs of the one below are not heavier than those needed of itself |
| FpcBuild.Compared | EC/FPC/fpc.c:585-603 | comparing over the two sentinels of 65535 takes the entry the exhausted lists would give, unless it is the last of the level and heavier than 65535 |
| FpcBuild.SentinelTaken | EC/FPC/fpc.c:581-602 | for the frequencies 1 (seven times) and 65000 the last entry of level 2 weighs more than the sentinel, which the code then takes in its place |
| FpcBuild.TakeEntry | EC/FPC/fpc.c:585-603 | the comparison of the code, sentinels included, yields weight and leaf count of the next entry up to weight 65535 |
| FpcBuild.FillLevel | EC/FPC/fpc.c:579-606 | one level over the sentinels: every package and table place up to weight 65535 is that of the merged lists, for frequencies that add up to at most 65535 |
| FpcBuild.FillTable | EC/FPC/fpc.c:572-606 | every row counts the leaves up to each entry that is in a package and weighs at most 65535 |
| FpcBuild.CountMarks | EC/FPC/fpc.c:611-619 | walking the levels down marks the last leaf each one uses, and never reads a table place that a sentinel has spoilt |
| FpcBuild.SumMarks | EC/FPC/fpc.c:620-623 | running sums turn the marks into the number of levels that use each leaf |
| FpcBuild.BuildPrefixCodes | EC/FPC/fpc.c:564-624 | in place, frequencies that add up to at most 65535 become optimal lengths with Kraft sum 1; symbols and the entries around them and the sentinel are untouched |
| FpcTables.RevTwice | EC/FPC/fpc.c:315-318 | reversing n bits twice gives them back |
| FpcTables.RevParts | EC/FPC/fpc.c:315-318 | reversing two parts next to each other swaps them reversed |
| FpcTables.TrevReverses | EC/FPC/fpc.c:304-312 | each of the 128 table values is the reversal of its index |
| FpcTables.BrevIsRev | EC/FPC/fpc.c:315-318 | two look-ups reverse all 14 bits |
| FpcTables.StartAligned | EC/FPC/fpc.c:501-508 | with a Kraft sum of 1 the first code of every length starts at a multiple of its space |
| FpcTables.CodeAligned | EC/FPC/fpc.c:523-524 | so does every code |
| FpcTables.OneOwner | EC/FPC/fpc.c:523-524 | the code spaces of two symbols never overlap, so no code is a prefix of another |
| FpcTables.SomeOwner | EC/FPC/fpc.c:507 | and together they cover every window |
| FpcTables.OwnerIs | EC/FPC/fpc.c:523-537 | a code followed by any bits belongs to its symbol alone |
| FpcTables.WindowOwner | EC/FPC/fpc.c:523-537 | a window starts with a symbol's reversed code exactly when that symbol owns it |
| FpcTables.PlaceSymbol | EC/FPC/fpc.c:526-536 | the doubly unrolled loop writes the symbol's places and no others |
| FpcTables.ConstructDecTable | EC/FPC/fpc.c:481-539 | refused exactly when the lengths do not fill the code space; otherwise each of the 2048 entries is written once, with the symbol and length of its window |
| FpcEncoder.ConstructEncTable | EC/FPC/fpc.c:543-561 | every symbol with a length gets its canonical code, reversed |
| FpcHeader.WritePrefixDescr | EC/FPC/fpc.c:679-714 | the nibbles written are the run-length description of the lengths |
| FpcHeader.RunSize | EC/FPC/fpc.c:690-711 | a run takes its length and one nibble for up to four repeats, or two and one more for every fifteen beyond five |
| FpcHeader.DescriptionSize | EC/FPC/fpc.c:679-714 | a description never takes more than one nibble for a length |
| FpcHeader.NextIs | EC/FPC/fpc.c:721-747 | at every point the next nibble is the next length or announces repeats of the previous one |
| FpcHeader.Reader.Get | EC/FPC/fpc.c:637-653 | nibbles come low half first, and 100 only at the end of the input |
| FpcHeader.ReadFifteens | EC/FPC/fpc.c:735-746 | a long repeat is copied to its end or refused |
| FpcHeader.ReadPrefixDescr | EC/FPC/fpc.c:717-750 | any input gives lengths in range or 0; a description gives back its lengths and exactly the bytes it took |
| Registers.OrAppends | EC/FPC/fpc.c:771-774 | OR-ing a shifted code appends its bits to those held |
| FpcEncoder.PrefixCodesEncode | EC/FPC/fpc.c:760-798 | the bytes stored are the codes of every third byte, in order, closed within one byte |
| FpcDecoder.OrWindow | EC/FPC/fpc.c:812-816 | OR-ing in the next 64 bits over bits already there keeps every known bit right |
| FpcDecoder.LookupSymbol | EC/FPC/fpc.c:838-844 | a register that holds the next code looks up its symbol and length |
| FpcDecoder.Lane.Renorm | EC/FPC/fpc.c:812-816 | after the refill at least 56 bits count and all 64 are the true stream, and the position moves by at most 7 |
| FpcDecoder.Lane.RenormEnd | EC/FPC/fpc.c:818-830 | near the end of the input at least 11 bits are known, or the input is exhausted |
| FpcDecoder.Lane.Decode | EC/FPC/fpc.c:838-844 | the next byte of the stream's own third is decoded and exactly its code consumed |
| FpcDecoder.StillMany | EC/FPC/fpc.c:875-880 | sixteen unread bytes of the last stream hold more than ten codes, so a round never writes past the end |
| FpcDecoder.FastLoop | EC/FPC/fpc.c:880-894 | the twice unrolled loop stays inside input and output and leaves the lanes abreast |
| FpcDecoder.Finish | EC/FPC/fpc.c:896-902 | the tail loop completes the block symbol by symbol and writes nothing else |
| FpcDecoder.PrefixCodesDecode | EC/FPC/fpc.c:863-904 | from the three streams of a block its bytes come back |
| FpcSymbols.SortingKeeps | EC/FPC/fpc.c:920-923 | after sorting there is still one entry for every symbol |
| FpcSymbols.TwoSymbols | EC/FPC/fpc.c:925-932 | unless one symbol makes up the block, at least two have counts |
| FpcSymbols.SortedCountsFit | EC/FPC/fpc.c:920-934 | the counts handed to the code lengths add up to no more than the block, so to at most 65535 |
| FpcSymbols.LengthsFull | EC/FPC/fpc.c:930-934 | Kraft's equality for the sorted lengths is Kraft's equality for the symbols |
| FpcSymbols.BitsBySymbol | EC/FPC/fpc.c:920-934 | the bits of a block are the counts of its symbols times their code lengths |
| FpcSymbols.PickedFit | EC/FPC/fpc.c:930-934 | the lengths any prefix code gives to the symbols that occur meet Kraft's inequality |
| FpcSymbols.LeastBits | EC/FPC/fpc.c:930-934 | lengths that are least for the sorted counts make the block shortest among all prefix codes of at most 11 bits |
| FpcSymbols.TopOfSorted | EC/FPC/fpc.c:923-937 | the last two entries of the sorted list are the two most frequent symbols |
| FpcSymbols.StreamsTotal | EC/FPC/fpc.c:951-955 | the three streams together take the bits of the block |
| FpcSymbols.CodedSizeIs | EC/FPC/fpc.c:947-957 | behind header and sizes a coded block takes the bits of its bytes and less than three bytes more |
| FpcBlock.BuildLengths | EC/FPC/fpc.c:930-934 | after cutting zero counts, every byte of the block has a code, the lengths fill the code space, and no prefix code of at most 11 bits makes the block shorter |
| FpcBlock.CodeBlock | EC/FPC/fpc.c:937-966 | the block is coded, and as long as its code says, unless the two most frequent symbols have codes of at least 7 and exactly 8 bits or the code is no shorter |
| FpcBlock.Assembled | EC/FPC/fpc.c:947-964 | header, two sizes and three streams make up a block that decodes to the input |
| FpcBlock.CompressBlock | EC/FPC/fpc.c:908-967 | a block below 32 bytes stays as it is, one of a single symbol becomes one byte, and any other becomes the code with the fewest bits, unless that is flat or no shorter; it stands for its bytes and is never longer |
| FpcFile.DecompressBlock | EC/FPC/fpc.c:971-999 | all three kinds of block give back their bytes and leave the rest of the output alone |
| FpcFile.BlockEncode | EC/FPC/fpc.c:1001-1007 | the two sizes in front of a block are its own, and the block is the one the compressor makes of the bytes |
| FpcFile.CompressFixed | EC/FPC/fpc.c:1099-1113 | with any block size 1..65535 the file consists of frames of the input in order, all of them of that size but the last, which may be shorter |
| FpcFile.Decompress | EC/FPC/fpc.c:1115-1140 | a file gives back its input and its length |
| FpcAdaptive.HistogramBounds | EC/FPC/fpc.c:1053-1056 | differences of suffix counts are true histograms, within the range of the logarithm table |
| FpcAdaptive.CountStep | EC/FPC/fpc.c:1038-1045 | the ring slot of a step holds the suffix counts as far as the int index counts them, the other slots theirs |
| FpcAdaptive.EstimateCost | EC/FPC/fpc.c:1050-1067 | the unrolled sum and the thresholds compute the estimate of one block, even where a count has left an int |
| FpcEstimates.EstimateIsSize | EC/FPC/fpc.c:1050-1067 | where the table is exact for the counts, the estimate is the size in bytes of the block under the code whose lengths are the logarithms: bits over 8 and 100 more, at least a bit a byte, 5 for a single symbol, and 4 more than the block where that is not shorter |
| FpcEstimates.DoublingIsExact | EC/FPC/fpc.c:407-410 | a table that counts a bit for every doubling is exact for a block and its parts by powers of two |
| FpcEstimates.EqualEstimate | EC/FPC/fpc.c:1050-1067 | a block in which each of 2^j bytes occurs equally often is estimated at j bits a byte |
| FpcEstimates.HalvesCheaper | EC/FPC/fpc.c:1050-1069 | two halves of equally frequent bytes over different alphabets are estimated smaller as two blocks than as one |
| FpcEstimates.HalvesAreSplit | EC/FPC/fpc.c:1037-1079 | a split that is least never leaves two such halves in one block |
| FpcEstimates.TwoAlphabetsAreSplit | EC/FPC/fpc.c:1037-1079 | for every number of bytes 2^1..2^7 and of steps there is such a file, and it is split |
| FpcAdaptive.ChooseBlock | EC/FPC/fpc.c:1047-1075 | starting at INT_MAX, the block chosen attains the least int cost from its step on, and any longer one costs more |
| FpcAdaptive.CostsFit | EC/FPC/fpc.c:1069-1078 | with at most 1048509 steps every sum of costs is what it would be without a width |
| FpcAdaptive.ChooseBlocks | EC/FPC/fpc.c:1021-1079 | up to 2^31 + 2047 bytes every step gets its best first block; beyond, the first entry stays 0 or a turn reads memory that nothing has set |
| FpcAdaptive.WalkCost | EC/FPC/fpc.c:1081-1091 | the blocks walked cost together what the programme left for the first step |
| FpcAdaptive.StepBack | EC/FPC/fpc.c:1039-1079 | one step back keeps all ring slots that will be read at their true suffix values |
| FpcAdaptive.NoSplitIsCheaper | EC/FPC/fpc.c:1037-1079 | with at most 1048509 steps no split into blocks of 1..31 steps has a smaller estimated cost |
| FpcAdaptive.WalkNext | EC/FPC/fpc.c:1081-1091 | each block takes 1..31 steps inside the input and at most 65535 bytes, the odd bytes in front included |
| FpcAdaptive.CompressAdaptive | EC/FPC/fpc.c:1009-1094 | a file of the input is written if and only if it has at most 2^31 + 2047 bytes, and below 2^32 + 2048 a longer one never ends; the frames tile the input as the chosen split says, and with at most 1048509 steps no split is estimated cheaper |
| FpcAdaptive.Compress | EC/FPC/fpc.c:1099-1113 | a file of the input is written if and only if a block size is given or the input has at most 2^31 + 2047 bytes |
| FpcAdaptive.RoundTrip | EC/FPC/fpc.c:1099-1140 | FPC_decompress(FPC_compress(x)) = x for every input and every block size, adaptive mode if and only if the input has at most 2^31 + 2047 bytes |
| FpcCostBounds.EstimateInInt | EC/FPC/fpc.c:1050-1065 | no sum or product inside an estimate leaves an int |
| FpcCostBounds.BlindCosts | EC/FPC/fpc.c:1038-1045 | from 2^31 + 1 bytes on nothing is counted, so costs and choices depend on the length alone |
| FpcCostBounds.CostLeaves | EC/FPC/fpc.c:1069 | for every larger number of steps a named input has a cost sum beyond INT_MAX |
| FpcCostBounds.CostsFitIff | EC/FPC/fpc.c:1069 | no sum of costs of an input of n steps leaves an int, whatever it holds, if and only if n is at most 1048509 |
| FastHfTree.HeapBuilt | EC/fasthf/binary_codec.cpp:69-78 | adding the first half makes a min-heap of all symbols |
| FastHfTree.StaysHeap | EC/fasthf/binary_codec.cpp:79-97 | taking the least item and joining the two least keep the heap and its total |
| FastHfTree.RoundTakes | EC/fasthf/binary_codec.cpp:80-91 | the two items taken are the least, and the new node's number is not in use |
| FastHfTree.ForestJoined | EC/fasthf/binary_codec.cpp:80-91 | joining them keeps disjoint trees that hold every symbol, none heavier than its parent's sibling |
| FastHfTree.CombineGood | EC/fasthf/binary_codec.cpp:74-101 | at the end there is one tree with every symbol at exactly one leaf |
| FastHfTree.NodesStand | EC/fasthf/binary_codec.cpp:83-101 | the branches left behind spell out that tree from node 1 |
| FastHfTree.TreeOfCounts | EC/fasthf/binary_codec.cpp:61-102 | for any counts the result is a full binary tree of all symbols that weighs their total |
| FastHfTree.DeepIsHeavy | EC/fasthf/binary_codec.cpp:61-102 | a tree of height d built this way weighs at least Fibonacci(d + 2) |
| FastHfTree.DepthBound | EC/fasthf/binary_codec.cpp:649-666 | with a total below 2^15 no codeword is longer than 21 bits |
| FastHfOptimal.RoundWeights | EC/fasthf/binary_codec.cpp:79-97 | the two weights joined are the least two, and their sum takes their place |
| FastHfOptimal.JoinWords | EC/fasthf/binary_codec.cpp:79-97 | in any code the two least weights can be given to two longest codewords and joined, which saves their sum |
| FastHfOptimal.JoiningIsLeast | EC/fasthf/binary_codec.cpp:79-97 | any codewords for the weights in the heap cost at least what joining them costs |
| FastHfOptimal.CombineCost | EC/fasthf/binary_codec.cpp:79-97 | the tree costs what joining the heap costs |
| FastHfOptimal.BitsOfTree | EC/fasthf/binary_codec.cpp:69-97 | the weights of a tree's nodes add up to the bits its symbols take, each as often as it is counted |
| FastHfOptimal.HuffmanIsLeast | EC/fasthf/binary_codec.cpp:64-97 | for any counts, no lengths that meet Kraft's inequality, so no prefix code, take fewer bits than the tree |
| FastHfForm.SiftIn | EC/fasthf/binary_codec.cpp:92-99 | the inner loop lets an item sink to its place, in the overlaid arrays |
| FastHfForm.BuildHeap | EC/fasthf/binary_codec.cpp:66-78 | the overlaid arrays hold a heap of all symbols |
| FastHfForm.TakeSecond | EC/fasthf/binary_codec.cpp:86-91 | the second branch is written and the joined item sinks into the heap that is left |
| FastHfForm.FormHuffmanTree | EC/fasthf/binary_codec.cpp:61-102 | the branch arrays end as the branches of the reference tree although they held the heap meanwhile |
| FastHfCode.PathDown | EC/fasthf/binary_codec.cpp:114-118 | going down a left branch keeps everything left of the path done |
| FastHfCode.PathUp | EC/fasthf/binary_codec.cpp:123-126 | backing up from a finished right branch finishes the node above |
| FastHfCode.PathTurn | EC/fasthf/binary_codec.cpp:127 | turning to the right branch keeps everything left of the path done |
| FastHfCode.FillTable | EC/fasthf/binary_codec.cpp:157-158 | the places filled are exactly those that start with the codeword |
| FastHfCode.Descend | EC/fasthf/binary_codec.cpp:143-148 | the descent ends at a leaf, keeps the stack within 32 and enters the node at table depth |
| FastHfCode.Backtrack | EC/fasthf/binary_codec.cpp:161-165 | backing up ends at the next right branch, or with the whole tree done |
| FastHfCode.SetHuffmanCode | EC/fasthf/binary_codec.cpp:133-167 | every leaf gets its path as codeword, and every table place the leaf or the node that its bits lead to |
| FastHfSpec.CodewordIsPath | EC/fasthf/binary_codec.cpp:120-121 | length and codeword of a symbol are its path from the root |
| FastHfSpec.Rescaled | EC/fasthf/binary_codec.cpp:652-654 | the halving ends, with a total below 2^15 |
| FastHfSpec.Next | EC/fasthf/binary_codec.cpp:278-279 | after every symbol the adapted code is again one the codec can handle |
| FastHfLearning.NextCounts | EC/fasthf/binary_codec.cpp:278-279 | the count of the coded symbol is raised, and at the end of a cycle the tree is that of the rescaled counts and the next cycle longer |
| FastHfLearning.CountsFollow | EC/fasthf/binary_codec.cpp:278-279 | while 2^15 is not reached, each count is 1 plus the occurrences of its symbol, and the tree is that of the message up to the last update |
| FastHfLearning.CodeIsLeast | EC/fasthf/binary_codec.cpp:649-666 | no prefix code takes fewer bits for the message up to the last update, every symbol counted once more, than the code in use |
| FastHf.AdaptiveHuffmanCode.constructor | EC/fasthf/binary_codec.cpp:618-645 | an alphabet of 3..4096 symbols starts uniform, with code and table |
| FastHf.AdaptiveHuffmanCode.Update | EC/fasthf/binary_codec.cpp:649-666 | counts, tree, codewords and, for the decoder, the table become those of the rescaled counts |
| FastHf.Encoder.PutBits | EC/fasthf/binary_codec.cpp:226-241 | up to 24 bits are appended to what has been sent, whole bytes moved out |
| FastHf.Encoder.Encode | EC/fasthf/binary_codec.cpp:263-280 | the symbol's path is appended and the code adapts; the 32-bit buffer never overflows |
| FastHf.Encoder.Stop | EC/fasthf/binary_codec.cpp:495-507 | the bytes are just enough for the bits sent |
| FastHf.TableLeads | EC/fasthf/binary_codec.cpp:374-383 | a table place that starts with a path leads to its leaf, or to a node on the way with the rest of the path ahead |
| FastHf.Decoder.Refill | EC/fasthf/binary_codec.cpp:371-372 | after the refill at least 25 bits of the buffer are the true stream |
| FastHf.Decoder.Decode | EC/fasthf/binary_codec.cpp:365-392 | the symbol whose path comes next is decoded, its bits leave the buffer and the code adapts in lock step |
| FastHf.EncodeWith | EC/fasthf/binary_codec.cpp:263-280 | coding with one of many codes adapts that one and leaves the others as they are |
| FastHf.DecodeWith | EC/fasthf/binary_codec.cpp:365-392 | decoding with one of many codes adapts that one and leaves the others and their tables as they are |
| FastHf.EncodeMessage | EC/fasthf/binary_codec.cpp:448-507 | a message of raw bits, bit groups and symbols, each under the code it names, becomes bytes that carry its bits |
| FastHf.DecodeMessage | EC/fasthf/binary_codec.cpp:461-470 | the bytes of a message, whatever follows them, give it back |
| FastHf.RoundTrip | EC/fasthf/binary_codec.cpp:365-392 | adaptive encoding and decoding returns every message over any number of codes of 3..4096 symbols each |

## Left out

- FastAc.Decoder.GetBits: a value beyond the last group, which only a damaged code can hold, is excluded.
- FastAc.DecodeMessage: codes that no encoder wrote are excluded; the source decodes them to some message or other.
- Subbotin.RcModel.constructor: validity is promised for models whose true totals stay within 2^16 while adapting, see `SubbotinSpec.StaysCodableIff`; an empty alphabet, which divides by 0, is not among them.
- Subbotin.EncodeSymbol: a symbol of the alphabet whose count is 0 is excluded, as the assertion in the source asks; on such a symbol the source does not return, see `SubbotinSpec.EmptyNeverSettles`.
- Subbotin.EncodeMessage: the same for the symbols of a message.
- Subbotin.DecodeMessage: codes that no encoder wrote are excluded; `Subbotin.RcDecoder.DecodeSymbol` takes any input and reports the symbol error.
- QuickLz1.DecompressCore: streams that resolve to no source are excluded, as the build without QLZ_MEMORY_SAFE assumes.
- QuickLz3.DecompressCore: streams that spell out no packet are excluded, for the same reason.
- FpcDecoder.PrefixCodesDecode: streams no encoder wrote are excluded; the source decodes them to some bytes without a check.
- FpcFile.DecompressBlock: damaged blocks are excluded; `FpcHeader.ReadPrefixDescr` and `FpcTables.ConstructDecTable` take any input.
- FastHf.DecodeMessage: bytes that do not start with the bits of a message are excluded.
- FpcFile.Decompress: what happens on files no compressor wrote is modelled for the header and the code lengths only.
- QuickLz1Packets.Decompress: packets that no compressor wrote are excluded, as the build without QLZ_MEMORY_SAFE assumes.
- QuickLz3Packets.Decompressor.Decompress: the same.
- Bcm.Decompress: only the output of bcmcompress for a file of the given length; the test of the index then never fails.
- FastHf.Decoder.Decode: only codes that an encoder wrote, followed by any bytes.
- libsais, which computes the transform in bcmcompress, is not part of this model: the transform is its definition, suffixes sorted with a smallest sentinel.
- bcm's CRC, which nothing calls in these functions.
- Reading past the end of an input: bytes there count as 0, for bcm as getc's -1; the round trips do not depend on them.
- fpaqc's fixed capacity of the output stack, and buffer-size errors of FastAC, FastHF and Subbotin's I/O.
- Lengths that a caller passes as `int`, `unsigned` or `size_t` are natural numbers; those that fit the type can be passed.
- FILE input and output, allocation failures, mode errors and `_DEBUG` checks.
- FastAC and FastHF: static models set from doubles, `write_to_file` and `read_from_file`, the TREE_DECODE variant.
- FastAC and FastHF carve their arrays out of one allocation; here they are separate arrays, except that FastHF's heap still lies in the branch arrays.
- FastHF: setting the code twice on one object for different alphabets.
- QuickLZ: level 2, QLZ_MEMORY_SAFE, and the branches for processors other than x86.
- QuickLZ level 3: the copy into the caller's buffer is the packet returned; source and history are one sequence.
- FPC: 32-bit words, big-endian machines, prefetching, other stream and unroll counts, DEBUG and TEST_CORRUPT builds.
- FPC: an 8-byte store whose last bytes are overwritten later is an append of the bytes that stay.
- FpcAdaptive.NoSplitIsCheaper: says nothing from 1048510 steps on, where a sum of costs may wrap; what the code then does is `FpcAdaptive.From` and `FpcAdaptive.Best`.
- FpcAdaptive.CompressAdaptive: from 2^32 + 2048 bytes on it is proved only that no file of the input comes out.
- FPC: what malloc leaves in the block sizes is a parameter, and a read of a ring slot that nothing has set ends the run as `Undefined`; an overflow of a signed sum is two's complement.
- FPC: the table of logarithms is a parameter of 1024 bytes; only `FpcCostBounds.CostLeaves` and `FpcCostBounds.CostsFitIff` depend on its values, and the lemmas of `FpcEstimates`, by the relations `Exact` and `Doubling` that the table of the source meets.
- getopt: messages, long options and the scan that calls the exchange.
- The benchmark around the codecs, and the codecs that call libraries whose source is not here.
