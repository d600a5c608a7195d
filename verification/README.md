# Verified models of edge264-mvc

A Dafny project that models the logic of the edge264-mvc decoder (ITU-T H.264, with the two views of Annex H)
and proves properties of it. `dafny verify dfyconfig.toml` checks everything.

| file | what it models |
|---|---|
| `Arithmetic`, `Sets` | integer functions and cardinalities shared by the others |
| `Bits`, `Nal`, `Cache`, `BitReader` | escape removal on 16-byte windows, the two-word cache with a sentinel bit, fixed and Exp-Golomb codes |
| `Cabac`, `Encoding` | the arithmetic decoder, whose range and offset are scaled by a power of two told by the leading bit; the encoder it undoes |
| `Counters` | frame numbers, picture order counts of types 0 and 1, the unwrapped display keys |
| `Marking`, `GapFilling`, `FieldMarking` | reference marking of frames and fields, gaps in frame_num |
| `RefLists`, `FieldLists` | initialisation and modification of reference lists, for frames and fields |
| `SliceGroups` | slice group maps of types 0 to 5 |
| `OutputQueue`, `Dpb`, `Output` | the decoded picture buffer: bumping, pairing of views, flushing, what the caller gets and returns |
| `Tasks`, `Progress`, `WorkerPool` | slice tasks of multithreaded decoding: chains, readiness, concealment, deadlock freedom |
| `Speculation` | slices begun before their end is known, what is saved, taking back and decoding again |
| `Lanes`, `Deblock`, `BoundaryStrength` | one lane of the deblocking filters, and boundary strengths |
| `Inter`, `MvPrediction`, `DirectCutting` | half samples and weighted prediction in 16 bits, vector predictors, the cutting of direct blocks |

Two styles alternate. What the code computes step by step is a class or a method with loops (`GetBits`, `Context`,
`RefMarking`, `FieldRefs`, `Queue`, `Decoder`, `Scheduler`, `SliceWorker`), proved against a function on values; what
the standard or the documentation promises is then proved about that function, for all inputs or all runs.

Some models rest on a view of their surroundings:

- Threads share the state under one lock, so the steps of `Tasks` are what happens between two releases of it; a wait
  on a condition is a step that is not enabled. `limit` is the number of pictures allowed in flight, which is at most
  the number of workers (`src/edge264mvc.c:294`, `src/edge264mvc_internal.h:1615-1619`).
- The decoding of macroblocks is a deterministic function. `Speculation` takes the deblocking of one macroblock as a
  parameter that changes no more than the rows and columns next to its edges and depends on no later macroblock.
- `Output` takes which pictures are complete, or have tasks in flight, as fields that decoding changes. The current
  picture is completed by its own slices alone, hence after it was added (`src/edge264mvc_headers.c:2299-2300`).

## Where the code and what it promises differ

- Type 0 picture order counts take an lsb difference of exactly half of MaxPicOrderCntLsb downwards, where 8.2.1.1
  goes up (`Counters.PocType0Half`). They agree in all other cases.
- The prefix sums of type 1 offsets are stored in 16 bits (`src/edge264mvc_internal.h:315`), so counts follow 8.2.1.2
  exactly if all of them fit (`Counters.PocType1MeetsSpec`, and an input in `Counters.PocType1Wraps`).
- After an operation 6 an operation 3 with the same index leaves two long-term frames with one index
  (`Marking.RepeatedIndex`). The index is that of the operation 6 or of a later operation 3 that finds no reference.
  `Marking.StaysDistinct` and `Marking.NoClashList` give the exact condition for every list of operations.
- A picture is added to the output if it does not wait already, so a slice that comes after its picture was completed
  and delivered adds it a second time (`Dpb.DeliveredTwice`). Each picture is delivered at most once over every run in
  which slices find their picture waiting or incomplete, which is the exact condition (`Dpb.AddedTwice`,
  `Output.Decoder.AddSlice`).
- A 00 00 03 behind a 00 00 0n (n below 3) in the same window takes CPB too far, though the bytes returned are right. If
  the arithmetic decoder starts on them, stepping back stops too late and payload bytes are lost (`Cabac.LoseByte`).
  `Cabac.CabacStart` has the exact condition, which every NAL unit without such a sequence meets.
- The vector form of boundary strengths needs zero vectors in unused lists, which the scalar form does not look at
  (`BoundaryStrength.UnusedVectorMatters`; `BoundaryStrength.UnusedVectors` tells for which vectors it matters).
- Packed weights need the limit that 8.4.2.3 sets on their sum (`Inter.TooMuchWeight`, `Inter.ProductsFit`).
- CABAC data that starts with nine bits of 510 or more, which 9.3.1.2 forbids, leaves the offset equal to the range
  (`Cabac.StartRep`, `Cabac.NineOnes`).
- The fullness gate counts waiting pictures, but since a queue has a place for every slot it closes only when a queue
  holds all of them (`Output.Decoder.Gate`).

## Model

| member | source | states |
|---|---|---|
| Nal.PayloadOfEscape | src/edge264mvc_bitstream.c:41-60 | escaping a byte string with emulation prevention bytes and taking them out again gives the string, from any number of zeros before it (7.3.1) |
| Nal.Truncate | src/edge264mvc_bitstream.c:48-53 | cutting the memory where a 00 00 0n stop (n below 3) begins changes no payload byte at or after any earlier position |
| Nal.Consume | src/edge264mvc_bitstream.c:54-60 | the unflagged bytes of a window are the next payload bytes, and what follows the window is the rest of the payload |
| Nal.AdvanceRest | src/edge264mvc_bitstream.c:13-69 | before the first stop, the position reached after n payload bytes has exactly the payload from byte n on before it |
| Nal.RewindPosition | src/edge264mvc_bitstream.c:330-336 | stepping the position back over one payload byte, and over an escape byte if one stands there, undoes reading that byte, in any NAL unit |
| BitReader.RemoveEscapes | src/edge264mvc_bitstream.c:54-60 | the loop over the escape mask leaves, in its first nbytes lanes, the bytes not flagged, and counts the flagged ones among them |
| BitReader.StopCuts | src/edge264mvc_bitstream.c:48-53 | the new end that a stop sets leaves the payload as it was, and only zeros are cut |
| BitReader.GetBits.Clean | src/edge264mvc_bitstream.c:41-60 | one 16-byte window yields the next nbytes payload bytes, through the fast and the slow path, and moves the end and CPB past every escape among them, those behind a stop included |
| BitReader.GetBits.GetBytes | src/edge264mvc_bitstream.c:13-69 | the next nbytes bytes of the de-escaped payload, big endian, with zeros past the end, for every position relative to the end; and where CPB and the end are left |
| BitReader.PlacedPoints | src/edge264mvc_bitstream.c:13-69 | whatever the NAL unit, what is seen from the position behind n payload bytes is the payload from byte n on |
| BitReader.ExactMeans | src/edge264mvc_bitstream.c:329-337 | two places in a payload look the same exactly if they are the same or only zeros follow the first |
| BitReader.TidySurplus | src/edge264mvc_bitstream.c:46-60 | CPB passes over no 00 00 03 behind a stop if the NAL unit has none there |
| BitReader.GetBits.SkipHeader | src/edge264mvc.c:555-564 | after the NAL unit header the cache is filled again and the readers stand at the first bit behind it |
| Cache.CacheRead | src/edge264mvc_bitstream.c:103-124 | the top v bits of the upper word are the next v payload bits, and shifting both words keeps the cache in step |
| Cache.CacheLow | src/edge264mvc_bitstream.c:103-124 | the lower word is zero exactly when fewer than 64 cached bits are left, which is when a refill is due |
| Cache.CacheRefill | src/edge264mvc_bitstream.c:95-101 | a refill puts the sentinel behind 64 more bits without losing a cached bit, for every number of bits left |
| BitReader.GetBits.Refill | src/edge264mvc_bitstream.c:95-101 | the refilled cache holds the payload bits from the read position on |
| BitReader.GetBits.Drop | src/edge264mvc_bitstream.c:103-124 | bits read leave the cache, and 8 more bytes are fetched exactly if fewer than 64 bits are left |
| BitReader.GetBits.GetU1 | src/edge264mvc_bitstream.c:103-109 | the next payload bit, and the position moves by one |
| BitReader.GetBits.GetUv | src/edge264mvc_bitstream.c:112-124 | the number made of the next v payload bits, for v from 1 to 32 |
| BitReader.GetBits.Code | src/edge264mvc_bitstream.c:128-129 | the length taken from the leading zeros and the value are those of the ue(v) code at the position (9.1), codes of 32 or more leading zeros reading as 63 bits |
| BitReader.GetBits.GetUe16 | src/edge264mvc_bitstream.c:127-134 | the ue(v) code at the position, clipped to the upper bound, for every payload |
| BitReader.GetBits.GetSe16 | src/edge264mvc_bitstream.c:137-145 | the se(v) code at the position, clipped to both bounds, for every payload |
| BitReader.SignedInRange | src/edge264mvc_bitstream.c:139-140 | codes of less than 32 leading zeros map to se(v) values without overflow |
| BitReader.UnsignedRoundTrip | src/edge264mvc_bitstream.c:127-134 | the code that writes k + 1 in 2 lz + 1 bits is read as k, for every k below 2^32 - 1 |
| BitReader.SignedRoundTrip | src/edge264mvc_bitstream.c:137-145 | the code of 2 v - 1 for v > 0, and of -2 v otherwise, is read as v |
| Cabac.Transitions | src/edge264mvc_bitstream.c:223-240 | the transition table indexed with complemented states is the table of 9.3.3.2.1.1, for every state and most probable symbol |
| Cabac.Ranges | src/edge264mvc_bitstream.c:205-222 | every entry of the range table is between 2 and 240, so a subinterval never is empty or the whole range |
| Cabac.RepRenorm | src/edge264mvc_bitstream.c:281-284 | renormalisation of the standard engine needs no change of range and offset while the range is at least 256 |
| Cabac.RepRefill | src/edge264mvc_bitstream.c:263-265 | fetching bytes rescales range and offset together, and nothing is shifted out of 64 bits |
| Cabac.AeStep | src/edge264mvc_bitstream.c:267-288 | the comparison at scale takes the branch of DecodeDecision and keeps the scaled range and offset in step with codIRange and codIOffset |
| Cabac.BypassStep | src/edge264mvc_bitstream.c:290-303 | the same for DecodeBypass, by halving the range |
| Cabac.TerminateStep | src/edge264mvc_bitstream.c:353-359 | the same for DecodeTerminate |
| Cabac.HandBack | src/edge264mvc_bitstream.c:360-364 | at the end of slice data the bits not consumed go back to the cache behind the alignment bits, with the sentinel |
| Cabac.Rewind | src/edge264mvc_bitstream.c:330-336 | one round of the loop that gives cached bytes back moves CPB back by one payload byte, in any NAL unit |
| Cabac.RewoundExact | src/edge264mvc_bitstream.c:329-337 | after giving bytes back the reader stands where it should exactly if CPB was not ahead of the bytes taken, or only zeros are left; it always reads on from the byte CPB stands for |
| Cabac.StartRep | src/edge264mvc_bitstream.c:347-349 | the engine starts with range 510 on the next nine bits if those are below 510, otherwise the offset is not below the range |
| Cabac.NineOnes | src/edge264mvc_bitstream.c:347-349 | a payload that starts with nine ones: the offset begins above the range |
| Cabac.Reclaim | src/edge264mvc_bitstream.c:329-337 | the loop gives back all cached bytes beyond 64 bits, and when the reader is exact then, for every NAL unit |
| Cabac.CabacStart | src/edge264mvc_bitstream.c:327-351 | for every NAL unit the engine starts on the next byte boundary of the payload, and the reader goes on behind its 8 bytes exactly if no 00 00 03 behind a stop was passed over or only zeros are left; so it does in every NAL unit without 00 00 03 behind a stop |
| Cabac.EmbeddedLoses | src/edge264mvc_bitstream.c:46-60 | a NAL unit with a slice header and, in one later window, 00 00 00 03, which takes CPB one byte too far |
| Cabac.LoseByte | src/edge264mvc_bitstream.c:327-351 | the run on that NAL unit: after the slice header and cabac_start byte 11 of the payload is never read |
| Cabac.Context.constructor | src/edge264mvc_bitstream.c:327-351 | a started engine is that of 9.3.1.2, and the context is valid exactly if the reader is exact |
| Cabac.Context.GetAe | src/edge264mvc_bitstream.c:267-288 | the bin, the engine and the context that DecodeDecision (9.3.3.2.1) gives |
| Cabac.Context.GetBypass | src/edge264mvc_bitstream.c:290-303 | the bin and the engine that DecodeBypass (9.3.3.2.3) gives |
| Cabac.Context.Terminate | src/edge264mvc_bitstream.c:353-365 | the bin and the engine that DecodeTerminate (9.3.3.2.4) gives; after a bin 1 the bit reader goes on at the next byte boundary |
| Cabac.Context.Parse | src/edge264mvc_bitstream.c:205-365 | any parser, which chooses each decode from the bins before it, sees exactly the bins of the standard, for every payload and any number of bins |
| Encoding.RenormInside | src/edge264mvc_bitstream.c:281-284 | renormalising encoder and decoder keeps them in step on all bits in the interval of the encoder (9.3.4.2) |
| Encoding.DecisionInside | src/edge264mvc_bitstream.c:267-288 | on all bits in the interval of the encoder after a decision, the decoder gives the encoded bin and is in step again |
| Encoding.BypassInside | src/edge264mvc_bitstream.c:290-303 | the same for a bypass bin |
| Encoding.TerminateInside | src/edge264mvc_bitstream.c:353-359 | the same for a terminating bin, whose bin 0 costs the interval 2 |
| Encoding.DecodesEncoded | src/edge264mvc_bitstream.c:267-365 | for every parser and any bins, the decoder gets back what the encoder of 9.3.4 wrote, from any bits in its last interval |
| Encoding.RoundTrip | src/edge264mvc_bitstream.c:327-365 | the same from the start of slice data on |
| Encoding.FlushInside | src/edge264mvc_bitstream.c:353-359 | the flush at a terminating bin 1 writes bits in the interval |
| Counters.FrameNumUnique | src/edge264mvc_headers.c:1276-1283 | FrameNum is the only number in (Prev, Prev + MaxFrameNum] with residue frame_num, but Prev itself for a second field repeating it |
| Counters.FrameNumOffset | src/edge264mvc_headers.c:1268-1283 | it equals FrameNumOffset plus frame_num of 8.2.1.2 |
| Counters.PicNumUnwrapped | src/edge264mvc_headers.c:1474-1480 | comparing unwrapped frame numbers finds the picture of a given PicNum (8-39), for all references within MaxFrameNum |
| Counters.SignExtends | src/edge264mvc_headers.c:2755 | the two shifts give the number of the same residue from minus half to half of MaxPicOrderCntLsb |
| Counters.PocType0Unique | src/edge264mvc_headers.c:2755-2758 | the count is the only one with the coded lsb in [prev - Max/2, prev + Max/2) |
| Counters.PocType0MeetsSpec | src/edge264mvc_headers.c:2744-2758 | it equals 8.2.1.1 exactly if the lsb did not move by half of MaxPicOrderCntLsb |
| Counters.PocType0Half | src/edge264mvc_headers.c:2755-2758 | an input where it does not |
| Counters.PicOrderCntDeltas | src/edge264mvc_headers.c:4007-4011 | the loop stores the prefix sums of the offsets, each cut to 16 bits |
| Counters.CycleSumQuotient | src/edge264mvc_headers.c:2790-2794 | the sum over whole cycles and a rest by quotient and remainder, for any cycle |
| Counters.CycleSumDeltas | src/edge264mvc_headers.c:2790-2794 | the stored sums give the expected delta of 8.2.1.2 if they fit 16 bits |
| Counters.PocType1MeetsSpec | src/edge264mvc_headers.c:2786-2795 | type 1 counts equal 8.2.1.2 modulo 2^32 for every FrameNum exactly if all prefix sums of the offsets fit 16 bits |
| Counters.PocType1Wraps | src/edge264mvc_headers.c:4007-4011 | an input where they differ: a cycle of one offset 32768 and FrameNum 1 |
| Counters.OutputPoc.Unwrap | src/edge264mvc.c:616-634 | the key, and the base and previous key left |
| Counters.KeyIsLeast | src/edge264mvc.c:616-634 | the key is the least number from the base plus the raw count on, by whole spans, that exceeds the previous key |
| Counters.KeysIncrease | src/edge264mvc.c:604-634 | keys increase strictly over every run of raw counts, whatever the span of each |
| Deblock.SpecInRange | src/edge264mvc_hbd.c:469-514 | samples filtered by 8.7.2.3 and 8.7.2.4 stay in range, and p3 and q3 stay |
| Deblock.StepMeans | src/edge264mvc_hbd.c:481-482 | for bS below 4 and samples of any depth, p0 moves by the mean difference, limited to tC0 and one for each smooth side, q0 by the same the other way, each cut to the range of its depth alone |
| Deblock.Clip1Means | src/edge264mvc_hbd.c:481-482 | a sample keeps its value wherever it lies in 0 to max, for every max |
| Deblock.OuterMoves | src/edge264mvc_hbd.c:505-512 | p1 and q1 move only on a smooth side of luma, towards a mean, by tC0 at most |
| Deblock.StrongMeans | src/edge264mvc_hbd.c:487-504 | for bS 4, which samples change and the means they become |
| Deblock.Unfiltered | src/edge264mvc_hbd.c:471-472 | a line with a difference at its threshold or over is left alone |
| Deblock.OuterMeans | src/edge264mvc_deblock.c:110-114 | averages with a parity fix, clamped by saturated bounds, are the clipped step from p1 of 8.7.2.3 |
| Deblock.DeltasMean | src/edge264mvc_deblock.c:117-127 | the two unsigned deltas are the positive and negative part of the clipped delta, although q0 - p0 is clamped to 8 bits on the way |
| Deblock.LumaSoftMeetsSpec | src/edge264mvc_deblock.c:95-129 | for all bytes, alpha, beta and tC0 from -1 to 25, a lane of the saturating filter is the filter of 8.7.2.3 |
| Deblock.HardSideMeans | src/edge264mvc_deblock.c:227-260 | the byte averages with parity fixes are the three sums of 8.7.2.4 for all bytes |
| Deblock.LumaHardMeetsSpec | src/edge264mvc_deblock.c:213-260 | a lane of the strong filter is the filter of 8.7.2.4 for all bytes, alpha and beta |
| Deblock.ChromaMeetsSpec | src/edge264mvc_deblock.c:130-285 | a lane of both chroma filters is that of 8.7.2.3 and 8.7.2.4 |
| Deblock.HbdFilter | src/edge264mvc_hbd.c:469-514 | the plain filter in place, at any stride, is the same specification, and touches no sample off the line |
| BoundaryStrength.FarByteMeans | src/edge264mvc_deblock.c:1109-1142 | the saturated byte of two vector differences is zero exactly if neither vector is far |
| BoundaryStrength.ScalarMeans | src/edge264mvc_deblock.c:1269-1293 | the case analysis gives 0 exactly if the lists used by both blocks pair up, in order or crosswise, by picture and by vectors less than 4 quarter samples apart, or less than the limit in height |
| BoundaryStrength.OuterMeans | src/edge264mvc_deblock.c:1158-1160 | the four minima are zero exactly if references and vectors agree in parallel or in cross |
| BoundaryStrength.OuterMeetsScalar | src/edge264mvc_deblock.c:1099-1160 | for edges between macroblocks the vector formula gives strength 0 exactly where the case analysis of 8.7.2.1 in mbaff_bS does |
| BoundaryStrength.InnerMeetsScalar | src/edge264mvc_deblock.c:1157-1161 | the same for edges inside a B macroblock |
| BoundaryStrength.SingleMeetsScalar | src/edge264mvc_deblock.c:1085-1097 | the same for P macroblocks |
| BoundaryStrength.UnusedVectorMatters | src/edge264mvc_deblock.c:1256-1295 | without zero vectors in unused lists the two forms differ on some input |
| BoundaryStrength.UnusedVectors | src/edge264mvc_deblock.c:1099-1161 | whatever unused vectors are, the two forms differ exactly if both blocks use one list with one reference and near vectors but far unused ones, or use none and are far in parallel and in cross |
| Inter.HalfSampleExact | src/edge264mvc_inter.c:87-94 | for all six-tap sums of bytes, wrapping and saturation included, the result is the clipped rounded sum of 8.4.2.2.1 |
| Inter.HalfSampleMeetsSpec | src/edge264mvc_inter.c:87-100 | for all 36 samples, filtering across first gives the sample j that the standard filters down first |
| Inter.FlatKept | src/edge264mvc_inter.c:87-100 | a flat area stays as it is |
| Inter.NoOverflow | src/edge264mvc_inter.c:102-106 | for weights whose sum is at most 128 in magnitude no product pair saturates |
| Inter.ProductsFit | src/edge264mvc_inter.c:102-106 | and for all other weights they do for some samples |
| Inter.ExplicitOneExact | src/edge264mvc_inter.c:1335-1348 | the packed blend of one list equals (8-298) for all weights, offsets and denominators |
| Inter.WeightedOne | src/edge264mvc_inter.c:1335-1348 | the weighted sample of one list is rounded to the nearest multiple of the denominator, halves upwards, moved by the offset and clipped |
| Inter.WeightedTwo | src/edge264mvc_inter.c:1353-1362 | the same for two lists, moved by the mean of both offsets rounded up |
| Inter.InferredWeight | src/edge264mvc_inter.c:1337-1341 | the inferred weight 128 at denominator 7 is no weighting |
| Inter.ImplicitExact | src/edge264mvc_inter.c:1321-1333 | the packed blend equals the standard for every implicit weight, 32, 128 and -64 included |
| Inter.FoldedOffset | src/edge264mvc_inter.c:1355 | the folded offset is the rounded mean of both offsets and the rounding term, within 16 bits |
| Inter.ExplicitTwoExact | src/edge264mvc_inter.c:1353-1362 | the packed blend of two lists equals (8-299) for all weights 8.4.2.3 allows, below denominator 7 |
| Inter.TooMuchWeight | src/edge264mvc_inter.c:1353-1362 | weights beyond that sum may give another sample |
| Inter.ExplicitTwoDiffers | src/edge264mvc_inter.c:1353-1362 | for all weights in a byte, the packed blend is (8-299) for all samples exactly unless the denominator is 6, the weights sum to more than 128 and the mean offset is -2 or less |
| Inter.DefaultExact | src/edge264mvc_inter.c:1313-1320 | default weights average or copy |
| Inter.BlendWide | src/edge264mvc_inter.c:1201-1207 | the loop for denominator 7 computes (8-299) in place on every row, for any weights and denominator |
| MvPrediction.MedianMeans | src/edge264mvc_mvpred.c:113 | the median lies between the other two, whatever their order |
| MvPrediction.TreesMeetSpec | src/edge264mvc_mvpred.c:92-292 | the decision trees of all five partitions are the rules of 8.4.1.3 |
| MvPrediction.SpecMeans | src/edge264mvc_mvpred.c:92-122 | the only neighbour with the same reference gives its vector, otherwise each component is the middle of three |
| MvPrediction.SkipMeetsSpec | src/edge264mvc_mvpred.c:54-85 | the vector of a skipped macroblock is that of 8.4.1.1 |
| MvPrediction.SkipRests | src/edge264mvc_mvpred.c:54-85 | the vector of P_Skip is zero at the border and beside or below a resting block of reference 0, otherwise the prediction for reference 0 |
| MvPrediction.MinPositiveMeans | src/edge264mvc_mvpred.c:317-328 | the lower of the references that are not negative, if there are any |
| MvPrediction.SelectMeetsSpec | src/edge264mvc_mvpred.c:317-328 | unsigned minima and three comparisons pick the reference and the vector of 8.4.1.2.2 |
| DirectCutting.MaskIsRectangle | src/edge264mvc_mvpred.c:423-427 | a mask within the scope of a block covers exactly the rectangle of its width and height at that block |
| DirectCutting.CutBlocks | src/edge264mvc_mvpred.c:422-439 | for every direct mask and colZero mask the loop ends, covers each flagged block once by rectangles of one list, and each rectangle has one colZero value |
| Marking.RefMarking.UnmarkNumber | src/edge264mvc_headers.c:1472-1482 | operations 1 and 3 dereference exactly the short-term frames of that number and name the last of them |
| Marking.RefMarking.UnmarkIndices | src/edge264mvc_headers.c:1483-1491 | operations 2, 3, 4 and 6 dereference exactly the long-term-only frames with an index in the range |
| Marking.RefMarking.Operate | src/edge264mvc_headers.c:1472-1520 | one operation makes of the marking what `Marking.ApplyMeans` tells for each frame |
| Marking.ApplyMeans | src/edge264mvc_headers.c:1472-1520 | for each operation and every frame: whether it is short-term and long-term afterwards, and its index, in terms of its marks, number and index before (8.2.5.4.1 to 8.2.5.4.6) |
| Marking.LongsLeft | src/edge264mvc_headers.c:1483-1491 | over any list of operations, a long-term frame stays one, with its index, exactly if no later operation takes an index range that holds it |
| Marking.SlidingMeans | src/edge264mvc_headers.c:1542-1553 | below capacity the sliding window takes nothing, at capacity exactly one short-term frame, of lowest number |
| Marking.MarkedMeans | src/edge264mvc_headers.c:1536-1580 | how the current picture ends up marked, and which reference goes if a damaged stream marks too many |
| Marking.RefMarking.Adapt | src/edge264mvc_headers.c:1467-1533 | the loop applies the operations in order, at most 32 of them |
| Marking.ApplyAllShrinks | src/edge264mvc_headers.c:1467-1533 | no list of operations makes a reference of another frame |
| Marking.IndicesStayDistinct | src/edge264mvc_headers.c:1483-1498 | an operation keeps long-term indices distinct exactly unless it is an operation 3 that gives another frame the index of the current picture after an operation 6 |
| Marking.StaysDistinct | src/edge264mvc_headers.c:1467-1533 | for every list of operations, indices are distinct after each of them exactly if none clashes with the current picture |
| Marking.NoClashList | src/edge264mvc_headers.c:1472-1498 | the condition on the list: no operation 3 that finds a reference repeats the index the current picture has by then, from operation 6 or from a later operation 3 that finds none |
| Marking.RepeatedIndex | src/edge264mvc_headers.c:1492-1497 | two operations after which two frames share an index |
| Marking.MarkedDistinct | src/edge264mvc_headers.c:1459-1581 | after a whole marking long-term frames have distinct indices if no operation clashed with the current picture |
| Marking.MarkedBound | src/edge264mvc_headers.c:1459-1581 | at most max_num_ref_frames references after any list of operations, the sliding window and the final discard |
| Marking.RefMarking.Mark | src/edge264mvc_headers.c:1438-1588 | the marking of a frame picture, IDR, adaptive or sliding, and its bound |
| Marking.RefMarking.Trim | src/edge264mvc_headers.c:2836-2847 | ends within the limit, drops no more than needed, and keeps the newest, long-term frames last |
| Marking.RefMarking.FillGap | src/edge264mvc_headers.c:2849-2924 | makes room among short-term frames, oldest first, then inserts the last missing numbers, or fails exactly if long-term frames fill the limit |
| Marking.RefMarking.Picture | src/edge264mvc_headers.c:2832-3209 | from any state, trimming, gap filling and marking end within max_num_ref_frames, as the decoder asserts |
| GapFilling.SlideTop | src/edge264mvc_headers.c:2865-2884 | inferring frames one by one through a sliding window keeps the highest numbers |
| GapFilling.FillingIsSliding | src/edge264mvc_headers.c:2865-2924 | filling a gap at once leaves the frame numbers that inferring each missing frame by 8.2.5.2 would leave |
| FieldMarking.OneParity | src/edge264mvc_headers.c:1325-1330 | a slot has a field of a given PicNum in one parity at most |
| FieldMarking.FieldRefs.FindField | src/edge264mvc_headers.c:1323-1331 | the first slot with a short-term field of that PicNum (8-30, 8-31), and its parity |
| FieldMarking.FieldRefs.UnmarkNumber | src/edge264mvc_headers.c:1336-1346 | exactly the long-term fields of that LongTermPicNum lose their mark |
| FieldMarking.FieldRefs.Drop | src/edge264mvc_headers.c:1347-1360 | long-term slots with an index in the range lose both fields, but for the slot kept |
| FieldMarking.FieldRefs.Operate | src/edge264mvc_headers.c:1319-1382 | one operation on fields has the effect of 8.2.5.4, and a slot stays a reference exactly while one of its fields is marked |
| FieldMarking.FieldMeans | src/edge264mvc_headers.c:1322-1382 | for each operation and every field: whether it is short-term and long-term afterwards, with PicNum twice the number of its slot and one more for the parity of the current field |
| FieldMarking.FirstFieldNamed | src/edge264mvc_headers.c:1323-1335 | in a second field, operation 1 with difference 0 takes the mark of the first field of its frame |
| FieldMarking.SlidingFields | src/edge264mvc_headers.c:1395-1413 | at capacity exactly one short-term slot, of lowest number, loses both fields, and its long-term marks of fields marked both ways |
| FieldMarking.FieldRefs.Slide | src/edge264mvc_headers.c:1395-1413 | the sliding window takes both fields of the oldest slot, inferred frames from both marks |
| FieldMarking.ApplyFieldsShrinks | src/edge264mvc_headers.c:1318-1392 | no list of operations makes a reference of another slot |
| FieldMarking.FieldRefs.Mark | src/edge264mvc_headers.c:1306-1436 | after a field picture, of whose operations the first 32 count, each reference has a marked field, there are at most max_num_ref_frames, and a second field that joins a short-term first one pushes nothing out |
| RefLists.KeyOrder | src/edge264mvc_headers.c:1750-1762 | 64-bit keys order references by class, then distance, and never cross classes |
| RefLists.ListOrder | src/edge264mvc_headers.c:1750-1762 | the keys order short-term references not after the current value by falling value, before those after it by rising value, before long-term ones by index |
| RefLists.InitList0 | src/edge264mvc_headers.c:1748-1769 | list 0 holds every reference once, ordered by class, distance and slot, with the sizes of the classes counted |
| RefLists.FillList1 | src/edge264mvc_headers.c:1772-1776 | the loop writes list 0 with the first two classes exchanged |
| RefLists.List1Order | src/edge264mvc_headers.c:1772-1776 | in list 1 references after the current value come first, then those before it, then long-term ones, each as in list 0 |
| RefLists.FirstTellsAll | src/edge264mvc_headers.c:1779-1786 | comparing the first entries tells whether the whole lists are equal |
| RefLists.InitLists | src/edge264mvc_headers.c:1741-1787 | both initial lists of 8.2.4.2.1 and 8.2.4.2.3, the first two entries of list 1 exchanged exactly if it equals list 0 |
| RefLists.Swap | src/edge264mvc_headers.c:1854-1860 | the loop of swaps inserts the picture, shifts the others and drops its later occurrence |
| RefLists.StandardInsert | src/edge264mvc_headers.c:1854-1860 | the two loops of 8.2.4.3.1 do the same |
| RefLists.ModifiedKeeps | src/edge264mvc_headers.c:1804-1861 | the part not yet modified keeps distinct entries, which the loop of swaps relies on |
| RefLists.ModifiedHead | src/edge264mvc_headers.c:1804-1861 | after all commands the list starts with their pictures, in order |
| RefLists.Modify | src/edge264mvc_headers.c:1800-1864 | every command sequence that names pictures gives the list of 8.2.4.3 |
| RefLists.NumbersAgree | src/edge264mvc_headers.c:1801-1813 | 32-bit wrapping sums agree with picNumLXNoWrap modulo MaxFrameNum |
| RefLists.CommandFinds | src/edge264mvc_headers.c:1829-1834 | the masked comparison finds exactly the short-term reference whose PicNum is picNumLX |
| RefLists.FixUp | src/edge264mvc_headers.c:1879-1891 | replaces exactly the entries that name no other picture, or fails exactly if there is none |
| FieldLists.AlternateFirst | src/edge264mvc_headers.c:1643-1658 | where each field of the parity of the current one ends up in 8.2.4.2.5: every other place while both parities last, in order after that |
| FieldLists.AlternateSecond | src/edge264mvc_headers.c:1643-1658 | the same for the other parity |
| FieldLists.AppendFields | src/edge264mvc_headers.c:1643-1658 | the loop with two cursors appends the alternation of both parities, capped at 32 entries |
| FieldLists.EachFieldOnce | src/edge264mvc_headers.c:1643-1658 | each marked field of the frames appears exactly once, others not at all |
| FieldLists.FieldListHolds | src/edge264mvc_headers.c:1667-1678 | a list holds only fields marked short-term in their own parity, or long-term and not short-term, none twice, all of them unless it is full, and no inferred frames in B lists of type 0 |
| FieldLists.SameParityFirst | src/edge264mvc_headers.c:1640-1658 | it starts with the first frame whose field of the parity of the current one is marked |
| FieldLists.InsertFrame | src/edge264mvc_headers.c:1692-1705 | a step of the insertion sorts, in place, keeps the order by key and then slot |
| FieldLists.SortFrames | src/edge264mvc_headers.c:1681-1705 | all frames of the set, in the order of their keys |
| FieldLists.KeyOrder | src/edge264mvc_headers.c:1681-1690 | the keys order by FrameNum downwards, or by closeness before, then after, the current field |
| FieldLists.InitFieldLists | src/edge264mvc_headers.c:1667-1719 | both lists of a field picture (8.2.4.2.2, 8.2.4.2.4), list 1 from the frames after the current field first |
| SliceGroups.Interleaved | src/edge264mvc_headers.c:1936-1944 | every unit takes the group whose run it lies in, round after round |
| SliceGroups.Dispersed | src/edge264mvc_headers.c:1945-1948 | every unit takes a group below num_slice_groups |
| SliceGroups.DispersedNeighbours | src/edge264mvc_headers.c:1945-1948 | neighbours in a row or column are in different groups |
| SliceGroups.Foreground | src/edge264mvc_headers.c:1949-1959 | every unit takes the lowest group whose rectangle holds it, or the last group |
| SliceGroups.TakenInBox | src/edge264mvc_headers.c:1960-1988 | the units of box-out lie in its bounding box |
| SliceGroups.BoxFilled | src/edge264mvc_headers.c:1960-1987 | the walk winds around its box, clockwise for flag 0 and counter-clockwise for flag 1, and at every step all units of the box are taken but those ahead on the side it goes along |
| SliceGroups.SideEnds | src/edge264mvc_headers.c:1967-1986 | it leaves a side exactly at its end, where the box grows by one line if the picture has one, and in which direction it turns |
| SliceGroups.BoxOut | src/edge264mvc_headers.c:1960-1989 | group 0 is what the walk of 8.2.2.4 takes, with exactly MapUnitsInSliceGroup0 units unless the step cap ends it |
| SliceGroups.RasterScan | src/edge264mvc_headers.c:1990-1993 | exactly MapUnitsInSliceGroup0 units are in group 0, first or last ones, for both directions |
| SliceGroups.Wipe | src/edge264mvc_headers.c:1994-2000 | the same in columns |
| OutputQueue.RoomFor | src/edge264mvc_internal.h:645 | a queue without duplicates that lacks a slot has room for it |
| OutputQueue.Queue.Push | src/edge264mvc_internal.h:1678-1681 | the picture enters at the front, and of a full queue the last entry falls out |
| OutputQueue.Queue.Dequeue | src/edge264mvc_headers.c:100-105 | exactly one entry leaves and the others stay packed in order |
| OutputQueue.Queue.Length | src/edge264mvc_internal.h:1671-1676 | the entries before the first empty place are all of them |
| Dpb.EnqueueInv | src/edge264mvc_headers.c:160-166 | queueing a waiting picture keeps the invariant of the buffer, and the queue has room for it |
| Dpb.EnqueueMeans | src/edge264mvc_headers.c:160-166 | a bumped picture gets a rank above all given before and becomes the first entry of the queue of its view |
| Dpb.InsertInv | src/edge264mvc_headers.c:3203-3220 | adding the current picture keeps the invariant exactly if it is not marked for output and was not delivered before |
| Dpb.AddedTwice | src/edge264mvc_headers.c:3203-3220 | a slice that finds its picture not waiting adds it a second time exactly if the picture is complete, and exactly then the invariant breaks |
| Dpb.DeliveredTwice | src/edge264mvc_headers.c:3203-3220 | a run that delivers one picture twice |
| Dpb.HandedOutTracked | src/edge264mvc.c:680-687 | the current picture is not handed out before it is complete |
| Dpb.AllocateInv | src/edge264mvc_headers.c:3016-3060 | a new picture in a slot that waits for nothing keeps the invariant |
| Dpb.AllocateRecorded | src/edge264mvc_headers.c:3041-3055 | over every run, the slots hold the pictures that arrived last, and each dependent view the identifiers of the base views right before and right after it |
| Dpb.PairedExactly | src/edge264mvc_headers.c:115-119 | a base view and a dependent view are paired exactly if frame number and order count are the same and no other base view arrived between them, whichever came first |
| Dpb.EnqueueDisplay | src/edge264mvc_headers.c:121-166 | bumping the first waiting base view keeps ranks in display order |
| Dpb.FirstToBumpMeans | src/edge264mvc_headers.c:121-160 | which pictures of a view may be bumped, and that the first is the one of lowest order count, the earlier of equal ones |
| Dpb.QueueFits | src/edge264mvc.c:518-538 | the queue of a view and its waiting pictures fit the queue; a full queue holds every slot |
| Output.Decoder.Bump | src/edge264mvc_headers.c:121-166 | queues the waiting picture of lowest picture order count, the earlier of equal ones, with the next rank, exactly if one may be bumped |
| Output.Decoder.CatchUp | src/edge264mvc_headers.c:252-281 | queues exactly the first dependent views of the base views ranking before the first one whose dependent view was not parsed |
| Output.Decoder.MakeRoom | src/edge264mvc_headers.c:3216-3224 | bumps exactly while references and waiting pictures exceed the buffer and as many as may be, or says it is full, every earlier base view having been bumped for a non-reference picture |
| Output.Decoder.AddPicture | src/edge264mvc_headers.c:3203-3242 | the buffer afterwards, step by step: pictures bumped exactly while there is no room, up to max_num_ref_frames or the earlier ones of the view; then the picture waits, with one more bumped exactly if too many wait, or is output at once with the highest rank exactly if there is still no room |
| Output.Decoder.AddSlice | src/edge264mvc_headers.c:3203-3242 | each slice adds its picture, as AddPicture does, exactly if it does not wait, which is the first time for every slice of an incomplete picture |
| Output.Decoder.BumpAll | src/edge264mvc_headers.c:185-233 | a flush queues every picture to get, base views in display order, loses none, and leaves all complete |
| Output.Decoder.Gate | src/edge264mvc.c:516-538 | the gate closes exactly if a queue is full, and behind an open gate all waiting pictures fit |
| Output.Decoder.Unblock | src/edge264mvc.c:406-433 | queues all base views and drops exactly the waiting dependent views without one, but for the current picture |
| Output.Decoder.ReturnFrame | src/edge264mvc.c:928-948 | frames the caller gives back are no longer held nor marked for output, and nothing else changes |
| Output.Decoder.NewPicture | src/edge264mvc_headers.c:3003-3080 | a slot is found exactly if one is neither referenced, waiting, queued, held nor used by tasks, and the picture takes such a slot, with its view, numbers and the next identifier |
| Output.Decoder.Choose | src/edge264mvc.c:651-716 | the index of a base view exactly if one may be shown: the ready one of lowest rank, held back exactly while the one of lowest rank of all is being parsed or written without a flush |
| Output.Decoder.Pair | src/edge264mvc.c:717-778 | a dependent view exactly if a queued one of the access unit is complete or the first waiting one is, which is queued now |
| Output.Decoder.Alone | src/edge264mvc.c:779-812 | a base view goes alone exactly if no dependent view of it is left and the decoder flushes or has no room for another picture |
| Output.Decoder.Offer | src/edge264mvc.c:651-813 | a base view is offered exactly if one may leave, with its dependent view if there is one |
| Dpb.CompleteLeaves | src/edge264mvc.c:651-813 | a queued base view of lowest rank that is complete, with a dependent view and all of those complete, leaves |
| Output.Decoder.DropOrphans | src/edge264mvc.c:866-906 | drops exactly the queued dependent views without a base view that are neither parsed nor written |
| Output.Decoder.GetFrame | src/edge264mvc.c:645-925 | hands out a base view exactly if one may leave (`Dpb.Leaves`), with its dependent view, each never delivered before; borrowed frames stay held; ranks increase while each incomplete queued base view is current or written and nothing is flushed; alone only as `Output.Decoder.Alone` says; a drain always moves on |
| Output.Decoder.Drain | src/edge264mvc.c:540-547 | after the end of a stream finitely many calls hand out every base view, by rank |
| Tasks.OldestMoves | src/edge264mvc_headers.c:964-989 | the oldest task in flight can be taken, decode on, publish or end, unless it is the held one |
| Tasks.IdleWorker | src/edge264mvc_headers.c:967-975 | a worker is idle whenever the oldest task in flight waits for one |
| Tasks.RunningPictures | src/edge264mvc_headers.c:3290-3298 | running tasks belong to different pictures |
| Tasks.AddedInv | src/edge264mvc_headers.c:3272-3312 | adding a slice keeps the invariant of tasks, chains, readiness and references |
| Tasks.BegunInv | src/edge264mvc_headers.c:3011-3018 | a slot given to a new picture is not read by any task in flight, which keeps the invariant |
| Tasks.StartedInv | src/edge264mvc_headers.c:984-1001 | taking the oldest task of the pool keeps it |
| Tasks.EndedInv | src/edge264mvc_headers.c:1224-1262 | ending a task, starting the next slice of its picture and concealing keeps it |
| Tasks.ConcealedInv | src/edge264mvc_headers.c:2284-2309 | concealing pictures nobody will complete, all at once, keeps it |
| Tasks.ConcealedMeans | src/edge264mvc_headers.c:2284-2309 | exactly the pictures read by a task or wanted that no task in flight writes become complete, and never the one being parsed |
| Progress.RunInv | src/edge264mvc_headers.c:954-1268 | the invariant holds after every interleaving of parser and worker steps |
| Progress.Completes | src/edge264mvc_headers.c:2284-2309 | what each step completes: publishing the last slice its picture, concealment only pictures that no task of the state after it writes and that are not being parsed; a new picture is not complete |
| Progress.NothingAbandoned | src/edge264mvc_headers.c:2284-2309 | after a task ends, whatever is read or wanted is complete, being written or being parsed, so no wait is for nothing |
| Progress.RowsRead | src/edge264mvc_inter.c:64-84 | a task decodes on only while the rows it reads are in a complete picture or before its frontier |
| Progress.NeverStuck | src/edge264mvc_headers.c:964-989 | after every interleaving, workers are stuck only if no task but the held one is in flight |
| Progress.WorkersEnd | src/edge264mvc_headers.c:964-1268 | without the parser every order of worker steps ends after boundedly many, and all tasks but the held one have ended when none is left |
| WorkerPool.RunningFirst | src/edge264mvc_headers.c:2422-2448 | a running task finds no older task of its picture in flight, so the waits for older slices (claims, frontier turns) end at once |
| WorkerPool.ReadyIsPool | src/edge264mvc_internal.h:1685-1694 | between steps the ready tasks are exactly those pending and not chained |
| WorkerPool.NextReady | src/edge264mvc_headers.c:1240-1252 | the slice that a task frees is at most one, chained and ready, so none goes back to the pool |
| WorkerPool.Scheduler.ReadyTasks | src/edge264mvc_internal.h:1685-1694 | the loop finds exactly the pending tasks with usable references that wait for no task |
| WorkerPool.Scheduler.OldestOf | src/edge264mvc_internal.h:1620-1629 | the oldest of the tasks |
| WorkerPool.Scheduler.ReleaseTerminal | src/edge264mvc_headers.c:2284-2309 | conceals exactly the wanted pictures without a writer, and brings readiness up to date |
| WorkerPool.Scheduler.ReleaseHeld | src/edge264mvc_headers.c:2343-2350 | the held task learns where its slice ends, and nothing else changes |
| WorkerPool.Scheduler.BeginPicture | src/edge264mvc_headers.c:3011-3090 | a new picture takes a slot no task in flight reads, keeping the invariant |
| WorkerPool.Scheduler.AddSlice | src/edge264mvc_headers.c:3272-3312 | the code adds the slice as the transition system does |
| WorkerPool.Scheduler.TakeTask | src/edge264mvc_headers.c:977-1001 | a worker gets the oldest task of the pool exactly if the pool is not empty |
| WorkerPool.Scheduler.EndTask | src/edge264mvc_headers.c:1196-1262 | the code ends a task as the transition system does, with the chain decided before concealment |
| Speculation.WritesKept | src/edge264mvc_headers.c:887-935 | for every width and first macroblock, whatever deblocking a macroblock of the slice writes before the slice lies in the six saved parts, and only in mode 0 |
| Speculation.BeyondEdges | src/edge264mvc_headers.c:887-935 | the saved rows and columns cover three samples of luma and one of chroma beyond each filtered edge |
| Speculation.KeptBefore | src/edge264mvc_headers.c:887-935 | all that is saved belongs to macroblocks before the slice |
| Speculation.DeblockedAbove | src/edge264mvc_headers.c:887-935 | deblocking a slice changes nothing after it, and before it only what is saved |
| Speculation.DecodedOneByOne | src/edge264mvc_slice.c:2326-2340 | decoding and deblocking as a whole is filtering the macroblocks one after the other, each exactly unless the mode is 1 |
| Speculation.PublishedBehind | src/edge264mvc_slice.c:2351-2364 | what is published has been deblocked, and is less than a row behind what was |
| Speculation.DeblockedAgree | src/edge264mvc_headers.c:1049-1061 | deblocking up to a macroblock depends on the samples up to it alone |
| Speculation.PaintCommutes | src/edge264mvc_slice.c:2326-2340 | decoding a macroblock commutes with deblocking the ones before it |
| Speculation.TakenBack | src/edge264mvc_headers.c:1049-1131 | decoding past the bound, deblocking up to any macroblock, taking back and decoding again gives every sample that knowing the bound gives, but for macroblocks no longer claimed |
| Speculation.PaintedBack | src/edge264mvc_headers.c:1044-1061 | a slice out of its turn, which deblocks at the end, has nothing to put back |
| Speculation.RowAt | src/edge264mvc_headers.c:920-933 | each saved row is found again in the buffer |
| Speculation.SliceWorker.KeepRows | src/edge264mvc_headers.c:887-935 | the buffer holds all rows of the six parts |
| Speculation.SliceWorker.PutRowsBack | src/edge264mvc_headers.c:887-935 | exactly the saved samples are put back |
| Speculation.SliceWorker.DecodeTo | src/edge264mvc_slice.c:2326-2364 | decoding macroblock by macroblock, deblocking a row behind and publishing the frontier at row ends, leaves the last of the pictures of filtering one macroblock after the other, and the frontier of the last row that ended |
| Speculation.SliceWorker.DeblockRange | src/edge264mvc_headers.c:768-792 | deblocking the macroblocks left gives the picture deblocked as a whole |
| Speculation.SliceWorker.Attempt | src/edge264mvc_headers.c:1111-1131 | an attempt past the bound leaves claims and frontier as before it, and samples from which decoding with the bound gives what it would have given at once |
| Speculation.SliceWorker.Run | src/edge264mvc_headers.c:1027-1131 | whenever the slice learns its bound, its claims, its frontier and all samples but those given up are as if it had known the bound, each macroblock decoded and, unless the mode is 1, filtered once in order |

## Left out

- Memory allocation, thread creation and shutdown, logging, and the parsing of parameter sets, SEI and VUI.
- The NEON, WASM and CLANG forms of vector code, 32-bit builds of the bit reader, and the arrangement of lanes in registers.
- Macroblock parsing, residuals, intra prediction, the context initialisation values of CABAC, and sample positions of motion compensation.
- MBAFF frames: edge geometry, mixed edges, picture-wide deblocking; temporal direct prediction and colocated fields.
- Which samples concealment and the recovery of damaged slices produce: concealing only completes a picture.
- In `Tasks`, fields of a frame as separate pictures, because the model knows pictures by slot alone.
- Tasks.ConcealedInv: a dependent view whose base view is still being written is concealed at once, where the code leaves it for a later call, because the model does not relate the views of an access unit.
- WorkerPool.Scheduler.ReleaseTerminal: the same, so tasks that wait for such a dependent view get ready earlier than in the code.
- In `Tasks`, the 32-bit wrap-around of task numbers and the number of task slots, because tasks are named by their order.
- In `Speculation`, slices that end in an error, and slice groups, whose pictures are deblocked once complete.
- In `Speculation`, a slice without memory for the saved rows, which deblocks at the end, and pending slices that another worker deblocks, which `WorkerPool.RunningFirst` shows not to arise for frame pictures.
- The addresses of rows in memory: the saved rows are kept in a sequence, and a picture is a function of positions.
- In `Output`, frames inferred for gaps, leading pictures that are never output, the two fields of a frame, and waiting for a worker when nothing can be delivered.
- In `Output`, display ranks above INT_MAX, because ranks are unbounded in the model.
- Output.Decoder.AddSlice: leaves out what happens after a slice of a complete picture that does not wait, because the buffer is in no consistent state then (`Dpb.AddedTwice`).
- The modification commands of field pictures and of inter-view references, and the exchange of the first entries of a field list 1 equal to list 0.
- IDR field pictures, which mark only themselves.
- Slice group map type 6, which copies the coded identifiers.
- Overflow of 64-bit keys in the unwrapping of picture order counts, which needs more than 2^31 pictures.
