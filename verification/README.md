# Verified model of the video pipeline

The program receives a camera stream over RTP, turns decoded YUV 4:2:0 pictures into RGB,
hands frames to an FPGA through a double ring of slots, turns the network output into
detection boxes and sends those boxes to a peer in packets. Beside that path it hashes
files with MD5, prepares JPEG tables for a hardware decoder, looks registers up in a
bit-packed table, frames a MAVLink byte stream and resizes pictures. This project models
these algorithms in Dafny, one module per component, and proves what each of them is for.

| module | what it is about | main results |
|---|---|---|
| `PackedPixel`, `YuvKernel` | three channels saturated in one 32-bit word; loops with a packed counter | the kernel is a per-pixel clamp; exact conditions where it is not |
| `FpgaRing`, `FpgaProgress` | input thread, FPGA and output thread as a step system | every callback gets its own result in every interleaving; no slot overwritten; every frame finishes within a bounded number of steps, exactly unless 100 polls are used up |
| `RtpRing`, `NalDepacketizer`, `RtpReception`, `RtpSwitching` | 4096-slot reorder ring; RFC 6184 and RFC 7798 reassembly | reordered packets come out as the original byte stream; with losses and pauses, what is left of each unit; which orders of arrival are restored |
| `BoxGeometry`, `YoloBoxes`, `YoloNms`, `YoloDetect`, `YoloBounds`, `YoloDecoding` | counting, filling, suppression and reporting of detections | reported boxes do not overlap, are all found ones, and cover the others; a drawn object is reported; which result arrays hold every output |
| `Md5Compression`, `Md5Bits`, `Md5`, `Md5Vector` | unrolled compression, streaming context (RFC 1321) | digest of any split of a message is the digest of the message; the digest the standard lists |
| `Powers`, `JpegTables`, `RegLookup` | arithmetic on powers of two; canonical Huffman codes; packed register indices | prefix-freeness; unpacking inverts packing |
| `Bytes`, `Wrappers` | bytes, 32-bit words and their byte order; optional values | shared by the others |
| `ByteBuffer`, `MavlinkFramer` | growable byte buffer; stream framing on top of it | exactly which runs stay within their blocks; in those, framing is one greedy scan of the whole stream |
| `BoxPackets`, `BoxHandshake` | splitting, reassembly and stop-and-wait transfer of box arrays | every message arrives byte for byte in every interleaving, within thirteen steps per packet, and no receive buffer overruns |
| `PicBilinear`, `PicResize` | planar bilinear resize in two passes | every pixel is the two-axis blend; linear pictures are reproduced |

How the model is built:

* Code that works in place is a method on an array or on a class with the source's fields,
  proved against a specification function; what the source promises is then proved about
  that function. Threads are step systems in which every statement on shared state is one
  step, and the results are about every sequence of steps.
* Where the program would write past a block, run for ever or convert what is no number, the
  method of the model returns a flag and stops there; its contract says exactly when.
* 32-bit unsigned arithmetic is written out (`% WORD`, `Wrap32`, bit vectors). Floating
  point is real arithmetic.
* Where the code does something else than its comments or its standard say, the model
  follows the code and a lemma gives the exact condition:
  * the comment above the YUV kernel describes a 12/10/10 bit layout; the tables and macros
    use 11 bits for each of the two outer channels below the third one at bit 21;
  * the trailing column of an odd width is stored with the two rows of a pair exchanged
    (lines 150-151), unlike the assembly version;
  * for dark pixels the shipped tables leave the range the saturation can handle;
  * a fragmented H.265 unit loses the top bit of its layer id;
  * an RTP packet that arrives more than 30 places late is passed over by the parser;
  * the column of a grid cell is computed with the grid height;
  * the result array is allocated with 100 entries before the configuration sets the maximum,
    which is 200 in the shipped one;
  * an MD5 update of nearly 2^32 bytes never ends;
  * a Huffman count of 128 or more is read as negative;
  * `ByteArray::expand` doubles the capacity even when the addition needs more, which a short
    MAVLink stream reaches;
  * `getMsgid` shifts the high byte to bit 24 instead of 16;
  * a Huffman table area that already ends on a 16-byte boundary gets a whole extra block.

## Model

| member | source | states |
|---|---|---|
| PackedPixel.FixupClampsEveryChannel | src/yuv2rgb/yuv420rgb888c.c:80-99 | with every biased lane in -256..511 the branch-free correction and the store yield clamp(lane, 0, 255) for all three channels; no carry crosses a lane |
| PackedPixel.LowChannelIsClampedIff | src/yuv2rgb/yuv420rgb888c.c:80-99 | for the low lane from -511 up: the stored byte is the clamp if and only if the lane is at least -256, or -257 with another flag raised |
| PackedPixel.DarkPixelMissesClamp | src/yuv2rgb/yuv2rgb16tab.c:19-34 | with three shipped table entries (Y = 0, U = 0, V = 128) a byte that should be 0 is stored as 240 |
| PackedPixel.PackIsAdditive | src/yuv2rgb/yuv420rgb888c.c:78-79 | the wrapping sum of packed words is the packing of the lane-wise sums, for all lanes |
| PackedPixel.TableSumStoresClampedSums | src/yuv2rgb/yuv420rgb888c.c:78-99 | a pixel's three table reads, summed in one word, corrected and stored, are the clamps of the three channel sums whenever those fit their lanes |
| PackedPixel.TableSumDarkBytes | src/yuv2rgb/yuv420rgb888c.c:78-99 | for sums of the first channel down to -511, the other two within their lanes: the second and third stored bytes are the clamps of their sums, the first is if and only if its sum is at least -256, or -257 with another flag raised |
| YuvKernel.StoreColumn | src/yuv2rgb/yuv420rgb888c.c:124-130 | one column of a row pair: exactly the two three-byte groups change, to the stored bytes of the lower and the upper word |
| YuvKernel.ConvertRowPair | src/yuv2rgb/yuv420rgb888c.c:116-158 | the loop with the packed counter terminates, stays in bounds, converts exactly the two rows, advances the pointers by the width, and the low half of the counter still holds the rows left |
| YuvKernel.ConvertLastRow | src/yuv2rgb/yuv420rgb888c.c:164-192 | the trailing row of an odd height: exactly its bytes are converted |
| YuvKernel.Yuv420ToRgb888 | src/yuv2rgb/yuv420rgb888c.c:101-194 | every byte of the destination after the call: inside the window the stored pixel of its row and column, outside unchanged; all heights, widths and spans within the packing limits |
| YuvKernel.PairCompletesTwoRows | src/yuv2rgb/yuv420rgb888c.c:114-160 | a converted row pair is rows r and r + 1 of the whole picture, whatever the spans |
| YuvKernel.PictureIsClamped | src/yuv2rgb/yuv420rgb888c.c:101-194 | for even widths each byte of the window is the clamp of its own pixel's channel sums (own luma, its 2x2 block's chroma) if those fit their lanes; all bytes outside are as before |
| YuvKernel.DarkPictureIsClampedIff | src/yuv2rgb/yuv420rgb888c.c:101-194 | every byte of a dark pixel of a whole picture: the second and third are clamps, the first exactly under the lane condition |
| YuvKernel.ReferenceExactlyForEvenWidths | src/yuv2rgb/yuv420rgb888c.c:140-153 | the stored picture is the reference picture for all planes of a size if and only if the width is even, or there is no row pair, or luma never matters |
| YuvKernel.ExchangedPicture | src/yuv2rgb/yuv420rgb888.s:287-301 | a concrete picture of any odd width whose last column differs from the order the assembly stores |
| FpgaRing.StepInv | src/fpgaControl.cpp:95-175 | every step of either thread or the FPGA keeps the invariant: credits and notifications conserved, counters equal to their history modulo 2^32, FIFO and both rings holding what they should |
| FpgaRing.PollIsExact | src/fpgaControl.cpp:143-146 | the register test with three wrapped operands is true exactly when a result is published and not yet delivered |
| FpgaRing.WrapKeepsSlot | src/fpgaControl.cpp:106-107 | the slot computed from a wrapped 32-bit index is the slot of the frame it stands for |
| FpgaRing.PopTakesOldest | src/fpgaControl.cpp:162-165 | when the output thread pops, the FIFO is not empty and its head is the next frame due |
| FpgaRing.EveryCallbackGetsItsResult | src/fpgaControl.cpp:95-175 | in every interleaving, from any starting register value: the k-th callback gets the k-th submitted frame and the FPGA's result for that frame |
| FpgaRing.SlotsAreNeverOverwritten | src/fpgaControl.cpp:100-174 | in every interleaving: credits conserved (2 at line 313), at most 3 unfinished frames, a slot being read holds its frame's result, and the slots written next belong to no frame still waiting |
| FpgaRing.AdmittedIff | src/fpgaControl.cpp:95-100 | in every interleaving the next frame is admitted exactly if no call is under way and fewer than two frames are between credit and release |
| FpgaProgress.NoDeadlock | src/fpgaControl.cpp:119-174 | unless the last notification has seen 99 polls that found nothing, unfinished frames always leave a thread or the FPGA a step that makes progress; when all is done both credits are back |
| FpgaProgress.StepSpends | src/fpgaControl.cpp:95-175 | every step but a new submission, failed polls included, spends some of a bounded amount of work |
| FpgaProgress.EveryFrameFinishes | src/fpgaControl.cpp:95-175 | from every reached state, however the threads are scheduled, at most 326 steps are left without a new submission, and when none is possible any more every submitted frame has had its callback if and only if the last notification has seen fewer than 100 polls |
| FpgaProgress.AbortedIff | src/fpgaControl.cpp:127-153 | in every interleaving the process exits exactly at the 100th poll since the last notification, counted over the steps taken, none of the 99 before it having found an undelivered result |
| FpgaProgress.FoundIsServed | src/fpgaControl.cpp:135-174 | a poll before the 100th that finds a result ends in the callback, whatever is scheduled after it |
| FpgaProgress.NextFrameGoesThrough | src/fpgaControl.cpp:95-174 | whenever all frames are finished and the threads rest, one round of the fourteen steps hands exactly the next frame with its result to the callback |
| RtpRing.PositionIgnoresTimes | src/rtpDataManager.cpp:358-364 | the slot is the extended index modulo 4096 whatever the wrap counter holds, through 32-bit and 64-bit wrap-around |
| RtpRing.RtpBuffer.ReceivePacket | src/rtpDataManager.cpp:356-387 | one received packet: exactly one slot, the counters and the permit change, as the ring specification says |
| RtpRing.RtpBuffer.ParseSlot | src/rtpDataManager.cpp:405-454 | one parser turn: a free slot is skipped, a filled one is freed and handed on |
| RtpRing.HandedInSequenceOrder | src/rtpDataManager.cpp:334-458 | in every admissible run the packets handed on are exactly the received ones below the parser's index, in sequence order, once each; the others wait in their slots |
| RtpRing.NoSlotIsOverwritten | src/rtpDataManager.cpp:373-379 | no arrival of an admissible run finds its slot occupied |
| RtpRing.LatePacketIsSkippedIff | src/rtpDataManager.cpp:407-420 | after any further arrival the order is still right if and only if the parser had not passed it |
| RtpRing.KeepsOrderIff | src/rtpDataManager.cpp:334-458 | an order of arrivals is handed on in sequence order under every interleaving of the two threads if and only if every packet k is among the first k + 31 arrivals |
| RtpRing.LatePacketBreaksOrder | src/rtpDataManager.cpp:383-387 | packet 1 as the 33rd arrival: some interleaving hands the packets on out of order |
| NalDepacketizer.RtpParser.ParserRtpH264 | src/rtpDataManager.cpp:95-213 | the H.264 branches do to the packet data and the start flag what one parsed packet means; a failed check has appended nothing |
| NalDepacketizer.RtpParser.ParserRtpH265 | src/rtpDataManager.cpp:215-332 | the same for H.265, where a failed marker check comes after the fragment's data was appended |
| NalDepacketizer.RtpParser.HandlePacket | src/rtpDataManager.cpp:427-445 | what is parsed goes to the callback and the packet data is empty again |
| NalDepacketizer.UnitRoundTrip | src/rtpDataManager.cpp:134-213 | for every single packet (H.264 types below 24, H.265 types other than 48 and 49) or cutting into two or more fragments (types 28 and 49) the callbacks concatenate to 00 00 00 01 and the unit, if and only if the marker bits are as checked; otherwise the process ends |
| NalDepacketizer.ReassembledUnchangedIff | src/rtpDataManager.cpp:285-289 | the unit comes back unchanged if and only if it is H.264, unfragmented, or of layer id below 32 |
| NalDepacketizer.LayerBitIsLost | src/rtpDataManager.cpp:285-289 | a unit of layer 32 in two fragments whose header comes back as layer 0 |
| NalDepacketizer.UnitBeforeStart | src/rtpDataManager.cpp:119-134 | before the first parameter set a unit is ignored as a whole or starts the parser |
| NalDepacketizer.StreamRoundTrip | src/rtpDataManager.cpp:95-332 | while boxes are wanted at every packet, a stream of units, however packed, comes out as start code and unit for each from the first single-packet parameter set on |
| NalDepacketizer.ParameterSetsPass | src/rtpDataManager.cpp:127-166 | an SPS and a PPS (H.264), or a VPS and an SPS (H.265), sent first in single packets come out as start code and unit each |
| NalDepacketizer.PacketDataFits | src/rtpDataManager.cpp:427-445 | within the 1500 bytes received no packet makes the packet data leave its block, append by append |
| RtpReception.ReorderedStreamRoundTrip | src/rtpDataManager.cpp:334-458 | receive thread, ring and depacketiser together, boxes wanted throughout: however packets are reordered and threads interleave, without loss the callbacks give the byte stream of the units |
| RtpReception.UnitSalvaged | src/rtpDataManager.cpp:134-213 | whatever packets of a unit are lost, the others give its start and header if the first arrived and every payload that did, and never end the process |
| RtpReception.WholeUnitSalvaged | src/rtpDataManager.cpp:134-213 | a unit all of whose packets arrived comes out whole, whatever else is lost |
| RtpReception.LossyReceptionSalvages | src/rtpDataManager.cpp:334-458 | in every admissible run, losses included, boxes wanted throughout: the callbacks give what is left of each unit the parser has passed, from the first parameter set that arrived on |
| RtpSwitching.SwitchedReceptionSalvages | src/rtpDataManager.cpp:118-132 | in every admissible run, losses included, with boxes wanted at any packets and not at others: the callbacks give, between two packets that found no box wanted, what is left of each unit from the first parameter set that arrived in between |
| RtpSwitching.AlwaysWanted | src/rtpDataManager.cpp:120-125 | with boxes wanted at every packet the switched run is the plain run |
| BoxGeometry.SuppressesSymmetric | src/yoloDetect.cpp:76-139 | IoU and DIoU suppression do not depend on which box comes first |
| BoxGeometry.IouOfCommonPart | src/yoloDetect.cpp:76-112 | the IoU of boxes whose common points are those of a rectangle is its area over the two areas less its own |
| BoxGeometry.IouMeansCommonPoint | src/yoloDetect.cpp:76-112 | boxes with an IoU other than zero have a point in common |
| BoxGeometry.IouInside | src/yoloDetect.cpp:76-112 | a box inside another has the ratio of the areas as IoU |
| BoxGeometry.IouOfSelf | src/yoloDetect.cpp:76-112 | a box has IoU 1 with itself |
| BoxGeometry.IouShifted | src/yoloDetect.cpp:76-112 | a box of width w and itself shifted across by d < w have IoU (w - d) / (w + d) |
| BoxGeometry.IouShiftedDown | src/yoloDetect.cpp:76-112 | the same for a shift down by less than the height |
| BoxGeometry.ShiftedSuppressesIff | src/yoloDetect.cpp:535-551 | a box suppresses itself shifted by d if and only if w - d exceeds the threshold times w + d |
| BoxGeometry.DiouOfSmallest | src/yoloDetect.cpp:114-139 | the DIoU measure is the IoU less a power of the squared distance of the centres over the squared diagonal of the smallest rectangle around both boxes |
| BoxGeometry.ConcentricDiou | src/yoloDetect.cpp:114-139 | the penalty vanishes for boxes with one centre |
| BoxGeometry.ShiftedDiou | src/yoloDetect.cpp:114-139 | the DIoU measure of a box and itself shifted across |
| YoloBoxes.OffsetStaysInLayer | src/yoloDetect.h:98 | every index read stays within the output of its own layer |
| YoloBoxes.CountsAgree | src/yoloDetect.cpp:349-380 | counting anchor by anchor gives the number of hits found cell by cell |
| YoloBoxes.MakeNetworkBoxes | src/yoloDetect.cpp:349-407 | the counting pass returns the number of hits, at most the configured maximum |
| YoloBoxes.FillNetworkBoxes | src/yoloDetect.cpp:409-471 | the filling pass writes every allocated detection, the x-th being the x-th hit in layer, cell, anchor order, and never more |
| YoloBoxes.EveryHitIsFound | src/yoloDetect.cpp:409-471 | every place above the threshold is among the hits |
| YoloBoxes.HitsAtMostPlaces | src/yoloDetect.cpp:349-407 | the hits are at most the cells times anchors of all layers, and as many if every place is above the threshold |
| YoloBoxes.HitsAscend | src/yoloDetect.cpp:409-471 | the hits come in strictly ascending place order, none twice |
| YoloBoxes.ColumnIsRightIffSquare | src/yoloDetect.cpp:421-422 | the computed column is the cell's column for all cells if and only if the grid is square |
| YoloNms.Partition | src/yoloDetect.cpp:514-526 | the swap loop terminates; the result is a permutation with the detections without objectness behind the others |
| YoloNms.SuppressLater | src/yoloDetect.cpp:540-550 | one kept detection zeroes exactly the later scores it suppresses |
| YoloNms.SuppressClass | src/yoloDetect.cpp:535-551 | the double loop computes recursive greedy suppression, and touches nothing behind the partition |
| YoloNms.GreedyKeepsRest | src/yoloDetect.cpp:535-551 | suppression of a class changes no box, no objectness and no other class's score |
| YoloNms.GreedySuppresses | src/yoloDetect.cpp:535-551 | on descending scores: kept scores unchanged, no two kept boxes suppress each other, every zeroed one is suppressed by a kept one scored at least as high |
| YoloNms.SuppressionIsUnique | src/yoloDetect.cpp:512-552 | with distinct scores these properties determine the result |
| YoloNms.SettleClass | src/yoloDetect.cpp:528-551 | one turn of the class loop settles that class and leaves the settled ones settled although the array is sorted again |
| YoloNms.NmsSort | src/yoloDetect.cpp:512-601 | both variants: a permutation, then for every class a suppression of the original scores; the whole result is the class-by-class fold of a descending sort and recursive greedy suppression |
| YoloNms.BestClass | src/yoloDetect.cpp:610-621 | the first class with the highest score above the threshold, or none |
| YoloNms.GetActualDetections | src/yoloDetect.cpp:603-631 | in order, exactly the detections with a class above the threshold, each with its best class |
| YoloNms.PickSources | src/yoloDetect.cpp:603-631 | the picks come from strictly ascending positions |
| YoloNms.ReportedBoxesDoNotOverlap | src/yoloDetect.cpp:512-631 | of the reported boxes no two of one class suppress each other |
| YoloDetect.CorrectInvertsLetterbox | src/yoloDetect.cpp:475-510 | the box correction inverts the letterbox of the source picture into the network input |
| YoloDetect.CorrectYoloBoxes | src/yoloDetect.cpp:499-509 | every detection of the first n is corrected, the rest unchanged |
| YoloDetect.PixelsNonEmptyIff | src/yoloDetect.cpp:327-335 | pixel edges stay inside the picture, and are non-empty if and only if the box reaches into it |
| YoloDetect.ReportBoxes | src/yoloDetect.cpp:319-344 | the array receives the pixel boxes in order and nothing else; the loop stays within it if and only if there are no more picks than entries |
| YoloDetect.GetDetectBoxInfo | src/yoloDetect.cpp:300-346 | the whole run: the array receives the pixel boxes of the picks from the suppression of the corrected detections of the first hits, at most the configured maximum; it stays within an array of any length if and only if the picks fit, and always if there is room for every anchor box or for the maximum |
| YoloDetect.OutcomeAtMost | src/yoloDetect.cpp:300-346 | no output of a network is reported in more boxes than it has anchor boxes, nor in more than the configured maximum |
| YoloBounds.NoExtentNoSuppression | src/yoloDetect.cpp:76-139 | boxes without extent never suppress each other |
| YoloBounds.FloodedReportsAll | src/yoloDetect.cpp:300-346 | for any network shape the output whose every number is one level above 1 is reported in every anchor box, as far as the maximum allows |
| YoloBounds.AlwaysInBoundsIff | src/yoloDetect.cpp:300-346 | every output of a network shape stays within the array if and only if the array has room for every anchor box or for the configured maximum |
| YoloBounds.ShippedArrayIsTooSmall | src/yoloDetect.cpp:180-186 | with the shipped configuration, 22743 anchor boxes and a maximum of 200, some output leaves the 100 allocated entries; 200 entries would hold every output |
| YoloDetect.ReportsAreFound | src/yoloDetect.cpp:300-346 | every reported class and score is that of a found detection, unchanged and above the threshold |
| YoloDetect.FoundAreReportedOrCovered | src/yoloDetect.cpp:300-346 | every found detection with a class above the threshold is reported or suppressed by a reported one scored at least as high |
| YoloDecoding.DecodesBox | src/yoloDetect.h:129-139 | if the first four numbers at Base + cell * netC + 85 * n encode a box relative to the cell and its anchor, the detection has that box |
| YoloDecoding.DecodesScores | src/yoloDetect.cpp:450-464 | the number at offset 4 is the objectness; offset 5 + k times it is the score of class k if above the threshold |
| YoloDecoding.FittedFills | src/yoloDetect.cpp:475-490 | the fitted picture is within the network input, fills one side, and has the proportion of the source on the other, rounded down |
| YoloDecoding.PixelsOfEdges | src/yoloDetect.cpp:327-341 | a selected rectangle is reported with the pixels its left, top, right and bottom edges fall into, clipped to the picture |
| YoloDecoding.EveryEdgeHasPixel | src/yoloDetect.cpp:327-335 | every edge falls into a pixel, within the picture once it is clipped |
| YoloDecoding.DrawnIsReported | src/yoloDetect.cpp:300-510 | a rectangle drawn in the source picture, letterboxed and encoded at a hit that shows a class and that no other detection suppresses, is among the reports with its class, score and pixels, whatever else the network put out |
| YoloDecoding.OneObjectIsReported | src/yoloDetect.cpp:300-510 | for every rectangle, class and place with an anchor there is an output with which the whole run reports exactly one box, of that class and with the pixels of the rectangle |
| YoloDecoding.GroupsApart | src/yoloDetect.h:98 | the 85 numbers of two anchor boxes never overlap |
| Md5Compression.EncodeThenDecode | src/md5.cpp:58-83 | MD5Decode inverts MD5Encode on all word sequences |
| Md5Compression.DecodeThenEncode | src/md5.cpp:58-83 | MD5Encode inverts MD5Decode on all byte sequences of whole words |
| Md5Compression.Md5Encode | src/md5.cpp:58-70 | the loop writes the little-endian bytes of all words |
| Md5Compression.Md5Decode | src/md5.cpp:71-83 | the loop reads all words from little-endian bytes |
| Md5Compression.Md5Transform | src/md5.cpp:84-166 | the 64 unrolled statements compute the table-driven compression of section 3.4 of RFC 1321 |
| Md5Bits.FChooses | src/md5.h:17 | F is y at the ones of x and z elsewhere |
| Md5Bits.GChooses | src/md5.h:18 | G is x at the ones of z and y elsewhere |
| Md5Bits.HIsParity | src/md5.h:19 | H gives back any of its words with the two others |
| Md5Bits.IByMask | src/md5.h:20 | I is x xor y at the ones of z and the inverse of y elsewhere |
| Md5.PaddedLength | src/md5.cpp:47-57 | the padded message is whole blocks, starts with the message and ends with its bit count (sections 3.1 and 3.2 of RFC 1321) |
| Md5.PaddingIsInjective | src/md5.cpp:47-57 | below 2^61 bytes different messages have different padded messages |
| Md5.CarryIsRight | src/md5.cpp:28-31 | the two wrapped words hold the bit length modulo 2^64 after any update |
| Md5.NoWrapIff | src/md5.cpp:37-38 | the update lengths for which the block loop's i + 64 never wraps, exactly |
| Md5.BlockLoopEndsIff | src/md5.cpp:33-38 | the block loop ends if and only if the length is one of those; otherwise its test holds at every turn |
| Md5.EndlessUpdate | src/md5.cpp:37-38 | the block loop of an update of 2^32 - 64 bytes on an empty buffer goes on at every turn |
| Md5.Md5Context.Update | src/md5.cpp:23-46 | it ends if and only if the length does not wrap the loop, and then the context stands for the longer message: state of its whole blocks, buffer of its leftover bytes, count of its bits |
| Md5.Md5Context.Final | src/md5.cpp:47-57 | the digest is that of the padded message, whatever the updates were |
| Md5.HashChunks | src/md5.cpp:14-57 | every cutting of a message into updates gives the digest of the message, unless an update runs for ever, exactly when it wraps |
| Md5.Md5Hash | src/md5.cpp:14-57 | the same with the compression of RFC 1321 itself |
| Md5Vector.DigestOfAlphabet | src/md5.cpp:84-166 | the lower-case alphabet has the digest of appendix A.5 of RFC 1321, followed through all 64 steps |
| JpegTables.RecordStarts | src/fpgaDecode.cpp:224-247 | the loop records, in network order, the running 16-bit value of every used length |
| JpegTables.CodesFit | src/fpgaDecode.cpp:232-247 | under Kraft's inequality the codes of length i fit in i bits (section C.2 of ITU-T T.81) |
| JpegTables.FirstIsBeyond | src/fpgaDecode.cpp:232-247 | shorter codes, extended, end before the first longer code |
| JpegTables.PrefixFree | src/fpgaDecode.cpp:232-247 | no code word begins with another |
| JpegTables.StartsAreCanonicalIff | src/fpgaDecode.cpp:232-247 | all start codes, as the decoder reads them from the recorded bytes, are the canonical first codes if and only if no count above 127 precedes a used length |
| JpegTables.LargeCountMissesStart | src/fpgaDecode.cpp:240-242 | a table with 128 codes of length 8 whose code of length 9 is recorded as 0 instead of 256 |
| JpegTables.GetFileEnd2 | src/fpgaDecode.cpp:82-98 | the length up to the last end-of-image marker, or nothing exactly if there is none, when the program reads on before the buffer |
| JpegTables.PadScan | src/fpgaDecode.cpp:298-316 | the scan data followed by the fewest 0xFF that fill its last 16-byte block |
| JpegTables.PadTables | src/fpgaDecode.cpp:274-295 | the tables followed by 1 to 16 bytes 0xFF; 16 if and only if they already ended on a boundary |
| RegLookup.ExtractIsField | src/shm.cpp:262-274 | the i-th index is bits i*b to (i+1)*b of the table read as one little-endian number, also across words |
| RegLookup.PackedField | src/shm.cpp:262-274 | a packed number gives every index back as its field |
| RegLookup.UnpackPacked | src/shm.cpp:262-274 | unpacking inverts packing for every width from 1 to 31 |
| RegLookup.EntryOfTable | src/shm.cpp:249-284 | of a table written as header, packed indices and data, entry i is read as the i-th index with the i-th data word |
| RegLookup.FirstOfTable | src/shm.cpp:262-281 | the first reader finds the data beside the first occurrence of an index, and nothing exactly if the table does not hold it |
| RegLookup.GetRegs | src/shm.cpp:249-284 | the data of the first entry with the index, or the error |
| RegLookup.XdmaReadReg | src/xdma.cpp:205-245 | the data of the last entry with the index; a miss is not reported |
| RegLookup.ReadersAgreeIff | src/xdma.cpp:220-240 | both readers find the same entry if and only if the index is not in the table twice |
| ByteBuffer.GrowthFitsIff | src/byteArray.cpp:102-107 | the appended bytes fit the grown buffer if and only if the addition is below one doubling or at least twice the capacity |
| ByteBuffer.DoublingFallsShort | src/byteArray.cpp:102-107 | an append of 1100 bytes to 1000 in a block of 1024 is given only 2048 |
| ByteBuffer.RunStaysInBlockIff | src/byteArray.cpp:102-218 | a run of appends, removals and clears stays within its blocks, through every growth and shrinking, if and only if every append meets the growth condition at the capacity its history left |
| ByteBuffer.ShortAppendsFit | src/byteArray.cpp:136-151 | appends that together stay below twice the capacity all fit |
| ByteBuffer.ByteArray.Append | src/byteArray.cpp:125-151 | the bytes and their zero fit the grown block if and only if the growth condition holds, and then the contents grow by exactly the bytes |
| ByteBuffer.ByteArray.Remove | src/byteArray.cpp:166-177 | exactly the range is cut out, bad arguments change nothing, a quarter-full buffer is halved |
| ByteBuffer.ByteArray.Mid | src/byteArray.cpp:179-187 | the range, everything for a range that ends behind the data, or the bytes up to the first zero for the default length |
| ByteBuffer.ByteArray.Clear | src/byteArray.cpp:214-218 | the contents are empty, the capacity stays |
| MavlinkFramer.ScanSkipsJunk | src/aircraftDataParser.cpp:28-41 | bytes before a start byte never change the later framing |
| MavlinkFramer.ScanFindsSent | src/aircraftDataParser.cpp:17-81 | packets of start byte, length, eight more header bytes, payload and checksum, with other bytes between them and the beginning of one more, are exactly what a scan finds |
| MavlinkFramer.AircraftDataParser.Parser | src/aircraftDataParser.cpp:17-81 | one call does to contents and capacity what the step specification says, the size assertion and an append that leaves its block included |
| MavlinkFramer.RunEndsIff | src/aircraftDataParser.cpp:17-81 | a run of calls writes past a block if and only if some append misses the growth condition at the capacity its history left, and stops at the size assertion if and only if all appends fit and some call is left with 1024 bytes; otherwise the bytes and their zero stay within the block |
| MavlinkFramer.ShortStreamOverruns | src/aircraftDataParser.cpp:17-81 | seven packets of 12 bytes and one of 34 cut 9 + 25, 118 bytes in all, leave the block |
| MavlinkFramer.StepKeepsScan | src/aircraftDataParser.cpp:17-81 | one call keeps the scan of buffered and future bytes |
| MavlinkFramer.WhatStepLeaves | src/aircraftDataParser.cpp:17-81 | what a call leaves in the buffer: fewer than ten bytes, nothing of ten or more without a start byte, or everything but the packet taken |
| MavlinkFramer.ExtractedPacketsAreScanned | src/aircraftDataParser.cpp:17-81 | for every cutting into chunks whose appends all fit and that stays below 1024 bytes, the extracted packets and a scan of the rest are one greedy scan of the stream |
| MavlinkFramer.ExtractedAreSent | src/aircraftDataParser.cpp:17-81 | however such a stream is cut, the extracted packets and those still in the buffer are the packets sent, in order |
| MavlinkFramer.ParseChunks | src/serialPortDataManager.cpp:14-26 | successive calls on one parser, one per chunk: the packets of the run, which start the scan of the stream; a block is left exactly if an append does not fit, and all is fine exactly if all fit and stay below 1024 bytes |
| MavlinkFramer.NextPacketIsExtracted | src/aircraftDataParser.cpp:17-81 | a call without new bytes extracts the next scanned packet |
| MavlinkFramer.MsgidIsRightIff | src/aircraftDataParser.h:51-55 | the message id is decoded right if and only if its high byte is zero; the two known ids are still told apart |
| MavlinkFramer.BytesOfId | src/aircraftDataParser.h:49 | the three bytes of the id the header carries, the low one first |
| MavlinkFramer.BytesOfDecodedId | src/aircraftDataParser.h:51-55 | the bytes of the decoded id: the high one lands at bit 24 |
| BoxPackets.HeadRoundTrip | inc/receiveModel.h:41-59 | the packed header is read back from the front of a packet |
| BoxPackets.PacketLayout | src/dataReceive.cpp:120-183 | every byte of the i-th packet: flag 0x55, type 4, packet number from 1, packet count, content length, picture id, then 1008 bytes or what is left, then the end |
| BoxPackets.SendRes2 | src/dataReceive.cpp:120-183 | the packets of a box array in order, each with its header fields, the last one with what is left; none for an empty array |
| BoxPackets.ReassemblyInvertsSplitting | src/dataReceive.cpp:120-228 | parsing the packets of a box array gives back its bytes and picture id, whatever was left over before |
| BoxHandshake.StepHandshake | src/dataReceive.cpp:152-183 | every step keeps exactly one packet or answer under way while the sender waits |
| BoxHandshake.StepOnePacket | src/dataReceive.cpp:254-290 | every step keeps the unparsed packet on the wire, at the end of the buffer, or in the parser's copy |
| BoxHandshake.StepData | src/dataReceive.cpp:191-234 | every step keeps pic and the deliveries equal to parsing the packets so far |
| BoxHandshake.EveryMessageArrives | src/dataReceive.cpp:120-290 | in every interleaving, each box array stamped with its own end bytes, the delivered pictures are a prefix of the sent ones, byte for byte, and all of them once the last answer is in |
| BoxHandshake.BuffersNeverOverrun | src/dataReceive.cpp:200-228 | in every interleaving every append to the receive buffer and to the picture fits its block |
| BoxHandshake.AtMostOneUnparsed | src/dataReceive.cpp:191-290 | in every interleaving at most one packet is unparsed, and in the buffer it is exactly the last lastPacketSize bytes |
| BoxHandshake.SomeThreadCanStep | src/dataReceive.cpp:120-290 | the handshake never deadlocks |
| BoxHandshake.StepSpendsOne | src/dataReceive.cpp:120-290 | every step of any thread takes exactly one of the thirteen steps of each packet |
| BoxHandshake.TransferFinishes | src/dataReceive.cpp:120-290 | every schedule takes at most thirteen steps per packet, and one that has taken them all has delivered every box array |
| PicBilinear.SourceInBounds | src/picProcess.cpp:96-97 | both neighbours of a target coordinate exist, and at the last one the fraction is zero |
| PicBilinear.BilinearWithin | src/picProcess.cpp:85-144 | a resized value lies between the smallest and the largest value of its channel |
| PicBilinear.BilinearRamp | src/picProcess.cpp:85-144 | every linear picture is reproduced exactly at the source coordinates |
| PicResize.MatToImage | src/picProcess.cpp:30-47 | interleaved bytes become planes scaled to 0..1 |
| PicResize.SetPixel | src/picProcess.cpp:64-69 | one sample changes, writes outside the image are dropped |
| PicResize.AcrossRow | src/picProcess.cpp:100-119 | one row of the horizontal pass holds the row-wise blends, every other sample is unchanged |
| PicResize.DownRow | src/picProcess.cpp:124-139 | setting one share and adding the other makes one row the two-axis blend, every other sample unchanged |
| PicResize.RowDefinedIff | src/picProcess.cpp:97-126 | a target row has a source coordinate that converts to an index if and only if there are two rows; division by zero gives infinities and NaN |
| PicResize.ResizeImage | src/picProcess.cpp:85-144 | defined if and only if there are two target rows or the size is equal; then the result is the bilinear picture of the new size, or a copy at equal size |
| PicResize.ResizeRgbBin | src/picProcess.cpp:180-210 | with the same exact condition every byte of the four-byte pixels is the rounded sample of the resized planes, the fourth is zero |
| PicResize.EqualSizeKeepsBytes | src/picProcess.cpp:180-210 | at equal size every input byte comes back, with a zero after each pixel |
| PicResize.BytesStayWithinChannel | src/picProcess.cpp:180-210 | every output byte lies between the smallest and the largest input byte of its channel |
| PicResize.BytesAreNearest | src/picProcess.cpp:180-210 | every output byte is the integer nearest to 255 times its sample of the resized planes |

## Left out

- Sockets, serial port, memory mapping, DMA descriptors, Qt, sleeps and logging: reads, registers and packets are parameters or environment steps.
- Stop flags and destructors of the threads, `reInit`, `calcuate_thread`: shutdown or unused code.
- RTSP login, configuration files, `string_split`, `hexToInt`: string plumbing. The configured numbers are parameters.
- `picBufferManager.hpp`: a weaker copy of the FPGA ring.
- `vcuControl.cpp`, OpenCV, libyuv, turbojpeg, NEON and assembly bodies: foreign code; the assembly is cited for its row order only.
- Floating-point rounding: all of it is real arithmetic. A network output of exactly 1 makes x / (1 - x) infinite in the program; the model takes 0. `pow` is an uninterpreted function.
- FpgaRing, BoxHandshake: threads are steps on one shared state value, each statement on shared data being atomic; what the callback reads and the index increment after it are one step; memory ordering and aliasing of the slots are not modelled. Packet counts are unbounded.
- RtpRing: a run counts fewer than 2^64 packets; the parser's index is unbounded. The lock around a slot makes each turn atomic.
- NalDepacketizer.StreamRoundTrip: for boxes wanted at every packet; `RtpSwitching` has the general case.
- RtpReception.ReorderedStreamRoundTrip: for boxes wanted at every packet, like `StreamRoundTrip`.
- RtpReception.LossyReceptionSalvages: for boxes wanted at every packet; `RtpSwitching.SwitchedReceptionSalvages` has the general case.
- RtpRing.KeepsOrderIff: for orders that begin with packet 0, repeat none and are never 4096 slots ahead of the parser.
- YoloDecoding.DecodesBox: for boxes of non-negative extent and anchors above zero; the column is the one the program computes, see `ColumnIsRightIffSquare`.
- Md5Bits: the rotation has no law for all words; `Md5Vector` follows every rotation of the standard on one message.
- NalDepacketizer: the time stamp, the SSRC and the forwarding of packets are not modelled; packets too short for the bytes the program reads are excluded, since it reads past them.
- YuvKernel: the shipped tables are a parameter; three of their entries appear in `DarkPixelMissesClamp`. The planes are read-only sequences, so overlap of source and destination is excluded.
- YuvKernel.Yuv420ToRgb888: width below 32768 and height at most 32768, the range of the packed counter; `dither` is unused by the program.
- YoloNms: `qsort` is any descending arrangement, given by a selection sort; the score arrays belong to their detections, so sharing of them between detections is not modelled; the comparator's branch for a negative sort class cannot be reached.
- YoloNms.SuppressionIsUnique: needs distinct scores, because ties may be sorted either way.
- MavlinkFramer.ExtractedPacketsAreScanned: says nothing of runs in which an append leaves its block or the size assertion fails; `RunEndsIff` says which these are.
- ByteBuffer.ByteArray.Append: the model stops where the program writes past its block, with the block grown and nothing copied.
- YoloBoxes: the `exp` variant without `YOLO_FPGA` and the freeing of old detections are not modelled.
- YoloDetect.GetDetectBoxInfo: for a non-negative threshold; below zero, detections without objectness would take no part in suppression and still be reported. Sizes that make the fitted width or height zero are excluded, since the program then divides by zero.
- YoloBounds.AlwaysInBoundsIff: for non-negative thresholds and anchors and at least one class; for DIoU also a `pow` that is not negative on non-negative bases.
- YoloBounds.ShippedArrayIsTooSmall: for the greedy rule; the network input and the source picture may have any sizes.
- Md5: `getMd5` with its `strlen` and hexadecimal text is not modelled. Words and bytes are integers, bit vectors appear inside the four round functions and the rotation.
- Md5.Md5Context.Update: says nothing of the context when the update would run for ever.
- JpegTables: the copying of the quantisation, picture and scan headers is not modelled; for a file without an end marker the model returns nothing where the program reads before the buffer.
- RegLookup: the header's three bytes are parameters; that one reader keeps them from its first call and reads them as plain `char` is not modelled.
- ByteBuffer: the other constructors and the assignment operators are not modelled, nor null arguments. Removal copies overlapping memory with `memcpy`; the model copies upwards.
- MavlinkFramer: decoding of the GPS and attitude records; the checksum, which the program does not test.
- BoxHandshake.EveryMessageArrives: for non-empty box arrays; an empty one puts no packet on the wire.
- BoxPackets: the time stamp and the end flag are nine arbitrary bytes per box array; `send_res` is a similar splitter.
- PicBilinear.Bilinear: defined for two target rows, the condition of `RowDefinedIff`; a target width of 1 is included.
- PicResize.MatToImage: three channels, as its only caller asks for.
