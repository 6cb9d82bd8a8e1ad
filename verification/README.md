# Verified model of the entropy coding and buffering core of libjpeg-turbo 2.0.2

The application bundles libjpeg-turbo 2.0.2. This project models the parts of it that turn DCT
coefficients into bytes and back, and the controllers that feed them, and proves what those parts are
for. 8-bit samples, a 64-bit `size_t` and 16-bit `DCTELEM` are fixed.

`dafny verify dfyconfig.toml` checks everything.

## How it is organised

Code that changes state step by step is a class or a method with loops; each has a specification
function next to it, and what the code promises is proved about that function. The main results are:

* **Arithmetic (QM) coder** (`Bits`, `ArithTable`, `Stuffing`, `Qm*`, `Arith*`). The registers, the
  stacked 0xFF bytes, the held-back zeros and the stuffed output are related to an exact interval of
  integers; hence the byte-level round trip of any run of decisions (`QmRoundTrip.RoundTrip`). On top of
  it come the decisions of all five kinds of MCU, and the round trip of whole progressive images
  (`ArithImage.ProgressiveRoundTrip`) and of sequential scans (`ArithSequential.ScanRoundTrip`), with
  restart markers in the byte stream (`Restart`, `RestartCounter`, `ArithRestart`).
* **Scan scripts and passes** (`ScanScript`, `ScriptBuilder`, `PassControl`). The encoder's validation,
  the decoder's checks and the proposed progression agree; the pass loop writes every scan once.
* **Sequential Huffman coding** (`Huff*`). Canonical codes, derived tables, lookahead, bit packing and
  stuffing, blocks, segments and scans with restart markers (`HuffRestart`), the generation of
  optimal tables (`HuffMerge`, `HuffOrder`, `HuffMinimal`, `HuffEqual`) and of length-limited ones
  (`HuffLimit`, `HuffSizes`, `HuffOptimal`), and both passes of an optimized scan together with its
  decoder (`HuffOptimized`, `HuffTwoPass`).
* **Progressive Huffman coding of AC bands** (`Prog*`). End-of-block runs over many blocks and
  correction bits that are held back until their symbol, read back by a decoder as in section G.2 of
  ITU-T T.81; down to the bytes, with a table built from the counts of the scan.
* **Row buffers with context** (`ContextRows` for decompression, `PrepContext` for compression).
* **Coefficient controllers** (`McuLayout`, `McuSinglePass`, `McuFullBuffer`, `McuTranscode`,
  `McuBuilders`). Three ways to build MCUs, each proved equal to one specification, dummy blocks
  included, under any pattern of suspension; so they agree with each other.
* **Reciprocal quantizer** (`Quantizer`) and **ICC profiles in markers** (`IccProfile`).

## Where the code falls short of what it says

Each of these has an exact condition that can be checked beforehand, and an input that shows it.

* `flush_bits` (jchuff.c:466-486) appends seven ones with bits still pending. `HuffScan.EncodeSegment` says
  when that is safe; `HuffFlush.EncodeWide` writes a block for which it is not.
* The byte counters of `jpeg_gen_optimal_table` (jchuff.c:964-974) wrap around when 256 codes share a
  length, and then the search for the longest code (jchuff.c:1001-1002) leaves the counters at their lower
  end, or the table comes out empty. `HuffOptimal.GenOptimalTable` and `HuffOptimal.CountsRight` say when,
  `HuffOptimal.CountWraps` gives the counts that lead there. Counts from real blocks use far fewer symbols
  (`HuffOptimized.CountsSuitable`, `ProgTwoPass.CountsSuitable`).
* `jpeg_gen_optimal_table` keeps the symbols in the order of the lengths before they were limited, and its
  own comment asks why that should be right (jchuff.c:1008-1012). `HuffSizes.FrequencyOrder` says exactly
  when a symbol that occurs more often has no longer a code, and `HuffDivided.LongerForFrequent` gives counts
  for which it has.
* The refinement scans of progressive Huffman coding store magnitudes in 16 bits (jcphuff.c:809).
  `ProgEncoder.RefinementCorrect` says when that is right; `ProgStored.MinimumMiscoded` and
  `ProgStored.MinimumBeyondTable` are bands for which it is not.
* The comment at the head of jdmainct.c promises context for every row group. `ContextRows.WholeContext`
  says which row group is handed over with rows from below the image instead of its true neighbours, and
  `ContextRows.ShortLastRow` is an image that has one. The rows next to a row group are always right
  (`ContextRows.NearestRows`).
* The arithmetic encoder codes DC differences that its own decoder rejects.
  `ArithImage.ProgressiveRoundTrip` and `ArithSequential.ScanRoundTrip` say which: those of more than
  0x8000 in magnitude. `ArithImage.JumpRefused` and `ArithSequential.JumpRefused` are images with one.
* `encode_one_block` (jchuff.c:569-592) codes an AC coefficient of -32768 with a category that its symbols
  have no place for. `HuffBlock.BlockExact` and `HuffRestart.ScanRoundTrip` say that exactly blocks with one
  are not read back, `HuffBlock.MinimumItems` what is read instead. The pass that counts symbols refuses
  such blocks (`HuffTwoPass.GatherScan`).
* `quantize` (jcdctmgr.c:407-438) cannot negate -32768, which no DCT of 8-bit samples yields.
  `Quantizer.QuantizedExact` says for which divisors it is divided with rounding all the same, and
  `Quantizer.MinimumMisquantized` gives a divisor for which it is not.
* The divisors of the accurate integer DCT are eight times the quantization values in 16 bits
  (jcdctmgr.c:268), and `jpeg_add_quant_table` allows values up to 32767 (jcparam.c:57).
  `Quantizer.DivisorRight` says that values below 8192 come out right and no others, and
  `Quantizer.StartPass` that a multiple of 8192 leads to a division by zero.
* The ICC writer accepts profiles that need more than 255 markers; `IccProfile.IccRoundTrip` says that
  exactly these cannot be read, and `IccProfile.LongProfileRefused` is one.

## Model

| member | source | states |
|---|---|---|
| ArithTable.PackedFields | app/src/main/cpp/libjpeg-turbo/jaricom.c:32-33 | packing a row of the probability table loses nothing: estimate, next state after an LPS (with the switch bit) and after an MPS come out again |
| ArithTable.AritabFields | app/src/main/cpp/libjpeg-turbo/jaricom.c:40-157 | in all 114 rows the estimate is between 1 and 0x5b12 and both successors are rows of the table |
| ArithTable.LpsAdapts | app/src/main/cpp/libjpeg-turbo/jcarith.c:235-266 | after a less probable symbol a bin is at the row that the table names for that, and its more probable symbol changes if and only if the row says so |
| ArithTable.MpsAdapts | app/src/main/cpp/libjpeg-turbo/jcarith.c:235-266 | after a more probable symbol a bin is at the row that the table names for that, and its more probable symbol stays |
| QmEncoder.StartInv | app/src/main/cpp/libjpeg-turbo/jcarith.c:893-899 | the start registers satisfy the carry and stuffing invariant |
| QmEncoder.CarryPending | app/src/main/cpp/libjpeg-turbo/jcarith.c:276-292 | a carry through the stacked 0xFF bytes adds exactly one to the number that the pending bytes spell, and appends the new byte |
| QmEncoder.SettlePending | app/src/main/cpp/libjpeg-turbo/jcarith.c:295-312 | without a carry the pending bytes stay and the new byte is appended |
| QmEncoder.ByteOutExact | app/src/main/cpp/libjpeg-turbo/jcarith.c:267-316 | moving a byte out of the register: emitted bytes, held-back zeros, buffer and stacked 0xFF bytes read as one number become 256 times what they were plus the byte, and no trailing zero byte is emitted |
| QmEncoder.ShiftExact | app/src/main/cpp/libjpeg-turbo/jcarith.c:263-316 | one renormalization step doubles the exact interval and keeps the invariant, whether or not a byte goes out |
| QmEncoder.Renorm | app/src/main/cpp/libjpeg-turbo/jcarith.c:263-317 | renormalization ends with the interval at least 0x8000 and the invariant kept |
| QmEncoder.Narrow | app/src/main/cpp/libjpeg-turbo/jcarith.c:241-266 | a decision narrows the exact interval to its lower part or to its upper qe, and nothing else |
| QmEncoder.Encode | app/src/main/cpp/libjpeg-turbo/jcarith.c:224-317 | every encoded decision leads from a good state to a good state |
| QmEncoder.EncodeAdapts | app/src/main/cpp/libjpeg-turbo/jcarith.c:235-266 | the bin that a decision leaves is the one that the rows of the table demand: after an LPS the row for that, with the MPS switched if the row says so; after an MPS the row for that with the same MPS, but no change as long as the interval stays large |
| QmEncoder.EncodeSplits | app/src/main/cpp/libjpeg-turbo/jcarith.c:241-262 | the more probable symbol never gets the smaller part of the interval, and the parts are as large as the estimate of the row says |
| QmInterval.DoubleContains | app/src/main/cpp/libjpeg-turbo/jcarith.c:263-316 | doubling the interval changes nothing about which byte strings lie in it |
| QmInterval.NarrowContains | app/src/main/cpp/libjpeg-turbo/jcarith.c:241-266 | what lies in a part of the interval lies in the interval |
| QmFinish.FinalBase | app/src/main/cpp/libjpeg-turbo/jcarith.c:144-150 | the final value lies in the interval and ends in at least fifteen zero bits |
| QmFinish.FinalBaseBest | app/src/main/cpp/libjpeg-turbo/jcarith.c:146-151 | no value in the coding interval has more trailing zero bits than the final one |
| QmFinish.FinishValue | app/src/main/cpp/libjpeg-turbo/jcarith.c:144-198 | the bytes of the finished segment spell exactly the chosen final value, zeros added as needed |
| QmFinish.FinishContains | app/src/main/cpp/libjpeg-turbo/jcarith.c:138-199 | the finished segment lies in the last interval, is properly stuffed and does not end in an unstuffed zero byte |
| QmFinish.FinishShortest | app/src/main/cpp/libjpeg-turbo/jcarith.c:210-217 | no byte string in the last interval, however it ends, is shorter than the data of the finished segment |
| QmRoundTrip.ReadNext | app/src/main/cpp/libjpeg-turbo/jdarith.c:125-145 | reading a data byte yields the next unstuffed byte of the segment, and zeros once the marker has been reached |
| QmRoundTrip.StartInStep | app/src/main/cpp/libjpeg-turbo/jdarith.c:726-729 | the decoder starts in step with the encoder |
| QmRoundTrip.DecisionInStep | app/src/main/cpp/libjpeg-turbo/jdarith.c:114-191 | one decision: the decoder in step with the encoder returns what was encoded, gets the same statistics byte and stays in step |
| QmRoundTrip.RunInStep | app/src/main/cpp/libjpeg-turbo/jdarith.c:114-191 | the same over any run of decisions |
| QmRoundTrip.SegmentBytes | app/src/main/cpp/libjpeg-turbo/jcarith.c:138-199 | in a finished segment every 0xFF is followed by 0x00, and the segment does not end in a zero byte |
| QmRoundTrip.RoundTrip | app/src/main/cpp/libjpeg-turbo/jcarith.c:138-317 | for every run of decisions over any statistics: the segment followed by any marker decodes to exactly these decisions and every statistics bin ends as the encoder left it |
| QmRoundTrip.SegmentShortest | app/src/main/cpp/libjpeg-turbo/jcarith.c:210-217 | no byte string that lies in the interval of the decisions, and so can be decoded to them, is shorter than the segment without its stuffed zeros |
| QmRoundTrip.EmptySegment | app/src/main/cpp/libjpeg-turbo/jcarith.c:144-198 | a segment without decisions has no bytes |
| QmRoundTrip.AdaptiveRoundTrip | app/src/main/cpp/libjpeg-turbo/jdarith.c:114-191 | the same when both sides choose each bin from the decisions before it |
| ArithEncoder.Encoder.EmitByte | app/src/main/cpp/libjpeg-turbo/jcarith.c:121-131 | one more byte of output |
| ArithEncoder.Encoder.EmitCarry | app/src/main/cpp/libjpeg-turbo/jcarith.c:276-287 | does what a carry should to the registers and the output |
| ArithEncoder.Encoder.EmitSettled | app/src/main/cpp/libjpeg-turbo/jcarith.c:295-311 | does what settling the stacked bytes should to the registers and the output |
| ArithEncoder.Encoder.Renormalize | app/src/main/cpp/libjpeg-turbo/jcarith.c:263-316 | the loop computes the specified renormalization |
| ArithEncoder.Encoder.ArithEncode | app/src/main/cpp/libjpeg-turbo/jcarith.c:224-317 | encodes one decision: registers, output and statistics as specified |
| ArithEncoder.Encoder.EmitFinalBytes | app/src/main/cpp/libjpeg-turbo/jcarith.c:176-198 | writes the last bytes but no trailing zeros |
| ArithEncoder.Encoder.FinishPass | app/src/main/cpp/libjpeg-turbo/jcarith.c:138-199 | finishes the segment as specified |
| ArithEncoder.Encoder.EncodeDcFirst | app/src/main/cpp/libjpeg-turbo/jcarith.c:398-446 | codes the decisions of a DC difference, and returns the new prediction and context |
| ArithEncoder.Encoder.EncodeAcFirst | app/src/main/cpp/libjpeg-turbo/jcarith.c:480-546 | codes the decisions of the first scan of an AC band |
| ArithEncoder.Encoder.EncodeDcRefine | app/src/main/cpp/libjpeg-turbo/jcarith.c:575-581 | codes one bit of a DC coefficient |
| ArithEncoder.Encoder.EncodeAcRefine | app/src/main/cpp/libjpeg-turbo/jcarith.c:614-674 | codes the decisions of a refinement scan of an AC band |
| ArithDecoder.Decoder.GetByte | app/src/main/cpp/libjpeg-turbo/jdarith.c:73-84 | the next byte of the source; the end of the data reads as an EOI marker |
| ArithDecoder.Decoder.ReadData | app/src/main/cpp/libjpeg-turbo/jdarith.c:125-146 | the next data byte, past fill bytes and stuffing; zeros after a marker |
| ArithDecoder.Decoder.Renormalize | app/src/main/cpp/libjpeg-turbo/jdarith.c:123-156 | the loop computes the specified renormalization |
| QmDecoder.DecodeAdapts | app/src/main/cpp/libjpeg-turbo/jdarith.c:160-188 | the bin that the decoder leaves is the one that the rows of the table demand, by the same rule as for the encoder |
| ArithDecoder.Decoder.ArithDecode | app/src/main/cpp/libjpeg-turbo/jdarith.c:114-191 | decodes one decision: value, registers and statistics as specified |
| ArithDecoder.Decoder.DecodeDcFirst | app/src/main/cpp/libjpeg-turbo/jdarith.c:277-313 | decodes a DC difference as specified; false on a magnitude overflow |
| ArithDecoder.Decoder.DecodeAcFirst | app/src/main/cpp/libjpeg-turbo/jdarith.c:348-391 | decodes the first scan of an AC band into a block |
| ArithDecoder.Decoder.DecodeDcRefine | app/src/main/cpp/libjpeg-turbo/jdarith.c:419-425 | decodes one more bit of a DC coefficient |
| ArithDecoder.Decoder.DecodeAcRefine | app/src/main/cpp/libjpeg-turbo/jdarith.c:453-493 | decodes a refinement scan of an AC band into a block |
| ArithDecoder.Decoder.ProcessRestart | app/src/main/cpp/libjpeg-turbo/jdarith.c:199-230 | goes past the expected restart marker exactly if it is the next one, and then starts afresh on the data after it |
| ArithRestart.RunAhead | app/src/main/cpp/libjpeg-turbo/jdarith.c:114-191 | however many decisions are decoded, the marker that comes next stays the same |
| ArithRestart.SegmentAhead | app/src/main/cpp/libjpeg-turbo/jdarith.c:199-208 | after the decisions of a segment, of which the decoder need not have read all bytes, the marker found next is the one behind the segment |
| ArithMagnitude.DcMagnitudeFollows | app/src/main/cpp/libjpeg-turbo/jdarith.c:286-313 | a decoder that is given the decisions of a DC magnitude reads that magnitude |
| ArithMagnitude.DcMagnitudeTooLarge | app/src/main/cpp/libjpeg-turbo/jdarith.c:288-295 | a magnitude of more than 0x8000 makes the decoder stop with an overflow |
| ArithMagnitude.AcMagnitudeFollows | app/src/main/cpp/libjpeg-turbo/jdarith.c:367-390 | the same for AC magnitudes |
| ArithMagnitude.RestBins | app/src/main/cpp/libjpeg-turbo/jcarith.c:419-445 | the categories of a magnitude have bins of their own, answered yes up to the last, and the bits below the leading one share the bin fourteen further on, most significant first |
| ArithAc.NonzeroBins | app/src/main/cpp/libjpeg-turbo/jcarith.c:499-541 | a nonzero coefficient k has the bins 3 (k - 1) + 1 and + 2 of its table and the fixed bin for its sign; from magnitude 3 on the bins start at 189 or 217, depending on the bound |
| ArithAc.EobBins | app/src/main/cpp/libjpeg-turbo/jcarith.c:498-547 | whether the block ends before coefficient k is asked with bin 3 (k - 1), and answered yes exactly behind the last nonzero one |
| ArithRefine.RefinedBins | app/src/main/cpp/libjpeg-turbo/jcarith.c:646-667 | a coefficient that was nonzero before has one decision, its next bit, with its third bin; a new one has its second bin and the fixed bin |
| ArithRefine.RefineEobBins | app/src/main/cpp/libjpeg-turbo/jcarith.c:641-675 | whether the block ends is asked only behind the last coefficient that was nonzero before |
| ArithAc.AcFirstMeaning | app/src/main/cpp/libjpeg-turbo/jcarith.c:458-550 | decoding what the first scan of an AC band coded leaves every coefficient of the band truncated toward zero to its high bits, and nothing else changed |
| ArithRefine.AcRefineMeaning | app/src/main/cpp/libjpeg-turbo/jcarith.c:592-678 | decoding what a refinement scan coded takes a band from one bit position to the next lower one |
| ArithDc.ContextMeaning | app/src/main/cpp/libjpeg-turbo/jcarith.c:430-436 | the context for the next difference is the class of the last one by the bounds L and U: zero up to 2^(L-1), small up to 2^U, large above, and its sign; the prediction becomes the coefficient that was coded |
| ArithDc.DcBins | app/src/main/cpp/libjpeg-turbo/jcarith.c:392-445 | a difference is coded with the four bins of its context, by Table F.4, and with bins from 20 on if its magnitude is over one |
| ArithDc.DcFirstMeaning | app/src/main/cpp/libjpeg-turbo/jcarith.c:367-450 | a decoded DC coefficient is the original with its low bits cleared, in 16 bits, whatever wraps around in the prediction |
| ArithDc.DcDiffTooLarge | app/src/main/cpp/libjpeg-turbo/jdarith.c:288-295 | a DC difference of more than 0x8000 in magnitude is an error to the decoder |
| ArithDc.DcRefineMeaning | app/src/main/cpp/libjpeg-turbo/jcarith.c:557-585 | a refinement bit takes a DC coefficient to the next lower bit position, in two's complement |
| ArithProgressive.BlockMeaning | app/src/main/cpp/libjpeg-turbo/jdarith.c:249-497 | any block in any accepted scan: the decoder succeeds exactly if the DC difference fits, follows the encoder's decisions, and brings the block from the precision of earlier scans to that of this one |
| ArithProgressive.IntervalMeaning | app/src/main/cpp/libjpeg-turbo/jdarith.c:249-497 | the same for all blocks of a restart interval; other blocks are untouched |
| ArithProgressive.IntervalDcs | app/src/main/cpp/libjpeg-turbo/jcarith.c:336-345 | in a first DC scan every interval is coded without any memory of earlier ones: each block as its difference from the last block of its component in the interval, or from 0, under the class of the difference before |
| ArithImage.FreshBins | app/src/main/cpp/libjpeg-turbo/jcarith.c:336-350 | every bin that an interval uses is zero at its start, except the fixed one; bins of tables that no component of the scan uses are untouched |
| ArithImage.IntervalRoundTrip | app/src/main/cpp/libjpeg-turbo/jcarith.c:324-359 | the same through the bytes of a segment, and both sides end with the same statistics |
| ArithImage.ScanMeaning | app/src/main/cpp/libjpeg-turbo/jcarith.c:324-359 | the same for the bytes of a scan with any number of restart intervals and restart markers between them, with the statistics areas reset at each |
| ArithImage.ProgressiveRoundTrip | app/src/main/cpp/libjpeg-turbo/jcarith.c:367-678 | for every accepted script, image of 16-bit coefficients, block order and restart intervals: decoding succeeds exactly if no DC difference exceeds 0x8000, and then every coefficient is the original at the last bit position sent, or zero if never sent |
| ArithImage.ProgressiveLossless | app/src/main/cpp/libjpeg-turbo/jcarith.c:367-678 | hence nothing is lost when the script sends every coefficient down to bit position 0 |
| ArithImage.JumpRefused | app/src/main/cpp/libjpeg-turbo/jdarith.c:288-295 | an image that no decoder takes: two blocks with DC coefficients 32767 and -32768 in one DC scan, in an accepted script |
| ArithScan.EncodeBlock | app/src/main/cpp/libjpeg-turbo/jcarith.c:367-678 | codes the decisions of a block in any kind of progressive scan, and returns the new prediction |
| ArithScan.EncodeSegment | app/src/main/cpp/libjpeg-turbo/jcarith.c:138-678 | a restart interval comes out as exactly the bytes of the specified segment, and the statistics areas as specified |
| ArithScan.ClearAreas | app/src/main/cpp/libjpeg-turbo/jcarith.c:336-349 | sets the bins of exactly the statistics areas that the scan uses to zero |
| ArithScan.EncodeScan | app/src/main/cpp/libjpeg-turbo/jcarith.c:324-359 | restart intervals come out one after the other, each from fresh registers and statistics areas, with restart markers numbered modulo 8 between them |
| ArithScan.DecodeInterval | app/src/main/cpp/libjpeg-turbo/jdarith.c:249-497 | a restart interval is read into the image as specified; after an error the rest of it is left alone |
| ArithScan.DecodeScan | app/src/main/cpp/libjpeg-turbo/jdarith.c:199-230 | reads interval after interval as specified, and stops exactly at an error or where the expected restart marker does not follow |
| ArithSequential.SequentialRoundTrip | app/src/main/cpp/libjpeg-turbo/jcarith.c:685-820 | a sequential restart interval decodes to the same blocks exactly if no DC difference exceeds 0x8000 |
| ArithSequential.IntervalDecisions | app/src/main/cpp/libjpeg-turbo/jcarith.c:336-350 | the decisions of a sequential interval in closed form: for each block the difference of its DC coefficient from the last one of its component, or from 0, under the class of the difference before, and then its AC coefficients |
| ArithSequential.FreshBins | app/src/main/cpp/libjpeg-turbo/jcarith.c:336-350 | every bin that a sequential interval uses is zero at its start, except the fixed one; other tables are untouched |
| ArithSequential.EncodeMcu | app/src/main/cpp/libjpeg-turbo/jcarith.c:706-817 | the loop over the blocks of an MCU codes the specified decisions |
| ArithSequential.DecodeMcu | app/src/main/cpp/libjpeg-turbo/jdarith.c:519-624 | the loop over the blocks of an MCU decodes as specified, stops at an error, and returns the predictions for the next MCU |
| ArithSequential.TraceConcat | app/src/main/cpp/libjpeg-turbo/jcarith.c:685-820 | the decisions of MCU after MCU, each with the predictions that the last one left, are those of all their blocks |
| ArithSequential.ReadConcat | app/src/main/cpp/libjpeg-turbo/jdarith.c:504-624 | reading MCU after MCU, until one fails, is reading all their blocks |
| ArithSequential.ScanRoundTrip | app/src/main/cpp/libjpeg-turbo/jcarith.c:324-359 | the bytes of a scan with any number of restart intervals and restart markers between them, with the statistics areas reset at each, decode to the same blocks and end with the same statistics, exactly if no DC difference of any interval exceeds 0x8000 |
| ArithSequential.JumpRefused | app/src/main/cpp/libjpeg-turbo/jdarith.c:550-560 | two blocks of 16-bit coefficients that the decoder refuses: DC 32767, then -32768 |
| ScanScript.ScanAgreement | app/src/main/cpp/libjpeg-turbo/jdarith.c:638-676 | a scan that passes the encoder's test passes the decoder's start of a scan without error or warning, and both record the same progress |
| ScanScript.ScriptAgreement | app/src/main/cpp/libjpeg-turbo/jcmaster.c:235-276 | an accepted script passes all the decoder's scan starts |
| ScanScript.PositionsDescend | app/src/main/cpp/libjpeg-turbo/jcmaster.c:258-274 | an accepted script sends each coefficient at bit positions that descend one by one, from the first scan to the last |
| ScriptBuilder.CheckComps | app/src/main/cpp/libjpeg-turbo/jcmaster.c:218-229 | accepts exactly component lists of 1 to 4 that ascend within range |
| ScriptBuilder.ValidateProgressive | app/src/main/cpp/libjpeg-turbo/jcmaster.c:217-302 | the loop with its matrix of last bit positions accepts exactly the accepted scripts, DC of every component included |
| ScriptBuilder.ValidateSequential | app/src/main/cpp/libjpeg-turbo/jcmaster.c:277-308 | accepts exactly scripts that send every component once, in full |
| ScriptBuilder.ValidateScript | app/src/main/cpp/libjpeg-turbo/jcmaster.c:178-310 | the verdict is progressive, sequential or an error, exactly as the script is |
| ScriptBuilder.FillAScan | app/src/main/cpp/libjpeg-turbo/jcparam.c:407-419 | one more scan at the next place, and nothing before it changed |
| ScriptBuilder.FillScans | app/src/main/cpp/libjpeg-turbo/jcparam.c:421-437 | one scan for each component |
| ScriptBuilder.FillDcScans | app/src/main/cpp/libjpeg-turbo/jcparam.c:439-459 | one interleaved scan if at most four components, otherwise one for each |
| ScriptBuilder.SimpleProgression | app/src/main/cpp/libjpeg-turbo/jcparam.c:467-539 | fills in exactly the proposed script, as many scans as it announces, in the old space or a new one |
| ScriptBuilder.SimpleScriptComplete | app/src/main/cpp/libjpeg-turbo/jcparam.c:493-538 | the proposed script is accepted for every number of components and sends every coefficient down to bit position 0 |
| ScriptBuilder.ColorOrder | app/src/main/cpp/libjpeg-turbo/jcparam.c:505-528 | the ten scans proposed for color images are these, in this order: some luma early, chroma in two scans each, the last bit of luma at the end |
| ScriptBuilder.PlainOrder | app/src/main/cpp/libjpeg-turbo/jcparam.c:529-539 | the scans proposed for other images: DC, the low band, the high band, the next bit of AC, and the last bits of DC and AC, each for every component in order |
| HuffTable.EndGrows | app/src/main/cpp/libjpeg-turbo/jchuff.c:267-284 | the code counter at a longer length is at least the shorter one, shifted |
| HuffTable.NoAllOnes | app/src/main/cpp/libjpeg-turbo/jchuff.c:275-284 | in a table that passes the check no code is all ones |
| HuffTable.PrefixFree | app/src/main/cpp/libjpeg-turbo/jchuff.c:267-284 | no code is a prefix of another |
| HuffTable.DecodeExact | app/src/main/cpp/libjpeg-turbo/jdhuff.c:450-486 | for any stream: it starts with the code of a symbol if and only if bit-by-bit decoding finds that symbol with that length |
| HuffTable.DecodeFinds | app/src/main/cpp/libjpeg-turbo/jdhuff.c:450-486 | whatever bit-by-bit decoding finds within 16 bits is the code of a symbol |
| HuffDerive.FillSizes | app/src/main/cpp/libjpeg-turbo/jchuff.c:250-261 | lists the code lengths in order; fails exactly for more than 256 codes |
| HuffDerive.FillCodes | app/src/main/cpp/libjpeg-turbo/jchuff.c:263-284 | lists the canonical codes; fails exactly if some length has too many |
| HuffDerive.AssignCodes | app/src/main/cpp/libjpeg-turbo/jchuff.c:286-305 | codes and sizes by symbol; fails exactly for repeated or too large symbols |
| HuffDerive.MakeEncoderTable | app/src/main/cpp/libjpeg-turbo/jchuff.c:220-306 | succeeds exactly for valid tables, with the canonical code of every symbol and size 0 for all others |
| HuffDerive.CodesInOrder | app/src/main/cpp/libjpeg-turbo/jchuff.c:261-303 | in the order in which a table lists its symbols the first code is zero and each is its predecessor plus one, with zeros behind it where the length grows; lengths never fall |
| HuffDerive.FillBounds | app/src/main/cpp/libjpeg-turbo/jdhuff.c:222-238 | largest code and symbol offset for each length, and the sentinel |
| HuffDerive.FillLookup | app/src/main/cpp/libjpeg-turbo/jdhuff.c:240-261 | every lookahead entry is the length and symbol of the code that covers it, or says that there is none of at most 8 bits |
| HuffDerive.CoversOnce | app/src/main/cpp/libjpeg-turbo/jdhuff.c:240-261 | at most one code covers a lookahead entry |
| HuffDerive.MakeDecoderTable | app/src/main/cpp/libjpeg-turbo/jdhuff.c:157-276 | succeeds exactly for valid tables, with bounds, offsets and lookahead as they should be |
| HuffWriter.BitWriter.EmitByte | app/src/main/cpp/libjpeg-turbo/jchuff.c:345-352 | a byte goes out, stuffed if it is 0xFF, and the bit stream written is unchanged |
| HuffWriter.BitWriter.PutBits | app/src/main/cpp/libjpeg-turbo/jchuff.c:354-357 | the bit stream written grows by exactly these bits |
| HuffWriter.BitWriter.EmitBits | app/src/main/cpp/libjpeg-turbo/jchuff.c:396-399 | the same; the number of bits left in the accumulator, at most 63, is exact |
| HuffWriter.BitWriter.EmitCode | app/src/main/cpp/libjpeg-turbo/jchuff.c:401-406 | a code and its extra bits; the number of bits left, at most 63, is exact |
| HuffWriter.FillExact | app/src/main/cpp/libjpeg-turbo/jchuff.c:466-486 | the seven fill bits push pending bits out of the accumulator exactly if these have a one above bit 56 |
| HuffWriter.RoomExact | app/src/main/cpp/libjpeg-turbo/jchuff.c:466-486 | that condition on the accumulator is one on the bits written: of those pending, the ones too many for the word are zero |
| HuffWriter.BitWriter.FlushBits | app/src/main/cpp/libjpeg-turbo/jchuff.c:466-486 | after a flush the bit stream is what was pending plus ones up to the byte boundary, exactly under that condition |
| HuffReader.LookaheadRefines | app/src/main/cpp/libjpeg-turbo/jdhuff.h:191-212 | the lookahead entry for the next 8 bits gives the same symbol and length as bit-by-bit decoding, or says to go on from 9 bits |
| HuffReader.DecodeCode | app/src/main/cpp/libjpeg-turbo/jdhuff.c:450-486 | a stream that starts with the code of a symbol decodes to it and uses up exactly the code |
| HuffReader.BitReader.FillBitBuffer | app/src/main/cpp/libjpeg-turbo/jdhuff.c:301-399 | filling the bit buffer does not change the stream still to be read; past a marker zeros are supplied and noted |
| HuffReader.BitReader.GetBits | app/src/main/cpp/libjpeg-turbo/jdhuff.h:159-166 | the next bits of the stream, which shrinks by them |
| HuffReader.BitReader.HuffDecodeSlow | app/src/main/cpp/libjpeg-turbo/jdhuff.c:450-486 | decodes the next symbol when started at any length not beyond its own |
| HuffReader.BitReader.HuffDecode | app/src/main/cpp/libjpeg-turbo/jdhuff.h:191-212 | returns the same symbol and uses the same bits as bit-by-bit decoding, for every table and stream |
| HuffReader.BitReader.HuffDecodeFast | app/src/main/cpp/libjpeg-turbo/jdhuff.h:214-232 | so does the fast form when no marker is met and the stream begins with a code; otherwise its result is the entry it reads after 17 bits |
| Restart.NextMarker | app/src/main/cpp/libjpeg-turbo/jdmarker.c:890-934 | whatever data is left, reading goes on to the next marker |
| Restart.ReadRestartMarker | app/src/main/cpp/libjpeg-turbo/jdmarker.c:1129-1156 | goes past the expected restart marker exactly if it is the next one |
| HuffReader.BitReader.ProcessRestart | app/src/main/cpp/libjpeg-turbo/jdhuff.c:526-557 | succeeds exactly if the expected restart marker is the next one, and then the stream is that of the data after it |
| Coefficients.ZigzagPath | app/src/main/cpp/libjpeg-turbo/jchuff.c:590-600 | the order of the coefficients is the zigzag: it goes through the diagonals one after the other, up on one and down on the next, and starts each on the edge where the last one ended |
| Coefficients.PointToZero | app/src/main/cpp/libjpeg-turbo/jcarith.c:486-495 | dropping low bits of an AC coefficient takes it to the next multiple of 2^Al toward zero |
| HuffBlock.NonzeroIs | app/src/main/cpp/libjpeg-turbo/jchuff.c:562-586 | a nonzero coefficient takes a symbol 0xF0 for every sixteen zeros before it, and one with the zeros left in its upper and the number of bits in its lower half, followed by these bits; negative ones less one |
| HuffBlock.AcIs | app/src/main/cpp/libjpeg-turbo/jchuff.c:562-606 | the AC coefficients in closed form: the next nonzero one with the zeros before it, and a zero symbol if zeros end the block |
| HuffBlock.ExtraExtend | app/src/main/cpp/libjpeg-turbo/jdhuff.c:498-504 | the extra bits extended give back the value, for every nonzero value |
| HuffBlock.ItemMeaning | app/src/main/cpp/libjpeg-turbo/jchuff.c:401-406 | a symbol with its extra bits is read back, and the rest of the stream is untouched |
| HuffBlock.BlockMeaning | app/src/main/cpp/libjpeg-turbo/jdhuff.c:585-654 | the bits of a block without an AC coefficient of -32768 are read back as that block and nothing else is used up, whatever follows |
| HuffBlock.BlockExact | app/src/main/cpp/libjpeg-turbo/jchuff.c:569-592 | a block that has codes for all its symbols is read back as it was if and only if no AC coefficient is -32768 |
| HuffBlock.MinimumItems | app/src/main/cpp/libjpeg-turbo/jchuff.c:569-592 | -32768 has category 16, which is carried into the run: the symbol says that no coefficient follows |
| HuffCoder.EncodeOneBlock | app/src/main/cpp/libjpeg-turbo/jchuff.c:508-614 | writes exactly the bits of the block; the number of bits left in the accumulator is exactly that which its codes lead to |
| HuffCoder.CountNonzero | app/src/main/cpp/libjpeg-turbo/jchuff.c:791-812 | counts exactly the symbols of a nonzero coefficient and the zeros before it; fails exactly if it is out of range |
| HuffCoder.HtestOneBlock | app/src/main/cpp/libjpeg-turbo/jchuff.c:756-821 | counts exactly the symbols that the block takes; fails exactly for a coefficient out of range |
| HuffCoder.DecodeDiff | app/src/main/cpp/libjpeg-turbo/jdhuff.c:581-587 | reads a DC difference as specified |
| HuffCoder.DecodeAc | app/src/main/cpp/libjpeg-turbo/jdhuff.c:606-627 | reads the AC coefficients as specified, runs past the block included |
| HuffCoder.DecodeBlock | app/src/main/cpp/libjpeg-turbo/jdhuff.c:560-658 | reads a block as specified |
| HuffScan.ScanMeaning | app/src/main/cpp/libjpeg-turbo/jchuff.c:646-710 | the bits of any sequence of blocks, over any tables and components, are read back as these blocks |
| HuffScan.SegmentRoundTrip | app/src/main/cpp/libjpeg-turbo/jdhuff.c:301-399 | the stuffed bytes of a segment that any marker follows are read back as its blocks, without running out of data, if and only if no AC coefficient is -32768 |
| HuffScan.IntervalBits | app/src/main/cpp/libjpeg-turbo/jchuff.c:626-639 | the bits of an interval in closed form: each DC coefficient as its difference from the last one of its component in the interval, or from 0 |
| HuffScan.EncodeSegment | app/src/main/cpp/libjpeg-turbo/jchuff.c:646-738 | the output is the bits of all blocks and then fill bits, if and only if the pending bits that the accumulator has no room for are zero; so always if what the last block ends with (the category of its last coefficient, or the EOB code) has at most 10 bits |
| HuffScan.DecodeSegment | app/src/main/cpp/libjpeg-turbo/jdhuff.c:560-658 | reads all blocks of a segment as specified |
| HuffFlush.WideLoses | app/src/main/cpp/libjpeg-turbo/jchuff.c:466-486 | a block and tables for which this fails: 59 bits are pending at the end and the first of them is a one |
| HuffFlush.EncodeWide | app/src/main/cpp/libjpeg-turbo/jchuff.c:466-614 | deriving those tables and writing that block: the output is not its bits and any number of fill bits |
| HuffRestart.EncodeScan | app/src/main/cpp/libjpeg-turbo/jchuff.c:621-738 | restart intervals come out one after the other, each from an empty accumulator, with restart markers numbered modulo 8 between them |
| HuffRestart.DecodeScan | app/src/main/cpp/libjpeg-turbo/jdhuff.c:526-557 | reads interval after interval as specified, and gives up exactly where the expected restart marker does not follow |
| Restart.MarkerAfter | app/src/main/cpp/libjpeg-turbo/jdmarker.c:890-934 | from anywhere in the data of a segment the marker found next is the one after the segment |
| Restart.MarkerBehind | app/src/main/cpp/libjpeg-turbo/jcarith.c:331-334 | behind segment i stands the restart marker 0xD0 + i mod 8 |
| RestartCounter.Counter.NextMcu | app/src/main/cpp/libjpeg-turbo/jcarith.c:376-386 | before an MCU there is a restart marker exactly if a positive number of full intervals has been coded, and its number is that number less one, modulo 8 |
| RestartCounter.Divide | app/src/main/cpp/libjpeg-turbo/jcarith.c:376-386 | the counters divide the MCUs of a scan into full intervals and a last one that is not empty, and number the markers between them from 0 on, modulo 8 |
| RestartCounter.McuInInterval | app/src/main/cpp/libjpeg-turbo/jdarith.c:258-263 | MCU j is number j mod n of interval j / n, so every encoder and decoder that counts in this way agrees about the intervals |
| HuffRestart.ScanRoundTrip | app/src/main/cpp/libjpeg-turbo/jdhuff.c:526-658 | the bytes of a scan with any number of restart intervals, followed by any marker, are decoded to exactly the blocks of the scan, if and only if no AC coefficient is -32768 |
| HuffMerge.FindSmallest | app/src/main/cpp/libjpeg-turbo/jchuff.c:917-937 | the least frequency still in use, and of equal ones the last |
| HuffMerge.Lengthen | app/src/main/cpp/libjpeg-turbo/jchuff.c:947-961 | every symbol of a tree gets one bit more, no other does, and the end of its chain is found |
| HuffMerge.SpaceMerged | app/src/main/cpp/libjpeg-turbo/jchuff.c:943-961 | the code space of a merged tree is half the sum of the two |
| HuffMerge.ForestMerged | app/src/main/cpp/libjpeg-turbo/jchuff.c:943-961 | merging keeps the chains, the code space of each tree, and the total frequency |
| HuffMerge.GrownMerged | app/src/main/cpp/libjpeg-turbo/jchuff.c:917-961 | a tree of depth d weighs at least the Fibonacci number of d + 2 |
| HuffMerge.MergeTrees | app/src/main/cpp/libjpeg-turbo/jchuff.c:943-961 | one merge step, chains and all |
| HuffMerge.BuildTree | app/src/main/cpp/libjpeg-turbo/jchuff.c:901-962 | the merge loop ends with the code lengths that merging by these rules leads to, for exactly the used symbols; their code space is exactly 1, and no length exceeds what the total count allows |
| HuffOrder.LengthsOrdered | app/src/main/cpp/libjpeg-turbo/jchuff.c:911-958 | a symbol that occurs more often has no longer a code, and of equally frequent ones the larger has no shorter one |
| HuffOrder.ReservedLongest | app/src/main/cpp/libjpeg-turbo/jchuff.c:903-907 | the reserved symbol has one of the longest codes |
| HuffMinimal.LengthsMinimal | app/src/main/cpp/libjpeg-turbo/jchuff.c:909-959 | the lengths are optimal: no prefix code for the symbols that occur, and the reserved one, takes fewer bits in total |
| HuffMinimal.LengthsPrefix | app/src/main/cpp/libjpeg-turbo/jchuff.c:909-959 | a complete code satisfies the inequality by which prefix codes are compared |
| HuffEqual.EqualCounts | app/src/main/cpp/libjpeg-turbo/jchuff.c:911-962 | 256 symbols that occur equally often, the reserved one among them as the lightest, all get length 8; if one more symbol outweighs them all, it gets length 1 and they get length 9 |
| HuffLimit.CountLengths | app/src/main/cpp/libjpeg-turbo/jchuff.c:964-974 | counts the lengths, in bytes; fails exactly for a length over 32 |
| HuffLimit.ManyOfOne | app/src/main/cpp/libjpeg-turbo/jchuff.c:964-974 | among at most 257 codes that fill the code space, 256 share a length only if that is 8 and there are no others, or 9 and there is one other, of length 1 |
| HuffOptimal.CountsRight | app/src/main/cpp/libjpeg-turbo/jchuff.c:964-974 | the byte counts are the true counts if and only if no length is shared by 256 codes, which takes 255 or 256 used symbols |
| HuffOptimal.CountWraps | app/src/main/cpp/libjpeg-turbo/jchuff.c:911-974 | 255 equally frequent symbols, however often they occur, lead there, and so do 255 such symbols and one that outweighs them: no count but perhaps that of length 1 is left |
| HuffLimit.ShortenedKeeps | app/src/main/cpp/libjpeg-turbo/jchuff.c:989-996 | a shortening step keeps the number of symbols and the code space |
| HuffLimit.Pairs | app/src/main/cpp/libjpeg-turbo/jchuff.c:987-996 | the symbols at the longest length come in pairs, and the search for a shorter prefix finds one |
| HuffLimit.LimitLengths | app/src/main/cpp/libjpeg-turbo/jchuff.c:987-998 | ends with no length over 16, the same number of symbols, the code space still exactly 1 and every count within a byte; without long codes it changes nothing |
| HuffLimit.RemoveReserved | app/src/main/cpp/libjpeg-turbo/jchuff.c:1000-1003 | removing the reserved code point leaves one code fewer and no code all ones; if no length is in use the search finds none |
| HuffLimit.SortSymbols | app/src/main/cpp/libjpeg-turbo/jchuff.c:1008-1021 | lists every symbol with a code once, by length and then by value |
| HuffSizes.SizeIs | app/src/main/cpp/libjpeg-turbo/jchuff.c:1005-1021 | in a derived table a symbol has the length that its place in the list has |
| HuffSizes.FrequencyOrder | app/src/main/cpp/libjpeg-turbo/jchuff.c:1008-1021 | a symbol that occurs more often has no longer a code in the table, if and only if the limit of sixteen bits does not divide symbols of one length so that a rarer one with a smaller value comes first |
| HuffSizes.ShortLengths | app/src/main/cpp/libjpeg-turbo/jchuff.c:1005-1021 | where no length is over sixteen bits, every symbol has in the table the length that the algorithm found, and a symbol that occurs more often has no longer a code |
| HuffSizes.OwnCheapest | app/src/main/cpp/libjpeg-turbo/jchuff.c:862-886 | with these lengths no prefix code takes fewer bits in total |
| HuffDivided.LongerForFrequent | app/src/main/cpp/libjpeg-turbo/jchuff.c:1008-1021 | counts for which a symbol that occurs six times gets sixteen bits and one that occurs four times gets fifteen |
| HuffOptimal.GenOptimalTable | app/src/main/cpp/libjpeg-turbo/jchuff.c:890-1025 | for 1 to 256 used symbols and counts of at most 10^9: the result is a table that passes the encoder's check and has a code for exactly the used symbols, if and only if no initial length is over 32 and none is shared by 256 codes; the error for a code that is too long comes exactly for a length over 32; every encoder table made from it has a longer code for a symbol that occurs more often only where lengths were limited, and is the best possible where none was |
| HuffOptimized.GatherSegment | app/src/main/cpp/libjpeg-turbo/jchuff.c:829-858 | the statistics pass counts, for each table, exactly the symbols that the output pass writes |
| HuffOptimized.TallyCounts | app/src/main/cpp/libjpeg-turbo/jchuff.c:756-821 | every symbol of the output pass has a nonzero count |
| HuffOptimized.TallyOnly | app/src/main/cpp/libjpeg-turbo/jchuff.c:756-821 | no other symbol has one |
| HuffOptimized.TallySum | app/src/main/cpp/libjpeg-turbo/jchuff.c:756-821 | the counts add up to the number of symbols |
| HuffOptimized.CountsSuitable | app/src/main/cpp/libjpeg-turbo/jchuff.c:646-710 | the counts of any blocks with at most 10^9 symbols meet what table generation needs: at most 254 symbols, DC symbols below 16 |
| HuffOptimized.TableCodes | app/src/main/cpp/libjpeg-turbo/jchuff.c:1005-1021 | a table made for the counted symbols is valid for the encoder, a DC table too, and codes whatever was counted |
| HuffOptimized.CountedCodable | app/src/main/cpp/libjpeg-turbo/jchuff.c:646-710 | with the generated tables every symbol of the output pass has a code |
| HuffTwoPass.ScanCovers | app/src/main/cpp/libjpeg-turbo/jchuff.c:829-858 | counts of all restart intervals together cover the symbols of each |
| HuffTwoPass.GatherScan | app/src/main/cpp/libjpeg-turbo/jchuff.c:829-858 | over all restart intervals the counts are those of all symbols; fails exactly for a coefficient out of range |
| HuffTwoPass.BuildOnce | app/src/main/cpp/libjpeg-turbo/jchuff.c:1047-1066 | a table is built once from the counts, although building it destroys them |
| HuffTwoPass.FinishGather | app/src/main/cpp/libjpeg-turbo/jchuff.c:1032-1067 | the tables of all components are built from the counts; fails exactly if some component's table has a length over 32 |
| HuffTwoPass.DeriveTables | app/src/main/cpp/libjpeg-turbo/jchuff.c:188-194 | the encoder's tables are derived from the generated ones without an error |
| HuffTwoPass.TwoPass | app/src/main/cpp/libjpeg-turbo/jchuff.c:646-1067 | counting all restart intervals, building and deriving the tables, writing with them and decoding: it fails only for a coefficient out of range or a code over 32 bits; otherwise every symbol has a code, and the blocks come back unless the end of an interval loses bits |
| ProgItems.EobIs | app/src/main/cpp/libjpeg-turbo/jcphuff.c:419-428 | the end of a run of blocks is the symbol 16 n, where 2^n is the largest power in the run, and n bits for what is over it |
| ProgItems.NothingBehind | app/src/main/cpp/libjpeg-turbo/jcphuff.c:868-879 | behind the last new coefficient of a block no symbol is written, not even for sixteen zeros |
| ProgItems.OneEnd | app/src/main/cpp/libjpeg-turbo/jcphuff.c:985-994 | fewer than 0x7FFF blocks without new coefficients, with at most 937 correction bits together, take a single symbol |
| ProgMeaning.SymbolReads | app/src/main/cpp/libjpeg-turbo/jcphuff.c:888-911 | a symbol with a new coefficient and the correction bits after it is read back at the coefficients that it covers |
| ProgMeaning.ZrlReads | app/src/main/cpp/libjpeg-turbo/jcphuff.c:869-879 | a run of sixteen zeros is read back with the correction bits of the coefficients among them |
| ProgMeaning.CodeReads | app/src/main/cpp/libjpeg-turbo/jcphuff.c:861-914 | all symbols of a block are read back; after the last, nothing new is left |
| ProgMeaning.EobReads | app/src/main/cpp/libjpeg-turbo/jcphuff.c:414-436 | the end of a run of finished blocks, with the rest of the correction bits, is read back |
| ProgMeaning.BlockReads | app/src/main/cpp/libjpeg-turbo/jcphuff.c:652-735 | a block is read back with the run of finished blocks that it begins |
| ProgMeaning.EncodeReads | app/src/main/cpp/libjpeg-turbo/jcphuff.c:414-436 | however many blocks are pending, what is written is one end for them and those that join, with all their correction bits in block order, and it is read back |
| ProgMeaning.IntervalRoundTrip | app/src/main/cpp/libjpeg-turbo/jcphuff.c:916-1010 | for any blocks and anything known of them, the symbols and bits of a restart interval are read back as these blocks, and what follows is untouched |
| ProgEncoder.MaskShift | app/src/main/cpp/libjpeg-turbo/jcphuff.c:863-866 | shifting the mask down by n leaves the mask of the coefficients from n on |
| ProgEncoder.CountZeroes | app/src/main/cpp/libjpeg-turbo/jcphuff.c:169-190 | finds the next nonzero coefficient and shifts the mask to it |
| ProgEncoder.AcFirstPrepare | app/src/main/cpp/libjpeg-turbo/jcphuff.c:584-613 | magnitudes and output bits as stored in 16 bits, and the mask of the nonzero coefficients of the band |
| ProgEncoder.AcRefinePrepare | app/src/main/cpp/libjpeg-turbo/jcphuff.c:815-854 | magnitudes as stored in 16 bits, both masks and the position of the last newly nonzero coefficient |
| ProgEncoder.Encoder.EmitSymbol | app/src/main/cpp/libjpeg-turbo/jcphuff.c:379-388 | writes a symbol, or counts it in a statistics pass |
| ProgEncoder.Encoder.EmitBufferedBits | app/src/main/cpp/libjpeg-turbo/jcphuff.c:395-407 | writes these correction bits; a statistics pass counts nothing |
| ProgEncoder.Encoder.EmitEobrun | app/src/main/cpp/libjpeg-turbo/jcphuff.c:414-436 | writes the end of the pending blocks and their correction bits; the run always fits its symbol |
| ProgEncoder.Encoder.EndOfBlock | app/src/main/cpp/libjpeg-turbo/jcphuff.c:981-993 | one more block has ended: the run stays below 0x7FFF and the buffer below its limit, so that the next block fits |
| ProgEncoder.Encoder.EncodeMcuAcFirst | app/src/main/cpp/libjpeg-turbo/jcphuff.c:652-735 | writes what the first scan of a block should, and fails exactly for a coefficient out of range |
| ProgEncoder.Encoder.HoldBit | app/src/main/cpp/libjpeg-turbo/jcphuff.c:889-894 | a correction bit is held back right after those of the pending blocks, within the buffer |
| ProgEncoder.Encoder.AddNew | app/src/main/cpp/libjpeg-turbo/jcphuff.c:896-911 | a newly nonzero coefficient: end of the pending blocks, symbol, sign, then the bits held back |
| ProgEncoder.Encoder.EncodeMcuAcRefine | app/src/main/cpp/libjpeg-turbo/jcphuff.c:916-1010 | writes the refinement of a block, with -32768 taken for a new coefficient if no bit is dropped; fails exactly if that leads to a symbol beyond the table |
| ProgEncoder.Encoder.EncodeInterval | app/src/main/cpp/libjpeg-turbo/jcphuff.c:1017-1031 | over any run of blocks and the flush at its end, exactly these symbols and bits; in a statistics pass their counts |
| ProgStored.BlockAsSpecified | app/src/main/cpp/libjpeg-turbo/jcphuff.c:770-914 | a block of a refinement scan is coded as it should be if and only if no coefficient of its band is -32768 |
| ProgStored.IntervalAsSpecified | app/src/main/cpp/libjpeg-turbo/jcphuff.c:916-1031 | so is a restart interval, whatever is pending between its blocks |
| ProgStored.MinimumMiscoded | app/src/main/cpp/libjpeg-turbo/jcphuff.c:770-914 | -32768 in a scan with Al = 0 is written as newly nonzero and negative, and should have been one correction bit |
| ProgStored.MinimumBeyondTable | app/src/main/cpp/libjpeg-turbo/jcphuff.c:896-900 | after sixteen zeros the symbol written for it is in no table |
| ProgEncoder.RefinementCorrect | app/src/main/cpp/libjpeg-turbo/jcphuff.c:916-1031 | a refinement scan writes a restart interval as it should if and only if Al is at least 1 or no coefficient of the band is -32768 |
| ProgEncoder.IntervalMeaning | app/src/main/cpp/libjpeg-turbo/jcphuff.c:652-1010 | what is written is read back as the blocks, refined if they were known before: in first scans whenever they succeed, in refinement scans under that condition |
| ProgWriter.Writer.EmitBits | app/src/main/cpp/libjpeg-turbo/jcphuff.c:327-364 | the bit stream written grows by exactly the low bits of the code, stuffed, with at most seven bits left behind |
| ProgWriter.Writer.FlushBits | app/src/main/cpp/libjpeg-turbo/jcphuff.c:366-372 | the last byte is completed with ones; no pending bit is ever lost |
| ProgWriter.Writer.EmitItem | app/src/main/cpp/libjpeg-turbo/jcphuff.c:379-388 | writes a symbol or raw bits; fails exactly for a symbol without a code |
| ProgBits.DecodeAsBits | app/src/main/cpp/libjpeg-turbo/jcphuff.c:379-436 | reading bit by bit with any table does what reading symbols and raw bits does |
| ProgTwoPass.CountsSuitable | app/src/main/cpp/libjpeg-turbo/jcphuff.c:379-388 | the counts of an AC scan meet what table generation needs |
| ProgTwoPass.CountScan | app/src/main/cpp/libjpeg-turbo/jcphuff.c:1038-1049 | the statistics pass over all restart intervals leaves the counts of exactly the symbols that will be written |
| ProgTwoPass.WriteScan | app/src/main/cpp/libjpeg-turbo/jcphuff.c:444-465 | the output pass: the bytes of every interval are its bits and fill bits |
| ProgTwoPass.TwoPass | app/src/main/cpp/libjpeg-turbo/jcphuff.c:652-1078 | counting, building the table and writing an AC scan: it fails exactly for a band that cannot be coded or a code over 32 bits, and otherwise every symbol has a code |
| ProgTwoPass.SegmentMeaning | app/src/main/cpp/libjpeg-turbo/jcphuff.c:652-1031 | the bytes of a restart interval, followed by any marker, are read back as its bands |
| ProgTwoPass.ScanRoundTrip | app/src/main/cpp/libjpeg-turbo/jcphuff.c:444-465 | so are those of a scan with any number of restart intervals and restart markers between them |
| ContextRows.RowGroupsAgree | app/src/main/cpp/libjpeg-turbo/jdmainct.c:229-237 | every component has the same number of row groups, whatever its sampling factor |
| ContextRows.SlotSwitch | app/src/main/cpp/libjpeg-turbo/jdmainct.c:194-198 | in the other list the last two row groups of an iMCU row become the rows above the next one |
| ContextRows.SlotInjective | app/src/main/cpp/libjpeg-turbo/jdmainct.c:169-209 | different positions of one list are different rows of the workspace |
| ContextRows.SlotWraps | app/src/main/cpp/libjpeg-turbo/jdmainct.h:46-71 | past its end each list starts again |
| ContextRows.NearestRows | app/src/main/cpp/libjpeg-turbo/jdmainct.c:330-396 | the rows just above and just below a row group are the true neighbours, clamped to the image |
| ContextRows.WholeContext | app/src/main/cpp/libjpeg-turbo/jdmainct.c:330-396 | a full row group of true neighbours on both sides is what a row group is handed over with, if and only if it is not the one before a last iMCU row that is shorter than a row group; that one is handed over with rows from below the image |
| ContextRows.ShortLastRow | app/src/main/cpp/libjpeg-turbo/jdmainct.c:330-396 | an image for which it is not: five rows, two to a row group and four to an iMCU row; the second row group is handed over with row 5, which does not exist, where row 4 should be repeated |
| ContextRows.MiddleRight | app/src/main/cpp/libjpeg-turbo/jdmainct.c:375-383 | row groups inside an iMCU row are seen with the right rows around them |
| ContextRows.BottomRight | app/src/main/cpp/libjpeg-turbo/jdmainct.c:212-246 | so are those of the last iMCU row |
| ContextRows.PostponedRight | app/src/main/cpp/libjpeg-turbo/jdmainct.c:351-362 | so is the last row group of the previous iMCU row, once the next has come |
| ContextRows.BeforeReceiving | app/src/main/cpp/libjpeg-turbo/jdmainct.c:336-343 | the next iMCU row overwrites nothing that is still needed |
| ContextRows.AfterProcessing | app/src/main/cpp/libjpeg-turbo/jdmainct.c:384-394 | switching lists leads to a state from which the run goes on |
| ContextRows.MainController.MakeFunnyPointers | app/src/main/cpp/libjpeg-turbo/jdmainct.c:169-209 | the two lists as they should be at the top of the image |
| ContextRows.MainController.SetWraparoundPointers | app/src/main/cpp/libjpeg-turbo/jdmainct.h:46-71 | both lists wrap around |
| ContextRows.MainController.SetBottomPointers | app/src/main/cpp/libjpeg-turbo/jdmainct.c:212-246 | the last real row is repeated below the image and the real row groups are counted |
| ContextRows.MainController.DecompressData | app/src/main/cpp/libjpeg-turbo/jdmainct.c:336-343 | the rows of the image in an iMCU row, stored through one list, leave the last two row groups of the one before it in place; below the last block row nothing is written |
| ContextRows.MainController.PostProcessData | app/src/main/cpp/libjpeg-turbo/jdmainct.c:375-383 | hands over row groups in order, as many as are taken |
| ContextRows.MainController.ProcessData | app/src/main/cpp/libjpeg-turbo/jdmainct.c:330-396 | whatever the pattern of suspension and partial output: row groups are processed in image order, each once, each with the right rows around it; a call that is not held up finishes its iMCU row |
| PrepContext.RowsStored | app/src/main/cpp/libjpeg-turbo/jcprepct.c:207-227 | rows read into the buffer stand where the next row groups expect them |
| PrepContext.RowsRepeated | app/src/main/cpp/libjpeg-turbo/jcprepct.c:228-240 | below the image the last row is repeated |
| PrepContext.HoldsNext | app/src/main/cpp/libjpeg-turbo/jcprepct.c:241-253 | turning to the next row group leaves the rows above it in place |
| PrepContext.ViewRight | app/src/main/cpp/libjpeg-turbo/jcprepct.c:263-302 | seen through addresses that wrap around, every row group has the nearest image rows around it |
| PrepContext.PrepController.CreateContextBuffer | app/src/main/cpp/libjpeg-turbo/jcprepct.c:263-302 | the list of row addresses wraps around at both ends of the buffer |
| PrepContext.PrepController.PadTop | app/src/main/cpp/libjpeg-turbo/jcprepct.c:215-223 | the rows above the image are copies of its first row |
| PrepContext.PrepController.PadBottom | app/src/main/cpp/libjpeg-turbo/jcprepct.c:229-239 | the rows below the image are copies of its last row |
| PrepContext.PrepController.PreProcessContext | app/src/main/cpp/libjpeg-turbo/jcprepct.c:194-256 | however the input is split: the k-th row group downsampled is seen with row clamp(k * v + r) at every offset r from -v to 2v - 1; a call stops only for want of input or of room |
| McuLayout.SizesCover | app/src/main/cpp/libjpeg-turbo/jcmaster.c:138-172 | the sizes computed from those of the image fit: MCUs cover every component and none is empty |
| McuLayout.BlockDelivered | app/src/main/cpp/libjpeg-turbo/jcmaster.c:355-429 | every block of every component of a scan is in the MCU and at the place there that its position determines |
| McuLayout.DummyLikeBefore | app/src/main/cpp/libjpeg-turbo/jccoefct.c:158-196 | a block beyond the edges of the image has zero AC coefficients and the DC coefficient of the block before it in the MCU |
| McuLayout.PlacesDiffer | app/src/main/cpp/libjpeg-turbo/jcmaster.c:355-429 | no two blocks share a place |
| McuLayout.RealRow | app/src/main/cpp/libjpeg-turbo/jccoefct.c:173-174 | the test for block rows below the image is right |
| McuLayout.RealColumns | app/src/main/cpp/libjpeg-turbo/jcmaster.c:414-419 | the number of block columns of an MCU inside the image is what the scan setup computes |
| McuLayout.RowInScan | app/src/main/cpp/libjpeg-turbo/jccoefct.c:69-90 | the MCU rows of the iMCU rows are those of the scan, interleaved or not |
| McuLayout.CountMcuRows | app/src/main/cpp/libjpeg-turbo/jccoefct.c:68-91 | the number of MCU rows in each iMCU row, the last one included |
| McuLayout.PassEnds | app/src/main/cpp/libjpeg-turbo/jccoefct.c:140-218 | a pass comes to its end if as many of its calls as there are MCUs find room for one or more, and not before there was room for all MCUs |
| McuSinglePass.CoefController.PutRealRow | app/src/main/cpp/libjpeg-turbo/jccoefct.c:175-187 | a block row of the image, and blocks that repeat its last DC |
| McuSinglePass.CoefController.PutDummyRow | app/src/main/cpp/libjpeg-turbo/jccoefct.c:188-196 | a block row below the image, with the DC of the last block before it |
| McuSinglePass.CoefController.BuildMcu | app/src/main/cpp/libjpeg-turbo/jccoefct.c:153-200 | the MCU is as specified: real blocks, and dummy blocks with the DC of the last real block |
| McuSinglePass.CoefController.CompressData | app/src/main/cpp/libjpeg-turbo/jccoefct.c:140-218 | hands over the MCUs of an iMCU row in order, each accepted once, from where a suspension left off |
| McuSinglePass.CoefController.RunPass | app/src/main/cpp/libjpeg-turbo/jccoefct.c:140-218 | over any pattern of suspension the MCUs accepted are the scan's in order, exactly as many as the rooms of the calls lead to, and at the end all of them |
| McuFullBuffer.PaddedReal | app/src/main/cpp/libjpeg-turbo/jccoefct.c:281-299 | a padded block row is the image row, and then blocks with its last DC |
| McuFullBuffer.BufferBlocks | app/src/main/cpp/libjpeg-turbo/jccoefct.c:368-380 | what an MCU takes from the buffer is what it should hold, in scans of one component too |
| McuFullBuffer.FullBufferController.LoadStrip | app/src/main/cpp/libjpeg-turbo/jccoefct.c:256-317 | an iMCU row of a component, padded at the right and at the bottom |
| McuFullBuffer.FullBufferController.CollectMcu | app/src/main/cpp/libjpeg-turbo/jccoefct.c:368-380 | the MCU taken from the buffer is as specified |
| McuFullBuffer.FullBufferController.CompressOutput | app/src/main/cpp/libjpeg-turbo/jccoefct.c:340-395 | hands over the MCUs of an iMCU row in order, each accepted once, from where a suspension left off |
| McuFullBuffer.FullBufferController.CompressFirstPass | app/src/main/cpp/libjpeg-turbo/jccoefct.c:244-327 | loads an iMCU row, once more after a suspension, and hands it over |
| McuFullBuffer.FullBufferController.RunFirstPass | app/src/main/cpp/libjpeg-turbo/jccoefct.c:244-327 | the first pass hands over the same MCUs as a single pass would, and leaves the buffer loaded |
| McuFullBuffer.FullBufferController.RunPass | app/src/main/cpp/libjpeg-turbo/jccoefct.c:340-395 | so does every later pass, for any scan |
| McuTranscode.AddDummy | app/src/main/cpp/libjpeg-turbo/jctrans.c:342-346 | writing the DC of the MCU's own dummy block disturbs none of the entries before it |
| McuTranscode.TransController.FillRow | app/src/main/cpp/libjpeg-turbo/jctrans.c:325-346 | a row of references to real blocks, and then to dummy blocks that repeat the DC before them |
| McuTranscode.TransController.BuildMcu | app/src/main/cpp/libjpeg-turbo/jctrans.c:317-349 | what the entropy coder finds behind the references is the MCU as specified |
| McuTranscode.TransController.CompressOutput | app/src/main/cpp/libjpeg-turbo/jctrans.c:289-363 | hands over the MCUs of an iMCU row in order, each accepted once |
| McuTranscode.TransController.RunPass | app/src/main/cpp/libjpeg-turbo/jctrans.c:289-363 | the transcoder hands over the same MCUs as the other two |
| McuBuilders.RunAll | app/src/main/cpp/libjpeg-turbo/jccoefct.c:140-395 | single pass, whole-image buffer and transcoder, each suspended in its own way: those that finish have handed the entropy coder the same MCUs, and each finishes if as many calls as there are MCUs find room |
| PassControl.ScriptStarts | app/src/main/cpp/libjpeg-turbo/jcmaster.c:247-258 | an accepted script starts with a first scan, so that a statistics pass for a refinement scan is never the main pass |
| PassControl.AllRight | app/src/main/cpp/libjpeg-turbo/jcmaster.c:474-499 | judged by the log alone: every scan is written once and in order; when optimizing, every scan that writes Huffman symbols, which is all but refinements of DC, is counted before it is written, and no other scan is, nor one twice; each scan comes right after its header and the frame header once before all; the first pass alone reads the image, and saves it if and only if there is another |
| PassControl.Master.PrepareForPass | app/src/main/cpp/libjpeg-turbo/jcmaster.c:448-523 | every pass is set up for the scan and the step that are due; refinement scans of DC skip their statistics pass |
| PassControl.Master.PassStartup | app/src/main/cpp/libjpeg-turbo/jcmaster.c:536-543 | the headers of the first scan are written before the first data |
| PassControl.Master.FinishPass | app/src/main/cpp/libjpeg-turbo/jcmaster.c:550-583 | counters and pass type go on to what is due next |
| PassControl.Master.Compress | app/src/main/cpp/libjpeg-turbo/jcapimin.c:161-190 | for any number of scans, optimized or not, transcoding or not: every scan is written once, in order, right after its statistics pass if it has one, the frame header comes once and first, and exactly the announced number of passes is made; and the log is right by itself, as PassControl.AllRight says |
| Quantizer.ReciprocalExact | app/src/main/cpp/libjpeg-turbo/jcdctmgr.c:172-221 | for every word size w, divisor below 2^w and magnitude below 2^(w-1): multiply and shift gives the rounded quotient, and the product fits 2w bits |
| Quantizer.RoundingError | app/src/main/cpp/libjpeg-turbo/jcdctmgr.c:407-438 | the rounded quotient is off by at most half a divisor |
| Quantizer.Flss | app/src/main/cpp/libjpeg-turbo/jcdctmgr.c:82-110 | the position of the highest set bit |
| Quantizer.ComputeReciprocal | app/src/main/cpp/libjpeg-turbo/jcdctmgr.c:172-221 | stores reciprocal, correction, scale (cut off at 16 bits) and shift of a divisor, and nothing else; returns whether dividing by two multiplications that keep the upper word is exact for every magnitude |
| Quantizer.VectorExact | app/src/main/cpp/libjpeg-turbo/jcdctmgr.c:157-168 | that is so if and only if the divisor is neither 1 nor 2 |
| Quantizer.QuantizedExact | app/src/main/cpp/libjpeg-turbo/jcdctmgr.c:407-438 | in 16- and 32-bit arithmetic the result is the rounded quotient with the sign of the input if and only if the input is not -32768, or the divisor is 1, or one that is no power of two, not 65534, and goes into 65536 one time less than the power of two below it does |
| Quantizer.MinimumMisquantized | app/src/main/cpp/libjpeg-turbo/jcdctmgr.c:407-438 | -32768 divided by 8 gives -12288 |
| Quantizer.DivisorRight | app/src/main/cpp/libjpeg-turbo/jcdctmgr.c:268 | the divisor is eight times the quantization value exactly if that is below 8192, and zero exactly if it is a multiple of 8192 |
| Quantizer.StartPass | app/src/main/cpp/libjpeg-turbo/jcdctmgr.c:256-276 | enters the reciprocals of a quantization table for the accurate integer DCT, unless it has to divide by zero, which it does exactly for a multiple of 8192; vector code may be used whenever it does not |
| Quantizer.Quantize | app/src/main/cpp/libjpeg-turbo/jcdctmgr.c:407-438 | every coefficient of the block is what that arithmetic gives, and its input divided by its divisor, rounded, with the sign of the input, under exactly the condition above |
| IccProfile.WriteIccProfile | app/src/main/cpp/libjpeg-turbo/jcicc.c:48-105 | cuts the profile into numbered markers of at most 65519 bytes; fails exactly for an empty one |
| IccProfile.WrittenBytes | app/src/main/cpp/libjpeg-turbo/jcicc.c:76-102 | the bytes of a marker: the identifying string, its number from 1 on, the number of markers, and its part of the profile |
| IccProfile.FirstPass | app/src/main/cpp/libjpeg-turbo/jdicc.c:95-125 | succeeds exactly if all markers agree on their number and no sequence number is out of range or repeated |
| IccProfile.PlacePieces | app/src/main/cpp/libjpeg-turbo/jdicc.c:127-144 | succeeds exactly if every sequence number is there and the profile is not empty; the offsets are the sums of the lengths before |
| IccProfile.CopyPiece | app/src/main/cpp/libjpeg-turbo/jdicc.c:151-165 | copies a piece to its place and changes nothing else |
| IccProfile.ReadIccProfile | app/src/main/cpp/libjpeg-turbo/jdicc.c:73-171 | succeeds exactly for readable marker lists, with the pieces in order of sequence number, whatever other markers there are |
| IccProfile.IccRoundTrip | app/src/main/cpp/libjpeg-turbo/jdicc.c:73-171 | the markers of a profile, in any order and among any others, are readable exactly if the profile has at most 255 * 65519 bytes, and then give it back byte for byte |
| IccProfile.LongProfileRefused | app/src/main/cpp/libjpeg-turbo/jcicc.c:48-105 | a profile of one byte more is written and cannot be read |

## Left out

- Warnings, traces, progress hooks and the error manager: an error exit is a failure result or the end of a run.
- Memory management: pools, and the paging of virtual arrays (the strips of `McuFullBuffer` are values).
- Destination buffers and their suspension in the Huffman encoders, among them the local output buffer of `encode_mcu_huff` and `dump_buffer`.
- Resynchronisation after a damaged restart marker (`jpeg_resync_to_restart`): decoding gives up there.
- The MCU loop of `decode_mcu_fast` (jdhuff.c:661-745) and its choice between fast and slow; the fast symbol decoder it uses is modelled.
- Skipping of coefficients that an application does not need (`dc_needed`, `ac_needed`).
- DC scans of progressive Huffman coding: simpler than the sequential form that is modelled.
- The loops of the progressive Huffman decoder (jdphuff.c is not part of this model): `ProgItems.Decode` and `ProgBits.DecodeBits` follow section G.2 of ITU-T T.81 as functions.
- Several components in the row controllers: one component of any height and sampling factor is modelled; `ContextRows.RowGroupsAgree` says why the others keep step.
- DCT, colour conversion, downsampling and the postprocessor: blocks and rows come from them as given values.
- HuffOptimal.GenOptimalTable: does not cover a total count of more than 10^9, beyond which its search for the least frequency passes over symbols; `HuffTwoPass.TwoPass` and `ProgTwoPass.TwoPass` assume that no table has more symbols to count.
- What `jpeg_gen_optimal_table` reads below its counters when it finds no length in use: the model stops there (`NoLength`).
- The bits of `put_buffer` above the right 24 in jcphuff.c, which are never used.
- Quantizer.ComputeReciprocal: does not model the division by zero for divisor 0; `Quantizer.StartPass` stops before it.
- The scaled divisors of the fast integer DCT and the floating-point quantizer.
- HuffReader.BitReader.HuffDecodeFast: does not say what is read once a marker has been met, since the block is then decoded again by the slow form.
- PassControl.Master.StartOutput: does not model the contents of the headers that it logs.
- Marker parsing and writing beyond ICC, colour tables, cropping, and the JNI, EGL, thread and VNC code of the application.
- `VncServer::compare` and `BufferManager` of the application: no property of theirs is claimed here.
