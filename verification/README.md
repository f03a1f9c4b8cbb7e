# The libjpeg-turbo codecs, modelled and proved

This project models the entropy coders of the libjpeg-turbo copy under `android/extern/libjpeg-turbo`, and the parts
around them that make their results meaningful: the marker segments, the scan scripts, the pass machine of the
compressor, the quantizer, and the main buffer of the decompressor.  The model is that of the plain C code for 8-bit samples and 64-bit words.

Code that changes state is a class or a loop here too; each method is proved against a function on values, and the
theorems are about whole segments, scans and images.

- **Arithmetic coder** (Annex D of ITU-T T.81).  `ArithCode` is the coder on unbounded numbers: intervals, code values,
  estimation.  `ArithEncoder` and `ArithDecoder` have the registers of the C code (delayed carry, stacked 0xFF bytes,
  pending zeros; a floating register layout) and refine it.  `ArithMcu*` is the coding of coefficients,
  `ArithScan` and `ArithRestart` the round trips; `ArithLaws` says decision by decision what each value becomes.
- **Huffman tables** (Annexes C and K.2).  `HuffOptimal` proves Huffman's bound over all prefix codes, `HuffBuild` the
  merge loop in place, `HuffLimit` the limit of 16 bits, `HuffTable` and `HuffDecode` the derived tables, `HuffGen` the
  whole generator, `HuffBest` what the generated table is worth.
- **Sequential Huffman coding.**  `BitWriter` and `BitReader` are the buffers, `HuffBlock`, `HuffEncoder` and `HuffDecoder`
  the blocks, `HuffScan*` the MCUs with restart markers, `HuffTranscode` the round trip, `HuffStats` and `HuffTwoPass` the
  statistics pass; `HuffLaws` and `DcLaws` say what the coded data looks like.
- **Progressive coding** (Annex G).  `ProgRefine`, `ProgFirst` and `ProgRun` say what AC scans emit and how that decodes,
  with EOB runs across blocks; `ProgEncoder` and `ProgDecoder` are the coders; `ProgScan` and `ProgDcScan` are the scans with
  restart markers, `ProgSuspend` a scan with its input cut anywhere, `ProgTwoPass` and `ProgDcTwoPass` the statistics passes.
  `ProgLaws` says how EOB runs and zero runs are written.  `ProgScript` is the validator of scan scripts, `ProgSimple` the
  recommended script, `ScriptLaws` what both mean by looking back at the scans before, `ProgImage` the composition of
  scans, `ProgCompress` the compression of an image.
- **Markers** (section B.2 of ITU-T T.81).  `MarkerProg` says what each parser does with its input byte by byte,
  `MarkerStream` what reading markers leads to; `MarkerReader` parses in place and suspends, `MarkerSegments` has the
  segments and their round trips, `MarkerWriter` writes headers, `MarkerTranscode` reads them back, over all scans of a file, and
  `MarkerLayout` says where the fields are; `MarkerLimits` has headers that do not come back.
- **Other protocols.**  `PassMachine` (passes of the compressor), `PassTables` (statistics and the tables that need them), `Quantizer` (reciprocal division), `ContextRows` (main
  buffer with context rows).

`dafny verify dfyconfig.toml` checks everything.

## Model

| member | source | states |
|---|---|---|
| ArithScan.TranscodeDecisions | android/extern/libjpeg-turbo/jcarith.c:138-317 | for every sequence of decisions, encoding, finishing and decoding before any marker gives back every bit, and leaves all statistics bins equal on both sides |
| ArithScan.EncodeDecisions | android/extern/libjpeg-turbo/jcarith.c:138-317 | the bytes written denote a code value in the final interval of the exact coder, and no string of fewer bytes does; every 0xFF is followed by 0x00, and the output ends in a zero byte only as such stuffing |
| ArithEncoder.Encoder.Encode | android/extern/libjpeg-turbo/jcarith.c:224-317 | registers, stacked bytes and pending zeros refine one step of the exact coder; no carry meets an absent or 0xFF buffer byte |
| ArithEncoder.Encoder.Finish | android/extern/libjpeg-turbo/jcarith.c:138-198 | the terminating value is the one in the final interval with the most trailing zero bits, with no zero byte at the end |
| ArithDecoder.Decoder.Decode | android/extern/libjpeg-turbo/jdarith.c:114-191 | on any input the registers refine the exact decoder; decoding fails only if the source ends without a marker |
| ArithCode.FollowsRun | android/extern/libjpeg-turbo/jdarith.c:114-191 | whatever code value of the final interval was written, the exact decoder makes the encoder's decisions: encoder and decoder meet here |
| ArithCode.Shortest | android/extern/libjpeg-turbo/jcarith.c:146-153 | the value with the most trailing zero bits needs the fewest bytes of all code values in the interval |
| ArithCode.Subintervals | android/extern/libjpeg-turbo/jcarith.c:245-262 | the two symbols divide the interval; the MPS gets the larger part, and the upper part has size Qe |
| ArithCode.EstimatesWithRenorm | android/extern/libjpeg-turbo/jcarith.c:245-266 | a statistics bin changes exactly when the interval is renormalized, to the successor for the symbol coded |
| ArithCode.RunAdapts | android/extern/libjpeg-turbo/jcarith.c:234-266 | over any run of decisions, more probable symbols never make the LPS subinterval of their bin larger, and keep its sense |
| ArithCode.StepAdapts | android/extern/libjpeg-turbo/jcarith.c:234-266 | a less probable symbol makes the LPS subinterval larger, or exchanges the sense of the MPS in a switching state |
| ArithTable.EntryBounds | android/extern/libjpeg-turbo/jaricom.c:36-153 | every Qe is a positive size below half the smallest interval, and every successor is a table index |
| ArithTable.MpsAdapts | android/extern/libjpeg-turbo/jaricom.c:36-153 | after an MPS the sense is kept and Qe is smaller, except in the last state and the one that does not adapt |
| ArithTable.LpsAdapts | android/extern/libjpeg-turbo/jaricom.c:36-153 | after an LPS the sense is exchanged exactly in the ten switching states; in all others that adapt, Qe is larger |
| ArithMcuEncoder.McuEncoder.EncodeMcu | android/extern/libjpeg-turbo/jcarith.c:702-820 | the decisions coded for any legal blocks are those of Figures F.4 to F.9, in bins that exist, with the predictions and contexts that follow |
| ArithMcuDecoder.McuDecoder.DecodeMcu | android/extern/libjpeg-turbo/jdarith.c:520-624 | on any input the decoder keeps to bins that exist; if the input codes given blocks, it returns them, with equal predictions and contexts |
| ArithLaws.ContextLaw | android/extern/libjpeg-turbo/jcarith.c:752-757 | the conditioning category: zero up to half of 2^L in magnitude, large above 2^U, small between, by sign |
| ArithLaws.DcMagnitudeLaw | android/extern/libjpeg-turbo/jcarith.c:738-763 | the bins and bits of a DC magnitude, each by its position: category from X1 = 20 on, then the low bits |
| ArithLaws.AcFromLaw | android/extern/libjpeg-turbo/jcarith.c:773-812 | from each index on: no end of block, the zeros, the next nonzero coefficient, and so on, as in Figure F.5 |
| ArithLaws.AcMagnitudeLaw | android/extern/libjpeg-turbo/jcarith.c:790-811 | the bins and bits of an AC magnitude, each by its position |
| DcLaws.DcAfterLaw | android/extern/libjpeg-turbo/jcarith.c:718-724 | what the coder predicts a DC coefficient from is the last block of the same component |
| DcLaws.BlockCodeLaw | android/extern/libjpeg-turbo/jcarith.c:718-737 | a block starts with whether its DC coefficient differs from the prediction, and whether it is smaller |
| ArithRestart.TranscodeScan | android/extern/libjpeg-turbo/jcarith.c:324-820 | any sequence of MCUs with legal coefficients, in restart intervals of any length or without restarts, is coded and decoded back |
| Segments.PayloadOfStuffed | android/extern/libjpeg-turbo/jdarith.c:129-156 | reading undoes stuffing: before any marker the decoder gets exactly the data bytes |
| HuffOptimal.BestPrefixCode | android/extern/libjpeg-turbo/jchuff.c:900-929 | no prefix code for the counted symbols takes fewer bits than Huffman's procedure |
| HuffBuild.MergeAll | android/extern/libjpeg-turbo/jchuff.c:941-1002 | the code sizes of the merge loop have Huffman's minimum cost and a Kraft sum of exactly 1, are bounded by the total count, and none is longer than that of the pseudo-symbol, as the tie-break promises |
| HuffLimit.LimitLengths | android/extern/libjpeg-turbo/jchuff.c:1011-1038 | the adjustment ends with all lengths at most 16; it makes exactly the moves of section K.2, each of which is determined, and so changes nothing if no length is above 16; it keeps the Kraft sum at 1 and the number of symbols, and takes no count below zero |
| HuffGen.GenOptimalTable | android/extern/libjpeg-turbo/jchuff.c:930-1065 | the table lists each counted symbol exactly once, in order of code size, with as many codes of each length as there are sizes after the moves, less one; the all-ones code is free, both table builders accept it; it fails exactly on code sizes above 32, which take a total count of 9227465 |
| HuffBest.TableIsOptimal | android/extern/libjpeg-turbo/jchuff.c:930-1065 | if no size is above 16 bits, every counted symbol has a code of exactly its Huffman size, and coding the data with the table takes the minimum, less the code of the pseudo-symbol |
| HuffBest.NoBetterCode | android/extern/libjpeg-turbo/jchuff.c:900-929 | then no prefix code for the counted symbols, with a code to spare, takes fewer bits than the table |
| HuffLimit.MovesDetermined | android/extern/libjpeg-turbo/jchuff.c:1013-1025 | the moves that limit the lengths are determined, and there are none without long codes |
| HuffTable.MakeEncoderTable | android/extern/libjpeg-turbo/jchuff.c:247-334 | accepts exactly the legal code trees with legal symbols, and gives every listed symbol its canonical code |
| HuffLaws.NextCode | android/extern/libjpeg-turbo/jchuff.c:294-319 | each code is the one before plus one, with zeros appended if it is longer; with FirstCode this fixes all codes |
| HuffLaws.PaddingIsNoCode | android/extern/libjpeg-turbo/jchuff.c:905-909 | padding with ones never looks like a code |
| HuffDecode.MakeDecoderTable | android/extern/libjpeg-turbo/jdhuff.c:140-259 | accepts exactly the legal code trees (with legal symbols for DC), and builds limits, offsets and the lookahead table that decoding needs |
| HuffDecode.CodeDecodes | android/extern/libjpeg-turbo/jdhuff.c:433-469 | decoding inverts encoding: a code, whatever follows it, gives its symbol and its length |
| HuffDecode.LookaheadAgrees | android/extern/libjpeg-turbo/jdhuff.h:197-241 | for every table and bit string the 8-bit lookup gives the symbol and length of bit-by-bit decoding |
| BitWriter.MaskTestExact | android/extern/libjpeg-turbo/jchuff.c:382-436 | the mask test on the 64-bit word is true exactly if one of its bytes is 0xFF |
| BitWriter.Writer.PutBits | android/extern/libjpeg-turbo/jchuff.c:438-452 | appends exactly the bits of the code to what has been written, in the buffer and in the output |
| BitWriter.Writer.FlushBits | android/extern/libjpeg-turbo/jchuff.c:495-541 | the output is the concatenation of all codes, padded with ones to a whole byte and stuffed |
| BitReader.Reader.FillBitBuffer | android/extern/libjpeg-turbo/jdhuff.c:284-382 | loads the bits of the stuffed input unchanged, zeros past a marker; fails without effect only if the source runs out |
| BitReader.Reader.HuffDecode | android/extern/libjpeg-turbo/jdhuff.h:197-218 | gives the symbol at the current bits, through the lookup or the slow loop, and consumes its code |
| HuffTranscode.TranscodeScan | android/extern/libjpeg-turbo/jchuff.c:563-749 | any sequence of MCUs, with DC prediction and restart intervals, is coded and decoded back, if the tables have the symbols |
| HuffTranscode.McuDecodes | android/extern/libjpeg-turbo/jdhuff.c:549-651 | the bits that one MCU writes decode to its blocks and the encoder's predictions, whatever follows |
| HuffLaws.AcItemsLaw | android/extern/libjpeg-turbo/jchuff.c:600-650 | a run of 16 zeros is written only before a coefficient, EOB only at the end, and (EobLaw) exactly if the last coefficient is zero |
| HuffLaws.NextCoefLaw | android/extern/libjpeg-turbo/jchuff.c:600-650 | each nonzero coefficient is written with the zeros before it: runs of 16, and the rest with its own symbol |
| DcLaws.BlockStepLaw | android/extern/libjpeg-turbo/jchuff.c:708-730 | each block is coded with the tables of its component and the difference from the last block of that component |
| HuffLaws.ValueSymbol | android/extern/libjpeg-turbo/jchuff.c:563-600 | a symbol has the zero run in its high and the size of the magnitude in its low four bits |
| HuffLaws.ExtraIncreases | android/extern/libjpeg-turbo/jchuff.c:570-600 | the value bits number the values of each size in their order, the negative ones first |
| HuffPlan.RestartLaw | android/extern/libjpeg-turbo/jchuff.c:672-749 | a restart comes after every full interval if there are more MCUs, and nowhere else |
| HuffDecoder.DecodeOneBlock | android/extern/libjpeg-turbo/jdhuff.c:573-651 | on any input the block and the DC prediction are those of the decoding function |
| HuffStats.StatsPass.GatherMcu | android/extern/libjpeg-turbo/jchuff.c:796-898 | counts exactly the symbols that the output pass emits for the MCU; fails exactly if a coefficient is out of range |
| HuffTwoPass.TwoPassScan | android/extern/libjpeg-turbo/jchuff.c:796-1107 | optimized coding of any sequence of MCUs and restart intervals: the tables from the statistics pass suffice for the output pass, and the decoder returns the MCUs; it fails exactly on coefficients out of range, or on code sizes above 32 |
| HuffTwoPass.LegalCoefFits | android/extern/libjpeg-turbo/jchuff.h:16-26 | a coefficient of 8-bit data fits the limit of 10 bits if and only if it is not -1024 |
| ProgRefine.HeadDecodes | android/extern/libjpeg-turbo/jdphuff.c:499-643 | decoding what a block of a refinement scan emits takes every coefficient from precision al + 1 to precision al |
| ProgFirst.FirstDecodes | android/extern/libjpeg-turbo/jdphuff.c:363-440 | decoding what a block of a first scan emits gives the coefficients of the band at precision al |
| ProgRun.RunStands | android/extern/libjpeg-turbo/jcphuff.c:1000-1018 | over any number of blocks with shared EOB runs and delayed correction bits, decoding the emitted symbols gives every block at the new precision |
| ProgEncoder.PhuffEncoder.EncodeMcuAcRefine | android/extern/libjpeg-turbo/jcphuff.c:924-1018 | emits or counts exactly the symbols of Figure G.7, with EOBRUN at most 0x7FFF and at most 1000 buffered correction bits; what the symbols are, QuietRun and RunsApart say |
| ProgEncoder.PhuffEncoder.EncodeMcuAcFirst | android/extern/libjpeg-turbo/jcphuff.c:670-742 | emits or counts exactly the symbols of Figure G.3; fails exactly if a coefficient is out of range or a symbol has no code |
| ProgEncoder.PhuffEncoder.EmitEobrun | android/extern/libjpeg-turbo/jcphuff.c:422-444 | emits the symbol of the run, its length bits and all buffered correction bits, and leaves none |
| ProgLaws.QuietRun | android/extern/libjpeg-turbo/jcphuff.c:992-1002 | any number of blocks that write nothing themselves, below the limits of 0x7FFF blocks and 937 correction bits, cost one EOB symbol together, with all their correction bits |
| ProgLaws.QuietJoins | android/extern/libjpeg-turbo/jcphuff.c:723-727 | such a block joins the run that is pending, whatever was written before |
| ProgLaws.RunsApart | android/extern/libjpeg-turbo/jcphuff.c:992-1002 | in everything a scan writes, an EOB run directly follows another only if that one had 0x7FFF blocks or more than 937 correction bits |
| ProgLaws.BlockHeadLaw | android/extern/libjpeg-turbo/jcphuff.c:942-990 | before its end a block writes coefficients and the zero runs that lead up to them, nothing else |
| ProgLaws.FirstCoefLaw | android/extern/libjpeg-turbo/jcphuff.c:670-720 | in a first scan each nonzero coefficient is written with the zeros before it |
| ProgLaws.RefineCoefLaw | android/extern/libjpeg-turbo/jcphuff.c:942-990 | in a refinement scan a newly nonzero coefficient is written with the zeros before it, its sign, and the correction bits of all coefficients passed |
| ProgLaws.RefineRunLaw | android/extern/libjpeg-turbo/jcphuff.c:942-965 | a run of 16 zeros is written only when a coefficient that is not zero is reached and a newly nonzero one is still to come, with the correction bits so far |
| ProgDecoder.PhuffDecoder.DecodeMcuAcRefine | android/extern/libjpeg-turbo/jdphuff.c:499-643 | refines in place what the decoding function says, on any input; if it must suspend, all that is left of the attempt is corrections that a second call will not repeat |
| ProgDecoder.Resume | android/extern/libjpeg-turbo/jdphuff.c:624-643 | decoding a block that a suspended call has corrected in part gives what it would have given at once |
| ProgSuspend.ReadInPieces | android/extern/libjpeg-turbo/jdphuff.c:363-643 | with its input cut into pieces anywhere, and calls repeated after each suspension, a whole scan decodes to what the uncut input gives |
| ProgScan.TranscodeAcScan | android/extern/libjpeg-turbo/jcphuff.c:422-1018 | an AC scan, first or refinement, over any blocks and restart intervals: the decoder gets the band at precision al; it fails exactly if a coefficient is out of range or a symbol has no code |
| ProgScan.GatherScan | android/extern/libjpeg-turbo/jcphuff.c:387-396 | the statistics pass counts exactly the symbols of the output pass, across restart intervals |
| ProgDcScan.TranscodeDcScan | android/extern/libjpeg-turbo/jcphuff.c:477-792 | a DC scan over any blocks and restart intervals: a first scan gives every DC coefficient rounded down to a multiple of 2^al, a refinement one bit more |
| DcLaws.DcBitsLaw | android/extern/libjpeg-turbo/jcphuff.c:500-560 | a first DC scan codes exactly the differences from the last block of the same component, each with the table of its component |
| DcLaws.NextBitsLaw | android/extern/libjpeg-turbo/jcphuff.c:765-776 | a DC refinement writes bit al of each value, in two's complement |
| ProgTwoPass.OptimizeAcScan | android/extern/libjpeg-turbo/jcphuff.c:1046-1086 | the table made from the statistics of an AC scan is legal and has a code for every symbol of its output pass |
| ProgDcTwoPass.OptimizeDcScan | android/extern/libjpeg-turbo/jcphuff.c:1046-1086 | the tables made from the statistics of a first DC scan, shared or not, are legal and have a code for every symbol |
| ProgScript.ValidateScript | android/extern/libjpeg-turbo/jcmaster.c:177-309 | accepts exactly the valid scripts, sequential or progressive, and tells which it is |
| ScriptLaws.ProgressiveIff | android/extern/libjpeg-turbo/jcmaster.c:216-288 | a progressive script is valid if and only if each scan sends its coefficients for the first time or refines them by one bit from where their last scan left them, AC after DC, and every component has a DC scan |
| ScriptLaws.SequentialIff | android/extern/libjpeg-turbo/jcmaster.c:270-308 | a sequential script is valid if and only if whole components are sent, each exactly once |
| ProgSimple.SimpleProgression | android/extern/libjpeg-turbo/jcparam.c:467-539 | for any number of components the recommended script is valid and takes every coefficient to its last bit, in the announced number of scans; it is exactly the one described |
| ScriptLaws.YccScript | android/extern/libjpeg-turbo/wizard.txt:190-213 | the script for YCbCr is the one that the documentation lists |
| ScriptLaws.AllPurposeScans | android/extern/libjpeg-turbo/jcparam.c:525-539 | in the all-purpose script every component is sent in the same six scans |
| ProgImage.RunScript | android/extern/libjpeg-turbo/jcmaster.c:216-288 | after the scans of any valid script the decoder holds every AC coefficient truncated toward zero, every DC coefficient rounded down at its last precision, and zero for what was not sent |
| ProgImage.CompleteIsLossless | android/extern/libjpeg-turbo/jcparam.c:467-539 | a script that sends everything to the last bit gives the image back |
| ProgCompress.CompressImage | android/extern/libjpeg-turbo/jcphuff.c:422-1086 | progressive compression with optimized tables for any valid script: fails if a coefficient is out of range, else only if a scan is too long for the table generator; otherwise the decoder holds the image at its final precision |
| MarkerTranscode.TranscodeHeaders | android/extern/libjpeg-turbo/jcmarker.c:473-592 | file, frame and first scan header are written and read back from an input cut anywhere: the decompressor then has all frame and scan fields in use, all tables in use, and the restart interval modulo 65536, and the input stands at the data; it refuses exactly a scan with a component beyond the first four; writing fails exactly on a missing table |
| MarkerLimits.IntervalArrives | android/extern/libjpeg-turbo/jcmarker.c:276-284 | the restart interval of the compressor arrives if and only if it is below 65536 |
| MarkerTranscode.AllScansRead | android/extern/libjpeg-turbo/jcmarker.c:558-592 | over any number of scans, with parameters and tables changing between them and any data after each header, the decompressor has every scan restored, though no table is sent twice and the restart interval only when it changes |
| MarkerTranscode.ScanRead | android/extern/libjpeg-turbo/jdmarker.c:304-381 | a scan header is read back, with tables sent now or earlier, if and only if its last component is among the first four of the frame; otherwise reading fails |
| MarkerReader.ReadInPieces | android/extern/libjpeg-turbo/jdmarker.c:966-1112 | with the input cut into pieces anywhere, and calls repeated after each suspension, tables, frame, scan and input position are those of the uncut input |
| MarkerReader.Reader.ReadMarkers | android/extern/libjpeg-turbo/jdmarker.c:966-1112 | on any input and from any state, reading markers up to SOS, EOI, an error or a suspension has exactly the effect of the specification, and can be called again |
| MarkerStream.MarkersMore | android/extern/libjpeg-turbo/jdmarker.c:171-195 | what a suspended attempt leaves, half-made stores included, leads to the same outcome on the rest of the input as the whole input at once |
| MarkerProg.Again | android/extern/libjpeg-turbo/jdmarker.c:193-195 | the stores of an attempt that was given up do not matter, since the next attempt makes all of them again |
| MarkerReader.Reader.NextMarker | android/extern/libjpeg-turbo/jdmarker.c:888-931 | finds the next marker past other bytes, fill bytes and stuffed zeros; if there is none, the restart point is past everything discarded |
| MarkerReader.Reader.GetSos | android/extern/libjpeg-turbo/jdmarker.c:304-381 | on any input, stores and fails as its specification does, including the search for component identifiers |
| MarkerReader.Reader.GetDht | android/extern/libjpeg-turbo/jdmarker.c:433-502 | on any input, any number of tables in one segment, with the checks of counts and indices, and zeros for symbols not given |
| MarkerSegments.DqtRun | android/extern/libjpeg-turbo/jdmarker.c:507-560 | parsing an emitted quantization table, of 8 or 16 bits, uses the whole segment and sets all 64 entries, and nothing else, to the values of the compressor |
| MarkerSegments.DhtRun | android/extern/libjpeg-turbo/jcmarker.c:189-223 | parsing an emitted Huffman table sets its counts and symbols to those of the compressor, and nothing else |
| MarkerSegments.DacRun | android/extern/libjpeg-turbo/jcmarker.c:227-272 | parsing the emitted conditioning sets exactly the tables that the scan uses |
| MarkerSegments.SofRun | android/extern/libjpeg-turbo/jcmarker.c:288-314 | parsing the emitted frame header sets the process, the dimensions and all components |
| MarkerLayout.DqtLayout | android/extern/libjpeg-turbo/jcmarker.c:171-179 | the values of a quantization table are written along the zigzag walk, in one or two bytes, after precision and number |
| ZigZag.NaturalIsWalk | android/extern/libjpeg-turbo/jchuff.c:629-639 | the natural-order table is the zigzag walk: up and to the right on even diagonals, down and to the left on odd ones |
| ZigZag.AlongDiagonals | android/extern/libjpeg-turbo/jchuff.c:629-639 | the order goes through the diagonals one after the other, alternately upward and downward |
| MarkerLayout.DhtLayout | android/extern/libjpeg-turbo/jcmarker.c:206-219 | the bytes of a Huffman table: class and number, sixteen counts, the symbols |
| MarkerLayout.SofLayout | android/extern/libjpeg-turbo/jcmarker.c:295-313 | the bytes of a frame header, field by field |
| MarkerLayout.SosLayout | android/extern/libjpeg-turbo/jcmarker.c:324-347 | the bytes of a scan header, field by field; table numbers that are not used are zero |
| MarkerLayout.DacLayout | android/extern/libjpeg-turbo/jcmarker.c:258-269 | each pair of bytes is the conditioning of one table in use |
| MarkerWriter.Writer.WriteFrameHeader | android/extern/libjpeg-turbo/jcmarker.c:498-548 | each quantization table in use once, and the SOF marker of the process; fails exactly on a missing table or an image too large |
| MarkerWriter.Writer.WriteScanHeader | android/extern/libjpeg-turbo/jcmarker.c:558-592 | the tables in use that have not been sent, or all conditioning in use; the restart interval if changed; the scan; fails exactly on a missing Huffman table |
| PassMachine.Compress | android/extern/libjpeg-turbo/jcmaster.c:447-639 | for every valid script, with or without optimization, in a compression or a transcoding, the passes end, with statistics, headers and data of every scan in order; it fails exactly on statistics for the arithmetic coder |
| PassMachine.RunPasses | android/extern/libjpeg-turbo/jcapimin.c:161-196 | the loop over the passes stops exactly after the last output |
| PassMachine.Master.PrepareForPass | android/extern/libjpeg-turbo/jcmaster.c:447-522 | during a pass, is_last_pass is true exactly while the last scan is output; the statistics pass of a DC refinement is left out |
| PassMachine.EachScanOnce | android/extern/libjpeg-turbo/jcmaster.c:549-582 | the data of every scan is output exactly once, in order |
| PassTables.GatheredWhereNeeded | android/extern/libjpeg-turbo/jcmaster.c:480-497 | with optimized Huffman tables, for every valid script, exactly the scans that code DC differences or AC coefficients have their statistics gathered, once, right before their headers |
| PassTables.NoTableUngathered | android/extern/libjpeg-turbo/jcmarker.c:568-580 | no scan header ever has a Huffman table whose statistics were not gathered right before it |
| PassMachine.OneFrameHeader | android/extern/libjpeg-turbo/jcmaster.c:499-542 | there is one frame header, and the first scan header comes right after it |
| Quantizer.QuantizeBlock | android/extern/libjpeg-turbo/jcdctmgr.c:235-478 | with 16-bit or 32-bit words every coefficient is divided by its divisor exactly and rounded |
| Quantizer.ComputeReciprocal | android/extern/libjpeg-turbo/jcdctmgr.c:172-221 | for every divisor from 1 to 65535 the stored reciprocal, correction and shift fit their words and stand for exact rounded division of every coefficient up to 32767 |
| Quantizer.RoundedUp | android/extern/libjpeg-turbo/jcdctmgr.c:196-210 | when the fraction is above a half, the reciprocal rounded up still fits a word and gives every quotient |
| Quantizer.Flss | android/extern/libjpeg-turbo/jcdctmgr.c:82-110 | the number of significant bits |
| Quantizer.Nearest | android/extern/libjpeg-turbo/jcdctmgr.c:407-478 | the quotient is the nearest one, halves away from zero, and symmetric in the sign |
| ContextRows.RunPass | android/extern/libjpeg-turbo/jdmainct.c:330-396 | in every run, however early the postprocessor stops and the decoder suspends, each real row group is offered exactly once and in order, with the adjacent rows; and every call that can make progress does |
| ContextRows.Controller.ProcessData | android/extern/libjpeg-turbo/jdmainct.c:330-396 | each call keeps the invariant of the three-state machine and extends what was offered |
| ContextRows.Controller.SetBottomPointers | android/extern/libjpeg-turbo/jdmainct.c:212-246 | the list shows the last image row below the image, and the row groups left are counted |
| ContextRows.Controller.SetWraparoundPointers | android/extern/libjpeg-turbo/jdmainct.h:46-71 | both lists go from top-of-image to the normal state |
| ContextRows.ContextComplete | android/extern/libjpeg-turbo/jdmainct.c:55-62 | a full row group of context is right if and only if the row group does not come just before a last iMCU row with fewer rows than a row group |
| ContextRows.NeighboursRight | android/extern/libjpeg-turbo/jdmainct.c:64-66 | in any case the context above and the row next below are the right ones |

## Findings

Four statements of the source do not hold of its code.  The code is modelled as it is.

| where | what the code does | input | what the source promises, and exactly when it holds | proved by |
|---|---|---|---|---|
| android/extern/libjpeg-turbo/jdmainct.c:55-66 | the padding rows at the bottom are replaced only when the last iMCU row is prepared, after the row group before it has been offered | five image rows, row groups of two rows, iMCU rows of four: rows 2 and 3 are offered with row 4 and a padding row below them | context rows at the bottom duplicate the last real row, a full row group of them; this holds if and only if not `start + rg == lastBase && height < lastBase + rg`, that is unless the row group is the last one before a last iMCU row with fewer rows than a row group | ContextRows.ContextComplete (the condition), ContextRows.ContextIncomplete (the input), ContextRows.RunPass (that every run offers exactly this) |
| android/extern/libjpeg-turbo/jchuff.h:16-26 | a coefficient of more than 10 bits is an error exit | the AC coefficient -1024 | every coefficient of 8-bit data is at most 1023 in magnitude, so that 10 bits suffice; from -1024 to 1023 this holds if and only if the coefficient is not -1024, and a scan is accepted if and only if `ScanFits` | HuffTwoPass.LegalCoefFits (the condition), HuffTwoPass.GatherScan and HuffTwoPass.TwoPassScan (that a scan fails exactly then) |
| android/extern/libjpeg-turbo/jdmarker.c:335-340 | parsing SOS looks for a component only among the first four of the frame | a frame of five components of one sample, with a scan of the fifth | an image can have up to 10 components (android/extern/libjpeg-turbo/jmorecfg.h:20-27, android/extern/libjpeg-turbo/libjpeg.txt:3078-3080), and the compressor writes them; a legal scan header is read back if and only if `NamedComps`, that is if the last component of the scan is among the first four of the frame | MarkerTranscode.ScanRead (the condition), MarkerLimits.FifthComponentRefused (the input), MarkerTranscode.TranscodeHeaders (that reading fails exactly then) |
| android/extern/libjpeg-turbo/jcmarker.c:276-284 | DRI takes the low 16 bits of the restart interval, while the entropy coders count with all of it | a restart interval of 65536: the decompressor reads 0, no restarts | restart_interval gives the exact interval in MCUs (android/extern/libjpeg-turbo/libjpeg.txt:1010-1015); it arrives if and only if it is below 65536 | MarkerLimits.IntervalArrives (the condition), MarkerLimits.LongIntervalLost (the input) |

With row groups of one row, which is what the existing users of context rows have in practice, the first condition is
always met; the upsamplers read only one row below, and NeighboursRight proves that this row is always right.

## Left out

- Markers and coders are not joined: the coders get their tables and scan parameters directly, not from the marker reader.
- Contents of APPn and COM segments, and the fields for JFIF, Adobe and colour spaces that depend on them; the scan counter; write_file_trailer and write_tables_only.
- MarkerReader.Reader.SkipVariable: waits until the bytes to skip are there; in the C code the data source skips them when it can.
- MarkerTranscode.TranscodeHeaders: requires fields that fit their places in the segments, conditioning with L not above U as the standard has it, and distinct component identifiers.
- Arithmetic coding of progressive scans: the sequential mode is modelled, with restarts; the four progressive MCU routines are not.
- Merged upsampling and the colour conversion it is compared with.
- Data sources and destinations: input is a byte sequence (in pieces in `ProgSuspend`), output a byte sequence that grows; a destination that suspends the encoder is not modelled.
- Resynchronization: a restart marker other than the expected one is a failure here; the data source's attempts to resynchronize are not modelled, nor is the flag that suppresses output after missing data.
- The fast path of the sequential decoder, decode_mcu_fast, and the SIMD routines; words of 32 bits in the bit buffers; samples of 12 bits.
- Dummy blocks at the right and bottom edges: an MCU is any sequence of blocks of the given components.
- ContextRows.Controller: models one component; the C code repeats the same steps for each.
- ContextRows.Controller.DecompressData: the coefficient controller is a step that delivers the next iMCU row or suspends; padding rows below the image have unknown contents.
- HuffTranscode.TranscodeScan: requires tables in all slots, of which those in use have the symbols; a missing code is not checked by the C code either.
- ProgEncoder.PhuffEncoder.EncodeMcuAcRefine: finds zero runs coefficient by coefficient; the C code jumps over them with a bit mask.
- ProgDecoder.PhuffDecoder.DecodeMcuAcRefine: coefficients are unbounded numbers; on corrupt data a correction could leave 16 bits in the C code.
- ProgDcScan.TranscodeDcScan: the restart interval is given in blocks, so that the blocks of an MCU are not kept apart.
- ProgCompress.CompressImage: runs all statistics passes before the output passes; in the C code the two passes of a scan follow each other, with equal results, since the statistics depend on the coefficients only.
- PassMachine.Compress: the script is a list of scans; without a script the compressor sends one sequential scan.
- Quantizer.QuantizeBlock: models the divisors of the slow integer DCT; quantization values above 8191 do not fit its 16-bit divisor.
- Quantizer.ComputeReciprocal: the value for instruction sets without a shift by element, and the result that tells whether SIMD code can use the divisor, are not modelled.
