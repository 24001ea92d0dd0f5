# Verified models of the media, telemetry and loader tools

This project models the algorithmic cores of a Raspberry Pi 4 porting repository and proves what they promise.
`dafny verify dfyconfig.toml` checks everything.

**MP4 to Annex-B demuxer and its inverse.** `BoxTree` says what a well-formed box structure is (a parse into a tree)
and `BoxWalk` is the recursive, stateful walk that refines it. `SampleIndex` gives the three-table sample walk and a
declarative placement of every sample, and proves them equal. `NalFraming` holds the length-prefixed framings of
samples and of the decoder configuration record (section 8.3.3.1 of ISO/IEC 14496-15), each with its printer.
`OutBuffer` is the growable buffer, `Mp4Demux` the specification of a whole conversion with its errors in order,
`Mp4Writer` the imperative conversion itself, and `Mp4Guarantee` the end-to-end theorem: success on exactly the files
described by what they contain, whatever the walk does. `Mp4Boxes`, `Mp4Media`, `Mp4File`, `Mp4FileTree` and `Mp4Mux`
are its inverse, which the repository itself does not have: a printer of whole files nested like real ones, free in the form of each box size, the width
of offsets and of NAL lengths, the shape of the size table, the division into chunks and runs, the sample entry, and a
sound track beside the video. Every content that fits the format's fields comes back unchanged from all of them.
`AnnexB` is the byte stream format (section B.2 of ITU-T H.265) with the NAL splitter of the header generators, proved
inverse to the writer under its exact condition.

**Activity LED telemetry.** `LedMask` closes short dark gaps and cuts segments, `LedGroups` groups and decodes pulses,
`LedBursts` says what grouping yields on any recording, `LedRoundTrip` proves that whatever is sent is reported, and
`LedInterpret` that the greedy boot-run search is optimal.

**In-process ELF loader.** `ElfImage` places segments, `ElfMemory` is a memory of little-endian 64-bit words,
`ElfReloc` applies relocation entries one by one (section 5.7 of ELF for the Arm 64-bit Architecture), `ElfGuarantee`
shows when that is the same as writing fixed words and how two loads differ, and `Minidl` is open and symbol lookup.
`ElfFields` and `MinidlFields` say the results in the file's own fields: bytes at the offsets that the ELF structures
give them. Entries are read from memory as earlier relocations left it; that relocations do not disturb each other's
tables is a hypothesis of the theorems, not a shortcut of the model.

Lemmas carry `{:induction false}`, so that every induction is written out and no induction hypothesis enters a proof
unasked.

**Smaller cores.** `BoTrace` (buffer-object ownership traces), `Life` (Game of Life on a torus), `Blit` (YUV blit and
the clip generator's forward transform), `Nvram` and `NvramText` (NVRAM blobs) and `LogCollapse` (UART log floods).
`Bytes` holds byte strings and big- and little-endian numbers.

## Findings

- The splitter recovers the NALs of a stream if and only if no NAL but the last holds 00 00 01, the last holds no
  00 00 01 or 00 00 00 01 that begins more than 3 bytes before its end, no NAL in front of a 3-byte start code ends in
  00, and the last NAL is not an empty one behind a 3-byte code (`AnnexB.SeparableWith`). `AnnexB.HiddenCodeIsCut` and
  `AnnexB.ZeroBeforeShortCodeIsLost` are failing lists. In the demuxer's output, where every start code has four bytes,
  NALs that end in 00 and empty NALs do no harm.
- The third tie-break of the boot-run search (last code, at equal length and equal start code) never decides anything:
  `LedInterpret.SameEnd`.
- An empty report of the trace checker proves, on every trace, that no address ever has two live handles
  (`BoTrace.SilenceIsSound`). The converse fails: a close that carries address 0 is skipped, and the next owner is
  reported although the address never has two live handles (`BoTrace.SkippedCloseIsReported`). The report is right if
  and only if there is a double owner or no event maps a handle at an address that another handle, still believed
  open, holds (`BoTrace.ReportIsRightIff`); a handle is believed open until a close of it names an address. Where live
  handles keep their address and are closed at it, the report is exact.
- The log collapser's own text says that runs of at least `--min-run` lines collapse and nothing is lost; the code
  collapses runs longer than that, and writes runs of 2 to min_run lines once without a count. A log can be restored if and only if it has
  no such run: `LogCollapse.LogIsRestoredIff`, with `LogCollapse.ShortRunIsLost` as the smallest loss.
- The NVRAM settings survive if and only if none of them contains a NUL: `Nvram.SettingsAreRecovered`, with
  `Nvram.NulCutsSetting` as a text that is not read back.

## Model

| member | source | states |
|---|---|---|
| Mp4Guarantee.DemuxSucceedsIff | tools/hevc-decode/hevc_mp4.c:181-276 | for every byte string: the conversion succeeds with these NALs iff the boxes are well formed without fragments, exactly one track is video, its tables fit, its record begins with printed arrays, leading well-formed runs hold all samples, every sample at its declared place tiles into non-empty length-prefixed NALs, and something was found; the NALs are the parameter sets in record order, then those of samples 0, 1, 2, ... |
| Mp4Writer.Mp4ToAnnexB | tools/hevc-decode/hevc_mp4.c:181-276 | the imperative conversion returns exactly the specified NALs, each behind a start code, or the first error in the order of the checks |
| Mp4Writer.TrackToAnnexB | tools/hevc-decode/hevc_mp4.c:195-275 | the same for the selected track, given its table ranges |
| Mp4Guarantee.DemuxThenSplit | tools/hevc-decode/gen-ipb-header.py:15-27 | splitting the demuxer's output gives the emitted NAL list back iff the list is separable |
| Mp4Guarantee.OutputGrowth | tools/hevc-decode/hevc_mp4.c:162-179 | the output is the parameter sets' stream, plus the total size of the samples, plus 4 - length_size bytes per sample NAL |
| Mp4Mux.MuxedFileIsDemuxed | tools/hevc-decode/hevc_mp4.c:181-276 | for all contents that fit the fields, and every form of file: ftyp, moov, trak, mdia, minf and stbl nested as in real files, box sizes in 32 bits, 64 bits or to the end, stco or co64, hev1 or hvc1, sizes in a table or told once, NAL lengths of 1 to 4 bytes, any chunks, runs and bytes between chunks, with or without a sound track: the demuxer delivers exactly the content's NALs, in order |
| Mp4Mux.MuxedFileIsHevc | tools/hevc-decode/hevc_mp4.c:190-276 | every such file is one of those that the demuxer accepts, with these arrays and samples |
| Mp4Mux.FragmentIsRefused | tools/hevc-decode/hevc_mp4.c:127-128 | a file with a moof box is refused as fragmented, whatever the form of its size |
| Mp4Mux.SmallestFile | tools/hevc-decode/hevc_mp4.c:271 | one sample of one NAL of one byte, with a sound track beside it, is such a content |
| Mp4Mux.SizesRead | tools/hevc-decode/hevc_mp4.c:205-212 | the printed size table, in either shape, reads as the sizes of the samples |
| Mp4Mux.OffsetsRead | tools/hevc-decode/hevc_mp4.c:214-220 | the printed chunk table, in either width, reads as the places of the chunks |
| Mp4Mux.RunsRead | tools/hevc-decode/hevc_mp4.c:222-227 | the printed run table reads as the runs |
| Mp4FileTree.FileParses | tools/hevc-decode/hevc_mp4.c:76-139 | the bytes of a printed file are parsed into its tree of boxes |
| Mp4FileTree.TrackIsDescribed | tools/hevc-decode/hevc_mp4.c:94-102 | that tree puts every table where it was printed |
| Mp4FileTree.VideoTrackIs | tools/hevc-decode/hevc_mp4.c:129-136 | its one video track is the one with the video handler, found inside the movie |
| Mp4Boxes.BoxReads | tools/hevc-decode/hevc_mp4.c:79-92 | a printed box header, in each of the three size forms, reads as its type and range |
| Mp4Boxes.ContainerParses | tools/hevc-decode/hevc_mp4.c:41-49 | the walk enters "moov" and "trak" on top, and "mdia", "minf", "stbl", "edts" and "dinf" in a track |
| Mp4Boxes.LeafParses | tools/hevc-decode/hevc_mp4.c:94-104 | any other box is passed over |
| Mp4Boxes.KnownTags | tools/hevc-decode/hevc_mp4.c:44-134 | the box types are these four characters |
| Mp4Media.SampleIsHeld | tools/hevc-decode/hevc_mp4.c:248-269 | for any division into chunks and runs every sample is held where the index built from them says |
| Mp4Media.MediaIsCovered | tools/hevc-decode/hevc_mp4.c:250-270 | and the runs hold all samples, the last chunk possibly fewer than declared |
| Mp4Demux.NoTableErrorIff | tools/hevc-decode/hevc_mp4.c:195-227 | the ordered table checks find nothing iff every table lies in the file, holds its header and the entries it announces, and announces some |
| Mp4Demux.DemuxIsTrack | tools/hevc-decode/hevc_mp4.c:190-195 | with well-formed boxes, no fragment and one video track, the result is that track's; its ranges lie in the file |
| Mp4Demux.TrackRangesFit | tools/hevc-decode/hevc_mp4.c:94-101 | the table ranges recorded for any video track lie inside the file, so every table read is in bounds |
| Mp4Writer.EmitSample | tools/hevc-decode/hevc_mp4.c:162-179 | appends exactly the sample's NALs behind start codes, or reports past-end, bad length or missed boundary |
| Mp4Writer.EmitParameterSets | tools/hevc-decode/hevc_mp4.c:232-246 | appends the NALs of all arrays of the record in order, or the first overrun |
| Mp4Writer.EmitArray | tools/hevc-decode/hevc_mp4.c:236-245 | appends one array's NALs and stops reading right behind it, or reports its overrun |
| Mp4Writer.EmitChunk | tools/hevc-decode/hevc_mp4.c:259-267 | emits the chunk's samples one behind the other and counts them |
| Mp4Writer.EmitRun | tools/hevc-decode/hevc_mp4.c:258-268 | emits the samples of a run's chunks and counts them |
| Mp4Writer.ReadRun | tools/hevc-decode/hevc_mp4.c:252-257 | reads a run and its successor's first chunk; accepts it iff it is 1-based, ascending, inside the chunk table and not empty |
| Mp4Writer.EmitRuns | tools/hevc-decode/hevc_mp4.c:250-269 | the walk over all runs emits exactly the planned samples, stops at a malformed run, and counts what it emitted |
| Mp4Writer.EmitSamples | tools/hevc-decode/hevc_mp4.c:248-270 | as EmitRuns, with the verdicts for a malformed run and for samples not covered |
| SampleIndex.WalkIsPlacement | tools/hevc-decode/hevc_mp4.c:248-270 | the k-th sample visited is sample k, in the chunk whose cumulative count first exceeds k, at the chunk offset plus the sizes of the chunk's earlier samples |
| SampleIndex.PlacementIsUnique | tools/hevc-decode/hevc_mp4.c:248-270 | that placement determines chunk, offset and size, so no sample is emitted twice or elsewhere |
| SampleIndex.ChunksAreConsecutive | tools/hevc-decode/hevc_mp4.c:258-268 | samples are read in chunk order from the first run's first chunk on, skipping no chunk |
| SampleIndex.CoversIff | tools/hevc-decode/hevc_mp4.c:251-270 | the walk reaches every sample without complaint iff some leading runs are all well formed and hold them all |
| NalFraming.SampleTilesIff | tools/hevc-decode/hevc_mp4.c:166-178 | a sample parses to a NAL list iff the NALs are non-empty, fit their length fields, and print to exactly the sample |
| NalFraming.SampleGrowth | tools/hevc-decode/hevc_mp4.c:162-179 | one sample grows by 4 - length_size bytes per NAL |
| NalFraming.ArraysFitIff | tools/hevc-decode/hevc_mp4.c:232-246 | the record parses to a NAL list iff it begins, behind its prefix, with printed arrays holding them in order |
| BoxWalk.Scan.ReadHeader | tools/hevc-decode/hevc_mp4.c:112-125 | the 32-bit, 64-bit and to-the-end size forms, and the malformed ones, as specified |
| BoxWalk.Scan.ScanStsd | tools/hevc-decode/hevc_mp4.c:51-61 | looks into the first sample entry if it is HEVC and fits; otherwise changes nothing |
| BoxWalk.Scan.ScanEntry | tools/hevc-decode/hevc_mp4.c:62-73 | walks the entry's boxes; bad iff they do not parse, else the track description is that of all boxes seen |
| BoxWalk.Scan.ScanTrak | tools/hevc-decode/hevc_mp4.c:76-106 | terminates; bad iff the range does not parse, else the track's fields are those of the last box of each kind among all descended boxes |
| BoxWalk.Scan.VisitTrakBox | tools/hevc-decode/hevc_mp4.c:94-103 | what one box of a trak adds, its descended boxes included |
| BoxWalk.Scan.ScanTop | tools/hevc-decode/hevc_mp4.c:110-139 | terminates; bad iff the range does not parse, else the counters and the chosen track are those of the boxes reached from top level and moov |
| BoxWalk.Scan.VisitTopBox | tools/hevc-decode/hevc_mp4.c:127-136 | what one top-level box adds: a fragment, a video track, or a movie's boxes |
| BoxTree.LatestIsLast | tools/hevc-decode/hevc_mp4.c:97-101 | a recorded range is that of the last box of its kind in file order, and absent iff there is none |
| OutBuffer.OBuf.Put | tools/hevc-decode/hevc_mp4.c:143-155 | contents are appended to, capacity never shrinks, stays 0 or at most max(65536, 2 * len), and the bytes moved by all regrowth never exceed the capacity |
| OutBuffer.OBuf.PutNal | tools/hevc-decode/hevc_mp4.c:157-160 | appends a start code and the NAL |
| OutBuffer.PutAll | tools/hevc-decode/hevc_mp4.c:141-160 | after any sequence of puts the contents are the concatenation, with the amortised bounds on capacity and copying |
| AnnexB.SplitInvertsRender | tools/hevc-decode/gen-ippp-header.py:16-28 | splitting a written stream gives the written NALs, in order, iff they are separable |
| AnnexB.HiddenCodeIsCut | tools/hevc-decode/gen-ipb-header.py:17-21 | a NAL that holds a start code does not come back |
| AnnexB.CleanNalsSurvive | tools/hevc-decode/gen-ipb-header.py:15-27 | in particular NALs without 00 00 01 inside survive |
| AnnexB.StartsAreStarts | tools/hevc-decode/gen-ipb-header.py:16-21 | found positions ascend by at least 3 and each follows a 01 byte, so slices are in bounds |
| AnnexB.SplitInvertsRenderWith | tools/hevc-decode/gen-ipb-header.py:15-27 | for every list of NALs and every choice of 3-byte and 4-byte start codes: splitting the stream gives the NALs back, in order, iff they are separable with these codes |
| AnnexB.ZeroBeforeShortCodeIsLost | tools/hevc-decode/gen-ipb-header.py:25-25 | a NAL that ends in 00 in front of a 3-byte code does not come back, although it does in front of a 4-byte one |
| AnnexB.CleanNalEnds | tools/hevc-decode/gen-ipb-header.py:23-27 | a NAL without a code inside is cut exactly in front of the code behind it, 3 or 4 bytes long |
| AnnexB.SpoiltNalEnds | tools/hevc-decode/gen-ipb-header.py:23-27 | any other NAL is cut too early |
| AnnexB.CodeIsFound | tools/hevc-decode/gen-ipb-header.py:17-21 | a scan stops at the latest at a code on its way |
| AnnexB.FindStarts | tools/hevc-decode/gen-ipb-header.py:15-21 | the boundary loop finds the positions of the specified scan |
| AnnexB.SplitNals | tools/hevc-decode/gen-ipb-header.py:15-27 | the table maps exactly the found positions to the split NALs, in order |
| AnnexB.IndexBlob | tools/hevc-decode/gen-ippp-header.py:76-79 | every frame's bytes are found again at its recorded offset of the joined blob |
| AnnexB.RenderLength | tools/hevc-decode/hevc_mp4.c:156-160 | a stream is its payload plus 4 bytes per NAL |
| LedRoundTrip.SentIsReceived | scripts/rpi4_actled_probe_layout.py:256-258 | for every list of codes below 32 and every sender whose durations lie on the right sides of the thresholds, merging, segmenting and grouping report exactly those codes, in order |
| LedRoundTrip.SendAndAnalyze | scripts/analyze-rpi4-actled-video.py:535-538 | the same as one run of the pipeline on the recorded mask, with no hypothesis about its result |
| LedRoundTrip.RecordingIsDecoded | scripts/analyze-rpi4-actled-video.py:369-439 | the same for any pulses, each with its own duration, that spell the codes |
| LedRoundTrip.RecordingSegments | scripts/analyze-rpi4-actled-video.py:131-162 | merging leaves a recording with long enough dark times alone, and its segments are the places of its pulses |
| LedRoundTrip.Analyze | scripts/analyze-rpi4-actled-video.py:535-538 | the pipeline's groups are those of the segmentation of the merged mask |
| LedMask.MergeShortFalseRuns | scripts/analyze-rpi4-actled-video.py:131-147 | lights exactly the frames of interior dark runs no longer than the limit, on a copy |
| LedMask.MergeIsIdempotent | scripts/analyze-rpi4-actled-video.py:131-147 | merging a merged mask changes nothing |
| LedMask.GapsAreLong | scripts/analyze-rpi4-actled-video.py:143-146 | every interior dark run left over was there before and is longer than the limit |
| LedMask.MaskToSegments | scripts/analyze-rpi4-actled-video.py:150-162 | returns exactly the maximal lit runs of at least min_frames frames, in order |
| LedMask.SegmentationIsUnique | scripts/analyze-rpi4-actled-video.py:150-162 | a mask has only one such segment list |
| LedMask.SegmentsAreApart | scripts/analyze-rpi4-actled-video.py:535-538 | consecutive segments of a merged mask are more than the merge gap apart |
| LedGroups.BuildStageGroups | scripts/analyze-rpi4-actled-video.py:369-439 | the grouping loop computes the specified groups: skip to a sync pulse, take up to six pulses, stop at a long gap |
| LedBursts.GroupsAreBursts | scripts/analyze-rpi4-actled-video.py:381-439 | on every list of segments: a pulse opens a group iff it is neither shorter than the sync threshold nor longer than the maximum; a group takes pulses up to the sixth, a long gap or the end; it is complete with six, decoded with six and a finite threshold, invalid with two to five; groups are numbered in order and nothing that could open one is passed over |
| LedBursts.FiveBitsRead | scripts/analyze-rpi4-actled-video.py:401-411 | the code of a burst weighs its five pulses 16, 8, 4, 2, 1 |
| LedGroups.TakePulses | scripts/analyze-rpi4-actled-video.py:388-398 | one burst: the pulses up to the sixth or the first long gap; an invalid burst has fewer than six |
| LedGroups.ReadBits | scripts/analyze-rpi4-actled-video.py:402-406 | the bit string of pulses by the bit threshold |
| LedGroups.ParseOfBits | scripts/rpi4_actled_probe_layout.py:21-24 | reading a code's printed digits in base two gives the code, at every positive width |
| LedGroups.BitsWidth | scripts/rpi4_actled_probe_layout.py:21-24 | the digits have the layout's width iff the code fits it |
| LedInterpret.BestIsOptimal | scripts/interpret-rpi4-actled-analysis.py:49-94 | with a distinct stage order the result is a run, no subsequence of decoded groups that is a contiguous slice of the order is longer, none as long starts with a smaller code, and the expected index is the one behind it |
| LedInterpret.Interpret | scripts/interpret-rpi4-actled-analysis.py:96-134 | with a distinct stage order the reported groups spell a contiguous slice of it that is found among the decoded groups, none longer is found and none as long begins with a smaller code; the reported next stage is the one right behind the slice |
| LedInterpret.BestRun | scripts/interpret-rpi4-actled-analysis.py:52-94 | the nested search finds the best start among all groups under the source's comparison |
| LedInterpret.GreedyRun | scripts/interpret-rpi4-actled-analysis.py:63-77 | one pass picks the greedy run from a start group |
| LedInterpret.FollowIsLongest | scripts/interpret-rpi4-actled-analysis.py:67-77 | exchange argument: no run that expects the same stage from the same position is longer than the greedy one |
| LedInterpret.SameEnd | scripts/interpret-rpi4-actled-analysis.py:91-94 | equally long runs from one stage end with the same stage, so the last comparison never decides |
| LedInterpret.ExtractDecodes | scripts/interpret-rpi4-actled-analysis.py:20-31 | keeps exactly the groups that carry a valid code, in order |
| LedInterpret.DecodesOfParts | scripts/interpret-rpi4-actled-analysis.py:22-31 | the decodes of a list are those of its parts, in order |
| LedInterpret.LegacyOrderIsDistinct | scripts/rpi4_actled_probe_layout.py:49 | the bit-code layout's stage order has no repetition and fits five bits |
| MinidlFields.OpenedFields | tools/dlopen-poc/minidl.c:250-306 | after a successful open, for every 24-byte entry of the tables of tags 7/8 and 23/2: the little-endian word at r_offset is bias + r_addend for type 1027; bias + st_value + r_addend for types 257, 1025, 1026 with a defined symbol; and for an undefined one the address of the first host export with its name plus r_addend, all modulo 2^64 |
| ElfFields.RelocatedFields | tools/dlopen-poc/minidl.c:271-306 | the passes succeed iff every entry's fields ask for a word, then every such word stands at its place and every other byte is the image's |
| ElfFields.DecodeIsFields | tools/dlopen-poc/minidl.c:278-303 | reading an entry is exactly what its fields and its symbol's say, NULL symbols refused |
| ElfFields.ResolveIs | tools/dlopen-poc/minidl.c:114-132 | a symbol resolves to bias + st_value, or to the first host export whose name is the NUL-terminated string at its name offset |
| MinidlFields.SymbolsAreCounted | tools/dlopen-poc/minidl.c:268-269 | the symbol count is the second word of the hash table, 0 without one |
| MinidlFields.ExportIsFields | tools/dlopen-poc/minidl.c:348-352 | lookup goes by a nonzero section index and the exact name, and returns bias + st_value |
| Minidl.LoadAddressIndependence | tools/dlopen-poc/minidl.c:210-306 | two successful loads of one file at any bases agree byte for byte except in words of base-relative and defined-symbol relocations, and those differ by exactly the difference of the biases modulo 2^64 |
| ElfGuarantee.LoadsDifferByBias | tools/dlopen-poc/minidl.c:271-306 | the same for the two passes over one image |
| ElfGuarantee.RelocationIsWrites | tools/dlopen-poc/minidl.c:271-306 | if no relocation writes what one reads, the passes succeed iff every entry of the loaded image decodes, and then they write those words in table order |
| ElfGuarantee.RelocatingTwice | tools/dlopen-poc/minidl.c:271-306 | running both passes again changes nothing |
| ElfGuarantee.DecodeDependsOnReads | tools/dlopen-poc/minidl.c:277-303 | what an entry asks for depends only on the entry, its symbol, and an undefined symbol's name up to its NUL |
| ElfMemory.LastWriteWins | tools/dlopen-poc/minidl.c:284-300 | each byte is that of the last covering write, or the loaded one |
| ElfGuarantee.RelocationsInAnyOrder | tools/dlopen-poc/minidl.c:271-306 | if no relocation writes what one reads and no two write the same byte, the entries of both tables may be applied in any order: the passes succeed in every order or in none, and leave the same memory |
| ElfMemory.OrderDoesNotMatter | tools/dlopen-poc/minidl.c:284-300 | the stores themselves: non-overlapping words may be written in any order |
| ElfMemory.WordReadsBack | tools/dlopen-poc/minidl.c:281-299 | a relocated word no other overlaps reads back as written |
| ElfReloc.ApplyTable | tools/dlopen-poc/minidl.c:272-306 | one pass: entries applied in order to memory as left by earlier ones, stopping at the first unresolved symbol, unsupported type or fault |
| ElfReloc.ApplyEntry | tools/dlopen-poc/minidl.c:277-304 | writes the one word an entry asks for and nothing else, or fails |
| ElfReloc.ComputeValue | tools/dlopen-poc/minidl.c:284-303 | the value for each relocation type, modulo 2^64 |
| ElfReloc.ResolveSymbol | tools/dlopen-poc/minidl.c:114-132 | a defined symbol's address, else the first host export of its name, else NULL |
| ElfImage.SegmentIsPlaced | tools/dlopen-poc/minidl.c:213-248 | with page-disjoint segments, every load segment's file bytes are at its address and the rest of a writable one up to memsz is zero; only a segment mapped from the file needs a congruent offset |
| ElfImage.SpanCovers | tools/dlopen-poc/minidl.c:177-203 | the reserved span covers every page-rounded load segment |
| ElfImage.ComputeSpan | tools/dlopen-poc/minidl.c:177-189 | vmin, vmax and the dynamic section's address as least start, greatest end and last occurrence |
| ElfImage.MapSegments | tools/dlopen-poc/minidl.c:213-248 | maps all load segments in header order into the span and touches nothing else |
| ElfImage.MapAnonymous | tools/dlopen-poc/minidl.c:225-236 | zeroed pages with the file bytes copied in |
| ElfImage.MapFromFile | tools/dlopen-poc/minidl.c:237-247 | file pages at page granularity, zeros behind the end of the file |
| Minidl.Open | tools/dlopen-poc/minidl.c:134-306 | fails exactly when specified, else returns an object whose memory is the relocated image |
| Minidl.WalkDynamic | tools/dlopen-poc/minidl.c:250-263 | of every tag the last entry before the terminator counts; a section that runs off the span faults |
| Minidl.ReadLayout | tools/dlopen-poc/minidl.c:250-269 | tables and symbol count, or the missing-table error |
| Minidl.ApplyBoth | tools/dlopen-poc/minidl.c:271-306 | the two passes are one pass over the concatenated tables |
| Minidl.SlotsDoNotMove | tools/dlopen-poc/minidl.c:273-278 | the entries' places in the span do not depend on the base |
| Minidl.Obj.Sym | tools/dlopen-poc/minidl.c:341-355 | the address of the first defined symbol of the name, NULL iff there is none |
| BoTrace.SilenceIsSound | scripts/analyze-bo-trace.py:44-79 | on every trace an empty overlap list means that at every prefix every address has at most one live handle |
| BoTrace.ReportIsRightIff | scripts/analyze-bo-trace.py:62-75 | on every trace the report is empty exactly when there is no double owner, iff there is a double owner or no event maps a handle at an address another handle holds that is still believed open |
| BoTrace.ReportsAreClashes | scripts/analyze-bo-trace.py:72-74 | on every trace the overlap list holds exactly those events, with both handles, the address and the event's number |
| BoTrace.SilenceIffNoClash | scripts/analyze-bo-trace.py:72-74 | so it is empty iff there is no such event |
| BoTrace.OwnerIsHolder | scripts/analyze-bo-trace.py:66-75 | on every trace owner maps an address to the handle last mapped there, unless a close of that handle has named the address since |
| BoTrace.LiveIsBelieved | scripts/analyze-bo-trace.py:63-76 | on every trace live holds exactly the handles mapped somewhere and not closed with an address since |
| BoTrace.SilenceIffSoleOwners | scripts/analyze-bo-trace.py:44-79 | where live handles keep their address and are closed at it, the overlap list is empty iff at every prefix every address has at most one live handle |
| BoTrace.SilentOwners | scripts/analyze-bo-trace.py:72-76 | after any silent trace owner maps each live address to its live handle, and on such traces it holds nothing else |
| BoTrace.ReportIsReal | scripts/analyze-bo-trace.py:72-74 | every report whose old handle is not closed since it was mapped there marks a second live handle, and on such traces that is every report |
| BoTrace.OpsAreCounted | scripts/analyze-bo-trace.py:60 | on every trace each operation is counted once per event |
| BoTrace.ReuseIsHistory | scripts/analyze-bo-trace.py:77 | on every trace reuse lists exactly the handles ever mapped at an address |
| BoTrace.SkippedCloseIsReported | scripts/analyze-bo-trace.py:62-70 | a trace outside that discipline with a report but no double owner |
| BoTrace.Analyze | scripts/analyze-bo-trace.py:44-79 | the loop computes the fold of its step over the events, and counts them |
| Life.StepIsConway | tools/demo-apps/life.py:107-115 | on every torus of 0s and 1s the next cell is 1 iff exactly three of the eight directions hold a live cell, or exactly two and the cell is live |
| Life.StepCommutesWithShift | tools/demo-apps/life.py:102-116 | on every torus size a generation commutes with every shift |
| Life.GliderTravels | tools/demo-apps/life.py:68-116 | on every torus of at least 6 by 6 a lone glider at any position is, after four generations, shifted by one row and one column |
| Life.InjectedGliderTravels | tools/demo-apps/life.py:80-88 | four generations after an injection on an empty field every cell is what the cell one row and one column before it was |
| Life.NextGeneration | tools/demo-apps/life.py:102-116 | the nested loops fill a fresh grid; each cell is 1 iff three of its eight wrapped neighbours are live, or two and it is live itself |
| Life.FillRow | tools/demo-apps/life.py:107-115 | one row of it, the other rows untouched |
| Life.NextState | tools/demo-apps/life.py:110-115 | one cell of it, by the remainder arithmetic of the source |
| Life.InjectGlider | tools/demo-apps/life.py:80-88 | sets exactly the glider's five cells, and nothing on fields below 6 by 6 |
| Blit.Yuv420ToFb | tools/ffmpeg-port/e4_fb_blit.h:51-108 | for every framebuffer, pitch and image size the four bytes of each visible pixel are the conversion of its own luma sample and shared chroma samples, or opaque black; margins differ by at most one; of an image authored in blocks of two by two every visible pixel is within 2 levels of its own block's colour; what lies behind the pixels of a row is untouched and every access is in bounds |
| Blit.BlocksAreShown | tools/ffmpeg-port/e4_fb_blit.h:75-107 | what is authored block by block is shown block by block |
| Blit.FillBlack | tools/ffmpeg-port/e4_fb_blit.h:60-69 | every visible pixel becomes opaque black, padding is untouched |
| Blit.DrawRow | tools/ffmpeg-port/e4_fb_blit.h:75-107 | draws the visible part of one image row on top of the earlier ones |
| Blit.DrawPixel | tools/ffmpeg-port/e4_fb_blit.h:80-106 | draws one image pixel if it is visible |
| Blit.ReadPixel | tools/ffmpeg-port/e4_fb_blit.h:89-104 | reads the luma sample and the two half-resolution chroma samples of a pixel |
| Blit.ColourRoundTrip | tools/ffmpeg-port/gen_e4_clip.py:39-48 | for all 2^24 colours the forward transform followed by the fixed-point conversion is within 2 levels in each channel |
| Blit.ForwardError | tools/ffmpeg-port/gen_e4_clip.py:43-48 | rounded and clamped luma and chroma are within half a level of the exact ones |
| Blit.SolidFrameIsShown | tools/ffmpeg-port/gen_e4_clip.py:51-63 | a solid frame of any size is shown within 2 levels wherever the image is visible, and black elsewhere |
| Nvram.SettingsAreRecovered | scripts/gen-wifi-nvram-py.py:28-48 | reading NUL-terminated entries up to the first empty one gives the stripped, non-blank, non-comment lines in order iff none contains a NUL, so always for text without NUL |
| NvramText.SettingsAreKept | scripts/gen-wifi-nvram-py.py:30-34 | of a text of blank lines, comments and settings, with white space around them and either line end, exactly the stripped settings are kept, in order |
| NvramText.EntriesAreSettings | scripts/gen-wifi-nvram-py.py:31-33 | of any text no entry is blank, begins with '#', or begins with a tab or a space |
| Nvram.NulCutsSetting | scripts/gen-wifi-nvram-py.py:30-37 | a line with a NUL inside is not read back |
| Nvram.StripNvram | scripts/gen-wifi-nvram-py.py:28-48 | the output is the terminated entries followed by at least one NUL, up to 4 bytes less than the next multiple of 64 |
| Nvram.Pad | scripts/gen-wifi-nvram-py.py:36-48 | the three padding steps in closed form |
| Nvram.BlobShape | scripts/gen-wifi-nvram-py.py:51-55 | the blob is a multiple of 64 bytes that keeps the data and ends in the token; below 65536 words the low half is the word count and the high half its complement |
| LogCollapse.LogIsRestoredIff | scripts/collapse-uart-log-floods.py:32-61 | for every log without marker lines, expanding the markers of the output gives the log back iff every run has length 1 or more than min_run |
| LogCollapse.ShortRunIsLost | scripts/collapse-uart-log-floods.py:46-48 | a line written twice comes back once when min_run is 2 |
| LogCollapse.OutputIsDeduplicated | scripts/collapse-uart-log-floods.py:35-61 | the output without markers is the log without consecutive duplicates |
| LogCollapse.Collapse | scripts/collapse-uart-log-floods.py:35-61 | the streaming loop writes every maximal run's line and marker, and counts the marked runs and the sum of their lengths minus 1 |
| LogCollapse.Collapser.Emit | scripts/collapse-uart-log-floods.py:42-50 | closes the open run: its line, a marker if it is long, and the counters |
| LogCollapse.CountersAddUp | scripts/collapse-uart-log-floods.py:46-50 | runs is the number of marker lines, dropped the number of lines that expanding them brings back |
| LogCollapse.DecimalDenotes | scripts/collapse-uart-log-floods.py:48-48 | the count in a marker is the decimal number of the repetitions |
| LogCollapse.RunsAreMaximal | scripts/collapse-uart-log-floods.py:52-58 | runs hold log lines at least once and neighbouring runs differ |
| LogCollapse.ExpandOfRuns | scripts/collapse-uart-log-floods.py:52-58 | the runs expand to the log |
| LogCollapse.MarkerIsInjective | scripts/collapse-uart-log-floods.py:32-48 | a marker line tells its count |

## Left out

- Mp4Writer.Mp4ToAnnexB: offsets and lengths are natural numbers; the wrap-around of the 32-bit and 64-bit offsets of the C code and a failing allocation are not modelled, and error texts are an enumeration.
- OutBuffer.OBuf.Put: doubling of the 32-bit capacity does not wrap and reallocation succeeds.
- LedRoundTrip.SentIsReceived: times are real numbers instead of floats, thresholds are inputs (a number or the NaN for "too little data"), and the frame rate is positive.
- LedInterpret.Interpret: only bit-code layouts, and only the matched run and the expected stage; unmatched groups, labels, special terminal stages and the inference text are not modelled.
- Minidl.Open: file reading, header checks, mmap and munmap failures, page protections and DT_INIT_ARRAY calls are not modelled; an access outside the span is an error value, and a string that runs off the span ends with it.
- Minidl.Obj.Sym: closing an object and a null object handle are not modelled.
- ElfImage.MapFromFile: the memory of a read-only segment beyond its file pages is left as reserved, as in the code; protections are not modelled.
- BoTrace.Analyze: events are records; the regular expression that finds them is not modelled, and addresses are numbers instead of hexadecimal strings.
- Blit.Yuv420ToFb: sizes, strides and pitch are non-negative and rows do not overlap.
- Blit.ForwardError: the forward transform uses exact decimal coefficients instead of floats, rounding ties to even.
- Nvram.StripNvram: the text is ASCII; the encoding error for other text is not modelled.
- LogCollapse.Collapse: lines are given as a sequence; latin-1 decoding, the replacement of the file and an unterminated last line are not modelled.
- Life.InjectGlider: the drawn position is an argument; seeding, rendering and stagnation handling are not modelled.
- Statistics that turn video frames into a mask (k-means, moving averages, region detection), the pulse-count mode of the interpreter, trace-header scraping and header printing, and the splitter of gen-clip-header.py.
- Hardware probes, test harnesses, build drivers and I/O: they drive devices or libraries the model cannot see.
