// The demuxer's inverse: every content is carried by files of many shapes, and comes back from each of them unchanged.

module Mp4Mux {
  import opened Bytes
  import opened AnnexB
  import opened BoxTree
  import opened BoxWalk
  import opened SampleIndex
  import opened NalFraming
  import opened Mp4Demux
  import opened Mp4Guarantee
  import opened Mp4Boxes
  import opened Mp4Media
  import opened Mp4File
  import opened Mp4FileTree

  // ----- the tables

  /** The record is where the description says. */
  lemma RecordStands(buf: seq<byte>, c: Content)
    requires Shaped(c) && HoldsAt(buf, StsdAt(c), StsdBox(c)) && StszAt(c) <= |buf| < TWO32
    ensures var at, rec := HvccAt(c) + 8, RecordOf(c); at + |rec| <= |buf| && buf[at..at + |rec|] == rec
  {
    hide PrintBox, RecordOf, HvccAt, StsdAt, StszAt, StsdBox, EntryPayload, Rd32;
    EntryHolds(buf, c);
    InBox(buf, HvccAt(c), Short, T_HVCC, RecordOf(c));
  }

  lemma RecordFields(c: Content)
    requires Shaped(c)
    ensures var rec := RecordOf(c);
            rec[21] == c.prefix[21] && rec[22] == |c.arrays| && HoldsAt(rec, 23, PrintArrays(c.arrays))
  {
    hide PrintArrays;
    var head := c.prefix + [|c.arrays|];
    assert head[21] == c.prefix[21] && head[22] == |c.arrays|;
    Behind(head, PrintArrays(c.arrays));
  }

  lemma Behind(head: seq<byte>, tail: seq<byte>)
    ensures HoldsAt(head + tail, |head|, tail)
    ensures forall i :: 0 <= i < |head| ==> (head + tail)[i] == head[i]
  {
  }

  lemma MediaStands(buf: seq<byte>, c: Content)
    requires Shaped(c) && LaidOnTop(buf, c)
    ensures HoldsAt(buf, DataAt(c), Media(c))
  {
    hide HoldsAt, PrintBox, MdatAt, Media, Hdr, MoovBox, FtypBox, MoovAt, Shaped;
    InBox(buf, MdatAt(c), c.form(T_MDAT), T_MDAT, Media(c));
  }

  function IndexOfContent(c: Content): Index
    requires Shaped(c)
  {
    IndexOfMedia(c.runs, Width(c), DataAt(c))
  }

  lemma SampleStands(buf: seq<byte>, c: Content, k: nat)
    requires Muxable(c) && LaidOnTop(buf, c) && k < |Samples(c)|
    ensures SampleHolds(buf, IndexOfContent(c), k, Width(c), Samples(c)[k])
    ensures Sizes(Samples(c), Width(c))[k] <= |buf|
  {
    hide HoldsAt, DataAt, Mux, Framable, Printable, RunsDescribe, SampleHolds, LaidOnTop, SamplesOf;
    MediaStands(buf, c);
    RunsNotEmpty(c);
    SampleIsHeld(buf, c.runs, Width(c), DataAt(c), k);
    HeldFits(buf, IndexOfContent(c), k, Width(c), Samples(c)[k]);
  }

  lemma RunsNotEmpty(c: Content)
    requires Samples(c) != []
    ensures c.runs != []
  {
  }

  lemma HeldFits(buf: seq<byte>, ix: Index, k: nat, w: nat, nals: seq<Nal>)
    requires SampleHolds(buf, ix, k, w, nals)
    ensures k < |ix.sizes| && ix.sizes[k] <= |buf|
  {
  }

  lemma ChunkStands(buf: seq<byte>, c: Content, i: nat)
    requires Shaped(c) && LaidOnTop(buf, c) && i < |Chunks(c)|
    ensures Offsets(c)[i] <= |buf|
  {
    hide DataAt, Mux, LaidOnTop, MediaOf, OffsetsOf;
    MediaStands(buf, c);
    ChunkIsHeld(buf, DataAt(c), Chunks(c), Width(c), i);
  }

  /** The size table: told once, or one by one. */
  ghost predicate SizesStand(buf: seq<byte>, c: Content, sizes: seq<nat>)
    requires Shaped(c)
  {
    var at := StszAt(c) + Hdr(c.form(T_STSZ));
    && at + 4 * |SizeWords(c)| <= |buf| && |SizeWords(c)| == (if c.common then 3 else 3 + |sizes|)
    && Rd32(buf, at + 8) == |sizes| && (c.common <==> Rd32(buf, at + 4) != 0)
    && forall k :: 0 <= k < |sizes| ==> SizeStands(buf, at, k, c.common, sizes[k])
  }

  ghost predicate SizeStands(buf: seq<byte>, at: nat, k: nat, common: bool, size: nat)
    requires at + 12 <= |buf|
  {
    if common then Rd32(buf, at + 4) == size else at + 12 + 4 * k + 4 <= |buf| && Rd32(buf, at + 12 + 4 * k) == size
  }

  lemma SizesRead(buf: seq<byte>, c: Content)
    requires Muxable(c) && LaidOnTop(buf, c) && HoldsAt(buf, StszAt(c), StszBox(c)) && |buf| < TWO32
    ensures SizesStand(buf, c, Sizes(Samples(c), Width(c)))
  {
    hide HoldsAt, PrintBox, Words, Rd32, Hdr, StszAt, Mux, Sizes, Samples, Printable, Framable, RunsDescribe,
         LaidOnTop;
    var at, sizes, ws := StszAt(c) + Hdr(c.form(T_STSZ)), Sizes(Samples(c), Width(c)), SizeWords(c);
    InBox(buf, StszAt(c), c.form(T_STSZ), T_STSZ, Words(ws));
    WordsFit(buf, at, ws);
    forall k | 0 <= k < |sizes|
      ensures sizes[k] < TWO32
    {
      SampleStands(buf, c, k);
    }
    WordsRead(buf, at, ws, 1);
    WordsRead(buf, at, ws, 2);
    if !c.common {
      forall k | 0 <= k < |sizes|
        ensures SizeStands(buf, at, k, c.common, sizes[k])
      {
        WordsRead(buf, at, ws, k + 3);
      }
    }
  }

  lemma {:induction false} WordsFit(buf: seq<byte>, at: nat, ws: seq<nat>)
    requires HoldsAt(buf, at, Words(ws))
    ensures at + 4 * |ws| <= |buf|
  {
  }

  /** The chunk table, in either width. */
  ghost predicate OffsetsStand(buf: seq<byte>, c: Content)
    requires Shaped(c)
  {
    var at := StcoAt(c) + Hdr(c.form(OffsetTag(c)));
    && at + |OffsetPayload(c.wide, Offsets(c))| <= |buf|
    && Rd32(buf, at + 4) == |Offsets(c)|
    && forall i :: 0 <= i < |Offsets(c)| ==> OffsetStands(buf, at, i, c.wide, Offsets(c)[i])
  }

  ghost predicate OffsetStands(buf: seq<byte>, at: nat, i: nat, wide: bool, off: nat) {
    if wide then at + 8 + 8 * i + 8 <= |buf| && Rd64(buf, at + 8 + 8 * i) == off
    else at + 8 + 4 * i + 4 <= |buf| && Rd32(buf, at + 8 + 4 * i) == off
  }

  lemma OffsetsRead(buf: seq<byte>, c: Content)
    requires Shaped(c) && LaidOnTop(buf, c) && HoldsAt(buf, StcoAt(c), StcoBox(c)) && |buf| < TWO32
    ensures OffsetsStand(buf, c)
  {
    hide PrintBox, Words, Longs, Rd32, Rd64, Hdr, StcoAt, Mux, Offsets, LaidOnTop, Shaped;
    var at, offs := StcoAt(c) + Hdr(c.form(OffsetTag(c))), Offsets(c);
    InBox(buf, StcoAt(c), c.form(OffsetTag(c)), OffsetTag(c), OffsetPayload(c.wide, offs));
    var head, table := Words([0, |offs|]), if c.wide then Longs(offs) else Words(offs);
    HoldsAtConcat(buf, at, head, table);
    WordsRead(buf, at, [0, |offs|], 1);
    forall i | 0 <= i < |offs|
      ensures OffsetStands(buf, at, i, c.wide, offs[i])
    {
      ChunkStands(buf, c, i);
      if c.wide {
        LongsRead(buf, at + 8, offs, i);
      } else {
        WordsRead(buf, at + 8, offs, i);
      }
    }
  }

  lemma {:induction false} RunWordsAt(table: seq<Run>, r: nat)
    requires r < |table|
    ensures RunWords(table)[3 * r] == table[r].first && RunWords(table)[3 * r + 1] == table[r].perChunk
  {
    if r > 0 {
      RunWordsAt(table[1..], r - 1);
      var head := [table[0].first, table[0].perChunk, 1];
      assert RunWords(table)[3 * r] == RunWords(table[1..])[3 * (r - 1)];
      assert RunWords(table)[3 * r + 1] == RunWords(table[1..])[3 * (r - 1) + 1];
    }
  }

  /** The run table. */
  ghost predicate RunsStand(buf: seq<byte>, c: Content)
    requires Shaped(c)
  {
    var at, table := StscAt(c) + Hdr(c.form(T_STSC)), RunTable(c.runs, 1);
    && at + 4 * |StscWords(c)| <= |buf| && |StscWords(c)| == 2 + 3 * |table|
    && Rd32(buf, at + 4) == |table|
    && forall r :: 0 <= r < |table| ==> RunStands(buf, at, r, table[r])
  }

  ghost predicate RunStands(buf: seq<byte>, at: nat, r: nat, run: Run) {
    && at + 8 + 12 * r + 8 <= |buf|
    && Rd32(buf, at + 8 + 12 * r) == run.first && Rd32(buf, at + 8 + 12 * r + 4) == run.perChunk
  }

  lemma RunFits(c: Content, r: nat)
    requires Muxable(c) && r < |c.runs|
    ensures var run := RunTable(c.runs, 1)[r];
            run.first <= |Chunks(c)| + 1 && run.perChunk == c.runs[r].perChunk < TWO32
  {
    hide Mux, Sizes, Printable, Framable, Samples, DataAt;
    var ix := IndexOfContent(c);
    StartsWhole(c.runs, Width(c), DataAt(c));
    AllRunsOk(ix, 0, c.runs, 1);
    assert RunOk(ix, r);
    PerChunkAt(c.runs, 1, r);
  }

  lemma {:induction false} PerChunkAt(runs: seq<MediaRun>, first: nat, r: nat)
    requires r < |runs|
    ensures RunTable(runs, first)[r].perChunk == runs[r].perChunk
    decreases r
  {
    if r > 0 {
      PerChunkAt(runs[1..], first + |runs[0].chunks|, r - 1);
    }
  }

  lemma RunsRead(buf: seq<byte>, c: Content)
    requires Shaped(c) && Muxable(c) && HoldsAt(buf, StscAt(c), StscBox(c)) && OffsetsStand(buf, c) && |buf| < TWO32
    ensures RunsStand(buf, c)
  {
    hide HoldsAt, PrintBox, Words, Rd32, Hdr, StscAt, StcoAt, Mux, Muxable, RunTable, RunWords, Chunks, OffsetStands,
         Shaped;
    var at, table, ws := StscAt(c) + Hdr(c.form(T_STSC)), RunTable(c.runs, 1), StscWords(c);
    InBox(buf, StscAt(c), c.form(T_STSC), T_STSC, Words(ws));
    WordsFit(buf, at, ws);
    WordsRead(buf, at, ws, 1);
    forall r | 0 <= r < |table|
      ensures RunStands(buf, at, r, table[r])
    {
      RunFits(c, r);
      RunWordsAt(table, r);
      assert ws[3 * r + 2] == table[r].first && ws[3 * r + 3] == table[r].perChunk;
      WordsRead(buf, at, ws, 3 * r + 2);
      WordsRead(buf, at, ws, 3 * r + 3);
    }
  }

  /** The tables, read as the demuxer reads them, are the content's. */
  lemma TablesDescribe(buf: seq<byte>, c: Content)
    requires Shaped(c) && Samples(c) != [] && Chunks(c) != [] && c.runs != []
    requires var at, rec := HvccAt(c) + 8, RecordOf(c); at + |rec| <= |buf| && buf[at..at + |rec|] == rec
    requires SizesStand(buf, c, Sizes(Samples(c), Width(c))) && OffsetsStand(buf, c) && RunsStand(buf, c)
    ensures TablesOk(buf, Described(c)) && Record(buf, Described(c)) == RecordOf(c)
    ensures IndexOf(buf, Described(c)) == IndexOfContent(c)
  {
    hide Rd32, Rd64, HvccAt, StszAt, StcoAt, StscAt, Hdr, RecordOf, SizeWords, StscWords, Shaped, DataAt, Sizes,
         Samples, OffsetStands, RunStands, SizeStands;
    assert TablesOk(buf, Described(c));
    SizesDescribe(buf, c);
    OffsetsDescribe(buf, c);
    RunsDescribed(buf, c);
    SamplesOfIndex(c);
  }

  lemma SamplesOfIndex(c: Content)
    requires Shaped(c)
    ensures IndexOfContent(c) == Index(Sizes(Samples(c), Width(c)), Offsets(c), RunTable(c.runs, 1))
  {
    hide DataAt, Sizes;
  }

  lemma SizesDescribe(buf: seq<byte>, c: Content)
    requires Shaped(c) && TablesOk(buf, Described(c)) && SizesStand(buf, c, Sizes(Samples(c), Width(c)))
    ensures IndexOf(buf, Described(c)).sizes == Sizes(Samples(c), Width(c))
  {
    hide Rd32, Rd64, HvccAt, StszAt, StcoAt, StscAt, Hdr, RecordOf, SizeWords, StscWords, Sizes, Samples, Offsets,
         OffsetPayload, TablesOk;
    var t, sizes := Described(c), Sizes(Samples(c), Width(c));
    forall k | 0 <= k < |sizes|
      ensures SizeAt(buf, t, k) == sizes[k]
    {
      assert SizeStands(buf, t.stsz.off, k, c.common, sizes[k]);
    }
  }

  lemma OffsetsDescribe(buf: seq<byte>, c: Content)
    requires Shaped(c) && TablesOk(buf, Described(c)) && OffsetsStand(buf, c)
    ensures IndexOf(buf, Described(c)).chunks == Offsets(c)
  {
    hide Rd32, Rd64, HvccAt, StszAt, StcoAt, StscAt, Hdr, RecordOf, SizeWords, StscWords, Shaped, Offsets,
         OffsetPayload, TablesOk;
    var t := Described(c);
    forall i | 0 <= i < |Offsets(c)|
      ensures ChunkAt(buf, t, i) == Offsets(c)[i]
    {
      assert OffsetStands(buf, t.stco.off, i, c.wide, Offsets(c)[i]);
    }
  }

  lemma RunsDescribed(buf: seq<byte>, c: Content)
    requires Shaped(c) && TablesOk(buf, Described(c)) && RunsStand(buf, c)
    ensures IndexOf(buf, Described(c)).runs == RunTable(c.runs, 1)
  {
    hide Rd32, Rd64, HvccAt, StszAt, StcoAt, StscAt, Hdr, RecordOf, SizeWords, StscWords, Shaped, Offsets,
         OffsetPayload, TablesOk, RunTable;
    var t, table := Described(c), RunTable(c.runs, 1);
    forall r | 0 <= r < |table|
      ensures RunAt(buf, t, r) == table[r]
    {
      assert RunStands(buf, t.stsc.off, r, table[r]);
    }
  }

  lemma SamplesNeedChunks(c: Content)
    requires Samples(c) != []
    ensures Chunks(c) != [] && c.runs != []
  {
  }

  /** Main result: every content is carried by a file. */
  lemma MuxedFileIsHevc(c: Content)
    requires Muxable(c)
    ensures IsHevcFile(Mux(c), FileTrees(c), TrakTree(c), c.arrays, Samples(c))
  {
    hide HoldsAt, Parse, FileTrees, TrakTree, TopBoxes, VideoTracks, TrackOfBox, TablesOk, Described, IndexOfContent,
         SampleHolds, RunsCover, PrintArrays, Mux, LaidOnTop, RecordOf, StsdAt, StsdBox, StszAt, StszBox, StscAt,
         StscBox, StcoAt, StcoBox, AllTop, HdlrAt, HdlrBox, SoundAt, SoundTrack, TrakAt, TrakBox, MdiaAt, MdiaBox,
         MinfAt, MinfBox, StblAt, StblBox;
    var buf := Mux(c);
    FileIsLaid(c);
    FileParses(buf, c);
    TopIs(c);
    VideoTrackIs(buf, c);
    TrackIsDescribed(buf, c);
    TablesAreRead(buf, c);
    RecordFields(c);
    forall k | 0 <= k < |Samples(c)|
      ensures SampleHolds(buf, IndexOfContent(c), k, Width(c), Samples(c)[k])
    {
      SampleStands(buf, c, k);
    }
    SamplesNeedChunks(c);
    CoverIs(c);
  }

  lemma CoverIs(c: Content)
    requires Muxable(c)
    ensures RunsCover(IndexOfContent(c)) && |IndexOfContent(c).sizes| == |Samples(c)|
  {
    hide RunsCover, Mux;
    RunsNotEmpty(c);
    MediaIsCovered(c.runs, Width(c), DataAt(c));
  }

  lemma TablesAreRead(buf: seq<byte>, c: Content)
    requires Muxable(c) && LaidOnTop(buf, c) && LaidInTable(buf, c) && |buf| < TWO32
    ensures TablesOk(buf, Described(c)) && Record(buf, Described(c)) == RecordOf(c)
    ensures IndexOf(buf, Described(c)) == IndexOfContent(c)
  {
    hide HoldsAt, LaidOnTop, Described, IndexOfContent, RecordOf, StsdAt, StsdBox, StszAt, StszBox, StscAt, StscBox,
         StcoAt, StcoBox, Mux, SizesStand, OffsetsStand, RunsStand, HvccAt, Samples, Chunks, TablesOk;
    SamplesNeedChunks(c);
    MovieInFile(buf, c);
    RecordStands(buf, c);
    SizesRead(buf, c);
    OffsetsRead(buf, c);
    RunsRead(buf, c);
    TablesDescribe(buf, c);
  }

  lemma MovieInFile(buf: seq<byte>, c: Content)
    requires Shaped(c) && LaidOnTop(buf, c)
    ensures StszAt(c) <= MdatAt(c) <= |buf|
  {
    hide StsdAt, StsdPayload, SizeWords, StscWords, OffsetPayload, MoovAt, MoovBox, FtypBox, MdatBox, HoldsAt;
    TableFits(c);
  }

  /** And the demuxer delivers exactly what the file was made of, unless that is nothing. */
  lemma MuxedFileIsDemuxed(c: Content)
    requires Muxable(c) && AllNals(c.arrays, Samples(c)) != []
    ensures DemuxNals(Mux(c)) == Success(AllNals(c.arrays, Samples(c)))
  {
    MuxedFileIsHevc(c);
    DemuxSucceedsIff(Mux(c), AllNals(c.arrays, Samples(c)));
  }

  /** A file with a fragment is refused. */
  lemma FragmentIsRefused(f: Form, payload: seq<byte>)
    requires |PrintBox(f, T_MOOF, payload)| < TWO32
    ensures DemuxNals(PrintBox(f, T_MOOF, payload)) == Failure(Fragmented)
  {
    hide PrintBox, TagValue, Hdr, Parse;
    KnownTags();
    OtherTags();
    var buf, box := PrintBox(f, T_MOOF, payload), BoxAt(Top, f, T_MOOF, 0, |payload|, []);
    WholeHolds(buf);
    NothingParses(buf, Top, |buf|, [box]);
    LeafParses(buf, Top, 0, |buf|, f, T_MOOF, payload, [box], 0);
    assert [box][0..] == [box];
    TopBoxOf(box, []);
    assert [box] + [] == [box];
    assert [box][..0] == [];
  }

  /** One sample of one NAL of one byte, with a sound track beside it, is such a content. */
  lemma SmallestFile(c: Content)
    requires Shaped(c) && c.brands == [] && c.sound && c.arrays == [] && c.colour == [] && !c.common && Width(c) == 4
    requires c.runs == [MediaRun(1, [Chunk([], [[[64]]])])]
    ensures Muxable(c) && DemuxNals(Mux(c)) == Success([[64]])
  {
    hide DemuxNals, Mux;
    OneSample(c);
    SmallSize(c);
    MuxedFileIsDemuxed(c);
  }

  lemma OneSample(c: Content)
    requires Shaped(c) && c.arrays == [] && Width(c) == 4 && c.runs == [MediaRun(1, [Chunk([], [[[64]]])])]
    ensures Chunks(c) == [Chunk([], [[[64]]])] && Samples(c) == [[[64]]] && RunsDescribe(c.runs)
    ensures AllNals(c.arrays, Samples(c)) == [[64]] && Framable([[64]], 4) && |LengthPrefixed([[64]], 4)| == 5
  {
    var chunk := Chunk([], [[[64]]]);
    assert c.runs[1..] == [] && ChunksOf([]) == [] && c.runs[0].chunks == [chunk];
    assert [chunk] + [] == [chunk] && [chunk][1..] == [] && SamplesOf([]) == [];
    var nals: seq<Nal> := [[64]];
    assert [nals] + [] == [nals] && [nals][1..] == [] && Flatten([nals]) == nals + [];
    assert nals[1..] == [] && LengthPrefixed([], 4) == [];
    assert Pow256(4) > 1 by {
      assert Pow256(4) == 256 * Pow256(3);
    }
    assert RunDescribes(c.runs, 0);
  }

  lemma SmallSize(c: Content)
    requires Shaped(c) && c.brands == [] && c.sound && c.arrays == [] && c.colour == [] && Width(c) == 4
    requires c.runs == [MediaRun(1, [Chunk([], [[[64]]])])]
    ensures |Mux(c)| < 1000
  {
    OneSample(c);
    var chunk := Chunk([], [[[64]]]);
    assert [chunk][1..] == [] && MediaOf([], 4) == [];
    assert Frames([[[64]]], 4) == [LengthPrefixed([[64]], 4)];
    assert Flatten(Frames([[[64]]], 4)) == LengthPrefixed([[64]], 4) + [] by {
      assert Frames([[[64]]], 4)[1..] == [];
    }
    assert |Media(c)| == 5;
    assert RunTable(c.runs[1..], 2) == [];
    assert |RecordOf(c)| == 23;
    FileSize(c);
  }

  lemma FileSize(c: Content)
    requires Shaped(c)
    ensures |Mux(c)| <= |c.brands| + |c.colour| + |RecordOf(c)| + 4 * |SizeWords(c)| + 4 * |StscWords(c)|
                        + 8 * |Chunks(c)| + |Media(c)| + 400
  {
    hide Words, PrintBox, RecordOf, SizeWords, StscWords, Offsets, OffsetPayload, Media, FtypBox, SoundTrack, HdlrBox,
         StsdAt, StsdPayload, MoovBox, Chunks;
    MoovFits(c);
    SoundFits(c);
    TrakFits(c);
    MdiaFits(c);
    HdlrFits(c);
    MinfFits(c);
    StblFits(c);
    TableFits(c);
    assert |StsdPayload(c)| == 16 + 86 + |c.colour| + 8 + |RecordOf(c)|;
    assert |OffsetPayload(c.wide, Offsets(c))| <= 8 + 8 * |Chunks(c)|;
    assert |MdatBox(c)| == Hdr(c.form(T_MDAT)) + |Media(c)|;
  }
}
