// A printer of whole MP4 files with the nesting of real ones: ftyp, moov { trak { mdia { hdlr, minf { stbl { stsd,
// stsz, stsc, stco or co64 } } } } }, mdat; and where each box of a printed file stands.

module Mp4File {
  import opened Bytes
  import opened AnnexB
  import opened BoxTree
  import opened BoxWalk
  import opened SampleIndex
  import opened NalFraming
  import opened Mp4Demux
  import opened Mp4Guarantee
  import opened Mp4Boxes
  import opened Mp4Media

  /** What a file is made from. The first 22 bytes of the decoder record are free; their last one tells the width of the
      NAL lengths. Offsets have 32 or 64 bits, sizes stand in a table or are told once. */
  datatype Content = Content(
    brands: seq<byte>, sound: bool,
    prefix: seq<byte>, arrays: seq<PsArray>,
    hvc1: bool, visual: seq<byte>, colour: seq<byte>,
    wide: bool, common: bool,
    runs: seq<MediaRun>,
    form: Four -> Form)

  function Width(c: Content): nat
    requires |c.prefix| == 22
  {
    c.prefix[21] % 4 + 1
  }

  /** The parts have their fixed sizes; only boxes at the end of their range leave their size open. */
  predicate Shaped(c: Content) {
    && |c.prefix| == 22 && |c.visual| == 78 && |c.arrays| < 256
    && c.form(T_FTYP) != ToEnd && c.form(T_MOOV) != ToEnd && c.form(T_HDLR) != ToEnd
    && c.form(T_STSD) != ToEnd && c.form(T_STSZ) != ToEnd && c.form(T_STSC) != ToEnd
  }

  function Chunks(c: Content): seq<Chunk> {
    ChunksOf(c.runs)
  }

  function Samples(c: Content): seq<seq<Nal>> {
    SamplesOf(Chunks(c))
  }

  // ----- the boxes, from the inside out

  function RecordOf(c: Content): (rec: seq<byte>)
    requires Shaped(c)
    ensures |rec| == 23 + |PrintArrays(c.arrays)|
  {
    c.prefix + [|c.arrays|] + PrintArrays(c.arrays)
  }

  function EntryTag(c: Content): Four {
    if c.hvc1 then T_HVC1 else T_HEV1
  }

  function EntryPayload(c: Content): (s: seq<byte>)
    requires Shaped(c)
    ensures |s| == 86 + |c.colour| + 8 + |RecordOf(c)|
  {
    c.visual + (PrintBox(Short, T_COLR, c.colour) + PrintBox(Short, T_HVCC, RecordOf(c)))
  }

  function StsdPayload(c: Content): (s: seq<byte>)
    requires Shaped(c)
    ensures |s| == 16 + |EntryPayload(c)|
  {
    Words([0, 1]) + PrintBox(Short, EntryTag(c), EntryPayload(c))
  }

  function SizeWords(c: Content): seq<nat>
    requires Shaped(c)
  {
    var sizes := Sizes(Samples(c), Width(c));
    if c.common && sizes != [] then [0, sizes[0], |sizes|] else [0, 0, |sizes|] + sizes
  }

  function RunWords(table: seq<Run>): (ws: seq<nat>)
    ensures |ws| == 3 * |table|
  {
    if table == [] then [] else [table[0].first, table[0].perChunk, 1] + RunWords(table[1..])
  }

  function StscWords(c: Content): seq<nat> {
    [0, |c.runs|] + RunWords(RunTable(c.runs, 1))
  }

  function OffsetTag(c: Content): Four {
    if c.wide then T_CO64 else T_STCO
  }

  function OffsetPayload(wide: bool, offs: seq<nat>): (s: seq<byte>)
    ensures |s| == 8 + (if wide then 8 else 4) * |offs|
  {
    Words([0, |offs|]) + if wide then Longs(offs) else Words(offs)
  }

  function HdlrPayload(kind: Four): (s: seq<byte>)
    ensures |s| == 12
  {
    Words([0, 0]) + Tag(kind)
  }

  /** A sound track of three nested boxes. */
  function SoundBox(): (s: seq<byte>)
    ensures |s| == 36
  {
    PrintBox(Short, T_TRAK, PrintBox(Short, T_MDIA, PrintBox(Short, T_HDLR, HdlrPayload(T_SOUN))))
  }

  function SoundTrack(c: Content): seq<byte> {
    if c.sound then SoundBox() else []
  }

  // ----- positions

  function FtypBox(c: Content): seq<byte> {
    PrintBox(c.form(T_FTYP), T_FTYP, c.brands)
  }

  function HdlrBox(c: Content): seq<byte> {
    PrintBox(c.form(T_HDLR), T_HDLR, HdlrPayload(T_VIDE))
  }

  function StsdBox(c: Content): seq<byte>
    requires Shaped(c)
  {
    PrintBox(c.form(T_STSD), T_STSD, StsdPayload(c))
  }

  function StszBox(c: Content): seq<byte>
    requires Shaped(c)
  {
    PrintBox(c.form(T_STSZ), T_STSZ, Words(SizeWords(c)))
  }

  function StscBox(c: Content): seq<byte> {
    PrintBox(c.form(T_STSC), T_STSC, Words(StscWords(c)))
  }

  function MoovAt(c: Content): nat {
    |FtypBox(c)|
  }

  function SoundAt(c: Content): nat {
    MoovAt(c) + Hdr(c.form(T_MOOV))
  }

  function TrakAt(c: Content): nat {
    SoundAt(c) + |SoundTrack(c)|
  }

  function MdiaAt(c: Content): nat {
    TrakAt(c) + Hdr(c.form(T_TRAK))
  }

  function HdlrAt(c: Content): nat {
    MdiaAt(c) + Hdr(c.form(T_MDIA))
  }

  function MinfAt(c: Content): nat {
    HdlrAt(c) + |HdlrBox(c)|
  }

  function StblAt(c: Content): nat {
    MinfAt(c) + Hdr(c.form(T_MINF))
  }

  function StsdAt(c: Content): nat {
    StblAt(c) + Hdr(c.form(T_STBL))
  }

  function StszAt(c: Content): nat
    requires Shaped(c)
  {
    StsdAt(c) + |StsdBox(c)|
  }

  function StscAt(c: Content): nat
    requires Shaped(c)
  {
    StszAt(c) + |StszBox(c)|
  }

  function StcoAt(c: Content): nat
    requires Shaped(c)
  {
    StscAt(c) + |StscBox(c)|
  }

  /** Where the movie ends and the media data box begins. */
  function MdatAt(c: Content): nat
    requires Shaped(c)
  {
    StcoAt(c) + Hdr(c.form(OffsetTag(c))) + 8 + (if c.wide then 8 else 4) * |Chunks(c)|
  }

  function DataAt(c: Content): nat
    requires Shaped(c)
  {
    MdatAt(c) + Hdr(c.form(T_MDAT))
  }

  function Offsets(c: Content): (offs: seq<nat>)
    requires Shaped(c)
    ensures |offs| == |Chunks(c)|
  {
    OffsetsOf(Chunks(c), Width(c), DataAt(c))
  }

  // ----- the file

  function StcoBox(c: Content): (s: seq<byte>)
    requires Shaped(c)
    ensures StcoAt(c) + |s| == MdatAt(c)
  {
    PrintBox(c.form(OffsetTag(c)), OffsetTag(c), OffsetPayload(c.wide, Offsets(c)))
  }

  function StblPayload(c: Content): (s: seq<byte>)
    requires Shaped(c)
    ensures StsdAt(c) + |s| == MdatAt(c)
  {
    StsdBox(c) + (StszBox(c) + (StscBox(c) + StcoBox(c)))
  }

  function StblBox(c: Content): (s: seq<byte>)
    requires Shaped(c)
    ensures StblAt(c) + |s| == MdatAt(c)
  {
    PrintBox(c.form(T_STBL), T_STBL, StblPayload(c))
  }

  function MinfBox(c: Content): (s: seq<byte>)
    requires Shaped(c)
    ensures MinfAt(c) + |s| == MdatAt(c)
  {
    PrintBox(c.form(T_MINF), T_MINF, StblBox(c))
  }

  function MdiaPayload(c: Content): (s: seq<byte>)
    requires Shaped(c)
    ensures HdlrAt(c) + |s| == MdatAt(c)
  {
    HdlrBox(c) + MinfBox(c)
  }

  function MdiaBox(c: Content): (s: seq<byte>)
    requires Shaped(c)
    ensures MdiaAt(c) + |s| == MdatAt(c)
  {
    PrintBox(c.form(T_MDIA), T_MDIA, MdiaPayload(c))
  }

  function TrakBox(c: Content): (s: seq<byte>)
    requires Shaped(c)
    ensures TrakAt(c) + |s| == MdatAt(c)
  {
    PrintBox(c.form(T_TRAK), T_TRAK, MdiaBox(c))
  }

  function MoovPayload(c: Content): (s: seq<byte>)
    requires Shaped(c)
    ensures SoundAt(c) + |s| == MdatAt(c)
  {
    SoundTrack(c) + TrakBox(c)
  }

  function MoovBox(c: Content): (s: seq<byte>)
    requires Shaped(c)
    ensures MoovAt(c) + |s| == MdatAt(c)
  {
    PrintBox(c.form(T_MOOV), T_MOOV, MoovPayload(c))
  }

  function Media(c: Content): seq<byte>
    requires Shaped(c)
  {
    MediaOf(Chunks(c), Width(c))
  }

  function MdatBox(c: Content): (s: seq<byte>)
    requires Shaped(c)
    ensures MdatAt(c) + |s| == DataAt(c) + |Media(c)|
  {
    PrintBox(c.form(T_MDAT), T_MDAT, Media(c))
  }

  function Mux(c: Content): (buf: seq<byte>)
    requires Shaped(c)
    ensures |buf| == MdatAt(c) + |MdatBox(c)|
  {
    FtypBox(c) + (MoovBox(c) + MdatBox(c))
  }

  /** A content for which there is a file: NALs that fit their length fields, counts and a file size that fit 32
      bits. */
  ghost predicate Muxable(c: Content) {
    && Shaped(c) && Printable(c.arrays) && Samples(c) != [] && RunsDescribe(c.runs)
    && (forall k :: 0 <= k < |Samples(c)| ==> Framable(Samples(c)[k], Width(c)))
    && (c.common ==>
          var sizes := Sizes(Samples(c), Width(c));
          forall k :: 0 <= k < |sizes| ==> 0 < sizes[k] == sizes[0])
    && |Samples(c)| < TWO32 && (forall r :: 0 <= r < |c.runs| ==> c.runs[r].perChunk < TWO32)
    && |Mux(c)| < TWO32
  }

  /** What stands where. */
  ghost predicate Laid(buf: seq<byte>, c: Content)
    requires Shaped(c)
  {
    LaidOnTop(buf, c) && LaidInMovie(buf, c)
  }

  ghost predicate LaidOnTop(buf: seq<byte>, c: Content)
    requires Shaped(c)
  {
    && HoldsAt(buf, 0, FtypBox(c))
    && HoldsAt(buf, MoovAt(c), MoovBox(c))
    && HoldsAt(buf, MdatAt(c), MdatBox(c)) && |buf| == MdatAt(c) + |MdatBox(c)|
  }

  ghost predicate LaidInMovie(buf: seq<byte>, c: Content)
    requires Shaped(c)
  {
    && HoldsAt(buf, SoundAt(c), SoundTrack(c))
    && HoldsAt(buf, TrakAt(c), TrakBox(c))
    && LaidInTrack(buf, c)
  }

  ghost predicate LaidInTrack(buf: seq<byte>, c: Content)
    requires Shaped(c)
  {
    && HoldsAt(buf, MdiaAt(c), MdiaBox(c))
    && HoldsAt(buf, HdlrAt(c), HdlrBox(c))
    && HoldsAt(buf, MinfAt(c), MinfBox(c))
    && HoldsAt(buf, StblAt(c), StblBox(c))
    && LaidInTable(buf, c)
  }

  ghost predicate LaidInTable(buf: seq<byte>, c: Content)
    requires Shaped(c)
  {
    && HoldsAt(buf, StsdAt(c), StsdBox(c))
    && HoldsAt(buf, StszAt(c), StszBox(c))
    && HoldsAt(buf, StscAt(c), StscBox(c))
    && HoldsAt(buf, StcoAt(c), StcoBox(c))
  }

  lemma InBox(buf: seq<byte>, off: nat, f: Form, tag: Four, payload: seq<byte>)
    requires HoldsAt(buf, off, PrintBox(f, tag, payload))
    ensures HoldsAt(buf, off + Hdr(f), payload)
  {
    hide HoldsAt, Word, Long, Tag;
    match f
    case Short => HoldsAtConcat(buf, off, Word(8 + |payload|) + Tag(tag), payload);
    case Wide => HoldsAtConcat(buf, off, Word(1) + Tag(tag) + Long(16 + |payload|), payload);
    case ToEnd => HoldsAtConcat(buf, off, Word(0) + Tag(tag), payload);
  }

  lemma WholeHolds(buf: seq<byte>)
    ensures HoldsAt(buf, 0, buf)
  {
  }

  /** Each position lies behind what stands before it. */
  lemma Positions(c: Content)
    ensures MoovAt(c) == |FtypBox(c)| && SoundAt(c) == MoovAt(c) + Hdr(c.form(T_MOOV))
    ensures TrakAt(c) == SoundAt(c) + |SoundTrack(c)| && MdiaAt(c) == TrakAt(c) + Hdr(c.form(T_TRAK))
    ensures HdlrAt(c) == MdiaAt(c) + Hdr(c.form(T_MDIA)) && MinfAt(c) == HdlrAt(c) + |HdlrBox(c)|
    ensures StblAt(c) == MinfAt(c) + Hdr(c.form(T_MINF)) && StsdAt(c) == StblAt(c) + Hdr(c.form(T_STBL))
  {
    hide FtypBox, SoundTrack, HdlrBox, Hdr;
  }

  lemma FileIsLaid(c: Content)
    requires Shaped(c)
    ensures Laid(Mux(c), c)
  {
    hide HoldsAt, PrintBox, MoovPayload, MdatBox, FtypBox, LaidInMovie, Shaped, MoovAt, SoundAt, MdatAt, Hdr;
    Positions(c);
    var buf := Mux(c);
    WholeHolds(buf);
    HoldsAtConcat(buf, 0, FtypBox(c), MoovBox(c) + MdatBox(c));
    HoldsAtConcat(buf, |FtypBox(c)|, MoovBox(c), MdatBox(c));
    InBox(buf, MoovAt(c), c.form(T_MOOV), T_MOOV, MoovPayload(c));
    MovieIsLaid(buf, c);
  }

  lemma MovieIsLaid(buf: seq<byte>, c: Content)
    requires Shaped(c) && HoldsAt(buf, SoundAt(c), MoovPayload(c))
    ensures LaidInMovie(buf, c)
  {
    hide HoldsAt, PrintBox, MdiaBox, SoundTrack, LaidInTrack, Shaped, SoundAt, TrakAt, MdiaAt, MdatAt, Hdr;
    Positions(c);
    HoldsAtConcat(buf, SoundAt(c), SoundTrack(c), TrakBox(c));
    InBox(buf, TrakAt(c), c.form(T_TRAK), T_TRAK, MdiaBox(c));
    TrackIsLaid(buf, c);
  }

  lemma TrackIsLaid(buf: seq<byte>, c: Content)
    requires Shaped(c) && HoldsAt(buf, MdiaAt(c), MdiaBox(c))
    ensures LaidInTrack(buf, c)
  {
    hide HoldsAt, PrintBox, HdlrBox, StblBox, LaidInTable, Shaped, MdiaAt, HdlrAt, MinfAt, StblAt, StsdAt, MdatAt,
         Hdr;
    Positions(c);
    InBox(buf, MdiaAt(c), c.form(T_MDIA), T_MDIA, MdiaPayload(c));
    HoldsAtConcat(buf, HdlrAt(c), HdlrBox(c), MinfBox(c));
    InBox(buf, MinfAt(c), c.form(T_MINF), T_MINF, StblBox(c));
    StblIsLaid(buf, c);
  }

  lemma StblIsLaid(buf: seq<byte>, c: Content)
    requires Shaped(c) && HoldsAt(buf, StblAt(c), StblBox(c))
    ensures LaidInTable(buf, c)
  {
    hide HoldsAt, PrintBox, StblPayload, LaidInTable, Shaped, StblAt, MdatAt, Hdr;
    InBox(buf, StblAt(c), c.form(T_STBL), T_STBL, StblPayload(c));
    TableIsLaid(buf, c);
  }

  lemma TableIsLaid(buf: seq<byte>, c: Content)
    requires Shaped(c) && HoldsAt(buf, StsdAt(c), StblPayload(c))
    ensures LaidInTable(buf, c)
  {
    hide HoldsAt, StsdBox, StszBox, StscBox, StcoBox, Shaped;
    HoldsAtConcat(buf, StsdAt(c), StsdBox(c), StszBox(c) + (StscBox(c) + StcoBox(c)));
    HoldsAtConcat(buf, StszAt(c), StszBox(c), StscBox(c) + StcoBox(c));
    HoldsAtConcat(buf, StscAt(c), StscBox(c), StcoBox(c));
  }
}
