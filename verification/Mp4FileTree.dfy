// The box tree that a printed file is parsed into, and the track description that the tree amounts to.

module Mp4FileTree {
  import opened Bytes
  import opened AnnexB
  import opened BoxTree
  import opened BoxWalk
  import opened SampleIndex
  import opened NalFraming
  import opened Mp4Demux
  import opened Mp4Guarantee
  import opened Mp4Boxes
  import opened Mp4Media
  import opened Mp4File

  // ----- the tree

  function ColrAt(c: Content): nat {
    StsdAt(c) + Hdr(c.form(T_STSD)) + 94
  }

  function HvccAt(c: Content): nat {
    ColrAt(c) + 8 + |c.colour|
  }

  function ColrTree(c: Content): Box {
    BoxAt(Level.Entry, Short, T_COLR, ColrAt(c), |c.colour|, [])
  }

  function HvccTree(c: Content): Box
    requires Shaped(c)
  {
    BoxAt(Level.Entry, Short, T_HVCC, HvccAt(c), |RecordOf(c)|, [])
  }

  function StsdTree(c: Content): Box
    requires Shaped(c)
  {
    BoxAt(Track, c.form(T_STSD), T_STSD, StsdAt(c), |StsdPayload(c)|, [ColrTree(c), HvccTree(c)])
  }

  function StszTree(c: Content): Box
    requires Shaped(c)
  {
    BoxAt(Track, c.form(T_STSZ), T_STSZ, StszAt(c), 4 * |SizeWords(c)|, [])
  }

  function StscTree(c: Content): Box
    requires Shaped(c)
  {
    BoxAt(Track, c.form(T_STSC), T_STSC, StscAt(c), 4 * |StscWords(c)|, [])
  }

  function StcoTree(c: Content): Box
    requires Shaped(c)
  {
    BoxAt(Track, c.form(OffsetTag(c)), OffsetTag(c), StcoAt(c), |OffsetPayload(c.wide, Offsets(c))|, [])
  }

  function TableTrees(c: Content): seq<Box>
    requires Shaped(c)
  {
    [StsdTree(c), StszTree(c), StscTree(c), StcoTree(c)]
  }

  function StblTree(c: Content): Box
    requires Shaped(c)
  {
    BoxAt(Track, c.form(T_STBL), T_STBL, StblAt(c), |StblPayload(c)|, TableTrees(c))
  }

  function MinfTree(c: Content): Box
    requires Shaped(c)
  {
    BoxAt(Track, c.form(T_MINF), T_MINF, MinfAt(c), |StblBox(c)|, [StblTree(c)])
  }

  function HdlrTree(c: Content): Box {
    BoxAt(Track, c.form(T_HDLR), T_HDLR, HdlrAt(c), 12, [])
  }

  function MdiaTree(c: Content): Box
    requires Shaped(c)
  {
    BoxAt(Track, c.form(T_MDIA), T_MDIA, MdiaAt(c), |MdiaPayload(c)|, [HdlrTree(c), MinfTree(c)])
  }

  function TrakTree(c: Content): Box
    requires Shaped(c)
  {
    BoxAt(Top, c.form(T_TRAK), T_TRAK, TrakAt(c), |MdiaBox(c)|, [MdiaTree(c)])
  }

  function SoundTree(at: nat): Box {
    var hdlr := BoxAt(Track, Short, T_HDLR, at + 16, 12, []);
    BoxAt(Top, Short, T_TRAK, at, 28, [BoxAt(Track, Short, T_MDIA, at + 8, 20, [hdlr])])
  }

  function MovieTrees(c: Content): seq<Box>
    requires Shaped(c)
  {
    (if c.sound then [SoundTree(SoundAt(c))] else []) + [TrakTree(c)]
  }

  function MoovTree(c: Content): Box
    requires Shaped(c)
  {
    BoxAt(Top, c.form(T_MOOV), T_MOOV, MoovAt(c), |MoovPayload(c)|, MovieTrees(c))
  }

  function FtypTree(c: Content): Box {
    BoxAt(Top, c.form(T_FTYP), T_FTYP, 0, |c.brands|, [])
  }

  function MdatTree(c: Content): Box
    requires Shaped(c)
  {
    BoxAt(Top, c.form(T_MDAT), T_MDAT, MdatAt(c), |Media(c)|, [])
  }

  function FileTrees(c: Content): seq<Box>
    requires Shaped(c)
  {
    [FtypTree(c), MoovTree(c), MdatTree(c)]
  }

  lemma OtherTags()
    ensures TagValue(T_FTYP) != MOOV && TagValue(T_FTYP) != TRAK && TagValue(T_FTYP) != MOOF
    ensures TagValue(T_MDAT) != MOOV && TagValue(T_MDAT) != TRAK && TagValue(T_MDAT) != MOOF
    ensures TagValue(T_COLR) != HVCC && TagValue(T_SOUN) != VIDE
  {
  }

  /** The boxes of the sample entry. */
  lemma EntryHolds(buf: seq<byte>, c: Content)
    requires Shaped(c) && HoldsAt(buf, StsdAt(c), StsdBox(c)) && StszAt(c) <= |buf| < TWO32
    ensures var p := StsdAt(c) + Hdr(c.form(T_STSD)) + 8;
            && Rd32(buf, p) == 8 + |EntryPayload(c)| && Rd32(buf, p + 4) == TagValue(EntryTag(c))
            && p + 8 + |EntryPayload(c)| == StszAt(c)
            && HoldsAt(buf, ColrAt(c), PrintBox(Short, T_COLR, c.colour))
            && HoldsAt(buf, HvccAt(c), PrintBox(Short, T_HVCC, RecordOf(c)))
  {
    hide HoldsAt, Words, PrintBox, TagValue, RecordOf, Parse, Word, Tag, Long;
    var p := StsdAt(c) + Hdr(c.form(T_STSD)) + 8;
    var entry, colr := EntryPayload(c), PrintBox(Short, T_COLR, c.colour);
    InBox(buf, StsdAt(c), c.form(T_STSD), T_STSD, StsdPayload(c));
    HoldsAtConcat(buf, p - 8, Words([0, 1]), PrintBox(Short, EntryTag(c), entry));
    EntryHeader(buf, p, EntryTag(c), entry);
    InBox(buf, p, Short, EntryTag(c), entry);
    HoldsAtConcat(buf, p + 8, c.visual, colr + PrintBox(Short, T_HVCC, RecordOf(c)));
    HoldsAtConcat(buf, ColrAt(c), colr, PrintBox(Short, T_HVCC, RecordOf(c)));
  }

  lemma EntryHeader(buf: seq<byte>, p: nat, tag: Four, payload: seq<byte>)
    requires HoldsAt(buf, p, PrintBox(Short, tag, payload)) && |buf| < TWO32
    ensures p + 8 + |payload| <= |buf| && Rd32(buf, p) == 8 + |payload| && Rd32(buf, p + 4) == TagValue(tag)
  {
    hide Tag, TagValue, Word;
    HoldsAtConcat(buf, p, Word(8 + |payload|) + Tag(tag), payload);
    HoldsAtConcat(buf, p, Word(8 + |payload|), Tag(tag));
    WordReads(buf, p, 8 + |payload|);
    TagReads(buf, p + 4, tag);
  }

  lemma {:induction false} EntryParses(buf: seq<byte>, c: Content)
    requires Shaped(c) && HoldsAt(buf, StsdAt(c), StsdBox(c)) && StszAt(c) <= |buf| < TWO32
    ensures Parse(buf, Level.Entry, ColrAt(c), StszAt(c)) == Some([ColrTree(c), HvccTree(c)])
  {
    hide HoldsAt, PrintBox, TagValue, Parse, RecordOf, StsdAt, StsdBox, StszAt, EntryPayload;
    var end, boxes := StszAt(c), [ColrTree(c), HvccTree(c)];
    EntryHolds(buf, c);
    EntryEnds(c);
    NothingParses(buf, Level.Entry, end, boxes);
    LeafParses(buf, Level.Entry, HvccAt(c), end, Short, T_HVCC, RecordOf(c), boxes, 1);
    LeafParses(buf, Level.Entry, ColrAt(c), end, Short, T_COLR, c.colour, boxes, 0);
    assert boxes[0..] == boxes;
  }

  lemma EntryEnds(c: Content)
    requires Shaped(c)
    ensures HvccAt(c) + 8 + |RecordOf(c)| == StszAt(c)
  {
  }

  lemma {:induction false} StsdParses(buf: seq<byte>, c: Content)
    requires Shaped(c) && HoldsAt(buf, StsdAt(c), StsdBox(c)) && StszAt(c) <= |buf| < TWO32
    ensures var start := StsdAt(c) + Hdr(c.form(T_STSD));
            && start <= StszAt(c)
            && ParseKids(buf, Track, Header(TagValue(T_STSD), start, StszAt(c))) == Some(StsdTree(c).kids)
  {
    hide HoldsAt, PrintBox, TagValue, Parse, RecordOf, ColrTree, HvccTree, StsdAt, StsdBox, StszAt, EntryPayload,
         Rd32;
    KnownTags();
    EntryHolds(buf, c);
    EntryParses(buf, c);
  }

  lemma {:induction false} StcoParses(buf: seq<byte>, c: Content)
    requires Shaped(c) && HoldsAt(buf, StcoAt(c), StcoBox(c)) && MdatAt(c) <= |buf| < TWO32
    ensures Parse(buf, Track, StcoAt(c), MdatAt(c)) == Some(TableTrees(c)[3..])
  {
    hide HoldsAt, PrintBox, TagValue, Parse, StsdTree, StszTree, StscTree, StcoAt, MdatAt, Offsets, OffsetPayload;
    KnownTags();
    NothingParses(buf, Track, MdatAt(c), TableTrees(c));
    LeafParses(buf, Track, StcoAt(c), MdatAt(c), c.form(OffsetTag(c)), OffsetTag(c), OffsetPayload(c.wide, Offsets(c)),
               TableTrees(c), 3);
  }

  lemma {:induction false} StscParses(buf: seq<byte>, c: Content)
    requires Shaped(c) && HoldsAt(buf, StscAt(c), StscBox(c)) && MdatAt(c) <= |buf| < TWO32
    requires Parse(buf, Track, StcoAt(c), MdatAt(c)) == Some(TableTrees(c)[3..])
    ensures Parse(buf, Track, StscAt(c), MdatAt(c)) == Some(TableTrees(c)[2..])
  {
    hide HoldsAt, PrintBox, TagValue, Parse, StsdTree, StszTree, StcoTree, StscAt, StcoAt, MdatAt, StscWords, Hdr,
         Shaped, Words, Offsets, OffsetPayload, StsdPayload, SizeWords;
    KnownTags();
    TableFits(c);
    LeafParses(buf, Track, StscAt(c), MdatAt(c), c.form(T_STSC), T_STSC, Words(StscWords(c)), TableTrees(c), 2);
  }

  lemma {:induction false} StszParses(buf: seq<byte>, c: Content)
    requires Shaped(c) && HoldsAt(buf, StszAt(c), StszBox(c)) && MdatAt(c) <= |buf| < TWO32
    requires Parse(buf, Track, StscAt(c), MdatAt(c)) == Some(TableTrees(c)[2..])
    ensures Parse(buf, Track, StszAt(c), MdatAt(c)) == Some(TableTrees(c)[1..])
  {
    hide HoldsAt, PrintBox, TagValue, Parse, StsdTree, StscTree, StcoTree, StszAt, StscAt, StcoAt, MdatAt, SizeWords,
         Hdr, Shaped, Words, Offsets, OffsetPayload, StsdPayload, StscWords;
    KnownTags();
    TableFits(c);
    LeafParses(buf, Track, StszAt(c), MdatAt(c), c.form(T_STSZ), T_STSZ, Words(SizeWords(c)), TableTrees(c), 1);
  }

  lemma TableFits(c: Content)
    requires Shaped(c)
    ensures c.form(T_STSD) != ToEnd && c.form(T_STSZ) != ToEnd && c.form(T_STSC) != ToEnd
    ensures StsdAt(c) + Hdr(c.form(T_STSD)) + |StsdPayload(c)| == StszAt(c)
    ensures StszAt(c) + Hdr(c.form(T_STSZ)) + 4 * |SizeWords(c)| == StscAt(c)
    ensures StscAt(c) + Hdr(c.form(T_STSC)) + 4 * |StscWords(c)| == StcoAt(c)
    ensures StcoAt(c) + Hdr(c.form(OffsetTag(c))) + |OffsetPayload(c.wide, Offsets(c))| == MdatAt(c)
  {
    hide StsdAt, StsdPayload, SizeWords, StscWords, OffsetPayload, Words, PrintBox, Hdr;
  }

  lemma {:induction false} StsdInFront(buf: seq<byte>, c: Content)
    requires Shaped(c) && HoldsAt(buf, StsdAt(c), StsdBox(c)) && MdatAt(c) <= |buf| < TWO32
    requires Parse(buf, Track, StszAt(c), MdatAt(c)) == Some(TableTrees(c)[1..])
    ensures Parse(buf, Track, StsdAt(c), MdatAt(c)) == Some(TableTrees(c))
  {
    hide HoldsAt, PrintBox, TagValue, Parse, ParseKids, StszTree, StscTree, StcoTree, StsdAt, StszAt, StscAt, StcoAt,
         MdatAt, StsdPayload, ColrTree, HvccTree, Hdr, Shaped, Offsets, OffsetPayload, StscWords, SizeWords;
    TableFits(c);
    StsdParses(buf, c);
    BoxParses(buf, Track, StsdAt(c), MdatAt(c), c.form(T_STSD), T_STSD, StsdPayload(c), TableTrees(c), 0);
    assert TableTrees(c)[0..] == TableTrees(c);
  }

  lemma {:induction false} TableParses(buf: seq<byte>, c: Content)
    requires Shaped(c) && LaidInTable(buf, c) && MdatAt(c) <= |buf| < TWO32
    ensures Parse(buf, Track, StsdAt(c), MdatAt(c)) == Some(TableTrees(c))
  {
    hide HoldsAt, Parse, TableTrees, StsdAt, StszAt, StscAt, StcoAt, MdatAt, StsdBox, StszBox, StscBox, StcoBox,
         Shaped;
    StcoParses(buf, c);
    StscParses(buf, c);
    StszParses(buf, c);
    StsdInFront(buf, c);
  }

  // Each box of the movie begins where its container's payload begins, and all end where the movie ends.

  lemma StblFits(c: Content)
    requires Shaped(c)
    ensures StblAt(c) + Hdr(c.form(T_STBL)) == StsdAt(c) <= MdatAt(c) == StsdAt(c) + |StblPayload(c)|
  {
    hide Hdr, MdatAt;
    assert StsdAt(c) + |StblPayload(c)| == MdatAt(c);
  }

  lemma MinfFits(c: Content)
    requires Shaped(c)
    ensures MinfAt(c) + Hdr(c.form(T_MINF)) == StblAt(c) <= MdatAt(c) == StblAt(c) + |StblBox(c)|
  {
    hide Hdr, MdatAt;
    assert StblAt(c) + |StblBox(c)| == MdatAt(c);
  }

  lemma HdlrFits(c: Content)
    requires Shaped(c)
    ensures HdlrAt(c) + Hdr(c.form(T_HDLR)) + 12 == MinfAt(c) <= MdatAt(c) && c.form(T_HDLR) != ToEnd
  {
    hide Hdr, MdatAt;
    MinfFits(c);
  }

  lemma MdiaFits(c: Content)
    requires Shaped(c)
    ensures MdiaAt(c) + Hdr(c.form(T_MDIA)) == HdlrAt(c) <= MdatAt(c) == HdlrAt(c) + |MdiaPayload(c)|
  {
    hide Hdr, MdatAt;
    assert HdlrAt(c) + |MdiaPayload(c)| == MdatAt(c);
  }

  lemma TrakFits(c: Content)
    requires Shaped(c)
    ensures TrakAt(c) + Hdr(c.form(T_TRAK)) == MdiaAt(c) <= MdatAt(c) == MdiaAt(c) + |MdiaBox(c)|
  {
    hide Hdr, MdatAt;
    assert MdiaAt(c) + |MdiaBox(c)| == MdatAt(c);
  }

  lemma MoovFits(c: Content)
    requires Shaped(c)
    ensures MoovAt(c) + Hdr(c.form(T_MOOV)) == SoundAt(c) <= MdatAt(c) == SoundAt(c) + |MoovPayload(c)|
    ensures MoovAt(c) == Hdr(c.form(T_FTYP)) + |c.brands| && c.form(T_MOOV) != ToEnd && c.form(T_FTYP) != ToEnd
  {
    hide Hdr, MdatAt;
    assert SoundAt(c) + |MoovPayload(c)| == MdatAt(c);
  }

  lemma {:induction false} StblParses(buf: seq<byte>, c: Content)
    requires Shaped(c) && HoldsAt(buf, StblAt(c), StblBox(c)) && MdatAt(c) <= |buf| < TWO32
    requires Parse(buf, Track, StsdAt(c), MdatAt(c)) == Some(TableTrees(c))
    ensures Parse(buf, Track, StblAt(c), MdatAt(c)) == Some([StblTree(c)])
  {
    hide HoldsAt, PrintBox, TagValue, Parse, TableTrees, StblAt, StsdAt, MdatAt, StblPayload, Hdr, Shaped;
    StblFits(c);
    NothingParses(buf, Track, MdatAt(c), [StblTree(c)]);
    ContainerParses(buf, Track, StblAt(c), MdatAt(c), c.form(T_STBL), T_STBL, StblPayload(c), [StblTree(c)], 0);
    assert [StblTree(c)][0..] == [StblTree(c)];
  }

  lemma {:induction false} MinfParses(buf: seq<byte>, c: Content)
    requires Shaped(c) && HoldsAt(buf, MinfAt(c), MinfBox(c)) && MdatAt(c) <= |buf| < TWO32
    requires Parse(buf, Track, StblAt(c), MdatAt(c)) == Some([StblTree(c)])
    ensures Parse(buf, Track, MinfAt(c), MdatAt(c)) == Some([HdlrTree(c), MinfTree(c)][1..])
  {
    hide HoldsAt, PrintBox, TagValue, Parse, StblTree, MinfAt, StblAt, MdatAt, StblBox, HdlrTree, Hdr, Shaped;
    MinfFits(c);
    var boxes := [HdlrTree(c), MinfTree(c)];
    NothingParses(buf, Track, MdatAt(c), boxes);
    ContainerParses(buf, Track, MinfAt(c), MdatAt(c), c.form(T_MINF), T_MINF, StblBox(c), boxes, 1);
  }

  lemma {:induction false} HdlrParses(buf: seq<byte>, c: Content)
    requires Shaped(c) && HoldsAt(buf, HdlrAt(c), HdlrBox(c)) && MdatAt(c) <= |buf| < TWO32
    requires Parse(buf, Track, MinfAt(c), MdatAt(c)) == Some([HdlrTree(c), MinfTree(c)][1..])
    ensures Parse(buf, Track, HdlrAt(c), MdatAt(c)) == Some([HdlrTree(c), MinfTree(c)])
  {
    hide HoldsAt, PrintBox, TagValue, Parse, MinfTree, HdlrAt, MinfAt, MdatAt, HdlrPayload, Hdr, Shaped;
    KnownTags();
    HdlrFits(c);
    var boxes := [HdlrTree(c), MinfTree(c)];
    LeafParses(buf, Track, HdlrAt(c), MdatAt(c), c.form(T_HDLR), T_HDLR, HdlrPayload(T_VIDE), boxes, 0);
    assert boxes[0..] == boxes;
  }

  lemma {:induction false} MdiaParses(buf: seq<byte>, c: Content)
    requires Shaped(c) && HoldsAt(buf, MdiaAt(c), MdiaBox(c)) && MdatAt(c) <= |buf| < TWO32
    requires Parse(buf, Track, HdlrAt(c), MdatAt(c)) == Some([HdlrTree(c), MinfTree(c)])
    ensures Parse(buf, Track, MdiaAt(c), MdatAt(c)) == Some([MdiaTree(c)])
  {
    hide HoldsAt, PrintBox, TagValue, Parse, HdlrTree, MinfTree, MdiaAt, HdlrAt, MdatAt, MdiaPayload, Hdr, Shaped;
    MdiaFits(c);
    NothingParses(buf, Track, MdatAt(c), [MdiaTree(c)]);
    ContainerParses(buf, Track, MdiaAt(c), MdatAt(c), c.form(T_MDIA), T_MDIA, MdiaPayload(c), [MdiaTree(c)], 0);
    assert [MdiaTree(c)][0..] == [MdiaTree(c)];
  }

  lemma {:induction false} TrakParses(buf: seq<byte>, c: Content, boxes: seq<Box>, i: nat)
    requires Shaped(c) && HoldsAt(buf, TrakAt(c), TrakBox(c)) && MdatAt(c) <= |buf| < TWO32
    requires Parse(buf, Track, MdiaAt(c), MdatAt(c)) == Some([MdiaTree(c)])
    requires i + 1 == |boxes| && boxes[i] == TrakTree(c)
    ensures Parse(buf, Top, TrakAt(c), MdatAt(c)) == Some(boxes[i..])
  {
    hide HoldsAt, PrintBox, TagValue, Parse, MdiaTree, TrakAt, MdiaAt, MdatAt, MdiaBox, Hdr, Shaped;
    TrakFits(c);
    NothingParses(buf, Top, MdatAt(c), boxes);
    ContainerParses(buf, Top, TrakAt(c), MdatAt(c), c.form(T_TRAK), T_TRAK, MdiaBox(c), boxes, i);
  }

  lemma SoundParses(buf: seq<byte>, at: nat, end: nat, boxes: seq<Box>)
    requires HoldsAt(buf, at, SoundBox())
    requires at + 36 <= end <= |buf| < TWO32 && boxes != [] && boxes[0] == SoundTree(at)
    requires Parse(buf, Top, at + 36, end) == Some(boxes[1..])
    ensures Parse(buf, Top, at, end) == Some(boxes)
  {
    hide HoldsAt, PrintBox, TagValue, Parse, HdlrPayload;
    KnownTags();
    var hdlr := PrintBox(Short, T_HDLR, HdlrPayload(T_SOUN));
    var mdia := PrintBox(Short, T_MDIA, hdlr);
    InBox(buf, at, Short, T_TRAK, mdia);
    InBox(buf, at + 8, Short, T_MDIA, hdlr);
    var inner, inmost := boxes[0].kids, boxes[0].kids[0].kids;
    NothingParses(buf, Track, at + 36, inmost);
    LeafParses(buf, Track, at + 16, at + 36, Short, T_HDLR, HdlrPayload(T_SOUN), inmost, 0);
    assert inmost[0..] == inmost;
    NothingParses(buf, Track, at + 36, inner);
    ContainerParses(buf, Track, at + 8, at + 36, Short, T_MDIA, hdlr, inner, 0);
    assert inner[0..] == inner;
    ContainerParses(buf, Top, at, end, Short, T_TRAK, mdia, boxes, 0);
    assert boxes[0..] == boxes;
  }

  lemma SoundFits(c: Content)
    requires Shaped(c)
    ensures TrakAt(c) == SoundAt(c) + (if c.sound then 36 else 0) && TrakAt(c) <= MdatAt(c)
  {
    hide MdatAt;
    TrakFits(c);
  }

  lemma {:induction false} MovieParses(buf: seq<byte>, c: Content)
    requires Shaped(c) && LaidInMovie(buf, c) && MdatAt(c) <= |buf| < TWO32
    ensures Parse(buf, Top, SoundAt(c), MdatAt(c)) == Some(MovieTrees(c))
  {
    hide HoldsAt, PrintBox, Parse, TrakTree, SoundTree, MdiaTree, HdlrTree, MinfTree, StblTree, TableTrees,
         LaidInTable, SoundAt, TrakAt, MdiaAt, HdlrAt, MinfAt, StblAt, StsdAt, MdatAt, TrakBox, MdiaBox, HdlrBox,
         MinfBox, StblBox, Shaped;
    TableParses(buf, c);
    StblParses(buf, c);
    MinfParses(buf, c);
    HdlrParses(buf, c);
    MdiaParses(buf, c);
    var boxes := MovieTrees(c);
    TrakParses(buf, c, boxes, |boxes| - 1);
    SoundFits(c);
    if c.sound {
      SoundParses(buf, SoundAt(c), MdatAt(c), boxes);
    } else {
      assert boxes[0..] == boxes;
    }
  }

  /** The whole file is parsed into its tree. */
  lemma {:induction false} FileParses(buf: seq<byte>, c: Content)
    requires Shaped(c) && Laid(buf, c) && |buf| < TWO32
    ensures Parse(buf, Top, 0, |buf|) == Some(FileTrees(c))
  {
    hide HoldsAt, PrintBox, Parse, MovieTrees, FileTrees, LaidInMovie, MoovAt, SoundAt, MdatAt, MoovBox, FtypBox,
         Shaped;
    MovieParses(buf, c);
    MdatParses(buf, c);
    MoovParses(buf, c);
    FtypParses(buf, c);
  }

  lemma {:induction false} MdatParses(buf: seq<byte>, c: Content)
    requires Shaped(c) && LaidOnTop(buf, c) && |buf| < TWO32
    ensures Parse(buf, Top, MdatAt(c), |buf|) == Some(FileTrees(c)[2..])
  {
    hide HoldsAt, PrintBox, Parse, FtypTree, MoovTree, MdatAt, Media, Hdr, TagValue, Shaped, MoovAt, MoovBox, FtypBox;
    OtherTags();
    NothingParses(buf, Top, |buf|, FileTrees(c));
    LeafParses(buf, Top, MdatAt(c), |buf|, c.form(T_MDAT), T_MDAT, Media(c), FileTrees(c), 2);
  }

  lemma {:induction false} MoovParses(buf: seq<byte>, c: Content)
    requires Shaped(c) && HoldsAt(buf, MoovAt(c), MoovBox(c)) && MdatAt(c) <= |buf| < TWO32
    requires Parse(buf, Top, SoundAt(c), MdatAt(c)) == Some(MovieTrees(c))
    requires Parse(buf, Top, MdatAt(c), |buf|) == Some(FileTrees(c)[2..])
    ensures Parse(buf, Top, MoovAt(c), |buf|) == Some(FileTrees(c)[1..])
  {
    hide HoldsAt, PrintBox, Parse, FtypTree, MdatTree, MovieTrees, MdatAt, MoovPayload, Hdr, TagValue, Shaped, MoovAt,
         SoundAt;
    MoovFits(c);
    ContainerParses(buf, Top, MoovAt(c), |buf|, c.form(T_MOOV), T_MOOV, MoovPayload(c), FileTrees(c), 1);
  }

  lemma {:induction false} FtypParses(buf: seq<byte>, c: Content)
    requires Shaped(c) && HoldsAt(buf, 0, FtypBox(c)) && MdatAt(c) <= |buf| < TWO32
    requires Parse(buf, Top, MoovAt(c), |buf|) == Some(FileTrees(c)[1..])
    ensures Parse(buf, Top, 0, |buf|) == Some(FileTrees(c))
  {
    hide HoldsAt, PrintBox, Parse, MoovTree, MdatTree, MdatAt, Hdr, TagValue, Shaped, MoovAt, SoundAt;
    OtherTags();
    MoovFits(c);
    FirstLeafParses(buf, c.form(T_FTYP), T_FTYP, c.brands, MoovAt(c), FileTrees(c));
  }

  lemma {:induction false} FirstLeafParses(buf: seq<byte>, f: Form, tag: Four, payload: seq<byte>, next: nat,
                                           boxes: seq<Box>)
    requires HoldsAt(buf, 0, PrintBox(f, tag, payload)) && next == Hdr(f) + |payload| <= |buf| < TWO32 && f != ToEnd
    requires TagValue(tag) != MOOV && TagValue(tag) != TRAK
    requires boxes != [] && boxes[0] == BoxAt(Top, f, tag, 0, |payload|, [])
    requires Parse(buf, Top, next, |buf|) == Some(boxes[1..])
    ensures Parse(buf, Top, 0, |buf|) == Some(boxes)
  {
    hide HoldsAt, PrintBox, Parse, TagValue, Hdr;
    LeafParses(buf, Top, 0, |buf|, f, tag, payload, boxes, 0);
    assert boxes[0..] == boxes;
  }

  // ----- what the tree says

  lemma {:induction false} OneMoreVideoTrack(buf: seq<byte>, boxes: seq<Box>, b: Box)
    ensures VideoTracks(buf, boxes + [b]) ==
              VideoTracks(buf, boxes) + if b.tag == TRAK && TrackOfBox(buf, b).isVide then [b] else []
  {
    assert (boxes + [b])[..|boxes|] == boxes;
  }

  lemma {:induction false} TopBoxOf(b: Box, rest: seq<Box>)
    ensures TopBoxes([b] + rest) == [b] + (if b.tag == TRAK then [] else TopBoxes(b.kids)) + TopBoxes(rest)
  {
    assert ([b] + rest)[1..] == rest;
  }

  function AllTop(c: Content): seq<Box>
    requires Shaped(c)
  {
    [FtypTree(c), MoovTree(c)] + MovieTrees(c) + [MdatTree(c)]
  }

  lemma {:induction false} TracksOnTop(boxes: seq<Box>)
    requires forall b :: b in boxes ==> b.tag == TRAK
    ensures TopBoxes(boxes) == boxes
  {
    if boxes != [] {
      TracksOnTop(boxes[1..]);
    }
  }

  lemma FileOnTop(ftyp: Box, moov: Box, mdat: Box)
    requires ftyp.kids == [] && mdat.kids == [] && TopBoxes(moov.kids) == moov.kids
    requires ftyp.tag != TRAK && moov.tag != TRAK && mdat.tag != TRAK
    ensures TopBoxes([ftyp, moov, mdat]) == [ftyp, moov] + moov.kids + [mdat]
  {
    hide TopBoxes;
    NothingOnTop();
    TopBoxOf(mdat, []);
    assert [mdat] + [] == [mdat];
    TopBoxOf(moov, [mdat]);
    TopBoxOf(ftyp, [moov, mdat]);
    assert [ftyp] + [moov, mdat] == [ftyp, moov, mdat] && [moov] + [mdat] == [moov, mdat];
  }

  lemma NothingOnTop()
    ensures TopBoxes([]) == []
  {
  }

  lemma MovieIs(c: Content)
    requires Shaped(c)
    ensures MovieTrees(c) == (if c.sound then [SoundTree(SoundAt(c))] else []) + [TrakTree(c)]
    ensures forall b :: b in MovieTrees(c) ==> b.tag == TRAK != MOOF
    ensures SoundTree(SoundAt(c)).tag == TRAK == TrakTree(c).tag
  {
    hide TagValue, MdiaTree, MdiaBox, SoundAt, TrakAt;
    KnownTags();
  }

  lemma TopTags(c: Content)
    requires Shaped(c)
    ensures FtypTree(c).tag !in {TRAK, MOOF} && MoovTree(c).tag !in {TRAK, MOOF} && MdatTree(c).tag !in {TRAK, MOOF}
    ensures FtypTree(c).kids == [] == MdatTree(c).kids && MoovTree(c).kids == MovieTrees(c)
  {
    hide TagValue, MovieTrees, MoovPayload, Media, MdatAt, MoovAt;
    KnownTags();
    OtherTags();
  }

  lemma TopIs(c: Content)
    requires Shaped(c)
    ensures TopBoxes(FileTrees(c)) == AllTop(c)
    ensures forall b :: b in AllTop(c) ==> b.tag != MOOF
  {
    hide TopBoxes, MovieTrees, FtypTree, MoovTree, MdatTree, SoundTree, TrakTree;
    MovieIs(c);
    TopTags(c);
    TracksOnTop(MovieTrees(c));
    FileOnTop(FtypTree(c), MoovTree(c), MdatTree(c));
  }

  /** The handler of a track says what it says. */
  lemma HandlerReads(buf: seq<byte>, at: nat, f: Form, kind: Four)
    requires HoldsAt(buf, at, PrintBox(f, T_HDLR, HdlrPayload(kind)))
    ensures var start := at + Hdr(f); start + 12 <= |buf| && Rd32(buf, start + 8) == TagValue(kind)
  {
    hide HoldsAt, PrintBox, Tag, TagValue, Rd32;
    InBox(buf, at, f, T_HDLR, HdlrPayload(kind));
    HoldsAtConcat(buf, at + Hdr(f), Words([0, 0]), Tag(kind));
    TagReads(buf, at + Hdr(f) + 8, kind);
  }

  lemma SoundIsNotVideo(buf: seq<byte>, at: nat)
    requires HoldsAt(buf, at, SoundBox())
    ensures !TrackOfBox(buf, SoundTree(at)).isVide
  {
    hide HoldsAt, PrintBox, TagValue, Rd32, HdlrPayload;
    KnownTags();
    OtherTags();
    var hdlr := PrintBox(Short, T_HDLR, HdlrPayload(T_SOUN));
    InBox(buf, at, Short, T_TRAK, PrintBox(Short, T_MDIA, hdlr));
    InBox(buf, at + 8, Short, T_MDIA, hdlr);
    HandlerReads(buf, at + 16, Short, T_SOUN);
    var mdia := SoundTree(at).kids[0];
    PreorderOne(mdia);
    PreorderOne(mdia.kids[0]);
    NothingBelow();
    assert SoundTree(at).kids == [mdia] && mdia.kids == [mdia.kids[0]];
    assert Preorder(SoundTree(at).kids) == [mdia, mdia.kids[0]];
  }

  lemma NothingBelow()
    ensures Preorder([]) == []
  {
  }

  /** All boxes of the video track. */
  function TrackBoxes(c: Content): seq<Box>
    requires Shaped(c)
  {
    [MdiaTree(c), HdlrTree(c), MinfTree(c), StblTree(c), StsdTree(c), ColrTree(c), HvccTree(c), StszTree(c),
     StscTree(c), StcoTree(c)]
  }

  lemma {:induction false} LeafBelow(b: Box, rest: seq<Box>)
    requires b.kids == []
    ensures Preorder([b] + rest) == [b] + Preorder(rest)
  {
    assert ([b] + rest)[1..] == rest;
    NothingBelow();
  }

  lemma {:induction false} BranchBelow(b: Box, rest: seq<Box>)
    ensures Preorder([b] + rest) == [b] + Preorder(b.kids) + Preorder(rest)
  {
    assert ([b] + rest)[1..] == rest;
  }

  lemma TableBelow(stsd: Box, stsz: Box, stsc: Box, stco: Box, colr: Box, hvcc: Box)
    requires stsd.kids == [colr, hvcc] && stsz.kids == stsc.kids == stco.kids == colr.kids == hvcc.kids == []
    ensures Preorder([stsd, stsz, stsc, stco]) == [stsd, colr, hvcc, stsz, stsc, stco]
  {
    hide Preorder;
    NothingBelow();
    LeafBelow(stco, []);
    assert [stco] + [] == [stco];
    LeafBelow(stsc, [stco]);
    assert [stsc] + [stco] == [stsc, stco];
    LeafBelow(stsz, [stsc, stco]);
    assert [stsz] + [stsc, stco] == [stsz, stsc, stco];
    LeafBelow(hvcc, []);
    assert [hvcc] + [] == [hvcc];
    LeafBelow(colr, [hvcc]);
    assert [colr] + [hvcc] == [colr, hvcc];
    BranchBelow(stsd, [stsz, stsc, stco]);
    assert [stsd] + [stsz, stsc, stco] == [stsd, stsz, stsc, stco];
  }

  lemma NestBelow(mdia: Box, hdlr: Box, minf: Box, stbl: Box)
    requires mdia.kids == [hdlr, minf] && hdlr.kids == [] && minf.kids == [stbl]
    ensures Preorder([mdia]) == [mdia, hdlr, minf, stbl] + Preorder(stbl.kids)
  {
    hide Preorder;
    PreorderOne(stbl);
    PreorderOne(minf);
    LeafBelow(hdlr, [minf]);
    assert [hdlr] + [minf] == [hdlr, minf];
    PreorderOne(mdia);
  }

  lemma TreeIs(c: Content)
    requires Shaped(c)
    ensures TrakTree(c).kids == [MdiaTree(c)] && MdiaTree(c).kids == [HdlrTree(c), MinfTree(c)]
    ensures HdlrTree(c).kids == [] && MinfTree(c).kids == [StblTree(c)]
    ensures StblTree(c).kids == [StsdTree(c), StszTree(c), StscTree(c), StcoTree(c)]
    ensures StsdTree(c).kids == [ColrTree(c), HvccTree(c)]
    ensures StszTree(c).kids == StscTree(c).kids == StcoTree(c).kids == ColrTree(c).kids == HvccTree(c).kids == []
  {
    hide TagValue, StsdAt, StszAt, StscAt, StcoAt, MdatAt, RecordOf, StsdPayload, SizeWords, StscWords, OffsetPayload,
         Offsets, MdiaPayload, StblPayload, StblBox, MdiaBox, Hdr;
  }

  lemma TrackBelow(c: Content)
    requires Shaped(c)
    ensures Preorder(TrakTree(c).kids) == TrackBoxes(c)
  {
    hide Preorder, TrakTree, MdiaTree, HdlrTree, MinfTree, StblTree, StsdTree, ColrTree, HvccTree, StszTree, StscTree,
         StcoTree;
    TreeIs(c);
    NestBelow(MdiaTree(c), HdlrTree(c), MinfTree(c), StblTree(c));
    TableBelow(StsdTree(c), StszTree(c), StscTree(c), StcoTree(c), ColrTree(c), HvccTree(c));
  }

  lemma {:induction false} OnlyOne(boxes: seq<Box>, level: Level, tags: set<nat>, i: nat)
    requires i < |boxes| && forall j :: 0 <= j < |boxes| ==> (Is(boxes[j], level, tags) <==> j == i)
    ensures Latest(boxes, level, tags) == Some(boxes[i])
  {
    var k := LatestIsLast(boxes, level, tags);
    assert Is(boxes[i], level, tags);
  }

  function Described(c: Content): TrackInfo
    requires Shaped(c)
  {
    TrackInfo(true,
              Range(HvccAt(c) + 8, |RecordOf(c)|),
              Range(StszAt(c) + Hdr(c.form(T_STSZ)), 4 * |SizeWords(c)|),
              Range(StcoAt(c) + Hdr(c.form(OffsetTag(c))), |OffsetPayload(c.wide, Offsets(c))|),
              c.wide,
              Range(StscAt(c) + Hdr(c.form(T_STSC)), 4 * |StscWords(c)|))
  }

  /** The levels and types of the boxes of the track. */
  lemma TrackTags(c: Content)
    requires Shaped(c)
    ensures var boxes := TrackBoxes(c);
            && (forall j :: 0 <= j < 10 ==> boxes[j].level == if j == 5 || j == 6 then Level.Entry else Track)
            && boxes[0].tag == MDIA && boxes[1].tag == HDLR && boxes[2].tag == MINF && boxes[3].tag == STBL
            && boxes[4].tag == STSD && boxes[5].tag != HVCC && boxes[6].tag == HVCC && boxes[7].tag == STSZ
            && boxes[8].tag == STSC && boxes[9].tag == if c.wide then CO64 else STCO
  {
    hide TagValue, StsdAt, StszAt, StscAt, StcoAt, MdatAt, RecordOf, StsdPayload, SizeWords, StscWords, OffsetPayload,
         Offsets, TableTrees, MdiaPayload, StblPayload, StblBox, Hdr;
    KnownTags();
    OtherTags();
  }

  lemma TrackIsDescribed(buf: seq<byte>, c: Content)
    requires Shaped(c) && HoldsAt(buf, HdlrAt(c), HdlrBox(c))
    ensures TrackOfBox(buf, TrakTree(c)) == Described(c)
  {
    hide HoldsAt, TagValue, Preorder, StsdAt, StszAt, StscAt, StcoAt, HdlrAt, MdatAt, RecordOf, StsdPayload,
         SizeWords, StscWords, OffsetPayload, Offsets, TableTrees, MdiaPayload, StblPayload, StblBox, Hdr, Latest,
         PrintBox, MdiaTree, Rd32, HvccAt;
    TrackBelow(c);
    TrackTags(c);
    var boxes := TrackBoxes(c);
    HandlerReads(buf, HdlrAt(c), c.form(T_HDLR), T_VIDE);
    KnownTags();
    assert SaysVideo(buf, boxes[1]);
    OnlyOne(boxes, Level.Entry, {HVCC}, 6);
    OnlyOne(boxes, Track, {STSZ}, 7);
    OnlyOne(boxes, Track, {STCO, CO64}, 9);
    OnlyOne(boxes, Track, {STSC}, 8);
  }

  lemma {:induction false} OneVideoTrack(buf: seq<byte>, ftyp: Box, moov: Box, sounds: seq<Box>, trak: Box, mdat: Box)
    requires ftyp.tag != TRAK && moov.tag != TRAK && mdat.tag != TRAK
    requires trak.tag == TRAK && TrackOfBox(buf, trak).isVide
    requires |sounds| <= 1 && forall b :: b in sounds ==> !TrackOfBox(buf, b).isVide
    ensures VideoTracks(buf, [ftyp, moov] + sounds + [trak] + [mdat]) == [trak]
  {
    hide VideoTracks, TrackOfBox;
    NoVideo(buf);
    OneMoreVideoTrack(buf, [], ftyp);
    assert [] + [ftyp] == [ftyp];
    OneMoreVideoTrack(buf, [ftyp], moov);
    assert [ftyp] + [moov] == [ftyp, moov];
    if sounds != [] {
      assert sounds == [sounds[0]] && sounds[0] in sounds;
      OneMoreVideoTrack(buf, [ftyp, moov], sounds[0]);
    } else {
      assert [ftyp, moov] + sounds == [ftyp, moov];
    }
    OneMoreVideoTrack(buf, [ftyp, moov] + sounds, trak);
    OneMoreVideoTrack(buf, [ftyp, moov] + sounds + [trak], mdat);
  }

  lemma {:induction false} VideoTrackIs(buf: seq<byte>, c: Content)
    requires Shaped(c) && HoldsAt(buf, HdlrAt(c), HdlrBox(c)) && HoldsAt(buf, SoundAt(c), SoundTrack(c))
    ensures VideoTracks(buf, AllTop(c)) == [TrakTree(c)]
  {
    hide HoldsAt, VideoTracks, HdlrAt, SoundAt, HdlrBox, Described, TrackOfBox, MovieTrees, FtypTree, MoovTree,
         MdatTree, TrakTree, SoundTree, Shaped, PrintBox, HdlrPayload;
    TrackIsDescribed(buf, c);
    DescribedIsVideo(c);
    MovieIs(c);
    TopTags(c);
    var sounds := if c.sound then [SoundTree(SoundAt(c))] else [];
    if c.sound {
      SoundIsNotVideo(buf, SoundAt(c));
    }
    OneVideoTrack(buf, FtypTree(c), MoovTree(c), sounds, TrakTree(c), MdatTree(c));
    assert [FtypTree(c), MoovTree(c)] + (sounds + [TrakTree(c)]) == [FtypTree(c), MoovTree(c)] + sounds + [TrakTree(c)];
  }

  lemma DescribedIsVideo(c: Content)
    requires Shaped(c)
    ensures Described(c).isVide
  {
  }

  lemma {:induction false} NoVideo(buf: seq<byte>)
    ensures VideoTracks(buf, []) == []
  {
  }
}
