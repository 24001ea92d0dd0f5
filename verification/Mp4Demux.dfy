// The demuxer: from an MP4 file with one HEVC video track to an Annex-B byte stream.

module Mp4Demux {
  import opened Bytes
  import opened AnnexB
  import opened BoxTree
  import opened SampleIndex
  import opened NalFraming

  predicate Fits(buf: seq<byte>, r: Range) {
    r.off + r.len <= |buf|
  }

  predicate RangesFit(buf: seq<byte>, t: TrackInfo) {
    Fits(buf, t.hvcc) && Fits(buf, t.stsz) && Fits(buf, t.stco) && Fits(buf, t.stsc)
  }

  // ----- the tables of a track

  /** Bytes that n chunk offsets take. */
  function OffsetBytes(t: TrackInfo, n: nat): nat {
    if t.is64 then 8 * n else 4 * n
  }

  /** The first complaint about the tables themselves, in the order the demuxer checks them. */
  function TableError(buf: seq<byte>, t: TrackInfo): (e: Option<Mp4Error>)
    requires RangesFit(buf, t)
  {
    if t.hvcc.len == 0 then Some(NotHevc)
    else if t.stsz.len == 0 || t.stco.len == 0 || t.stsc.len == 0 then Some(MissingTables)
    else if t.hvcc.len < 23 then Some(HvccTooShort)
    else if t.stsz.len < 12 then Some(StszTooShort)
    else if Rd32(buf, t.stsz.off + 8) == 0 then Some(ZeroSamples)
    else if Rd32(buf, t.stsz.off + 4) == 0 && t.stsz.len < 12 + Rd32(buf, t.stsz.off + 8) * 4 then Some(StszOverrun)
    else if t.stco.len < 8 then Some(StcoTooShort)
    else if Rd32(buf, t.stco.off + 4) == 0 || t.stco.len < 8 + OffsetBytes(t, Rd32(buf, t.stco.off + 4)) then
      Some(StcoOverrun)
    else if t.stsc.len < 8 then Some(StscTooShort)
    else if Rd32(buf, t.stsc.off + 4) == 0 || t.stsc.len < 8 + Rd32(buf, t.stsc.off + 4) * 12 then Some(StscOverrun)
    else None
  }

  /** Every table lies in the file, is long enough for its header and for the entries it announces, and announces
      some. */
  predicate TablesOk(buf: seq<byte>, t: TrackInfo) {
    && RangesFit(buf, t)
    && t.hvcc.len >= 23 && t.stsz.len >= 12 && t.stco.len >= 8 && t.stsc.len >= 8
    && var common, samples := Rd32(buf, t.stsz.off + 4), Rd32(buf, t.stsz.off + 8);
    && var chunks, runs := Rd32(buf, t.stco.off + 4), Rd32(buf, t.stsc.off + 4);
    && samples > 0 && chunks > 0 && runs > 0
    && (common == 0 ==> 12 + 4 * samples <= t.stsz.len)
    && 8 + OffsetBytes(t, chunks) <= t.stco.len
    && 8 + 12 * runs <= t.stsc.len
  }

  /** The ordered checks find nothing exactly if the tables are in order. */
  lemma NoTableErrorIff(buf: seq<byte>, t: TrackInfo)
    requires RangesFit(buf, t)
    ensures TableError(buf, t).None? <==> TablesOk(buf, t)
  {
  }

  function Record(buf: seq<byte>, t: TrackInfo): (rec: seq<byte>)
    requires TablesOk(buf, t)
    ensures |rec| >= 23
  {
    buf[t.hvcc.off..t.hvcc.off + t.hvcc.len]
  }

  /** Width of the NAL length fields: the low two bits of byte 21, plus one. */
  function LengthSize(buf: seq<byte>, t: TrackInfo): (w: nat)
    requires TablesOk(buf, t)
    ensures 1 <= w <= 4
  {
    Record(buf, t)[21] % 4 + 1
  }

  function SampleCount(buf: seq<byte>, t: TrackInfo): nat
    requires TablesOk(buf, t)
  {
    Rd32(buf, t.stsz.off + 8)
  }

  function SizeAt(buf: seq<byte>, t: TrackInfo, sample: nat): nat
    requires TablesOk(buf, t) && sample < SampleCount(buf, t)
  {
    var common := Rd32(buf, t.stsz.off + 4);
    if common != 0 then common else Rd32(buf, t.stsz.off + 12 + sample * 4)
  }

  function ChunkCount(buf: seq<byte>, t: TrackInfo): nat
    requires TablesOk(buf, t)
  {
    Rd32(buf, t.stco.off + 4)
  }

  function ChunkAt(buf: seq<byte>, t: TrackInfo, i: nat): nat
    requires TablesOk(buf, t) && i < ChunkCount(buf, t)
  {
    if t.is64 then Rd64(buf, t.stco.off + 8 + i * 8) else Rd32(buf, t.stco.off + 8 + i * 4)
  }

  function RunCount(buf: seq<byte>, t: TrackInfo): nat
    requires TablesOk(buf, t)
  {
    Rd32(buf, t.stsc.off + 4)
  }

  function RunAt(buf: seq<byte>, t: TrackInfo, r: nat): Run
    requires TablesOk(buf, t) && r < RunCount(buf, t)
  {
    Run(Rd32(buf, t.stsc.off + 8 + r * 12), Rd32(buf, t.stsc.off + 8 + r * 12 + 4))
  }

  function IndexOf(buf: seq<byte>, t: TrackInfo): Index
    requires TablesOk(buf, t)
  {
    Index(
      seq(SampleCount(buf, t), k requires 0 <= k < SampleCount(buf, t) => SizeAt(buf, t, k)),
      seq(ChunkCount(buf, t), i requires 0 <= i < ChunkCount(buf, t) => ChunkAt(buf, t, i)),
      seq(RunCount(buf, t), r requires 0 <= r < RunCount(buf, t) => RunAt(buf, t, r)))
  }

  // ----- what the demuxer delivers

  /** The NALs of one sample, if it lies in the file and is well framed. */
  function LocNals(buf: seq<byte>, off: nat, size: nat, w: nat): NalResult
    requires w > 0
  {
    if off + size > |buf| then Failure(SamplePastEnd) else SampleNals(buf[off..off + size], w)
  }

  /** The NALs of a list of samples, or the first error met. */
  function LocsNals(buf: seq<byte>, locs: seq<Loc>, w: nat): NalResult
    requires w > 0
  {
    if locs == [] then Success([])
    else Chain(LocNals(buf, locs[0].off, locs[0].size, w), LocsNals(buf, locs[1..], w))
  }

  /** The samples of a walk: an error in a visited sample comes before the malformed run that stops the walk. */
  function WalkNals(buf: seq<byte>, ix: Index, w: nat): NalResult
    requires w > 0
  {
    var plan := PlanFrom(ix, 0, 0);
    var r := LocsNals(buf, plan.locs, w);
    if r.Failure? then r
    else if plan.bad then Failure(BadStscRun)
    else if |plan.locs| != |ix.sizes| then Failure(SamplesNotCovered)
    else r
  }

  function TrackNals(buf: seq<byte>, t: TrackInfo): NalResult
    requires RangesFit(buf, t)
  {
    match TableError(buf, t)
    case Some(e) => Failure(e)
    case None =>
      NoTableErrorIff(buf, t);
      var ps := Arrays(Record(buf, t), 23, Record(buf, t)[22]);
      if ps.Failure? then ps
      else
        var all := After(ps.value, WalkNals(buf, IndexOf(buf, t), LengthSize(buf, t)));
        if all == Success([]) then Failure(NoNalUnits) else all
  }

  /** The NALs the demuxer delivers for a file, or why it refuses. */
  ghost function DemuxNals(buf: seq<byte>): NalResult {
    match Parse(buf, Top, 0, |buf|)
    case None => Failure(MalformedBoxes)
    case Some(boxes) =>
      var top := TopBoxes(boxes);
      var tracks := VideoTracks(buf, top);
      if CountMoof(top) > 0 then Failure(Fragmented)
      else if |tracks| == 0 then Failure(NoVideoTrack)
      else if |tracks| > 1 then Failure(MultipleVideoTracks)
      else
        TrackRangesFit(buf, boxes, tracks[0]);
        TrackNals(buf, TrackOfBox(buf, tracks[0]))
  }

  lemma {:induction false} DemuxIsTrack(buf: seq<byte>, boxes: seq<Box>, b: Box)
    requires Parse(buf, Top, 0, |buf|) == Some(boxes)
    requires CountMoof(TopBoxes(boxes)) == 0 && VideoTracks(buf, TopBoxes(boxes)) == [b]
    ensures RangesFit(buf, TrackOfBox(buf, b))
    ensures DemuxNals(buf) == TrackNals(buf, TrackOfBox(buf, b))
  {
    TrackRangesFit(buf, boxes, b);
  }

  // ----- box ranges stay inside the file

  ghost predicate AllInside(buf: seq<byte>, boxes: seq<Box>) {
    forall b :: b in boxes ==> b.start <= b.end <= |buf|
  }

  lemma {:induction false} ParseStaysInside(buf: seq<byte>, level: Level, off: nat, end: nat)
    requires end <= |buf| && Parse(buf, level, off, end).Some?
    ensures AllInside(buf, Preorder(Parse(buf, level, off, end).value))
    decreases end - off, 0
  {
    if off + 8 <= end {
      var h := HeaderAt(buf, level, off, end).value;
      KidsStayInside(buf, level, h);
      ParseStaysInside(buf, level, h.end, end);
      var boxes := Parse(buf, level, off, end).value;
      assert boxes[1..] == Parse(buf, level, h.end, end).value;
    }
  }

  lemma {:induction false} KidsStayInside(buf: seq<byte>, level: Level, h: Header)
    requires h.start <= h.end <= |buf| && ParseKids(buf, level, h).Some?
    ensures AllInside(buf, Preorder(ParseKids(buf, level, h).value))
    decreases h.end - h.start, 1
  {
    match Inside(buf, level, h)
    case None =>
    case Some((inner, a, b)) => ParseStaysInside(buf, inner, a, b);
  }

  /** A box on top level is among all boxes, and so are the boxes below it. */
  lemma {:induction false} TopBoxIsBox(boxes: seq<Box>, b: Box)
    requires b in TopBoxes(boxes)
    ensures forall c :: c in Preorder(b.kids) ==> c in Preorder(boxes)
    decreases boxes
  {
    if b == boxes[0] {
    } else if b in TopBoxes(boxes[1..]) {
      TopBoxIsBox(boxes[1..], b);
    } else {
      TopBoxIsBox(boxes[0].kids, b);
    }
  }

  lemma {:induction false} VideoTracksAmong(buf: seq<byte>, boxes: seq<Box>)
    ensures forall b :: b in VideoTracks(buf, boxes) ==> b in boxes
  {
    if boxes != [] {
      VideoTracksAmong(buf, boxes[..|boxes| - 1]);
    }
  }

  lemma {:induction false} TrackRangesFit(buf: seq<byte>, boxes: seq<Box>, b: Box)
    requires Parse(buf, Top, 0, |buf|) == Some(boxes)
    requires b in VideoTracks(buf, TopBoxes(boxes))
    ensures RangesFit(buf, TrackOfBox(buf, b))
  {
    ParseStaysInside(buf, Top, 0, |buf|);
    VideoTracksAmong(buf, TopBoxes(boxes));
    TopBoxIsBox(boxes, b);
    var below := Preorder(b.kids);
    LatestFits(buf, below, Entry, {HVCC});
    LatestFits(buf, below, Track, {STSZ});
    LatestFits(buf, below, Track, {STCO, CO64});
    LatestFits(buf, below, Track, {STSC});
  }

  lemma {:induction false} LatestFits(buf: seq<byte>, boxes: seq<Box>, level: Level, tags: set<nat>)
    requires AllInside(buf, boxes)
    ensures Fits(buf, RangeOf(Latest(boxes, level, tags)))
  {
    var i := LatestIsLast(boxes, level, tags);
  }
}
