// What the demuxer guarantees, for every file: when it succeeds, what it delivers, how long that is,
// and when the NAL splitter of the header generators gets the NALs back from it.

module Mp4Guarantee {
  import opened Bytes
  import opened AnnexB
  import opened BoxTree
  import opened SampleIndex
  import opened NalFraming
  import opened Mp4Demux
  import opened Mp4Writer

  /** Sample k lies in the file, at its declared place, and is exactly these non-empty NALs behind w-byte lengths. */
  ghost predicate SampleHolds(buf: seq<byte>, ix: Index, k: nat, w: nat, nals: seq<Nal>) {
    exists l :: Placed(ix, k, l) && l.off + l.size <= |buf|
                && Framable(nals, w) && LengthPrefixed(nals, w) == buf[l.off..l.off + l.size]
  }

  /** A file the demuxer is made for, said by what it contains, whatever the walk does: the boxes are well formed,
      none is a fragment, exactly one track is a video track, its tables fit, its decoder record begins
      with the printed arrays, its leading well-formed runs hold all samples, and every sample holds its NALs. */
  ghost predicate IsHevcFile(buf: seq<byte>, boxes: seq<Box>, track: Box, arrays: seq<PsArray>,
                             samples: seq<seq<Nal>>) {
    && Parse(buf, Top, 0, |buf|) == Some(boxes)
    && (forall b :: b in TopBoxes(boxes) ==> b.tag != MOOF)
    && VideoTracks(buf, TopBoxes(boxes)) == [track]
    && var t := TrackOfBox(buf, track);
    && TablesOk(buf, t)
    && |arrays| == Record(buf, t)[22] && Printable(arrays) && HoldsAt(Record(buf, t), 23, PrintArrays(arrays))
    && var ix := IndexOf(buf, t);
    && RunsCover(ix)
    && |samples| == |ix.sizes|
    && forall k :: 0 <= k < |samples| ==> SampleHolds(buf, ix, k, LengthSize(buf, t), samples[k])
  }

  /** Parameter sets in record order, then the NALs of samples 0, 1, 2, ... */
  function AllNals(arrays: seq<PsArray>, samples: seq<seq<Nal>>): seq<Nal> {
    ArraysNals(arrays) + Flatten(samples)
  }

  lemma {:induction false} NoMoof(boxes: seq<Box>)
    ensures CountMoof(boxes) == 0 <==> forall b :: b in boxes ==> b.tag != MOOF
  {
    if boxes != [] {
      var n := |boxes| - 1;
      NoMoof(boxes[..n]);
      assert boxes == boxes[..n] + [boxes[n]];
    }
  }

  /** The NALs of a list of samples, sample by sample. */
  lemma {:induction false} LocsNalsParts(buf: seq<byte>, locs: seq<Loc>, w: nat) returns (samples: seq<seq<Nal>>)
    requires w > 0 && LocsNals(buf, locs, w).Success?
    ensures |samples| == |locs| && Flatten(samples) == LocsNals(buf, locs, w).value
    ensures forall k :: 0 <= k < |locs| ==> LocNals(buf, locs[k].off, locs[k].size, w) == Success(samples[k])
  {
    if locs == [] {
      samples := [];
    } else {
      var first := LocNals(buf, locs[0].off, locs[0].size, w).value;
      var rest := LocsNalsParts(buf, locs[1..], w);
      samples := [first] + rest;
      assert samples[1..] == rest;
      forall k | 0 <= k < |locs|
        ensures LocNals(buf, locs[k].off, locs[k].size, w) == Success(samples[k])
      {
        if k > 0 {
          assert locs[k] == locs[1..][k - 1];
        }
      }
    }
  }

  lemma {:induction false} LocsNalsOfParts(buf: seq<byte>, locs: seq<Loc>, w: nat, samples: seq<seq<Nal>>)
    requires w > 0 && |samples| == |locs|
    requires forall k :: 0 <= k < |locs| ==> LocNals(buf, locs[k].off, locs[k].size, w) == Success(samples[k])
    ensures LocsNals(buf, locs, w) == Success(Flatten(samples))
  {
    if locs != [] {
      LocsNalsOfParts(buf, locs[1..], w, samples[1..]);
    }
  }

  lemma SampleHoldsIff(buf: seq<byte>, ix: Index, k: nat, w: nat, nals: seq<Nal>, l: Loc)
    requires w > 0 && Placed(ix, k, l)
    ensures LocNals(buf, l.off, l.size, w) == Success(nals) <==> SampleHolds(buf, ix, k, w, nals)
  {
    if l.off + l.size <= |buf| {
      SampleTilesIff(buf[l.off..l.off + l.size], w, nals);
    }
    if SampleHolds(buf, ix, k, w, nals) {
      var m :| Placed(ix, k, m) && m.off + m.size <= |buf|
               && Framable(nals, w) && LengthPrefixed(nals, w) == buf[m.off..m.off + m.size];
      PlacementIsUnique(ix, k, l, m);
    }
  }

  /** The walk delivers these samples exactly if leading runs hold them all and each one is well formed. */
  lemma WalkSucceeds(buf: seq<byte>, ix: Index, w: nat) returns (samples: seq<seq<Nal>>)
    requires w > 0 && |ix.sizes| > 0 && |ix.runs| > 0 && WalkNals(buf, ix, w).Success?
    ensures RunsCover(ix) && |samples| == |ix.sizes|
    ensures WalkNals(buf, ix, w) == Success(Flatten(samples))
    ensures forall k :: 0 <= k < |samples| ==> SampleHolds(buf, ix, k, w, samples[k])
  {
    CoversIff(ix);
    var locs := PlanFrom(ix, 0, 0).locs;
    samples := LocsNalsParts(buf, locs, w);
    forall k | 0 <= k < |samples|
      ensures SampleHolds(buf, ix, k, w, samples[k])
    {
      WalkIsPlacement(ix, k);
      SampleHoldsIff(buf, ix, k, w, samples[k], locs[k]);
    }
  }

  lemma {:induction false} WalkDelivers(buf: seq<byte>, ix: Index, w: nat, samples: seq<seq<Nal>>)
    requires w > 0 && |ix.sizes| > 0 && |ix.runs| > 0
    requires RunsCover(ix) && |samples| == |ix.sizes|
    requires forall k :: 0 <= k < |samples| ==> SampleHolds(buf, ix, k, w, samples[k])
    ensures WalkNals(buf, ix, w) == Success(Flatten(samples))
  {
    CoversIff(ix);
    var locs := PlanFrom(ix, 0, 0).locs;
    forall k | 0 <= k < |locs|
      ensures LocNals(buf, locs[k].off, locs[k].size, w) == Success(samples[k])
    {
      WalkIsPlacement(ix, k);
      SampleHoldsIff(buf, ix, k, w, samples[k], locs[k]);
    }
    LocsNalsOfParts(buf, locs, w, samples);
  }

  lemma DemuxSucceeds(buf: seq<byte>)
    returns (boxes: seq<Box>, track: Box, arrays: seq<PsArray>, samples: seq<seq<Nal>>)
    requires DemuxNals(buf).Success?
    ensures IsHevcFile(buf, boxes, track, arrays, samples)
    ensures DemuxNals(buf) == Success(AllNals(arrays, samples)) && AllNals(arrays, samples) != []
  {
    boxes := Parse(buf, Top, 0, |buf|).value;
    NoMoof(TopBoxes(boxes));
    track := VideoTracks(buf, TopBoxes(boxes))[0];
    DemuxIsTrack(buf, boxes, track);
    var t := TrackOfBox(buf, track);
    NoTableErrorIff(buf, t);
    arrays := PrintOfArrays(Record(buf, t), 23, Record(buf, t)[22]);
    samples := WalkSucceeds(buf, IndexOf(buf, t), LengthSize(buf, t));
  }

  lemma DemuxDelivers(buf: seq<byte>, boxes: seq<Box>, track: Box, arrays: seq<PsArray>, samples: seq<seq<Nal>>)
    requires IsHevcFile(buf, boxes, track, arrays, samples) && AllNals(arrays, samples) != []
    ensures DemuxNals(buf) == Success(AllNals(arrays, samples))
  {
    NoMoof(TopBoxes(boxes));
    DemuxIsTrack(buf, boxes, track);
    var t := TrackOfBox(buf, track);
    NoTableErrorIff(buf, t);
    ArraysOfPrint(Record(buf, t), 23, arrays);
    WalkDelivers(buf, IndexOf(buf, t), LengthSize(buf, t), samples);
  }

  /** Main result: for every file, success is exactly being an HEVC file with something in it, and then the
      NALs delivered are the parameter sets in record order followed by those of all samples in order. */
  lemma DemuxSucceedsIff(buf: seq<byte>, nals: seq<Nal>)
    ensures DemuxNals(buf) == Success(nals) <==>
            nals != [] && exists boxes, track, arrays, samples ::
              IsHevcFile(buf, boxes, track, arrays, samples) && nals == AllNals(arrays, samples)
  {
    if DemuxNals(buf) == Success(nals) {
      var boxes, track, arrays, samples := DemuxSucceeds(buf);
    }
    forall boxes, track, arrays, samples
      | nals != [] && IsHevcFile(buf, boxes, track, arrays, samples) && nals == AllNals(arrays, samples)
      ensures DemuxNals(buf) == Success(nals)
    {
      DemuxDelivers(buf, boxes, track, arrays, samples);
    }
  }

  /** The splitter of the header generators, run on the demuxer's output, returns the delivered NALs in order
      if and only if they are separable. */
  method DemuxThenSplit(buf: seq<byte>) returns (r: Result<seq<Nal>, Mp4Error>)
    ensures match DemuxNals(buf)
            case Failure(e) => r == Failure(e)
            case Success(nals) => r.Success? && (r.value == nals <==> Separable(nals))
  {
    var out := Mp4ToAnnexB(buf);
    if out.Failure? {
      return Failure(out.error);
    }
    SplitInvertsRender(DemuxNals(buf).value);
    var starts, nalBytes := SplitNals(out.value);
    return Success(InOrder(starts, nalBytes));
  }

  // ----- length of the output

  lemma {:induction false} PayloadAppend(a: seq<Nal>, b: seq<Nal>)
    ensures Payload(a + b) == Payload(a) + Payload(b)
  {
    if a == [] {
      assert a + b == b;
    } else {
      PayloadAppend(a[1..], b);
      assert (a + b)[1..] == a[1..] + b;
    }
  }

  lemma FlattenOneMore(samples: seq<seq<Nal>>, k: nat)
    requires 0 < k <= |samples|
    ensures Flatten(samples[..k]) == Flatten(samples[..k - 1]) + samples[k - 1]
  {
    var last := [samples[k - 1]];
    assert samples[..k] == samples[..k - 1] + last;
    FlattenAppend(samples[..k - 1], last);
    assert last[1..] == [] && Flatten(last) == samples[k - 1];
  }

  /** What NALs take behind length fields of w bytes. */
  function FramedSize(nals: seq<Nal>, w: nat): nat {
    Payload(nals) + w * |nals|
  }

  lemma OneSampleSize(buf: seq<byte>, ix: Index, k: nat, w: nat, nals: seq<Nal>)
    requires SampleHolds(buf, ix, k, w, nals)
    ensures k < |ix.sizes| && FramedSize(nals, w) == ix.sizes[k]
  {
    LengthPrefixedLength(nals, w);
  }

  lemma SumOneMore(ns: seq<nat>, k: nat)
    requires 0 < k <= |ns|
    ensures Sum(ns[..k]) == Sum(ns[..k - 1]) + ns[k - 1]
  {
    assert ns[..k] == ns[..k - 1] + [ns[k - 1]];
    SumAppend(ns[..k - 1], [ns[k - 1]]);
  }

  lemma {:induction false} SamplesSize(buf: seq<byte>, ix: Index, w: nat, samples: seq<seq<Nal>>, k: nat)
    requires k <= |samples| == |ix.sizes|
    requires forall j :: 0 <= j < |samples| ==> SampleHolds(buf, ix, j, w, samples[j])
    ensures FramedSize(Flatten(samples[..k]), w) == Sum(ix.sizes[..k])
  {
    hide *;
    if k == 0 {
      assert samples[..0] == [] && ix.sizes[..0] == [];
      NothingToSize(w);
    } else {
      SamplesSize(buf, ix, w, samples, k - 1);
      FlattenOneMore(samples, k);
      FramedSizeAppend(Flatten(samples[..k - 1]), samples[k - 1], w);
      SumOneMore(ix.sizes, k);
      OneSampleSize(buf, ix, k - 1, w, samples[k - 1]);
    }
  }

  lemma NothingToSize(w: nat)
    ensures FramedSize(Flatten([]), w) == 0 == Sum([])
  {
  }

  lemma FramedSizeAppend(a: seq<Nal>, b: seq<Nal>, w: nat)
    ensures FramedSize(a + b, w) == FramedSize(a, w) + FramedSize(b, w)
  {
    PayloadAppend(a, b);
    Distribute(w, |a|, |b|);
  }

  lemma Distribute(c: int, m: int, n: int)
    ensures c * (m + n) == c * m + c * n
  {
  }

  lemma SwapLengthFields(payload: int, w: int, n: int, size: int)
    requires payload + w * n == size
    ensures payload + 4 * n == size + (4 - w) * n
  {
  }

  lemma {:induction false} SamplesGrowth(buf: seq<byte>, ix: Index, w: nat, samples: seq<seq<Nal>>)
    requires |samples| == |ix.sizes|
    requires forall j :: 0 <= j < |samples| ==> SampleHolds(buf, ix, j, w, samples[j])
    ensures |Render(Flatten(samples))| == Sum(ix.sizes) + (4 - w) * |Flatten(samples)|
  {
    var nals := Flatten(samples);
    SamplesSize(buf, ix, w, samples, |samples|);
    assert samples[..|samples|] == samples && ix.sizes[..|samples|] == ix.sizes;
    RenderLength(nals);
    SwapLengthFields(Payload(nals), w, |nals|, Sum(ix.sizes));
  }

  /** The samples take, in the byte stream, their total size plus 4 - w bytes for every NAL in them. */
  lemma {:induction false} OutputGrowth(buf: seq<byte>, boxes: seq<Box>, track: Box, arrays: seq<PsArray>,
                                        samples: seq<seq<Nal>>)
    requires IsHevcFile(buf, boxes, track, arrays, samples)
    ensures var t := TrackOfBox(buf, track);
            |Render(AllNals(arrays, samples))| ==
              |Render(ArraysNals(arrays))| + Sum(IndexOf(buf, t).sizes) + (4 - LengthSize(buf, t)) * |Flatten(samples)|
  {
    var t := TrackOfBox(buf, track);
    var ix := IndexOf(buf, t);
    RenderAppend(ArraysNals(arrays), Flatten(samples));
    SamplesGrowth(buf, ix, LengthSize(buf, t), samples);
  }
}
