// The demuxer's loops: parameter sets, then the samples in table order, into the output buffer.

module Mp4Writer {
  import opened Bytes
  import opened AnnexB
  import opened OutBuffer
  import opened BoxTree
  import opened BoxWalk
  import opened SampleIndex
  import opened NalFraming
  import opened Mp4Demux

  /** What a writing step promises: the error of r, or its NALs appended to the buffer. */
  ghost predicate Wrote(r: NalResult, e: Option<Mp4Error>, before: seq<byte>, after: seq<byte>) {
    match r
    case Failure(x) => e == Some(x)
    case Success(nals) => e == None && after == before + Render(nals)
  }

  lemma {:induction false} RenderMore(before: seq<byte>, done: seq<Nal>, more: seq<Nal>)
    ensures before + Render(done) + Render(more) == before + Render(done + more)
  {
    RenderAppend(done, more);
    assert before + Render(done) + Render(more) == before + (Render(done) + Render(more));
  }

  lemma {:induction false} RenderOne(before: seq<byte>, done: seq<Nal>, nal: Nal)
    ensures before + Render(done) + START_CODE + nal == before + Render(done + [nal])
  {
    assert [nal][1..] == [];
    assert Render([nal]) == START_CODE + nal;
    RenderMore(before, done, [nal]);
    assert before + Render(done) + START_CODE + nal == before + Render(done) + (START_CODE + nal);
  }

  /** A writing loop: done is written, and the result of the whole is done followed by that of the rest. */
  ghost predicate Writing(whole: NalResult, done: seq<Nal>, rest: NalResult, before: seq<byte>, now: seq<byte>) {
    whole == After(done, rest) && now == before + Render(done)
  }

  lemma StartWriting(whole: NalResult, before: seq<byte>)
    ensures Writing(whole, [], whole, before, before)
  {
    AfterNothing(whole);
    assert before + Render([]) == before;
  }

  lemma {:induction false} KeepWriting(whole: NalResult, done: seq<Nal>, nals: seq<Nal>, rest: NalResult,
                                       before: seq<byte>, now: seq<byte>)
    requires Writing(whole, done, After(nals, rest), before, now)
    ensures Writing(whole, done + nals, rest, before, now + Render(nals))
  {
    AfterAfter(done, nals, rest);
    RenderMore(before, done, nals);
  }

  lemma KeepWritingOne(whole: NalResult, done: seq<Nal>, nal: Nal, rest: NalResult, before: seq<byte>, now: seq<byte>)
    requires Writing(whole, done, After([nal], rest), before, now)
    ensures Writing(whole, done + [nal], rest, before, now + START_CODE + nal)
  {
    AfterAfter(done, [nal], rest);
    RenderOne(before, done, nal);
  }

  /** One more part is written, or its error ends the whole. */
  lemma PartWritten(whole: NalResult, done: seq<Nal>, part: NalResult, rest: NalResult, e: Option<Mp4Error>,
                    before: seq<byte>, now: seq<byte>, after: seq<byte>)
    requires Writing(whole, done, Chain(part, rest), before, now)
    requires Wrote(part, e, now, after)
    ensures e.Some? ==> Wrote(whole, e, before, after)
    ensures e.None? ==> part.Success? && Writing(whole, done + part.value, rest, before, after)
  {
    if part.Success? {
      KeepWriting(whole, done, part.value, rest, before, now);
    }
  }

  lemma StopWriting(whole: NalResult, done: seq<Nal>, rest: NalResult, e: Option<Mp4Error>, before: seq<byte>,
                    now: seq<byte>)
    requires Writing(whole, done, rest, before, now)
    requires rest == if e.Some? then Failure(e.value) else Success([])
    ensures Wrote(whole, e, before, now)
  {
    assert done + [] == done;
  }

  lemma {:induction false} SampleStep(buf: seq<byte>, p: nat, end: nat, w: nat)
    requires w > 0 && p + w <= end <= |buf|
    ensures var nl := Be(buf[p..p + w]);
            SampleNals(buf[p..end], w) ==
              if nl == 0 || p + w + nl > end then Failure(BadNalLength)
              else After([buf[p + w..p + w + nl]], SampleNals(buf[p + w + nl..end], w))
  {
    hide Be, After;
    var s, nl := buf[p..end], Be(buf[p..p + w]);
    SliceOfSlice(buf, p, end, 0, w);
    assert s[0..w] == s[..w];
    if p + w + nl <= end {
      SliceOfSlice(buf, p, end, w, w + nl);
      SliceOfSlice(buf, p, end, w + nl, end - p);
      assert s[w + nl..end - p] == s[w + nl..];
    }
  }

  lemma {:induction false} SampleStarts(buf: seq<byte>, off: nat, size: nat, w: nat)
    requires w > 0
    ensures LocNals(buf, off, size, w) ==
            if off + size > |buf| then Failure(SamplePastEnd) else SampleNals(buf[off..off + size], w)
  {
  }

  lemma {:induction false} SampleEnds(buf: seq<byte>, p: nat, end: nat, w: nat)
    requires w > 0 && p <= end <= |buf| && p + w > end
    ensures SampleNals(buf[p..end], w) == if p == end then Success([]) else Failure(NotOnNalBoundary)
  {
  }

  /** Emits the length-prefixed NALs of one sample. */
  method EmitSample(o: OBuf, buf: seq<byte>, off: nat, size: nat, w: nat) returns (e: Option<Mp4Error>)
    requires o.Valid() && w > 0
    modifies o, o.d
    ensures o.Valid() && (o.d == old(o.d) || fresh(o.d))
    ensures Wrote(LocNals(buf, off, size, w), e, old(o.Contents), o.Contents)
  {
    hide *;
    ghost var before, done := o.Contents, [];
    ghost var whole := LocNals(buf, off, size, w);
    StartWriting(whole, before);
    SampleStarts(buf, off, size, w);
    if off + size > |buf| {
      StopWriting(whole, done, whole, Some(SamplePastEnd), before, o.Contents);
      return Some(SamplePastEnd);
    }
    var p: nat, end: nat := off, off + size;
    while p + w <= end
      invariant off <= p <= end && o.Valid() && (o.d == old(o.d) || fresh(o.d))
      invariant Writing(whole, done, SampleNals(buf[p..end], w), before, o.Contents)
      decreases end - p
    {
      SampleStep(buf, p, end, w);
      var nl := ReadLength(buf, p, w);
      p := p + w;
      if nl == 0 || p + nl > end {
        StopWriting(whole, done, Failure(BadNalLength), Some(BadNalLength), before, o.Contents);
        return Some(BadNalLength);
      }
      KeepWritingOne(whole, done, buf[p..p + nl], SampleNals(buf[p + nl..end], w), before, o.Contents);
      done := done + [buf[p..p + nl]];
      o.PutNal(buf[p..p + nl]);
      p := p + nl;
    }
    SampleEnds(buf, p, end, w);
    e := if p != end then Some(NotOnNalBoundary) else None;
    StopWriting(whole, done, SampleNals(buf[p..end], w), e, before, o.Contents);
  }

  /** Reads a big-endian length field of w bytes. */
  method ReadLength(buf: seq<byte>, p: nat, w: nat) returns (nl: nat)
    requires p + w <= |buf|
    ensures nl == Be(buf[p..p + w])
  {
    nl := 0;
    for i := 0 to w
      invariant nl == Be(buf[p..p + i])
    {
      assert buf[p..p + i + 1][..i] == buf[p..p + i];
      nl := nl * 256 + buf[p + i];
    }
  }

  // ----- parameter sets

  /** Emits the NALs of the decoder configuration record, in record order. */
  method EmitParameterSets(o: OBuf, rec: seq<byte>) returns (e: Option<Mp4Error>)
    requires o.Valid() && |rec| >= 23
    modifies o, o.d
    ensures o.Valid() && (o.d == old(o.d) || fresh(o.d))
    ensures Wrote(Arrays(rec, 23, rec[22]), e, old(o.Contents), o.Contents)
  {
    var p: nat := 23;
    var numArrays: int := rec[22];
    ghost var before, done := o.Contents, [];
    ghost var whole := Arrays(rec, p, numArrays);
    StartWriting(whole, before);
    for a := 0 to numArrays
      invariant 23 <= p <= |rec| && o.Valid() && (o.d == old(o.d) || fresh(o.d))
      invariant Writing(whole, done, Arrays(rec, p, numArrays - a), before, o.Contents)
    {
      if p + 3 > |rec| {
        return Some(HvccHeaderOverrun);
      }
      var cnt := Rd16(rec, p + 1);
      p := p + 3;
      ghost var r, now := ArrayNals(rec, p, cnt), o.Contents;
      e, p := EmitArray(o, rec, p, cnt);
      if e.Some? {
        return;
      }
      ghost var nals := r.value.0;
      KeepWriting(whole, done, nals, Arrays(rec, p, numArrays - a - 1), before, now);
      done := done + nals;
    }
    StopWriting(whole, done, Success([]), None, before, o.Contents);
    return None;
  }

  type ArrayResult = Result<(seq<Nal>, nat), Mp4Error>

  /** As Writing, for an array: done is written, and reading goes on behind it. */
  ghost predicate WritingArray(whole: ArrayResult, done: seq<Nal>, rest: ArrayResult, before: seq<byte>,
                               now: seq<byte>) {
    && now == before + Render(done)
    && match rest
       case Failure(x) => whole == Failure(x)
       case Success((more, end)) => whole == Success((done + more, end))
  }

  /** The same for the end of the array. */
  ghost predicate WroteArray(whole: ArrayResult, e: Option<Mp4Error>, p: nat, before: seq<byte>, now: seq<byte>) {
    match whole
    case Failure(x) => e == Some(x)
    case Success((nals, end)) => e == None && p == end && now == before + Render(nals)
  }

  lemma StartArray(whole: ArrayResult, before: seq<byte>)
    ensures WritingArray(whole, [], whole, before, before)
  {
    assert before + Render([]) == before;
    assert whole.Success? ==> [] + whole.value.0 == whole.value.0;
  }

  /** What the next length field of an array leads to. */
  lemma ArrayPart(whole: ArrayResult, done: seq<Nal>, rec: seq<byte>, p: nat, k: nat, before: seq<byte>, now: seq<byte>)
    requires p <= |rec| && WritingArray(whole, done, ArrayNals(rec, p, k), before, now)
    ensures k == 0 ==> WroteArray(whole, None, p, before, now)
    ensures k > 0 && p + 2 > |rec| ==> WroteArray(whole, Some(HvccLengthOverrun), p, before, now)
    ensures k > 0 && p + 2 <= |rec| ==>
              var nl := Rd16(rec, p);
              if p + 2 + nl > |rec| then WroteArray(whole, Some(HvccPayloadOverrun), p + 2, before, now)
              else
                var nal := rec[p + 2..p + 2 + nl];
                WritingArray(whole, done + [nal], ArrayNals(rec, p + 2 + nl, k - 1), before, now + START_CODE + nal)
  {
    if k == 0 {
      assert done + [] == done;
    } else if p + 2 <= |rec| && p + 2 + Rd16(rec, p) <= |rec| {
      var nal, later := rec[p + 2..p + 2 + Rd16(rec, p)], ArrayNals(rec, p + 2 + Rd16(rec, p), k - 1);
      RenderOne(before, done, nal);
      assert later.Success? ==> done + ([nal] + later.value.0) == done + [nal] + later.value.0;
    }
  }

  /** Emits the NALs of one array; p is where reading goes on. */
  method EmitArray(o: OBuf, rec: seq<byte>, p0: nat, cnt: nat) returns (e: Option<Mp4Error>, p: nat)
    requires o.Valid() && p0 <= |rec|
    modifies o, o.d
    ensures o.Valid() && (o.d == old(o.d) || fresh(o.d)) && p0 <= p <= |rec|
    ensures WroteArray(ArrayNals(rec, p0, cnt), e, p, old(o.Contents), o.Contents)
  {
    hide *;
    p := p0;
    ghost var before, done := o.Contents, [];
    ghost var whole := ArrayNals(rec, p0, cnt);
    StartArray(whole, before);
    for n := 0 to cnt
      invariant p0 <= p <= |rec| && o.Valid() && (o.d == old(o.d) || fresh(o.d))
      invariant WritingArray(whole, done, ArrayNals(rec, p, cnt - n), before, o.Contents)
    {
      ArrayPart(whole, done, rec, p, cnt - n, before, o.Contents);
      if p + 2 > |rec| {
        return Some(HvccLengthOverrun), p;
      }
      var nl := Rd16(rec, p);
      p := p + 2;
      if p + nl > |rec| {
        return Some(HvccPayloadOverrun), p;
      }
      o.PutNal(rec[p..p + nl]);
      done := done + [rec[p..p + nl]];
      p := p + nl;
    }
    ArrayPart(whole, done, rec, p, 0, before, o.Contents);
    e := None;
  }

  // ----- samples

  lemma {:induction false} LocsNalsAppend(buf: seq<byte>, a: seq<Loc>, b: seq<Loc>, w: nat)
    requires w > 0
    ensures LocsNals(buf, a + b, w) == Chain(LocsNals(buf, a, w), LocsNals(buf, b, w))
  {
    if a == [] {
      assert a + b == b;
      AfterNothing(LocsNals(buf, b, w));
    } else {
      LocsNalsAppend(buf, a[1..], b, w);
      assert (a + b)[1..] == a[1..] + b;
      var first := LocNals(buf, a[0].off, a[0].size, w);
      var tail := LocsNals(buf, a[1..], w);
      if first.Success? && tail.Success? {
        AfterAfter(first.value, tail.value, LocsNals(buf, b, w));
      }
    }
  }

  function ChunkNals(buf: seq<byte>, ix: Index, ch: nat, off: nat, sample: nat, k: nat, w: nat): NalResult
    requires w > 0
  {
    LocsNals(buf, ChunkLocs(ix, ch, off, sample, k), w)
  }

  function RunNals(buf: seq<byte>, ix: Index, ch: nat, next: nat, perChunk: nat, sample: nat, w: nat): NalResult
    requires w > 0 && 1 <= ch && next <= |ix.chunks| + 1
  {
    LocsNals(buf, RunLocs(ix, ch, next, perChunk, sample), w)
  }

  function PlanNals(buf: seq<byte>, ix: Index, r: nat, sample: nat, w: nat): NalResult
    requires w > 0
  {
    LocsNals(buf, PlanFrom(ix, r, sample).locs, w)
  }

  lemma ChunkStep(buf: seq<byte>, ix: Index, ch: nat, off: nat, sample: nat, k: nat, w: nat)
    requires w > 0
    ensures k == 0 || sample >= |ix.sizes| ==>
              ChunkNals(buf, ix, ch, off, sample, k, w) == Success([]) && ChunkLocs(ix, ch, off, sample, k) == []
    ensures k > 0 && sample < |ix.sizes| ==>
              var size := ix.sizes[sample];
              ChunkNals(buf, ix, ch, off, sample, k, w) ==
                Chain(LocNals(buf, off, size, w), ChunkNals(buf, ix, ch, off + size, sample + 1, k - 1, w))
  {
    if k > 0 && sample < |ix.sizes| {
      var size := ix.sizes[sample];
      var locs := ChunkLocs(ix, ch, off, sample, k);
      assert locs[0] == Loc(ch, off, size) && locs[1..] == ChunkLocs(ix, ch, off + size, sample + 1, k - 1);
    }
  }

  lemma {:induction false} NoLocs(buf: seq<byte>, w: nat)
    requires w > 0
    ensures LocsNals(buf, [], w) == Success([])
  {
  }

  lemma RunStep(buf: seq<byte>, ix: Index, ch: nat, next: nat, perChunk: nat, sample: nat, w: nat)
    requires w > 0 && 1 <= ch && next <= |ix.chunks| + 1
    ensures ch >= next || sample >= |ix.sizes| ==>
              && RunNals(buf, ix, ch, next, perChunk, sample, w) == Success([])
              && RunLocs(ix, ch, next, perChunk, sample) == []
    ensures ch < next && sample < |ix.sizes| ==>
              var off, n := ix.chunks[ch - 1], |ChunkLocs(ix, ch, ix.chunks[ch - 1], sample, perChunk)|;
              && RunNals(buf, ix, ch, next, perChunk, sample, w) ==
                   Chain(ChunkNals(buf, ix, ch, off, sample, perChunk, w),
                         RunNals(buf, ix, ch + 1, next, perChunk, sample + n, w))
              && |RunLocs(ix, ch, next, perChunk, sample)| == n + |RunLocs(ix, ch + 1, next, perChunk, sample + n)|
  {
    hide LocsNals, ChunkLocs;
    NoLocs(buf, w);
    if ch < next && sample < |ix.sizes| {
      var here := ChunkLocs(ix, ch, ix.chunks[ch - 1], sample, perChunk);
      LocsNalsAppend(buf, here, RunLocs(ix, ch + 1, next, perChunk, sample + |here|), w);
    }
  }

  lemma PlanStep(buf: seq<byte>, ix: Index, r: nat, sample: nat, w: nat)
    requires w > 0
    ensures r >= |ix.runs| || sample >= |ix.sizes| || !RunOk(ix, r) ==>
              && PlanNals(buf, ix, r, sample, w) == Success([])
              && PlanFrom(ix, r, sample) == Plan([], r < |ix.runs| && sample < |ix.sizes|)
    ensures r < |ix.runs| && sample < |ix.sizes| && RunOk(ix, r) ==>
              var first, next, perChunk := ix.runs[r].first, NextFirst(ix, r), ix.runs[r].perChunk;
              var n := |RunLocs(ix, first, next, perChunk, sample)|;
              && PlanNals(buf, ix, r, sample, w) ==
                   Chain(RunNals(buf, ix, first, next, perChunk, sample, w), PlanNals(buf, ix, r + 1, sample + n, w))
              && |PlanFrom(ix, r, sample).locs| == n + |PlanFrom(ix, r + 1, sample + n).locs|
              && PlanFrom(ix, r, sample).bad == PlanFrom(ix, r + 1, sample + n).bad
  {
    hide LocsNals, RunLocs;
    NoLocs(buf, w);
    if r < |ix.runs| && sample < |ix.sizes| && RunOk(ix, r) {
      var here := RunLocs(ix, ix.runs[r].first, NextFirst(ix, r), ix.runs[r].perChunk, sample);
      LocsNalsAppend(buf, here, PlanFrom(ix, r + 1, sample + |here|).locs, w);
    }
  }

  lemma ChunkPart(whole: NalResult, done: seq<Nal>, buf: seq<byte>, ix: Index, ch: nat, off: nat, sample: nat, k: nat,
                  w: nat, e: Option<Mp4Error>, before: seq<byte>, now: seq<byte>, after: seq<byte>)
    requires w > 0 && k > 0 && sample < |ix.sizes|
    requires Writing(whole, done, ChunkNals(buf, ix, ch, off, sample, k, w), before, now)
    requires Wrote(LocNals(buf, off, ix.sizes[sample], w), e, now, after)
    ensures e.Some? ==> Wrote(whole, e, before, after)
    ensures e.None? ==>
              var size := ix.sizes[sample];
              && LocNals(buf, off, size, w).Success?
              && Writing(whole, done + LocNals(buf, off, size, w).value,
                         ChunkNals(buf, ix, ch, off + size, sample + 1, k - 1, w), before, after)
              && |ChunkLocs(ix, ch, off, sample, k)| == 1 + |ChunkLocs(ix, ch, off + size, sample + 1, k - 1)|
  {
    var size := ix.sizes[sample];
    ChunkStep(buf, ix, ch, off, sample, k, w);
    PartWritten(whole, done, LocNals(buf, off, size, w), ChunkNals(buf, ix, ch, off + size, sample + 1, k - 1, w),
                e, before, now, after);
  }

  lemma RunPart(whole: NalResult, done: seq<Nal>, buf: seq<byte>, ix: Index, ch: nat, next: nat, perChunk: nat,
                sample: nat, sample': nat, w: nat, e: Option<Mp4Error>,
                before: seq<byte>, now: seq<byte>, after: seq<byte>)
    requires w > 0 && 1 <= ch < next <= |ix.chunks| + 1 && sample < |ix.sizes|
    requires Writing(whole, done, RunNals(buf, ix, ch, next, perChunk, sample, w), before, now)
    requires Wrote(ChunkNals(buf, ix, ch, ix.chunks[ch - 1], sample, perChunk, w), e, now, after)
    requires e.None? ==> sample' == sample + |ChunkLocs(ix, ch, ix.chunks[ch - 1], sample, perChunk)|
    ensures e.Some? ==> Wrote(whole, e, before, after)
    ensures e.None? ==>
              var part := ChunkNals(buf, ix, ch, ix.chunks[ch - 1], sample, perChunk, w);
              && part.Success?
              && Writing(whole, done + part.value, RunNals(buf, ix, ch + 1, next, perChunk, sample', w), before, after)
              && sample + |RunLocs(ix, ch, next, perChunk, sample)| ==
                sample' + |RunLocs(ix, ch + 1, next, perChunk, sample')|
  {
    RunStep(buf, ix, ch, next, perChunk, sample, w);
    var n := |ChunkLocs(ix, ch, ix.chunks[ch - 1], sample, perChunk)|;
    PartWritten(whole, done, ChunkNals(buf, ix, ch, ix.chunks[ch - 1], sample, perChunk, w),
                RunNals(buf, ix, ch + 1, next, perChunk, sample + n, w), e, before, now, after);
  }

  lemma PlanPart(whole: NalResult, done: seq<Nal>, buf: seq<byte>, ix: Index, r: nat, sample: nat, sample': nat, w: nat,
                 e: Option<Mp4Error>, before: seq<byte>, now: seq<byte>, after: seq<byte>)
    requires w > 0 && sample < |ix.sizes| && RunOk(ix, r)
    requires Writing(whole, done, PlanNals(buf, ix, r, sample, w), before, now)
    requires Wrote(RunNals(buf, ix, ix.runs[r].first, NextFirst(ix, r), ix.runs[r].perChunk, sample, w), e, now, after)
    requires e.None? ==>
               sample' == sample + |RunLocs(ix, ix.runs[r].first, NextFirst(ix, r), ix.runs[r].perChunk, sample)|
    ensures e.Some? ==> Wrote(whole, e, before, after)
    ensures e.None? ==>
              var part := RunNals(buf, ix, ix.runs[r].first, NextFirst(ix, r), ix.runs[r].perChunk, sample, w);
              && part.Success?
              && Writing(whole, done + part.value, PlanNals(buf, ix, r + 1, sample', w), before, after)
              && sample + |PlanFrom(ix, r, sample).locs| == sample' + |PlanFrom(ix, r + 1, sample').locs|
              && PlanFrom(ix, r, sample).bad == PlanFrom(ix, r + 1, sample').bad
  {
    PlanStep(buf, ix, r, sample, w);
    var first, next, perChunk := ix.runs[r].first, NextFirst(ix, r), ix.runs[r].perChunk;
    var n := |RunLocs(ix, first, next, perChunk, sample)|;
    PartWritten(whole, done, RunNals(buf, ix, first, next, perChunk, sample, w),
                PlanNals(buf, ix, r + 1, sample + n, w), e, before, now, after);
  }

  lemma {:induction false} PlanEnds(whole: NalResult, done: seq<Nal>, buf: seq<byte>, ix: Index, r: nat, sample: nat,
                                    w: nat, before: seq<byte>, now: seq<byte>)
    requires w > 0 && (r >= |ix.runs| || sample >= |ix.sizes| || !RunOk(ix, r))
    requires Writing(whole, done, PlanNals(buf, ix, r, sample, w), before, now)
    ensures Wrote(whole, None, before, now)
    ensures PlanFrom(ix, r, sample) == Plan([], r < |ix.runs| && sample < |ix.sizes|)
  {
    PlanStep(buf, ix, r, sample, w);
    StopWriting(whole, done, PlanNals(buf, ix, r, sample, w), None, before, now);
  }

  /** How the walk as a whole ends. */
  lemma {:induction false} WalkVerdict(buf: seq<byte>, ix: Index, w: nat, e: Option<Mp4Error>, before: seq<byte>,
                                       now: seq<byte>)
    requires w > 0 && Wrote(PlanNals(buf, ix, 0, 0, w), e, before, now)
    ensures var plan := PlanFrom(ix, 0, 0);
            var verdict := if e.Some? then e
                           else if plan.bad then Some(BadStscRun)
                           else if |plan.locs| != |ix.sizes| then Some(SamplesNotCovered)
                           else None;
            Wrote(WalkNals(buf, ix, w), verdict, before, now)
  {
  }

  /** ix is what the tables of the track say. */
  ghost predicate IsIndex(buf: seq<byte>, t: TrackInfo, ix: Index) {
    TablesOk(buf, t) && ix == IndexOf(buf, t)
  }

  lemma IndexReads(buf: seq<byte>, t: TrackInfo, ix: Index)
    requires IsIndex(buf, t, ix)
    ensures TablesOk(buf, t)
    ensures |ix.sizes| == SampleCount(buf, t) && |ix.chunks| == ChunkCount(buf, t) && |ix.runs| == RunCount(buf, t)
    ensures forall k :: 0 <= k < |ix.sizes| ==> SizeAt(buf, t, k) == ix.sizes[k]
    ensures forall i :: 0 <= i < |ix.chunks| ==> ChunkAt(buf, t, i) == ix.chunks[i]
    ensures forall r :: 0 <= r < |ix.runs| ==> RunAt(buf, t, r) == ix.runs[r]
  {
  }

  /** Emits up to perChunk samples of one chunk; sample counts on. */
  method EmitChunk(o: OBuf, buf: seq<byte>, t: TrackInfo, ghost ix: Index, w: nat, ch: nat, sample0: nat, perChunk: nat)
    returns (e: Option<Mp4Error>, sample: nat)
    requires o.Valid() && w > 0 && IsIndex(buf, t, ix) && 1 <= ch <= |ix.chunks|
    modifies o, o.d
    ensures o.Valid() && (o.d == old(o.d) || fresh(o.d))
    ensures Wrote(ChunkNals(buf, ix, ch, ix.chunks[ch - 1], sample0, perChunk, w), e,
                  old(o.Contents), o.Contents)
    ensures e.None? ==> sample == sample0 + |ChunkLocs(ix, ch, ix.chunks[ch - 1], sample0, perChunk)|
  {
    hide *;
    IndexReads(buf, t, ix);
    var count := SampleCount(buf, t);
    var choff := ChunkAt(buf, t, ch - 1);
    var soff: nat, k: nat := choff, 0;
    sample := sample0;
    ghost var before, done := o.Contents, [];
    ghost var whole := ChunkNals(buf, ix, ch, choff, sample0, perChunk, w);
    StartWriting(whole, before);
    ghost var total := sample0 + |ChunkLocs(ix, ch, choff, sample0, perChunk)|;
    while k < perChunk && sample < count
      invariant k <= perChunk && o.Valid() && (o.d == old(o.d) || fresh(o.d))
      invariant Writing(whole, done, ChunkNals(buf, ix, ch, soff, sample, perChunk - k, w), before, o.Contents)
      invariant total == sample + |ChunkLocs(ix, ch, soff, sample, perChunk - k)|
    {
      var ssz := SizeAt(buf, t, sample);
      ghost var now := o.Contents;
      e := EmitSample(o, buf, soff, ssz, w);
      ChunkPart(whole, done, buf, ix, ch, soff, sample, perChunk - k, w, e, before, now, o.Contents);
      if e.Some? {
        return;
      }
      done := done + LocNals(buf, soff, ssz, w).value;
      soff := soff + ssz;
      sample := sample + 1;
      k := k + 1;
    }
    ChunkStep(buf, ix, ch, soff, sample, perChunk - k, w);
    StopWriting(whole, done, ChunkNals(buf, ix, ch, soff, sample, perChunk - k, w), None, before, o.Contents);
    e := None;
  }

  /** Emits the samples of the chunks of one run. */
  method EmitRun(o: OBuf, buf: seq<byte>, t: TrackInfo, ghost ix: Index, w: nat, first: nat, next: nat, perChunk: nat,
                 sample0: nat)
    returns (e: Option<Mp4Error>, sample: nat)
    requires o.Valid() && w > 0 && IsIndex(buf, t, ix) && 1 <= first <= next <= |ix.chunks| + 1
    modifies o, o.d
    ensures o.Valid() && (o.d == old(o.d) || fresh(o.d))
    ensures Wrote(RunNals(buf, ix, first, next, perChunk, sample0, w), e, old(o.Contents), o.Contents)
    ensures e.None? ==> sample == sample0 + |RunLocs(ix, first, next, perChunk, sample0)|
  {
    hide *;
    IndexReads(buf, t, ix);
    var count := SampleCount(buf, t);
    var ch: nat := first;
    sample := sample0;
    ghost var before, done := o.Contents, [];
    ghost var total := sample0 + |RunLocs(ix, first, next, perChunk, sample0)|;
    ghost var whole := RunNals(buf, ix, first, next, perChunk, sample0, w);
    StartWriting(whole, before);
    while ch < next && sample < count
      invariant first <= ch <= next && o.Valid() && (o.d == old(o.d) || fresh(o.d))
      invariant Writing(whole, done, RunNals(buf, ix, ch, next, perChunk, sample, w), before, o.Contents)
      invariant total == sample + |RunLocs(ix, ch, next, perChunk, sample)|
    {
      ghost var now, here := o.Contents, sample;
      ghost var part := ChunkNals(buf, ix, ch, ix.chunks[ch - 1], here, perChunk, w);
      e, sample := EmitChunk(o, buf, t, ix, w, ch, sample, perChunk);
      RunPart(whole, done, buf, ix, ch, next, perChunk, here, sample, w, e, before, now, o.Contents);
      if e.Some? {
        return;
      }
      done := done + part.value;
      ch := ch + 1;
    }
    RunStep(buf, ix, ch, next, perChunk, sample, w);
    StopWriting(whole, done, RunNals(buf, ix, ch, next, perChunk, sample, w), None, before, o.Contents);
    e := None;
  }

  /** Reads run r and the first chunk of the next one; checks that chunks are 1-based, that runs ascend and stay
      within the chunk table, and that the run is not empty of samples. */
  method ReadRun(buf: seq<byte>, t: TrackInfo, ghost ix: Index, r: nat) returns (run: Run, nextFirst: nat, ok: bool)
    requires IsIndex(buf, t, ix) && r < |ix.runs|
    ensures run == ix.runs[r] && nextFirst == NextFirst(ix, r) && ok == RunOk(ix, r)
  {
    IndexReads(buf, t, ix);
    run := RunAt(buf, t, r);
    nextFirst := if r + 1 < RunCount(buf, t) then RunAt(buf, t, r + 1).first else ChunkCount(buf, t) + 1;
    ok := !(run.first == 0 || run.first > nextFirst || nextFirst > ChunkCount(buf, t) + 1 || run.perChunk == 0);
  }

  /** Walks all runs and emits their samples, until every sample is out, an error occurs or a run is malformed. */
  method EmitRuns(o: OBuf, buf: seq<byte>, t: TrackInfo, ghost ix: Index, w: nat)
    returns (e: Option<Mp4Error>, bad: bool, sample: nat)
    requires o.Valid() && w > 0 && IsIndex(buf, t, ix)
    modifies o, o.d
    ensures o.Valid() && (o.d == old(o.d) || fresh(o.d))
    ensures Wrote(PlanNals(buf, ix, 0, 0, w), e, old(o.Contents), o.Contents)
    ensures e.None? ==> bad == PlanFrom(ix, 0, 0).bad && sample == |PlanFrom(ix, 0, 0).locs|
  {
    hide Writing, Wrote, PlanNals, RunNals, PlanFrom, RunLocs, Render, IsIndex, TablesOk, SampleCount, RunCount;
    IndexReads(buf, t, ix);
    var r: nat := 0;
    sample, bad := 0, false;
    ghost var before, done := o.Contents, [];
    ghost var plan, whole := PlanFrom(ix, 0, 0), PlanNals(buf, ix, 0, 0, w);
    StartWriting(whole, before);
    while r < RunCount(buf, t) && sample < SampleCount(buf, t) && !bad
      invariant r <= |ix.runs| && o.Valid() && (o.d == old(o.d) || fresh(o.d))
      invariant Writing(whole, done, PlanNals(buf, ix, r, sample, w), before, o.Contents)
      invariant plan.bad == PlanFrom(ix, r, sample).bad
      invariant |plan.locs| == sample + |PlanFrom(ix, r, sample).locs|
      invariant bad ==> r < |ix.runs| && sample < |ix.sizes| && !RunOk(ix, r)
      decreases |ix.runs| - r, !bad
    {
      var run, nextFirst, ok := ReadRun(buf, t, ix, r);
      if ok {
        ghost var now, here := o.Contents, sample;
        ghost var part := RunNals(buf, ix, ix.runs[r].first, NextFirst(ix, r), ix.runs[r].perChunk, here, w);
        e, sample := EmitRun(o, buf, t, ix, w, run.first, nextFirst, run.perChunk, sample);
        PlanPart(whole, done, buf, ix, r, here, sample, w, e, before, now, o.Contents);
        if e.Some? {
          return;
        }
        done := done + part.value;
        r := r + 1;
      } else {
        bad := true;
      }
    }
    PlanEnds(whole, done, buf, ix, r, sample, w, before, o.Contents);
    e := None;
  }

  method EmitSamples(o: OBuf, buf: seq<byte>, t: TrackInfo, ghost ix: Index, w: nat) returns (e: Option<Mp4Error>)
    requires o.Valid() && w > 0 && IsIndex(buf, t, ix)
    modifies o, o.d
    ensures o.Valid() && (o.d == old(o.d) || fresh(o.d))
    ensures Wrote(WalkNals(buf, ix, w), e, old(o.Contents), o.Contents)
  {
    hide *;
    IndexReads(buf, t, ix);
    ghost var before := o.Contents;
    var bad, sample;
    e, bad, sample := EmitRuns(o, buf, t, ix, w);
    WalkVerdict(buf, ix, w, e, before, o.Contents);
    if e.None? {
      e := if bad then Some(BadStscRun) else if sample != SampleCount(buf, t) then Some(SamplesNotCovered) else None;
    }
  }

  // ----- the whole conversion

  /** Demuxes an in-memory MP4 file: the byte stream of its NALs, or the reason for the refusal. */
  method Mp4ToAnnexB(buf: seq<byte>) returns (r: Result<seq<byte>, Mp4Error>)
    ensures match DemuxNals(buf)
            case Failure(x) => r == Failure(x)
            case Success(nals) => r == Success(Render(nals))
  {
    var s := new Scan(buf);
    s.ScanTop(0, |buf|, []);
    if s.bad {
      return Failure(MalformedBoxes);
    }
    ghost var boxes := Parse(buf, Top, 0, |buf|).value;
    ghost var tracks := VideoTracks(buf, TopBoxes(boxes));
    assert [] + TopBoxes(boxes) == TopBoxes(boxes);
    if s.nMoof > 0 {
      return Failure(Fragmented);
    }
    if s.nVide == 0 {
      return Failure(NoVideoTrack);
    }
    if s.nVide > 1 {
      return Failure(MultipleVideoTracks);
    }
    var t := s.vtrak;
    DemuxIsTrack(buf, boxes, tracks[0]);
    r := TrackToAnnexB(buf, t);
  }

  method TrackToAnnexB(buf: seq<byte>, t: TrackInfo) returns (r: Result<seq<byte>, Mp4Error>)
    requires RangesFit(buf, t)
    ensures match TrackNals(buf, t)
            case Failure(x) => r == Failure(x)
            case Success(nals) => r == Success(Render(nals))
  {
    NoTableErrorIff(buf, t);
    var e := TableError(buf, t);
    if e.Some? {
      return Failure(e.value);
    }
    var o := new OBuf();
    e := EmitParameterSets(o, Record(buf, t));
    if e.Some? {
      return Failure(e.value);
    }
    ghost var ps := Arrays(Record(buf, t), 23, Record(buf, t)[22]).value;
    ghost var rest := WalkNals(buf, IndexOf(buf, t), LengthSize(buf, t));
    e := EmitSamples(o, buf, t, IndexOf(buf, t), LengthSize(buf, t));
    if e.Some? {
      return Failure(e.value);
    }
    RenderMore([], ps, rest.value);
    assert o.Contents == Render(ps + rest.value);
    RenderLength(ps + rest.value);
    if o.len == 0 {
      return Failure(NoNalUnits);
    }
    return Success(o.d[..o.len]);
  }
}
