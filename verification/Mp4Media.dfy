// Media data for any division of samples into chunks and of chunks into runs, with any bytes between the chunks, and
// the sample index that describes it.

module Mp4Media {
  import opened Bytes
  import opened AnnexB
  import opened SampleIndex
  import opened NalFraming
  import opened Mp4Guarantee

  /** Bytes of other tracks, then samples one behind the other. */
  datatype Chunk = Chunk(skip: seq<byte>, samples: seq<seq<Nal>>)

  /** Chunks that are declared to hold perChunk samples each. */
  datatype MediaRun = MediaRun(perChunk: nat, chunks: seq<Chunk>)

  function ChunksOf(runs: seq<MediaRun>): seq<Chunk> {
    if runs == [] then [] else runs[0].chunks + ChunksOf(runs[1..])
  }

  function SamplesOf(chunks: seq<Chunk>): seq<seq<Nal>> {
    if chunks == [] then [] else chunks[0].samples + SamplesOf(chunks[1..])
  }

  /** The samples as byte strings, each NAL behind a length of w bytes. */
  function Frames(samples: seq<seq<Nal>>, w: nat): (frames: seq<seq<byte>>)
    ensures |frames| == |samples| && forall k :: 0 <= k < |samples| ==> frames[k] == LengthPrefixed(samples[k], w)
  {
    seq(|samples|, k requires 0 <= k < |samples| => LengthPrefixed(samples[k], w))
  }

  function SizesOf(frames: seq<seq<byte>>): (sizes: seq<nat>)
    ensures |sizes| == |frames| && forall k :: 0 <= k < |frames| ==> sizes[k] == |frames[k]|
  {
    seq(|frames|, k requires 0 <= k < |frames| => |frames[k]|)
  }

  function Sizes(samples: seq<seq<Nal>>, w: nat): (sizes: seq<nat>)
    ensures |sizes| == |samples| && forall k :: 0 <= k < |samples| ==> sizes[k] == |LengthPrefixed(samples[k], w)|
  {
    SizesOf(Frames(samples, w))
  }

  function ChunkBytes(c: Chunk, w: nat): seq<byte> {
    Flatten(Frames(c.samples, w))
  }

  function MediaOf(chunks: seq<Chunk>, w: nat): seq<byte> {
    if chunks == [] then [] else chunks[0].skip + ChunkBytes(chunks[0], w) + MediaOf(chunks[1..], w)
  }

  /** Where the chunks are when the media data begins at position at. */
  function OffsetsOf(chunks: seq<Chunk>, w: nat, at: nat): (offs: seq<nat>)
    ensures |offs| == |chunks|
    decreases |chunks|
  {
    if chunks == [] then []
    else
      var here := at + |chunks[0].skip|;
      [here] + OffsetsOf(chunks[1..], w, here + |ChunkBytes(chunks[0], w)|)
  }

  /** The run table; chunks are numbered on from first. */
  function RunTable(runs: seq<MediaRun>, first: nat): (table: seq<Run>)
    ensures |table| == |runs|
    decreases |runs|
  {
    if runs == [] then []
    else [Run(first, runs[0].perChunk)] + RunTable(runs[1..], first + |runs[0].chunks|)
  }

  /** Every run has a chunk and declares samples, every chunk holds what its run declares, and only the last one of
      all may hold less. */
  ghost predicate RunsDescribe(runs: seq<MediaRun>) {
    forall r :: 0 <= r < |runs| ==> RunDescribes(runs, r)
  }

  ghost predicate RunDescribes(runs: seq<MediaRun>, r: nat)
    requires r < |runs|
  {
    && runs[r].chunks != [] && runs[r].perChunk > 0
    && forall c :: 0 <= c < |runs[r].chunks| ==>
         && |runs[r].chunks[c].samples| <= runs[r].perChunk
         && (r + 1 < |runs| || c + 1 < |runs[r].chunks| ==> |runs[r].chunks[c].samples| == runs[r].perChunk)
  }

  function IndexOfMedia(runs: seq<MediaRun>, w: nat, at: nat): Index {
    Index(Sizes(SamplesOf(ChunksOf(runs)), w), OffsetsOf(ChunksOf(runs), w, at), RunTable(runs, 1))
  }

  // ----- the run table

  /** The rest of an index's run table, from run r on, describes these runs. */
  ghost predicate Remains(ix: Index, r: nat, runs: seq<MediaRun>, first: nat) {
    && 1 <= first && r <= |ix.runs| && ix.runs[r..] == RunTable(runs, first)
    && first + |ChunksOf(runs)| == |ix.chunks| + 1
    && RunsDescribe(runs)
  }

  lemma RemainsStep(ix: Index, r: nat, runs: seq<MediaRun>, first: nat)
    requires Remains(ix, r, runs, first) && runs != []
    ensures r < |ix.runs| && ix.runs[r] == Run(first, runs[0].perChunk)
    ensures Remains(ix, r + 1, runs[1..], first + |runs[0].chunks|)
    ensures NextFirst(ix, r) == first + |runs[0].chunks| && RunOk(ix, r)
  {
    var rest := runs[1..];
    var table := RunTable(runs, first);
    assert |ix.runs[r..]| == |runs|;
    assert ix.runs[r..][0] == table[0] && ix.runs[r..][1..] == ix.runs[r + 1..] && table[1..] ==
      RunTable(rest, first + |runs[0].chunks|);
    assert RunDescribes(runs, 0);
    forall q | 0 <= q < |rest|
      ensures RunDescribes(rest, q)
    {
      assert RunDescribes(runs, q + 1);
    }
    if rest == [] {
      assert ChunksOf(rest) == [];
    } else {
      assert ix.runs[r + 1..][0] == ix.runs[r + 1];
    }
  }

  lemma {:induction false} AllRunsOk(ix: Index, r: nat, runs: seq<MediaRun>, first: nat)
    requires Remains(ix, r, runs, first)
    ensures forall q :: r <= q < |ix.runs| ==> RunOk(ix, q)
    decreases |runs|
  {
    if runs == [] {
      assert |ix.runs[r..]| == 0;
    } else {
      RemainsStep(ix, r, runs, first);
      AllRunsOk(ix, r + 1, runs[1..], first + |runs[0].chunks|);
    }
  }

  /** A chunk holds what its run declares, unless it is the last one, which may hold less. */
  lemma {:induction false} ChunkHoldsDeclared(ix: Index, r: nat, runs: seq<MediaRun>, first: nat, c: nat)
    requires Remains(ix, r, runs, first) && c < |ChunksOf(runs)|
    ensures |ChunksOf(runs)[c].samples| <= SamplesIn(ix, first + c, r)
    ensures c + 1 < |ChunksOf(runs)| ==> |ChunksOf(runs)[c].samples| == SamplesIn(ix, first + c, r)
    decreases |runs|
  {
    var here, rest := runs[0].chunks, runs[1..];
    RemainsStep(ix, r, runs, first);
    assert RunDescribes(runs, 0);
    if c < |here| {
      assert ChunksOf(runs)[c] == here[c];
      assert c + 1 == |here| && rest == [] ==> ChunksOf(rest) == [];
    } else {
      assert ChunksOf(runs)[c] == ChunksOf(rest)[c - |here|];
      ChunkHoldsDeclared(ix, r + 1, rest, first + |here|, c - |here|);
    }
  }

  // ----- where samples are

  lemma {:induction false} SamplesBefore(chunks: seq<Chunk>, c: nat)
    requires c < |chunks|
    ensures |SamplesOf(chunks[..c + 1])| == |SamplesOf(chunks[..c])| + |chunks[c].samples|
    decreases |chunks|
  {
    if c == 0 {
      assert chunks[..1] == [chunks[0]] && chunks[..0] == [];
      assert [chunks[0]][1..] == [] && SamplesOf([]) == [];
    } else {
      assert chunks[..c + 1][1..] == chunks[1..][..c] && chunks[..c][1..] == chunks[1..][..c - 1];
      SamplesBefore(chunks[1..], c - 1);
    }
  }

  /** Sample k is the j-th one of chunk c, and the samples of that chunk are together. */
  ghost predicate IsAt(chunks: seq<Chunk>, k: nat, c: nat, j: nat) {
    && c < |chunks| && j < |chunks[c].samples| && k == |SamplesOf(chunks[..c])| + j
    && k - j + |chunks[c].samples| <= |SamplesOf(chunks)|
    && SamplesOf(chunks)[k - j..k - j + |chunks[c].samples|] == chunks[c].samples
  }

  lemma {:induction false} Locate(chunks: seq<Chunk>, k: nat) returns (c: nat, j: nat)
    requires k < |SamplesOf(chunks)|
    ensures IsAt(chunks, k, c, j)
    decreases |chunks|
  {
    var here, rest := chunks[0].samples, chunks[1..];
    if k < |here| {
      c, j := 0, k;
      assert chunks[..0] == [];
    } else {
      c, j := Locate(rest, k - |here|);
      LocatedBehind(chunks, k, c, j);
      c := c + 1;
    }
  }

  lemma LocatedBehind(chunks: seq<Chunk>, k: nat, c: nat, j: nat)
    requires chunks != [] && k >= |chunks[0].samples| && IsAt(chunks[1..], k - |chunks[0].samples|, c, j)
    ensures IsAt(chunks, k, c + 1, j)
  {
    var here, rest := chunks[0].samples, chunks[1..];
    assert chunks[..c + 1][1..] == rest[..c] && chunks[..c + 1][0] == chunks[0];
    var from := k - |here| - j;
    assert SamplesOf(chunks)[|here| + from..|here| + from + |rest[c].samples|] ==
      SamplesOf(rest)[from..from + |rest[c].samples|];
  }

  lemma {:induction false} BeforeChunk(ix: Index, runs: seq<MediaRun>, c: nat)
    requires Remains(ix, 0, runs, 1) && runs != [] && c < |ChunksOf(runs)|
    ensures Before(ix, c + 1) == |SamplesOf(ChunksOf(runs)[..c])|
    decreases c
  {
    var chunks := ChunksOf(runs);
    RemainsStep(ix, 0, runs, 1);
    if c == 0 {
      assert chunks[..0] == [];
    } else {
      BeforeChunk(ix, runs, c - 1);
      ChunkHoldsDeclared(ix, 0, runs, 1, c - 1);
      SamplesBefore(chunks, c - 1);
    }
  }

  lemma {:induction false} SumOfFrames(frames: seq<seq<byte>>, k: nat)
    requires k <= |frames|
    ensures |Flatten(frames[..k])| == Sum(SizesOf(frames)[..k])
  {
    if k == 0 {
      assert frames[..0] == [] && SizesOf(frames)[..0] == [];
    } else {
      SumOfFrames(frames, k - 1);
      BlobPiece(frames, k - 1);
      SumOneMore(SizesOf(frames), k);
    }
  }

  /** Sample k has its size and its place behind the earlier samples of its chunk. */
  lemma {:induction false} SampleIsPlaced(runs: seq<MediaRun>, w: nat, at: nat, k: nat, c: nat, j: nat)
    requires RunsDescribe(runs) && runs != []
    requires var chunks := ChunksOf(runs);
             IsAt(chunks, k, c, j)
    ensures var ix, sizes := IndexOfMedia(runs, w, at), Sizes(ChunksOf(runs)[c].samples, w);
            Placed(ix, k, Loc(c + 1, ix.chunks[c] + Sum(sizes[..j]), sizes[j]))
  {
    hide Sum, SamplesOf, RunsDescribe, OffsetsOf;
    var ix, chunks := IndexOfMedia(runs, w, at), ChunksOf(runs);
    var sizes := Sizes(chunks[c].samples, w);
    StartsWhole(runs, w, at);
    RemainsStep(ix, 0, runs, 1);
    BeforeChunk(ix, runs, c);
    ChunkHoldsDeclared(ix, 0, runs, 1, c);
    BeforeNext(ix, c);
    SizesTogether(SamplesOf(chunks), w, k - j, chunks[c].samples, j);
  }

  lemma SizesTogether(all: seq<seq<Nal>>, w: nat, from: nat, some: seq<seq<Nal>>, j: nat)
    requires from + |some| <= |all| && all[from..from + |some|] == some && j < |some|
    ensures Sizes(all, w)[from..from + j] == Sizes(some, w)[..j] && Sizes(all, w)[from + j] == Sizes(some, w)[j]
  {
    assert forall i :: 0 <= i < |some| ==> all[from + i] == some[i];
  }

  lemma BeforeNext(ix: Index, c: nat)
    requires |ix.runs| > 0 && ix.runs[0].first == 1
    ensures Before(ix, c + 2) == Before(ix, c + 1) + SamplesIn(ix, c + 1, 0)
  {
  }

  lemma StartsWhole(runs: seq<MediaRun>, w: nat, at: nat)
    requires RunsDescribe(runs)
    ensures Remains(IndexOfMedia(runs, w, at), 0, runs, 1)
  {
    var ix := IndexOfMedia(runs, w, at);
    assert ix.runs[0..] == ix.runs;
  }

  /** The runs hold all samples. */
  lemma MediaIsCovered(runs: seq<MediaRun>, w: nat, at: nat)
    requires RunsDescribe(runs) && runs != []
    ensures RunsCover(IndexOfMedia(runs, w, at))
  {
    hide Sum, SamplesOf, OffsetsOf;
    var ix, chunks := IndexOfMedia(runs, w, at), ChunksOf(runs);
    StartsWhole(runs, w, at);
    RemainsStep(ix, 0, runs, 1);
    AllRunsOk(ix, 0, runs, 1);
    assert RunDescribes(runs, 0);
    var c := |chunks| - 1;
    BeforeChunk(ix, runs, c);
    ChunkHoldsDeclared(ix, 0, runs, 1, c);
    BeforeNext(ix, c);
    SamplesBefore(chunks, c);
    assert chunks[..c + 1] == chunks;
    assert RunsCoverUpTo(ix, |runs| - 1);
  }

  // ----- the bytes of a sample

  lemma {:induction false} ChunkIsHeld(buf: seq<byte>, at: nat, chunks: seq<Chunk>, w: nat, c: nat)
    requires HoldsAt(buf, at, MediaOf(chunks, w)) && c < |chunks|
    ensures HoldsAt(buf, OffsetsOf(chunks, w, at)[c], ChunkBytes(chunks[c], w))
    decreases |chunks|
  {
    hide HoldsAt, ChunkBytes;
    var first, rest := chunks[0], chunks[1..];
    HoldsAtConcat(buf, at, first.skip + ChunkBytes(first, w), MediaOf(rest, w));
    HoldsAtConcat(buf, at, first.skip, ChunkBytes(first, w));
    if c > 0 {
      ChunkIsHeld(buf, at + |first.skip| + |ChunkBytes(first, w)|, rest, w, c - 1);
    }
  }

  lemma {:induction false} FrameIsHeld(buf: seq<byte>, at: nat, frames: seq<seq<byte>>, j: nat)
    requires j < |frames| && HoldsAt(buf, at, Flatten(frames))
    ensures var from := at + Sum(SizesOf(frames)[..j]);
            from + |frames[j]| <= |buf| && buf[from..from + |frames[j]|] == frames[j]
  {
    hide Flatten, Sum, SizesOf;
    var off, size, all := Sum(SizesOf(frames)[..j]), |frames[j]|, Flatten(frames);
    SumOfFrames(frames, j);
    BlobPiece(frames, j);
    SliceOfSlice(buf, at, at + |all|, off, off + size);
  }

  /** Main result about the media: every sample is held where the index says. */
  lemma {:induction false} SampleIsHeld(buf: seq<byte>, runs: seq<MediaRun>, w: nat, at: nat, k: nat)
    requires RunsDescribe(runs) && runs != [] && HoldsAt(buf, at, MediaOf(ChunksOf(runs), w))
    requires k < |SamplesOf(ChunksOf(runs))| && Framable(SamplesOf(ChunksOf(runs))[k], w)
    ensures SampleHolds(buf, IndexOfMedia(runs, w, at), k, w, SamplesOf(ChunksOf(runs))[k])
  {
    hide HoldsAt, Placed, Framable, MediaOf, Flatten, Sum, RunsDescribe, OffsetsOf, SamplesOf;
    var ix, chunks := IndexOfMedia(runs, w, at), ChunksOf(runs);
    var c, j := Locate(chunks, k);
    SampleIsPlaced(runs, w, at, k, c, j);
    ChunkIsHeld(buf, at, chunks, w, c);
    var frames := Frames(chunks[c].samples, w);
    FrameIsHeld(buf, ix.chunks[c], frames, j);
    var l := Loc(c + 1, ix.chunks[c] + Sum(SizesOf(frames)[..j]), |frames[j]|);
    assert Placed(ix, k, l);
    assert SamplesOf(chunks)[k] == SamplesOf(chunks)[k - j..k - j + |chunks[c].samples|][j] == chunks[c].samples[j];
    assert frames[j] == LengthPrefixed(SamplesOf(chunks)[k], w);
  }
}
