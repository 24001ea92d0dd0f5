// Where a track's samples are: the walk over the three tables of sections 8.7.3 to 8.7.5 of
// ISO/IEC 14496-12 (sample sizes, sample-to-chunk runs, chunk offsets), and what it amounts to.

module SampleIndex {
  import opened Bytes

  /** Chunks from first (1-based) up to the next run hold perChunk samples each. */
  datatype Run = Run(first: nat, perChunk: nat)

  datatype Index = Index(sizes: seq<nat>, chunks: seq<nat>, runs: seq<Run>)

  /** One sample: the chunk it is read from (1-based), its file offset and its size. */
  datatype Loc = Loc(chunk: nat, off: nat, size: nat)

  /** The samples the walk visits, and whether it stopped at a malformed run. */
  datatype Plan = Plan(locs: seq<Loc>, bad: bool)

  /** One past the last chunk of run r. */
  function NextFirst(ix: Index, r: nat): nat {
    if r + 1 < |ix.runs| then ix.runs[r + 1].first else |ix.chunks| + 1
  }

  predicate RunOk(ix: Index, r: nat) {
    && r < |ix.runs|
    && 1 <= ix.runs[r].first <= NextFirst(ix, r) <= |ix.chunks| + 1
    && ix.runs[r].perChunk > 0
  }

  // ----- the walk

  /** At most k samples, beginning with the given one, one behind the other from off on. */
  function ChunkLocs(ix: Index, ch: nat, off: nat, sample: nat, k: nat): (locs: seq<Loc>)
    ensures |locs| == if sample >= |ix.sizes| then 0 else if k <= |ix.sizes| - sample then k else |ix.sizes| - sample
    decreases k
  {
    if k == 0 || sample >= |ix.sizes| then []
    else [Loc(ch, off, ix.sizes[sample])] + ChunkLocs(ix, ch, off + ix.sizes[sample], sample + 1, k - 1)
  }

  function RunLocs(ix: Index, ch: nat, next: nat, perChunk: nat, sample: nat): seq<Loc>
    requires 1 <= ch && next <= |ix.chunks| + 1
    decreases next - ch
  {
    if ch >= next || sample >= |ix.sizes| then []
    else
      var locs := ChunkLocs(ix, ch, ix.chunks[ch - 1], sample, perChunk);
      locs + RunLocs(ix, ch + 1, next, perChunk, sample + |locs|)
  }

  function LocsOfRun(ix: Index, r: nat, sample: nat): seq<Loc>
    requires RunOk(ix, r)
  {
    RunLocs(ix, ix.runs[r].first, NextFirst(ix, r), ix.runs[r].perChunk, sample)
  }

  function PlanFrom(ix: Index, r: nat, sample: nat): Plan
    decreases |ix.runs| - r
  {
    if r >= |ix.runs| || sample >= |ix.sizes| then Plan([], false)
    else if !RunOk(ix, r) then Plan([], true)
    else
      var locs := LocsOfRun(ix, r, sample);
      var rest := PlanFrom(ix, r + 1, sample + |locs|);
      Plan(locs + rest.locs, rest.bad)
  }

  /** The walk was not stopped and visited every sample. */
  predicate Covers(ix: Index) {
    var plan := PlanFrom(ix, 0, 0);
    !plan.bad && |plan.locs| == |ix.sizes|
  }

  // ----- what it amounts to

  /** Samples in chunk c: what the first run that contains c says. */
  function SamplesIn(ix: Index, c: nat, r: nat): nat
    decreases |ix.runs| - r
  {
    if r >= |ix.runs| then 0
    else if ix.runs[r].first <= c < NextFirst(ix, r) then ix.runs[r].perChunk
    else SamplesIn(ix, c, r + 1)
  }

  /** Samples in all chunks before c, counting from the first chunk of the first run. */
  function Before(ix: Index, c: nat): nat {
    if c == 0 || |ix.runs| == 0 || c <= ix.runs[0].first then 0 else Before(ix, c - 1) + SamplesIn(ix, c - 1, 0)
  }

  /** Sample k lies in the chunk whose cumulative count is the first to exceed k, behind the
      earlier samples of that chunk. */
  predicate Placed(ix: Index, k: nat, l: Loc) {
    && k < |ix.sizes| && ix.runs != [] && l.size == ix.sizes[k]
    && ix.runs[0].first <= l.chunk && 1 <= l.chunk <= |ix.chunks|
    && Before(ix, l.chunk) <= k < Before(ix, l.chunk + 1)
    && l.off == ix.chunks[l.chunk - 1] + Sum(ix.sizes[Before(ix, l.chunk)..k])
  }

  lemma {:induction false} ChunkLocsAt(ix: Index, ch: nat, off: nat, sample: nat, k: nat, j: nat)
    requires j < |ChunkLocs(ix, ch, off, sample, k)|
    ensures sample + j < |ix.sizes|
    ensures ChunkLocs(ix, ch, off, sample, k)[j] ==
              Loc(ch, off + Sum(ix.sizes[sample..sample + j]), ix.sizes[sample + j])
    decreases k
  {
    if j > 0 {
      ChunkLocsAt(ix, ch, off + ix.sizes[sample], sample + 1, k - 1, j - 1);
      assert ix.sizes[sample..sample + j][1..] == ix.sizes[sample + 1..sample + j];
    } else {
      assert ix.sizes[sample..sample] == [];
    }
  }

  /** Samples [sample, sample + |locs|) are where they should be. */
  ghost predicate AllPlaced(ix: Index, sample: nat, locs: seq<Loc>) {
    forall j {:trigger locs[j]} :: 0 <= j < |locs| ==> Placed(ix, sample + j, locs[j])
  }

  lemma AllPlacedAppend(ix: Index, sample: nat, a: seq<Loc>, b: seq<Loc>)
    requires AllPlaced(ix, sample, a) && AllPlaced(ix, sample + |a|, b)
    ensures AllPlaced(ix, sample, a + b)
  {
    forall j | 0 <= j < |a + b|
      ensures Placed(ix, sample + j, (a + b)[j])
    {
      if j >= |a| {
        assert (a + b)[j] == b[j - |a|];
      } else {
        assert (a + b)[j] == a[j];
      }
    }
  }

  lemma ChunkPlaced(ix: Index, ch: nat, sample: nat, perChunk: nat)
    requires ix.runs != [] && ix.runs[0].first <= ch && 1 <= ch <= |ix.chunks|
    requires SamplesIn(ix, ch, 0) == perChunk && sample == Before(ix, ch) < |ix.sizes|
    ensures var locs := ChunkLocs(ix, ch, ix.chunks[ch - 1], sample, perChunk);
            AllPlaced(ix, sample, locs) && (sample + |locs| >= |ix.sizes| || |locs| == perChunk)
  {
    var locs := ChunkLocs(ix, ch, ix.chunks[ch - 1], sample, perChunk);
    forall j | 0 <= j < |locs|
      ensures Placed(ix, sample + j, locs[j])
    {
      ChunkLocsAt(ix, ch, ix.chunks[ch - 1], sample, perChunk, j);
    }
  }

  lemma NothingPlaced(ix: Index, sample: nat)
    ensures AllPlaced(ix, sample, [])
  {
  }

  lemma {:induction false} RunLocsPlaced(ix: Index, ch: nat, next: nat, perChunk: nat, sample: nat)
    requires ix.runs != [] && perChunk > 0
    requires 1 <= ch && ix.runs[0].first <= ch <= next <= |ix.chunks| + 1
    requires forall c :: ch <= c < next ==> SamplesIn(ix, c, 0) == perChunk
    requires sample >= |ix.sizes| || sample == Before(ix, ch)
    ensures AllPlaced(ix, sample, RunLocs(ix, ch, next, perChunk, sample))
    ensures var end := sample + |RunLocs(ix, ch, next, perChunk, sample)|;
            end >= |ix.sizes| || end == Before(ix, next)
    decreases next - ch
  {
    hide AllPlaced;
    if ch < next && sample < |ix.sizes| {
      var locs := ChunkLocs(ix, ch, ix.chunks[ch - 1], sample, perChunk);
      assert Before(ix, ch + 1) == Before(ix, ch) + SamplesIn(ix, ch, 0) == sample + perChunk;
      ChunkPlaced(ix, ch, sample, perChunk);
      RunLocsPlaced(ix, ch + 1, next, perChunk, sample + |locs|);
      AllPlacedAppend(ix, sample, locs, RunLocs(ix, ch + 1, next, perChunk, sample + |locs|));
    } else {
      NothingPlaced(ix, sample);
    }
  }

  /** Runs that passed the check come in chunk order. */
  lemma {:induction false} RunsInOrder(ix: Index, q: nat, r: nat)
    requires q < r < |ix.runs|
    requires forall i :: 0 <= i < r ==> RunOk(ix, i)
    ensures NextFirst(ix, q) <= ix.runs[r].first
    decreases r - q
  {
    if q + 1 < r {
      assert RunOk(ix, q + 1);
      RunsInOrder(ix, q + 1, r);
    }
  }

  lemma {:induction false} SamplesInRun(ix: Index, q: nat, r: nat, c: nat)
    requires q <= r < |ix.runs|
    requires forall i :: 0 <= i <= r ==> RunOk(ix, i)
    requires ix.runs[r].first <= c < NextFirst(ix, r)
    ensures SamplesIn(ix, c, q) == ix.runs[r].perChunk
    decreases r - q
  {
    if q < r {
      RunsInOrder(ix, q, r);
      SamplesInRun(ix, q + 1, r, c);
    }
  }

  /** The samples of one run begin where the runs before it ended, and end where the next one begins. */
  lemma {:induction false} RunIsPlaced(ix: Index, r: nat, sample: nat)
    requires RunOk(ix, r) && forall i :: 0 <= i <= r ==> RunOk(ix, i)
    requires sample >= |ix.sizes| || sample == Before(ix, ix.runs[r].first)
    ensures var locs := LocsOfRun(ix, r, sample);
            && AllPlaced(ix, sample, locs)
            && (sample + |locs| >= |ix.sizes| || sample + |locs| == Before(ix, NextFirst(ix, r)))
  {
    var first, next, perChunk := ix.runs[r].first, NextFirst(ix, r), ix.runs[r].perChunk;
    forall c | first <= c < next
      ensures SamplesIn(ix, c, 0) == perChunk
    {
      SamplesInRun(ix, 0, r, c);
    }
    assert RunOk(ix, r) && RunOk(ix, 0);
    if r > 0 {
      RunsInOrder(ix, 0, r);
    }
    RunLocsPlaced(ix, first, next, perChunk, sample);
  }

  lemma {:induction false} PlanPlaced(ix: Index, r: nat, sample: nat)
    requires forall i :: 0 <= i < r && i < |ix.runs| ==> RunOk(ix, i)
    requires sample >= |ix.sizes| || r >= |ix.runs| || sample == Before(ix, ix.runs[r].first)
    ensures AllPlaced(ix, sample, PlanFrom(ix, r, sample).locs)
    decreases |ix.runs| - r
  {
    if r < |ix.runs| && sample < |ix.sizes| && RunOk(ix, r) {
      var locs := LocsOfRun(ix, r, sample);
      RunIsPlaced(ix, r, sample);
      PlanPlaced(ix, r + 1, sample + |locs|);
      AllPlacedAppend(ix, sample, locs, PlanFrom(ix, r + 1, sample + |locs|).locs);
    }
  }

  /** Main result about the walk: the k-th sample visited is sample k, at its declared place. */
  lemma {:induction false} WalkIsPlacement(ix: Index, k: nat)
    requires k < |PlanFrom(ix, 0, 0).locs|
    ensures Placed(ix, k, PlanFrom(ix, 0, 0).locs[k])
  {
    if ix.runs != [] {
      assert Before(ix, ix.runs[0].first) == 0;
    }
    PlanPlaced(ix, 0, 0);
    assert AllPlaced(ix, 0, PlanFrom(ix, 0, 0).locs);
  }

  lemma {:induction false} BeforeGrows(ix: Index, c: nat, d: nat)
    requires c <= d
    ensures Before(ix, c) <= Before(ix, d)
    decreases d - c
  {
    if c < d {
      BeforeGrows(ix, c, d - 1);
    }
  }

  /** A sample has only one place, so the placement determines the whole walk. */
  lemma PlacementIsUnique(ix: Index, k: nat, l: Loc, m: Loc)
    requires Placed(ix, k, l) && Placed(ix, k, m)
    ensures l == m
  {
    if l.chunk < m.chunk {
      BeforeGrows(ix, l.chunk + 1, m.chunk);
    } else if m.chunk < l.chunk {
      BeforeGrows(ix, m.chunk + 1, l.chunk);
    }
  }

  lemma {:induction false} RunLocsChunks(ix: Index, ch: nat, next: nat, perChunk: nat, sample: nat, j: nat)
    requires 1 <= ch && next <= |ix.chunks| + 1 && j < |RunLocs(ix, ch, next, perChunk, sample)|
    ensures ch <= RunLocs(ix, ch, next, perChunk, sample)[j].chunk < next
    decreases next - ch
  {
    var here := ChunkLocs(ix, ch, ix.chunks[ch - 1], sample, perChunk);
    var n := |here|;
    assert RunLocs(ix, ch, next, perChunk, sample) == here + RunLocs(ix, ch + 1, next, perChunk, sample + n);
    if j < n {
      ChunkLocsAt(ix, ch, ix.chunks[ch - 1], sample, perChunk, j);
    } else {
      RunLocsChunks(ix, ch + 1, next, perChunk, sample + n, j - n);
    }
  }

  /** A visited chunk lies in a run that passed the check, as did all runs before it. */
  lemma {:induction false} VisitedRun(ix: Index, r: nat, sample: nat, j: nat) returns (q: nat)
    requires j < |PlanFrom(ix, r, sample).locs|
    ensures r <= q < |ix.runs| && forall i :: r <= i <= q ==> RunOk(ix, i)
    ensures ix.runs[q].first <= PlanFrom(ix, r, sample).locs[j].chunk < NextFirst(ix, q)
    decreases |ix.runs| - r
  {
    var locs := RunLocs(ix, ix.runs[r].first, NextFirst(ix, r), ix.runs[r].perChunk, sample);
    if j < |locs| {
      RunLocsChunks(ix, ix.runs[r].first, NextFirst(ix, r), ix.runs[r].perChunk, sample, j);
      q := r;
    } else {
      q := VisitedRun(ix, r + 1, sample + |locs|, j - |locs|);
    }
  }

  /** Valid runs leave no chunk out. */
  lemma {:induction false} NoEmptyChunk(ix: Index, r: nat, c: nat)
    requires r < |ix.runs| && forall i :: 0 <= i <= r ==> RunOk(ix, i)
    requires ix.runs[0].first <= c < NextFirst(ix, r)
    ensures SamplesIn(ix, c, 0) > 0
    decreases r
  {
    assert RunOk(ix, r);
    if ix.runs[r].first <= c {
      SamplesInRun(ix, 0, r, c);
    } else {
      NoEmptyChunk(ix, r - 1, c);
    }
  }

  lemma NextSampleChunk(ix: Index, q: nat, k: nat, l: Loc, m: Loc)
    requires q < |ix.runs| && forall i :: 0 <= i <= q ==> RunOk(ix, i)
    requires Placed(ix, k, m) && m.chunk < NextFirst(ix, q)
    requires k > 0 ==> Placed(ix, k - 1, l)
    ensures if k == 0 then m.chunk == ix.runs[0].first else l.chunk <= m.chunk <= l.chunk + 1
  {
    if k == 0 {
      if ix.runs[0].first < m.chunk {
        NoEmptyChunk(ix, q, m.chunk - 1);
      }
    } else if m.chunk < l.chunk {
      BeforeGrows(ix, m.chunk + 1, l.chunk);
    } else if l.chunk + 1 < m.chunk {
      BeforeGrows(ix, l.chunk + 1, m.chunk - 1);
      NoEmptyChunk(ix, q, m.chunk - 1);
    }
  }

  /** Samples are read in chunk order, from the first run's first chunk on, without skipping a chunk. */
  lemma {:induction false} ChunksAreConsecutive(ix: Index, k: nat)
    requires k < |PlanFrom(ix, 0, 0).locs|
    ensures var locs := PlanFrom(ix, 0, 0).locs;
            if k == 0 then locs[0].chunk == ix.runs[0].first
            else locs[k - 1].chunk <= locs[k].chunk <= locs[k - 1].chunk + 1
  {
    var locs := PlanFrom(ix, 0, 0).locs;
    WalkIsPlacement(ix, k);
    if k > 0 {
      WalkIsPlacement(ix, k - 1);
    }
    var q := VisitedRun(ix, 0, 0, k);
    NextSampleChunk(ix, q, k, locs[if k > 0 then k - 1 else 0], locs[k]);
  }

  // ----- when the walk covers all samples

  /** The first runs, up to some run q, are well formed and their chunks hold every sample. */
  ghost predicate RunsCover(ix: Index) {
    exists q :: 0 <= q < |ix.runs| && RunsCoverUpTo(ix, q)
  }

  ghost predicate RunsCoverUpTo(ix: Index, q: nat)
    requires q < |ix.runs|
  {
    (forall i :: 0 <= i <= q ==> RunOk(ix, i)) && |ix.sizes| <= Before(ix, NextFirst(ix, q))
  }

  lemma {:induction false} CoveringRunsSuffice(ix: Index, r: nat, sample: nat, q: nat)
    requires q < |ix.runs| && RunsCoverUpTo(ix, q)
    requires sample >= |ix.sizes| || (r <= q && sample == Before(ix, ix.runs[r].first))
    ensures !PlanFrom(ix, r, sample).bad
    ensures sample < |ix.sizes| ==> sample + |PlanFrom(ix, r, sample).locs| >= |ix.sizes|
    decreases |ix.runs| - r
  {
    if r < |ix.runs| && sample < |ix.sizes| {
      assert RunOk(ix, r);
      var locs := LocsOfRun(ix, r, sample);
      RunIsPlaced(ix, r, sample);
      CoveringRunsSuffice(ix, r + 1, sample + |locs|, q);
    }
  }

  lemma {:induction false} CoveringRunsNeeded(ix: Index, r: nat, sample: nat) returns (q: nat)
    requires r < |ix.runs| && forall i :: 0 <= i < r ==> RunOk(ix, i)
    requires sample == Before(ix, ix.runs[r].first) && sample < |ix.sizes|
    requires !PlanFrom(ix, r, sample).bad && sample + |PlanFrom(ix, r, sample).locs| >= |ix.sizes|
    ensures q < |ix.runs| && RunsCoverUpTo(ix, q)
    decreases |ix.runs| - r
  {
    var next := NextFirst(ix, r);
    var locs := LocsOfRun(ix, r, sample);
    RunIsPlaced(ix, r, sample);
    if |ix.sizes| <= Before(ix, next) {
      q := r;
    } else {
      RunEndsAtNext(ix, r, sample);
      q := CoveringRunsNeeded(ix, r + 1, sample + |locs|);
    }
  }

  /** A run that does not hold all remaining samples is used up. */
  lemma {:induction false} RunEndsAtNext(ix: Index, r: nat, sample: nat)
    requires RunOk(ix, r) && forall i :: 0 <= i <= r ==> RunOk(ix, i)
    requires sample == Before(ix, ix.runs[r].first) && sample < |ix.sizes|
    requires Before(ix, NextFirst(ix, r)) < |ix.sizes|
    ensures sample + |LocsOfRun(ix, r, sample)| == Before(ix, NextFirst(ix, r))
  {
    RunIsPlaced(ix, r, sample);
    var locs := LocsOfRun(ix, r, sample);
    var n := |locs|;
    if n > 0 && sample + n >= |ix.sizes| {
      var k := |ix.sizes| - 1 - sample;
      assert Placed(ix, sample + k, locs[k]);
      RunLocsChunks(ix, ix.runs[r].first, NextFirst(ix, r), ix.runs[r].perChunk, sample, k);
      BeforeGrows(ix, locs[k].chunk + 1, NextFirst(ix, r));
    }
  }

  /** Main result about coverage: the walk reaches every sample exactly if leading well-formed runs hold them all. */
  lemma CoversIff(ix: Index)
    requires |ix.sizes| > 0 && |ix.runs| > 0
    ensures Covers(ix) <==> RunsCover(ix)
  {
    var plan := PlanFrom(ix, 0, 0);
    assert Before(ix, ix.runs[0].first) == 0;
    if Covers(ix) {
      var q := CoveringRunsNeeded(ix, 0, 0);
    }
    if RunsCover(ix) {
      var q :| 0 <= q < |ix.runs| && RunsCoverUpTo(ix, q);
      CoveringRunsSuffice(ix, 0, 0, q);
      WalkIsPlacement(ix, |plan.locs| - 1);
    }
  }
}
