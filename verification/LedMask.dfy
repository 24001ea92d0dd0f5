// The frame mask of the activity LED: closing short dark gaps and cutting the mask into lit segments.

module LedMask {
  import opened Bytes

  datatype Segment = Segment(start: int, end: int) {
    function Frames(): int {
      end - start + 1
    }
  }

  // ----- closing gaps

  /** [a, b) is a whole dark run between two lit frames. */
  ghost predicate IsGap(m: seq<bool>, a: int, b: int) {
    && 0 < a < b < |m| && m[a - 1] && m[b]
    && forall j :: a <= j < b ==> !m[j]
  }

  /** Frame i lies in a dark run between lit frames that is no longer than g. */
  ghost predicate InShortGap(m: seq<bool>, g: int, i: int) {
    exists a, b :: a <= i < b && IsGap(m, a, b) && b - a <= g
  }

  /** The mask with exactly its short interior gaps lit. */
  ghost function Merged(m: seq<bool>, g: int): (r: seq<bool>)
    ensures |r| == |m|
  {
    seq(|m|, i requires 0 <= i < |m| => m[i] || InShortGap(m, g, i))
  }

  /** A gap contains every dark stretch it meets. */
  lemma GapContains(m: seq<bool>, a: int, b: int, start: int, i: int, j: int)
    requires IsGap(m, a, b) && a <= j < b
    requires 0 <= start <= j < i <= |m| && forall k :: start <= k < i ==> !m[k]
    ensures a <= start && i <= b
  {
    assert m[a - 1] && m[b];
  }

  /** In-place closing of gaps on a copy of the mask. */
  method MergeShortFalseRuns(mask: array<bool>, maxGap: int) returns (out: array<bool>)
    ensures fresh(out) && out[..] == Merged(mask[..], maxGap)
  {
    var n := mask.Length;
    out := new bool[n](j requires 0 <= j < n reads mask => mask[j]);
    ghost var m := mask[..];
    var i := 0;
    while i < n
      invariant 0 <= i <= n && m == mask[..]
      invariant forall j :: 0 <= j < i ==> out[j] == Merged(m, maxGap)[j]
      invariant forall j :: i <= j < n ==> out[j] == m[j]
      invariant i == 0 || i == n || m[i - 1] || m[i]
      decreases n - i
    {
      if out[i] {
        i := i + 1;
        continue;
      }
      var start := i;
      while i < n && !out[i]
        invariant start <= i <= n
        invariant forall j :: start <= j < i ==> !m[j]
      {
        i := i + 1;
      }
      var end := i - 1;
      RunDecision(m, maxGap, start, i);
      if start == 0 || end == n - 1 {
        continue;
      }
      if end - start + 1 <= maxGap {
        forall j | start <= j < end + 1 {
          out[j] := true;
        }
      }
    }
  }

  /** A whole dark run is filled exactly if it is interior and short. */
  lemma RunDecision(m: seq<bool>, g: int, start: int, i: int)
    requires 0 <= start < i <= |m|
    requires forall j :: start <= j < i ==> !m[j]
    requires start == 0 || m[start - 1]
    requires i == |m| || m[i]
    ensures forall j :: start <= j < i ==> Merged(m, g)[j] == (start > 0 && i < |m| && i - start <= g)
  {
    if start > 0 && i < |m| {
      assert IsGap(m, start, i);
    }
    forall j | start <= j < i && InShortGap(m, g, j)
      ensures start > 0 && i < |m| && i - start <= g
    {
      var a, b :| a <= j < b && IsGap(m, a, b) && b - a <= g;
      GapContains(m, a, b, start, i, j);
    }
  }

  /** Next to a frame of a short gap lies another one, or a lit frame. */
  lemma BesideShortGap(m: seq<bool>, g: int, i: int, j: int)
    requires 0 <= i < |m| && 0 <= j < |m| && (i == j + 1 || j == i + 1)
    requires InShortGap(m, g, i)
    ensures Merged(m, g)[j]
  {
    var c, d :| c <= i < d && IsGap(m, c, d) && d - c <= g;
    assert c <= j < d || m[j];
  }

  /** Next to a frame that stays dark, merging lights nothing. */
  lemma LitBesideDark(m: seq<bool>, g: int, i: int, j: int)
    requires 0 <= i < |m| && 0 <= j < |m| && (i == j + 1 || j == i + 1)
    requires Merged(m, g)[i] && !Merged(m, g)[j]
    ensures m[i]
  {
    if InShortGap(m, g, i) {
      BesideShortGap(m, g, i, j);
    }
  }

  /** A gap of the merged mask is a gap of the mask, and a long one. */
  lemma GapsAreLong(m: seq<bool>, g: int, a: int, b: int)
    requires IsGap(Merged(m, g), a, b)
    ensures IsGap(m, a, b) && b - a > g
  {
    LitBesideDark(m, g, a - 1, a);
    LitBesideDark(m, g, b, b - 1);
    forall j | a <= j < b
      ensures !m[j]
    {
      assert !Merged(m, g)[j];
    }
    assert IsGap(m, a, b);
    assert !InShortGap(m, g, a);
  }

  /** Merging what is merged changes nothing. */
  lemma MergeIsIdempotent(m: seq<bool>, g: int)
    ensures Merged(Merged(m, g), g) == Merged(m, g)
  {
    var r := Merged(m, g);
    forall i | 0 <= i < |m|
      ensures Merged(r, g)[i] == r[i]
    {
      if InShortGap(r, g, i) {
        var a, b :| a <= i < b && IsGap(r, a, b) && b - a <= g;
        GapsAreLong(m, g, a, b);
      }
    }
  }

  // ----- segments

  /** [a, b] is a whole lit run. */
  ghost predicate IsLitRun(m: seq<bool>, a: int, b: int) {
    && 0 <= a <= b < |m|
    && (forall j :: a <= j <= b ==> m[j])
    && (a == 0 || !m[a - 1])
    && (b == |m| - 1 || !m[b + 1])
  }

  ghost predicate Ascending(segs: seq<Segment>) {
    forall j, k :: 0 <= j < k < |segs| ==> segs[j].end < segs[k].start
  }

  /** segs are exactly the lit runs of at least minFrames frames, in order. */
  ghost predicate IsSegmentation(m: seq<bool>, minFrames: int, segs: seq<Segment>) {
    && Ascending(segs)
    && (forall k :: 0 <= k < |segs| ==> IsLitRun(m, segs[k].start, segs[k].end) && segs[k].Frames() >= minFrames)
    && (forall a, b :: IsLitRun(m, a, b) && b - a + 1 >= minFrames ==> Segment(a, b) in segs)
  }

  method MaskToSegments(mask: seq<bool>, minFrames: int) returns (segments: seq<Segment>)
    ensures IsSegmentation(mask, minFrames, segments)
  {
    segments := [];
    var start: Option<int> := None;
    for idx := 0 to |mask|
      invariant Scanned(mask, minFrames, segments, start, idx)
    {
      if mask[idx] {
        ScanLit(mask, minFrames, segments, start, idx);
        if start.None? {
          start := Some(idx);
        }
      } else {
        ScanDark(mask, minFrames, segments, start, idx);
        segments := Closed(minFrames, segments, start, idx);
        start := None;
      }
    }
    ScanEnd(mask, minFrames, segments, start);
    segments := Closed(minFrames, segments, start, |mask|);
  }

  /** The loop state: closed segments, and where the current lit run began, if there is one. */
  ghost predicate Scanned(m: seq<bool>, minFrames: int, segs: seq<Segment>, start: Option<int>, idx: int) {
    match start
    case None => SegmentedUpTo(m, minFrames, segs, idx) && (0 < idx <= |m| ==> !m[idx - 1])
    case Some(s) =>
      && SegmentedUpTo(m, minFrames, segs, s)
      && 0 <= s < idx <= |m| && (s == 0 || !m[s - 1])
      && forall j :: s <= j < idx ==> m[j]
  }

  /** The segments once the run that began at start is closed in front of idx. */
  function Closed(minFrames: int, segs: seq<Segment>, start: Option<int>, idx: int): seq<Segment> {
    if start.Some? && idx - start.value >= minFrames then segs + [Segment(start.value, idx - 1)] else segs
  }

  lemma ScanLit(m: seq<bool>, minFrames: int, segs: seq<Segment>, start: Option<int>, idx: int)
    requires 0 <= idx < |m| && m[idx] && Scanned(m, minFrames, segs, start, idx)
    ensures Scanned(m, minFrames, segs, if start.Some? then start else Some(idx), idx + 1)
  {
  }

  lemma ScanDark(m: seq<bool>, minFrames: int, segs: seq<Segment>, start: Option<int>, idx: int)
    requires 0 <= idx < |m| && !m[idx] && Scanned(m, minFrames, segs, start, idx)
    ensures Scanned(m, minFrames, Closed(minFrames, segs, start, idx), None, idx + 1)
  {
    if start.Some? {
      RunEnds(m, minFrames, segs, start.value, idx);
    }
    DarkFrame(m, minFrames, Closed(minFrames, segs, start, idx), idx);
  }

  lemma ScanEnd(m: seq<bool>, minFrames: int, segs: seq<Segment>, start: Option<int>)
    requires Scanned(m, minFrames, segs, start, |m|)
    ensures IsSegmentation(m, minFrames, Closed(minFrames, segs, start, |m|))
  {
    if start.Some? {
      RunEnds(m, minFrames, segs, start.value, |m|);
    }
  }

  /** segs are the sufficiently long lit runs that begin before i. */
  ghost predicate SegmentedUpTo(m: seq<bool>, minFrames: int, segs: seq<Segment>, i: int) {
    && Ascending(segs)
    && (forall k :: 0 <= k < |segs| ==>
          IsLitRun(m, segs[k].start, segs[k].end) && segs[k].Frames() >= minFrames && segs[k].end < i)
    && (forall a, b :: IsLitRun(m, a, b) && b - a + 1 >= minFrames && a < i ==> Segment(a, b) in segs)
  }

  lemma DarkFrame(m: seq<bool>, minFrames: int, segs: seq<Segment>, i: int)
    requires SegmentedUpTo(m, minFrames, segs, i) && 0 <= i < |m| && !m[i]
    ensures SegmentedUpTo(m, minFrames, segs, i + 1)
  {
    forall a, b | IsLitRun(m, a, b) && b - a + 1 >= minFrames && a < i + 1
      ensures Segment(a, b) in segs
    {
      assert a != i;
    }
  }

  /** The segments after a lit run has ended in front of a dark frame or of the end. */
  lemma RunEnds(m: seq<bool>, minFrames: int, segs: seq<Segment>, s: int, end: int)
    requires SegmentedUpTo(m, minFrames, segs, s)
    requires 0 <= s < end <= |m| && (forall j :: s <= j < end ==> m[j])
    requires (s == 0 || !m[s - 1]) && (end == |m| || !m[end])
    ensures SegmentedUpTo(m, minFrames, if end - s >= minFrames then segs + [Segment(s, end - 1)] else segs, end)
  {
    var x := Segment(s, end - 1);
    assert IsLitRun(m, s, end - 1);
    forall a, b | IsLitRun(m, a, b) && a < end && s <= a
      ensures Segment(a, b) == x
    {
      LitRunsMeet(m, x, Segment(a, b), a);
    }
    if end - s >= minFrames {
      OneMoreSegment(m, minFrames, segs, x, end);
    }
  }

  lemma OneMoreSegment(m: seq<bool>, minFrames: int, segs: seq<Segment>, x: Segment, end: int)
    requires SegmentedUpTo(m, minFrames, segs, x.start)
    requires IsLitRun(m, x.start, x.end) && x.Frames() >= minFrames && x.end < end
    requires forall a, b :: IsLitRun(m, a, b) && a < end && x.start <= a ==> Segment(a, b) == x
    ensures SegmentedUpTo(m, minFrames, segs + [x], end)
  {
    var all := segs + [x];
    assert all[|segs|] == x;
    forall a, b | IsLitRun(m, a, b) && b - a + 1 >= minFrames && a < end
      ensures Segment(a, b) in all
    {
      if a < x.start {
        assert Segment(a, b) in segs;
      }
    }
  }

  /** Two whole lit runs with a frame in common are the same. */
  lemma LitRunsMeet(m: seq<bool>, x: Segment, y: Segment, i: int)
    requires IsLitRun(m, x.start, x.end) && IsLitRun(m, y.start, y.end)
    requires x.start <= i <= x.end && y.start <= i <= y.end
    ensures x == y
  {
  }

  /** A mask has only one segmentation. */
  lemma {:induction false} SegmentationIsUnique(m: seq<bool>, minFrames: int, s: seq<Segment>, t: seq<Segment>, k: nat)
    requires IsSegmentation(m, minFrames, s) && IsSegmentation(m, minFrames, t)
    requires k <= |s| && k <= |t| && forall j :: 0 <= j < k ==> s[j] == t[j]
    ensures s == t
    decreases |s| - k
  {
    hide IsSegmentation;
    if k < |t| {
      FirstDifference(m, minFrames, s, t, k);
    }
    if k < |s| {
      FirstDifference(m, minFrames, t, s, k);
      SameStart(m, minFrames, s, t, k);
      SegmentationIsUnique(m, minFrames, s, t, k + 1);
    }
  }

  lemma SameStart(m: seq<bool>, minFrames: int, s: seq<Segment>, t: seq<Segment>, k: nat)
    requires IsSegmentation(m, minFrames, s) && IsSegmentation(m, minFrames, t)
    requires k < |s| && k < |t| && s[k].start == t[k].start
    ensures s[k] == t[k]
  {
    LitRunsMeet(m, s[k], t[k], s[k].start);
  }

  /** The k-th segment of t is at or behind the k-th of s, if both agree up to there. */
  lemma FirstDifference(m: seq<bool>, minFrames: int, s: seq<Segment>, t: seq<Segment>, k: nat)
    requires IsSegmentation(m, minFrames, s) && IsSegmentation(m, minFrames, t)
    requires k <= |s| && k < |t| && forall j :: 0 <= j < k ==> s[j] == t[j]
    ensures k < |s| && s[k].start <= t[k].start
  {
    assert t[k] in s by {
      assert t[k] == Segment(t[k].start, t[k].end);
    }
    assert forall j :: 0 <= j < |s| ==> s[j].start <= s[j].end;
    assert t[k].start <= t[k].end;
    hide IsLitRun, IsSegmentation;
    NotAmongEarlier(s, t, k);
  }

  lemma NotAmongEarlier(s: seq<Segment>, t: seq<Segment>, k: nat)
    requires Ascending(s) && Ascending(t) && forall j :: 0 <= j < |s| ==> s[j].start <= s[j].end
    requires k <= |s| && k < |t| && t[k].start <= t[k].end && t[k] in s
    requires forall j :: 0 <= j < k ==> s[j] == t[j]
    ensures k < |s| && s[k].start <= t[k].start
  {
    assert forall j :: 0 <= j < k ==> t[j].end < t[k].start;
    var i :| 0 <= i < |s| && s[i] == t[k];
    assert i >= k;
    assert k < i ==> s[k].end < s[i].start;
  }

  /** In a merged mask, consecutive segments are more than the merge gap apart. */
  lemma SegmentsAreApart(m: seq<bool>, g: int, minFrames: int, segs: seq<Segment>, k: nat)
    requires IsSegmentation(Merged(m, g), minFrames, segs) && k + 1 < |segs|
    ensures segs[k + 1].start - segs[k].end - 1 > g
  {
    var r := Merged(m, g);
    var a, limit := segs[k].end + 1, segs[k + 1].start;
    assert IsLitRun(r, segs[k].start, segs[k].end) && IsLitRun(r, segs[k + 1].start, segs[k + 1].end);
    assert segs[k].end < segs[k + 1].start;
    assert a < |r| && !r[a];
    var b := a;
    while !r[b]
      invariant a <= b <= limit
      invariant forall j :: a <= j < b ==> !r[j]
      decreases limit - b
    {
      b := b + 1;
    }
    GapsAreLong(m, g, a, b);
  }
}
