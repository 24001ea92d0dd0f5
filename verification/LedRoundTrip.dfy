// Recordings of the pulse protocol: any list of codes, rendered as a frame mask within the decoder's
// thresholds, comes back from merging, segmenting and grouping as exactly that list of codes.

module LedRoundTrip {
  import opened LedMask
  import opened LedGroups

  // ----- recordings and their segments

  /** A pulse as frames: lit, then dark. */
  datatype Pulse = Pulse(on: nat, off: nat)

  function Frames(n: nat, lit: bool): (f: seq<bool>)
    ensures |f| == n && forall i :: 0 <= i < n ==> f[i] == lit
  {
    seq(n, i => lit)
  }

  /** The frame mask of a list of pulses. */
  function Train(pulses: seq<Pulse>): seq<bool> {
    if pulses == [] then [] else Frames(pulses[0].on, true) + Frames(pulses[0].off, false) + Train(pulses[1..])
  }

  /** Where the pulses of a train are when it begins at frame at. */
  function Places(at: int, pulses: seq<Pulse>): (segs: seq<Segment>)
    ensures |segs| == |pulses|
    decreases |pulses|
  {
    if pulses == [] then []
    else [Segment(at, at + pulses[0].on - 1)] + Places(at + pulses[0].on + pulses[0].off, pulses[1..])
  }

  ghost predicate AllLit(pulses: seq<Pulse>) {
    forall k :: 0 <= k < |pulses| ==> pulses[k].on > 0
  }

  /** Each place has its frames, and its dark time lies between it and the next one. */
  ghost predicate Spaced(from: int, pulses: seq<Pulse>, segs: seq<Segment>) {
    && |segs| == |pulses|
    && (forall k :: 0 <= k < |segs| ==> from <= segs[k].start && segs[k].Frames() == pulses[k].on)
    && (forall j, k :: 0 <= j < k < |segs| ==> segs[j].end + pulses[j].off < segs[k].start)
    && (forall j, k :: 0 <= j < k < |segs| && k == j + 1 ==> segs[k].start == segs[j].end + pulses[j].off + 1)
  }

  lemma {:induction false} PlacesAreSpaced(from: int, pulses: seq<Pulse>)
    requires AllLit(pulses)
    ensures Spaced(from, pulses, Places(from, pulses))
    decreases |pulses|
  {
    if pulses == [] {
      return;
    }
    hide Spaced;
    var p, rest := pulses[0], pulses[1..];
    var next := from + p.on + p.off;
    assert AllLit(rest) by {
      assert forall k :: 0 <= k < |rest| ==> rest[k] == pulses[k + 1];
    }
    PlacesAreSpaced(next, rest);
    assert pulses == [p] + rest;
    assert Places(from, pulses) == [Segment(from, from + p.on - 1)] + Places(next, rest);
    SpacedStep(from, p, rest, Places(next, rest));
  }

  lemma SpacedStep(from: int, p: Pulse, rest: seq<Pulse>, later: seq<Segment>)
    requires Spaced(from + p.on + p.off, rest, later) && p.on > 0
    requires later != [] ==> later[0].start == from + p.on + p.off
    ensures Spaced(from, [p] + rest, [Segment(from, from + p.on - 1)] + later)
  {
    var segs, pulses := [Segment(from, from + p.on - 1)] + later, [p] + rest;
    assert forall k :: 1 <= k < |segs| ==> segs[k] == later[k - 1] && pulses[k] == rest[k - 1];
  }

  ghost predicate Covered(segs: seq<Segment>, i: int) {
    exists k :: 0 <= k < |segs| && segs[k].start <= i <= segs[k].end
  }

  /** A frame of a train is lit exactly if it belongs to one of its pulses. */
  lemma {:induction false} TrainLit(at: int, pulses: seq<Pulse>, i: int)
    requires AllLit(pulses) && at <= i < at + |Train(pulses)|
    ensures Train(pulses)[i - at] <==> Covered(Places(at, pulses), i)
    decreases |pulses|
  {
    var p, rest := pulses[0], pulses[1..];
    assert AllLit(rest) by {
      assert forall k :: 0 <= k < |rest| ==> rest[k] == pulses[k + 1];
    }
    var next := at + p.on + p.off;
    var segs, later := Places(at, pulses), Places(next, rest);
    assert segs == [Segment(at, at + p.on - 1)] + later;
    var head := Frames(p.on, true) + Frames(p.off, false);
    assert Train(pulses) == head + Train(rest);
    if i < next {
      assert Train(pulses)[i - at] == head[i - at];
      PlacesAreSpaced(next, rest);
      assert !Covered(later, i);
      assert segs[0].start <= i <= segs[0].end <==> i < at + p.on;
      CoveredStep(segs[0], later, i);
    } else {
      assert Train(pulses)[i - at] == Train(rest)[i - next];
      TrainLit(next, rest, i);
      CoveredStep(segs[0], later, i);
    }
  }

  lemma CoveredStep(first: Segment, later: seq<Segment>, i: int)
    ensures Covered([first] + later, i) <==> first.start <= i <= first.end || Covered(later, i)
  {
    var segs := [first] + later;
    assert segs[0] == first;
    if Covered(later, i) {
      var k :| 0 <= k < |later| && later[k].start <= i <= later[k].end;
      assert segs[k + 1] == later[k];
    }
    if Covered(segs, i) {
      var k :| 0 <= k < |segs| && segs[k].start <= i <= segs[k].end;
      assert k > 0 ==> later[k - 1] == segs[k];
    }
  }

  /** The mask of a recording: dark frames, then the pulses. */
  function Recording(lead: nat, pulses: seq<Pulse>): seq<bool> {
    Frames(lead, false) + Train(pulses)
  }

  lemma {:induction false} RecordingLit(lead: nat, pulses: seq<Pulse>)
    requires AllLit(pulses)
    ensures var m, segs := Recording(lead, pulses), Places(lead, pulses);
            forall i :: 0 <= i < |m| ==> (m[i] <==> Covered(segs, i))
  {
    var m, segs := Recording(lead, pulses), Places(lead, pulses);
    PlacesAreSpaced(lead, pulses);
    forall i | 0 <= i < |m|
      ensures m[i] <==> Covered(segs, i)
    {
      if i >= lead {
        TrainLit(lead, pulses, i);
        assert m[i] == Train(pulses)[i - lead];
      }
    }
  }

  lemma {:induction false} PlacesEnd(at: int, pulses: seq<Pulse>)
    requires AllLit(pulses)
    ensures forall k :: 0 <= k < |pulses| ==> Places(at, pulses)[k].end < at + |Train(pulses)|
    decreases |pulses|
  {
    if pulses != [] {
      var next, rest := at + pulses[0].on + pulses[0].off, pulses[1..];
      assert forall k :: 0 <= k < |rest| ==> rest[k] == pulses[k + 1];
      PlacesEnd(next, rest);
      assert forall k :: 1 <= k < |pulses| ==> Places(at, pulses)[k] == Places(next, rest)[k - 1];
    }
  }

  /** Lit long enough, and dark long enough before the next pulse. */
  ghost predicate Distinct(pulses: seq<Pulse>, mergeGap: int, minOn: int) {
    && AllLit(pulses)
    && (forall k :: 0 <= k < |pulses| ==> pulses[k].on >= minOn)
    && (forall k :: 0 <= k < |pulses| - 1 ==> pulses[k].off > 0 && pulses[k].off > mergeGap)
  }

  /** Merging leaves such a recording alone, and segmenting it gives the places of its pulses. */
  lemma {:induction false} RecordingSegments(lead: nat, pulses: seq<Pulse>, mergeGap: int, minOn: int)
    requires Distinct(pulses, mergeGap, minOn)
    ensures Merged(Recording(lead, pulses), mergeGap) == Recording(lead, pulses)
    ensures IsSegmentation(Recording(lead, pulses), minOn, Places(lead, pulses))
  {
    var m, segs := Recording(lead, pulses), Places(lead, pulses);
    PlacesAreSpaced(lead, pulses);
    PlacesEnd(lead, pulses);
    RecordingLit(lead, pulses);
    forall k | 0 <= k < |segs|
      ensures IsLitRun(m, segs[k].start, segs[k].end)
    {
      PlaceIsLitRun(m, pulses, segs, lead, k);
    }
    forall a, b | IsLitRun(m, a, b)
      ensures Segment(a, b) in segs
    {
      assert m[a];
      var k :| 0 <= k < |segs| && segs[k].start <= a <= segs[k].end;
      LitRunsMeet(m, Segment(a, b), segs[k], a);
    }
    forall i | 0 <= i < |m|
      ensures !InShortGap(m, mergeGap, i)
    {
      forall a, b | IsGap(m, a, b)
        ensures b - a > mergeGap
      {
        GapBetweenPlaces(m, pulses, segs, lead, mergeGap, a, b);
      }
    }
  }

  lemma PlaceIsLitRun(m: seq<bool>, pulses: seq<Pulse>, segs: seq<Segment>, lead: nat, k: nat)
    requires AllLit(pulses) && Spaced(lead, pulses, segs) && k < |segs|
    requires forall j :: 0 <= j < |pulses| - 1 ==> pulses[j].off > 0
    requires forall j :: 0 <= j < |segs| ==> segs[j].end < |m|
    requires forall i :: 0 <= i < |m| ==> (m[i] <==> Covered(segs, i))
    ensures IsLitRun(m, segs[k].start, segs[k].end)
  {
    var a, b := segs[k].start, segs[k].end;
    assert segs[k].Frames() == pulses[k].on;
    forall i | a <= i <= b
      ensures m[i]
    {
      assert Covered(segs, i);
    }
    assert !Covered(segs, a - 1);
    assert !Covered(segs, b + 1);
  }

  /** Of two places, the one that starts behind the other's end is the later one. */
  lemma LaterPlace(pulses: seq<Pulse>, segs: seq<Segment>, lead: nat, j: nat, k: nat)
    requires Spaced(lead, pulses, segs) && j < |segs| && k < |segs|
    requires segs[j].start <= segs[j].end < segs[k].start <= segs[k].end
    ensures j < k && segs[j].end + pulses[j].off < segs[k].start
  {
  }

  lemma GapBetweenPlaces(m: seq<bool>, pulses: seq<Pulse>, segs: seq<Segment>, lead: nat, mergeGap: int, a: int, b: int)
    requires Spaced(lead, pulses, segs) && IsGap(m, a, b)
    requires forall j :: 0 <= j < |pulses| - 1 ==> pulses[j].off > mergeGap
    requires forall i :: 0 <= i < |m| ==> (m[i] <==> Covered(segs, i))
    ensures b - a > mergeGap
  {
    assert m[a - 1] && m[b] && !m[a] && !m[b - 1];
    var j :| 0 <= j < |segs| && segs[j].start <= a - 1 <= segs[j].end;
    var k :| 0 <= k < |segs| && segs[k].start <= b <= segs[k].end;
    assert !Covered(segs, a) && !Covered(segs, b - 1);
    assert segs[j].end == a - 1 && segs[k].start == b;
    LaterPlace(pulses, segs, lead, j, k);
  }

  // ----- bursts

  /** Six pulses that spell a code under the given thresholds. */
  ghost predicate Spells(burst: seq<Pulse>, code: nat, t: Timing)
    requires t.fps > 0.0
  {
    && |burst| == 6 && code < 32
    && t.sync.Finite? && t.bit.Finite?
    && t.sync.s <= Seconds(burst[0].on, t.fps) <= t.maxPulse
    && (forall j :: 0 <= j < 5 ==> Seconds(burst[j].off, t.fps) <= t.groupGap)
    && |Bits(code, 5)| == 5
    && (forall j :: 0 <= j < 5 ==> (Seconds(burst[j + 1].on, t.fps) > t.bit.s <==> Bits(code, 5)[j] == '1'))
  }

  ghost predicate SpellsAll(pulses: seq<Pulse>, codes: seq<nat>, t: Timing)
    requires t.fps > 0.0
  {
    && |pulses| == 6 * |codes|
    && forall k :: 0 <= k < |codes| ==> Spells(pulses[6 * k..6 * k + 6], codes[k], t)
  }

  /** The group that reports a code. */
  ghost predicate Reports(g: Group, index: nat, code: nat) {
    g.index == index && g.complete && |g.pulses| == 6 && g.decode == Decoded(Bits(code, 5), code)
  }

  lemma {:induction false} FullBurst(segs: seq<Segment>, i: nat, j: nat, t: Timing)
    requires t.fps > 0.0 && i < j <= i + 6 <= |segs|
    requires forall k :: i < k < i + 6 ==> SameBurst(segs[k - 1], segs[k], t)
    ensures BurstEnd(segs, i, j, t) == i + 6
    decreases i + 6 - j
  {
    if j < i + 6 {
      FullBurst(segs, i, j + 1, t);
    }
  }

  lemma {:induction false} BitStringAt(segs: seq<Segment>, t: Timing)
    requires t.fps > 0.0 && t.bit.Finite?
    ensures |BitString(segs, t)| == |segs|
    ensures forall j :: 0 <= j < |segs| ==> BitString(segs, t)[j] == BitOf(segs[j], t)
  {
    if segs != [] {
      BitStringAt(segs[..|segs| - 1], t);
    }
  }

  /** Five bit pulses of the right lengths read as the digits of the code. */
  lemma {:induction false} BitsAreRead(segs: seq<Segment>, code: nat, t: Timing)
    requires t.fps > 0.0 && t.bit.Finite?
    requires |segs| == 5 == |Bits(code, 5)|
    requires forall j :: 0 <= j < 5 ==> (BitOf(segs[j], t) == '1' <==> Bits(code, 5)[j] == '1')
    ensures BitString(segs, t) == Bits(code, 5) && ParseBits(BitString(segs, t)) == code
  {
    BitStringAt(segs, t);
    ParseOfBits(code, 5);
  }

  /** The segments of one burst are grouped and decoded. */
  lemma OneBurst(segs: seq<Segment>, i: nat, index: nat, burst: seq<Pulse>, code: nat, t: Timing)
    requires t.fps > 0.0 && Spells(burst, code, t) && i + 6 <= |segs|
    requires forall j :: 0 <= j < 6 ==> segs[i + j].Frames() == burst[j].on
    requires forall j :: 0 <= j < 5 ==> segs[i + j + 1].start - segs[i + j].end - 1 == burst[j].off
    ensures IsSync(segs[i], t) && BurstEnd(segs, i, i + 1, t) == i + 6
    ensures Reports(GroupOf(index, segs[i..i + 6], t), index, code)
  {
    assert segs[i + 0].Frames() == burst[0].on;
    forall k | i < k < i + 6
      ensures SameBurst(segs[k - 1], segs[k], t)
    {
      var j := k - 1 - i;
      assert segs[i + j + 1].start - segs[i + j].end - 1 == burst[j].off;
    }
    FullBurst(segs, i, i + 1, t);
    var pulses := segs[i..i + 6];
    forall j | 0 <= j < 5
      ensures BitOf(pulses[1..6][j], t) == '1' <==> Bits(code, 5)[j] == '1'
    {
      assert pulses[1..6][j] == segs[i + (j + 1)];
      assert segs[i + (j + 1)].Frames() == burst[j + 1].on;
    }
    BitsAreRead(pulses[1..6], code, t);
  }

  lemma {:induction false} BurstOfTrain(pulses: seq<Pulse>, segs: seq<Segment>, lead: nat, k: nat, codes: seq<nat>,
                                        t: Timing)
    requires t.fps > 0.0 && SpellsAll(pulses, codes, t) && Spaced(lead, pulses, segs) && k < |codes|
    ensures IsSync(segs[6 * k], t) && BurstEnd(segs, 6 * k, 6 * k + 1, t) == 6 * k + 6
    ensures Reports(GroupOf(k + 1, segs[6 * k..6 * k + 6], t), k + 1, codes[k])
  {
    var i := 6 * k;
    var burst := pulses[i..i + 6];
    forall j | 0 <= j < 6
      ensures segs[i + j].Frames() == burst[j].on
    {
      assert burst[j] == pulses[i + j];
    }
    forall j | 0 <= j < 5
      ensures segs[i + j + 1].start - segs[i + j].end - 1 == burst[j].off
    {
      assert burst[j] == pulses[i + j];
      var a, b := i + j, i + j + 1;
      assert segs[b].start == segs[a].end + pulses[a].off + 1;
    }
    OneBurst(segs, i, k + 1, burst, codes[k], t);
  }

  /** The groups report the codes from the k-th on, numbered from k + 1. */
  ghost predicate ReportsFrom(groups: seq<Group>, k: nat, codes: seq<nat>) {
    && |groups| == |codes| - k
    && forall j :: 0 <= j < |groups| ==> Reports(groups[j], k + 1 + j, codes[k + j])
  }

  lemma ReportsStep(first: Group, later: seq<Group>, k: nat, codes: seq<nat>)
    requires k < |codes| && Reports(first, k + 1, codes[k]) && ReportsFrom(later, k + 1, codes)
    ensures ReportsFrom([first] + later, k, codes)
  {
    hide Reports;
    var groups := [first] + later;
    forall j | 1 <= j < |groups|
      ensures Reports(groups[j], k + 1 + j, codes[k + j])
    {
      assert Reports(later[j - 1], k + 2 + (j - 1), codes[k + 1 + (j - 1)]);
    }
  }

  lemma {:induction false} BurstsAreGrouped(pulses: seq<Pulse>, segs: seq<Segment>, lead: nat, k: nat,
                                            codes: seq<nat>, t: Timing)
    requires t.fps > 0.0 && SpellsAll(pulses, codes, t) && Spaced(lead, pulses, segs) && k <= |codes|
    ensures ReportsFrom(GroupsFrom(segs, 6 * k, k + 1, t), k, codes)
    decreases |codes| - k
  {
    assert |segs| == 6 * |codes|;
    if k == |codes| {
      return;
    }
    hide Reports, ReportsFrom, Spaced, SpellsAll;
    BurstOfTrain(pulses, segs, lead, k, codes, t);
    BurstsAreGrouped(pulses, segs, lead, k + 1, codes, t);
    ReportsStep(GroupOf(k + 1, segs[6 * k..6 * k + 6], t), GroupsFrom(segs, 6 * (k + 1), k + 2, t), k, codes);
  }

  /** The groups are those of the segmentation of the merged mask. */
  ghost predicate Analyzed(m: seq<bool>, mergeGap: int, minOn: int, t: Timing, groups: seq<Group>)
    requires t.fps > 0.0
  {
    exists segs :: IsSegmentation(Merged(m, mergeGap), minOn, segs) && groups == GroupsFrom(segs, 0, 1, t)
  }

  /** The decoder's pipeline, from a raw mask to groups. */
  method Analyze(mask: array<bool>, mergeGap: int, minOn: int, t: Timing) returns (groups: seq<Group>)
    requires t.fps > 0.0
    ensures Analyzed(mask[..], mergeGap, minOn, t, groups)
  {
    var merged := MergeShortFalseRuns(mask, mergeGap);
    var segs := MaskToSegments(merged[..], minOn);
    groups := BuildStageGroups(segs, t);
  }

  /** Main result: whatever codes 0 to 31 a recording spells, the pipeline reports exactly those, in order,
      numbered from 1. The dark time between bursts and after the last pulse does not matter. */
  lemma RecordingIsDecoded(codes: seq<nat>, pulses: seq<Pulse>, lead: nat, mergeGap: int, minOn: int, t: Timing,
                           groups: seq<Group>)
    requires t.fps > 0.0 && SpellsAll(pulses, codes, t) && Distinct(pulses, mergeGap, minOn)
    requires Analyzed(Recording(lead, pulses), mergeGap, minOn, t, groups)
    ensures ReportsFrom(groups, 0, codes)
  {
    var m, places := Recording(lead, pulses), Places(lead, pulses);
    var segs :| IsSegmentation(Merged(m, mergeGap), minOn, segs) && groups == GroupsFrom(segs, 0, 1, t);
    assert AllLit(pulses);
    hide IsSegmentation, Merged, Recording, Places, SpellsAll, Spaced, ReportsFrom, GroupsFrom;
    RecordingSegments(lead, pulses, mergeGap, minOn);
    SegmentationIsUnique(m, minOn, segs, places, 0);
    PlacesAreSpaced(lead, pulses);
    BurstsAreGrouped(pulses, places, lead, 0, codes, t);
  }

  // ----- the sender

  /** Frame counts a sender uses: lit times of the three kinds of pulse, dark times within and between bursts. */
  datatype Durations = Durations(shortOn: nat, longOn: nat, syncOn: nat, gap: nat, pause: nat)

  function BitPulses(bits: string, d: Durations): (pulses: seq<Pulse>)
    ensures |pulses| == |bits|
  {
    seq(|bits|, i requires 0 <= i < |bits| =>
      Pulse(if bits[i] == '1' then d.longOn else d.shortOn, if i + 1 < |bits| then d.gap else d.pause))
  }

  /** One code as a burst: the sync pulse, then its five bits. */
  function Burst(code: nat, d: Durations): seq<Pulse> {
    [Pulse(d.syncOn, d.gap)] + BitPulses(Bits(code, 5), d)
  }

  function Send(codes: seq<nat>, d: Durations): seq<Pulse> {
    if codes == [] then [] else Burst(codes[0], d) + Send(codes[1..], d)
  }

  /** The sender's durations lie on the right sides of the receiver's thresholds. */
  predicate Fit(d: Durations, mergeGap: int, minOn: int, t: Timing)
    requires t.fps > 0.0
  {
    && t.sync.Finite? && t.bit.Finite?
    && t.sync.s <= Seconds(d.syncOn, t.fps) <= t.maxPulse
    && Seconds(d.shortOn, t.fps) <= t.bit.s < Seconds(d.longOn, t.fps)
    && Seconds(d.gap, t.fps) <= t.groupGap
    && 0 < d.shortOn && 0 < d.longOn && 0 < d.syncOn
    && minOn <= d.shortOn && minOn <= d.longOn && minOn <= d.syncOn
    && 0 < d.gap && mergeGap < d.gap && 0 < d.pause && mergeGap < d.pause
  }

  lemma FiveBits(code: nat)
    requires code < 32
    ensures |Bits(code, 5)| == 5
  {
    assert Pow2(5) == 32 by {
      assert Pow2(0) == 1 && Pow2(1) == 2 && Pow2(2) == 4 && Pow2(3) == 8 && Pow2(4) == 16;
    }
    BitsWidth(code, 5);
  }

  predicate PulseFits(p: Pulse, mergeGap: int, minOn: int) {
    0 < p.on && minOn <= p.on && 0 < p.off && mergeGap < p.off
  }

  lemma BurstSpells(code: nat, d: Durations, mergeGap: int, minOn: int, t: Timing)
    requires t.fps > 0.0 && Fit(d, mergeGap, minOn, t) && code < 32
    ensures Spells(Burst(code, d), code, t)
    ensures forall p :: p in Burst(code, d) ==> PulseFits(p, mergeGap, minOn)
  {
    FiveBits(code);
    var bits, burst := Bits(code, 5), Burst(code, d);
    forall j | 0 <= j < 5
      ensures burst[j + 1].on == if bits[j] == '1' then d.longOn else d.shortOn
    {
    }
  }

  lemma {:induction false} SendFits(codes: seq<nat>, d: Durations, mergeGap: int, minOn: int, t: Timing)
    requires t.fps > 0.0 && Fit(d, mergeGap, minOn, t)
    requires forall k :: 0 <= k < |codes| ==> codes[k] < 32
    ensures forall p :: p in Send(codes, d) ==> PulseFits(p, mergeGap, minOn)
  {
    if codes != [] {
      SendFits(codes[1..], d, mergeGap, minOn, t);
      BurstSpells(codes[0], d, mergeGap, minOn, t);
    }
  }

  lemma FittingPulsesAreDistinct(pulses: seq<Pulse>, mergeGap: int, minOn: int)
    requires forall p :: p in pulses ==> PulseFits(p, mergeGap, minOn)
    ensures Distinct(pulses, mergeGap, minOn)
  {
    assert forall k :: 0 <= k < |pulses| ==> PulseFits(pulses[k], mergeGap, minOn);
  }

  lemma {:induction false} SendSpells(codes: seq<nat>, d: Durations, mergeGap: int, minOn: int, t: Timing)
    requires t.fps > 0.0 && Fit(d, mergeGap, minOn, t)
    requires forall k :: 0 <= k < |codes| ==> codes[k] < 32
    ensures SpellsAll(Send(codes, d), codes, t)
  {
    if codes != [] {
      var first, more := Burst(codes[0], d), Send(codes[1..], d);
      SendSpells(codes[1..], d, mergeGap, minOn, t);
      BurstSpells(codes[0], d, mergeGap, minOn, t);
      forall k | 0 <= k < |codes|
        ensures Spells((first + more)[6 * k..6 * k + 6], codes[k], t)
      {
        if k == 0 {
          assert (first + more)[0..6] == first;
        } else {
          var j := k - 1;
          assert (first + more)[6 * k..6 * k + 6] == more[6 * j..6 * j + 6];
        }
      }
    }
  }

  /** Round trip: what a sender with fitting durations sends is what the pipeline reports. */
  lemma {:induction false} SentIsReceived(codes: seq<nat>, d: Durations, lead: nat, mergeGap: int, minOn: int,
                                          t: Timing, groups: seq<Group>)
    requires t.fps > 0.0 && Fit(d, mergeGap, minOn, t)
    requires forall k :: 0 <= k < |codes| ==> codes[k] < 32
    requires Analyzed(Recording(lead, Send(codes, d)), mergeGap, minOn, t, groups)
    ensures |groups| == |codes| && forall k :: 0 <= k < |codes| ==> Reports(groups[k], k + 1, codes[k])
  {
    SendSpells(codes, d, mergeGap, minOn, t);
    SendFits(codes, d, mergeGap, minOn, t);
    FittingPulsesAreDistinct(Send(codes, d), mergeGap, minOn);
    RecordingIsDecoded(codes, Send(codes, d), lead, mergeGap, minOn, t, groups);
  }

  /** The whole channel: the recording of what is sent, analyzed, gives the codes back. */
  method SendAndAnalyze(codes: seq<nat>, d: Durations, lead: nat, mergeGap: int, minOn: int, t: Timing)
    returns (groups: seq<Group>)
    requires t.fps > 0.0 && Fit(d, mergeGap, minOn, t)
    requires forall k :: 0 <= k < |codes| ==> codes[k] < 32
    ensures |groups| == |codes| && forall k :: 0 <= k < |codes| ==> Reports(groups[k], k + 1, codes[k])
  {
    hide *;
    var m := Recording(lead, Send(codes, d));
    var mask := new bool[|m|](i requires 0 <= i < |m| => m[i]);
    assert mask[..] == m;
    groups := Analyze(mask, mergeGap, minOn, t);
    SentIsReceived(codes, d, lead, mergeGap, minOn, t, groups);
  }
}
