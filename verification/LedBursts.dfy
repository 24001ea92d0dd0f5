// What the grouping of pulses yields on any recording, well formed or not: which segments open a group, where it ends,
// and what is reported about it.

module LedBursts {
  import opened LedMask
  import opened LedGroups

  /** A pulse of this length opens a group: not shorter than the sync threshold, not longer than a pulse can be. */
  predicate Opens(seg: Segment, t: Timing)
    requires t.fps > 0.0
  {
    t.sync.Finite? && t.sync.s <= (seg.end - seg.start + 1) as real / t.fps <= t.maxPulse
  }

  /** The dark time between two pulses cuts a burst. */
  predicate Cuts(prev: Segment, next: Segment, t: Timing)
    requires t.fps > 0.0
  {
    (next.start - prev.end - 1) as real / t.fps > t.groupGap
  }

  function Weight(seg: Segment, t: Timing, w: nat): nat
    requires t.fps > 0.0 && t.bit.Finite?
  {
    if (seg.end - seg.start + 1) as real / t.fps > t.bit.s then w else 0
  }

  /** What is reported about a burst: complete and decoded with six pulses, invalid with two to five, nothing with one.
      */
  ghost predicate IsReport(g: Group, pulses: seq<Segment>, t: Timing)
    requires t.fps > 0.0
  {
    && g.pulses == pulses && 1 <= |pulses| <= 6
    && g.startS == pulses[0].start as real / t.fps
    && g.endS == (pulses[|pulses| - 1].end + 1) as real / t.fps
    && (g.complete <==> |pulses| == 6)
    && (if |pulses| == 1 then g.decode == NoDecode
        else if |pulses| < 6 || t.bit.NonFinite? then g.decode == Invalid
        else g.decode.Decoded? && IsDecoding(g.decode.bits, g.decode.code, pulses, t))
  }

  /** The five pulses behind the sync pulse, most significant first. */
  ghost predicate IsDecoding(bits: string, code: nat, pulses: seq<Segment>, t: Timing)
    requires t.fps > 0.0 && t.bit.Finite? && |pulses| == 6
  {
    && |bits| == 5
    && (forall j :: 0 <= j < 5 ==> bits[j] == if Weight(pulses[j + 1], t, 1) == 1 then '1' else '0')
    && code == Weight(pulses[1], t, 16) + Weight(pulses[2], t, 8) + Weight(pulses[3], t, 4) + Weight(pulses[4], t, 2)
               + Weight(pulses[5], t, 1)
  }

  /** Segments a to b are one burst: opened by the first one, not cut inside, and ended by the sixth pulse, a long gap,
      or the end of the data. */
  ghost predicate IsBurst(segs: seq<Segment>, a: nat, b: nat, t: Timing)
    requires t.fps > 0.0
  {
    && a < b <= |segs| && b <= a + 6
    && Opens(segs[a], t)
    && (forall k :: a < k < b ==> !Cuts(segs[k - 1], segs[k], t))
    && (b == a + 6 || b == |segs| || Cuts(segs[b - 1], segs[b], t))
  }

  /** The groups, numbered on from index, are the bursts that begin at the given segments; nothing between them, nor
      behind them, could have opened a group. */
  ghost predicate IsGrouping(segs: seq<Segment>, i: nat, index: nat, groups: seq<Group>, at: seq<nat>, t: Timing)
    requires t.fps > 0.0
    decreases |groups|
  {
    && |at| == |groups|
    && if groups == [] then forall k :: i <= k < |segs| ==> !Opens(segs[k], t)
       else
         var a, b := at[0], at[0] + |groups[0].pulses|;
         && i <= a && IsBurst(segs, a, b, t)
         && (forall k :: i <= k < a ==> !Opens(segs[k], t))
         && groups[0].index == index && IsReport(groups[0], segs[a..b], t)
         && IsGrouping(segs, b, index + 1, groups[1..], at[1..], t)
  }

  lemma {:induction false} EndOfBurst(segs: seq<Segment>, i: nat, j: nat, t: Timing)
    requires t.fps > 0.0 && i < j <= |segs| && j <= i + 6
    requires forall k :: i < k < j ==> !Cuts(segs[k - 1], segs[k], t)
    ensures var b := BurstEnd(segs, i, j, t);
            && b <= i + 6
            && (forall k :: i < k < b ==> !Cuts(segs[k - 1], segs[k], t))
            && (b == i + 6 || b == |segs| || Cuts(segs[b - 1], segs[b], t))
    decreases |segs| - j
  {
    if j < |segs| && j - i < 6 && SameBurst(segs[j - 1], segs[j], t) {
      EndOfBurst(segs, i, j + 1, t);
    }
  }

  lemma {:induction false} FiveBitsRead(pulses: seq<Segment>, t: Timing)
    requires t.fps > 0.0 && t.bit.Finite? && |pulses| == 6
    ensures var bits := BitString(pulses[1..6], t); IsDecoding(bits, ParseBits(bits), pulses, t)
  {
    hide BitString, ParseBits, Weight;
    var s := pulses[1..6];
    NoBits(s, t);
    BitStep(s, 1, t);
    BitStep(s, 2, t);
    BitStep(s, 3, t);
    BitStep(s, 4, t);
    BitStep(s, 5, t);
    assert s[..5] == s;
    assert s[0] == pulses[1] && s[1] == pulses[2] && s[2] == pulses[3] && s[3] == pulses[4] && s[4] == pulses[5];
    WeightsAreMultiples(t);
    assert |BitString(s[..4], t)| == 4;
  }

  lemma {:induction false} NoBits(s: seq<Segment>, t: Timing)
    requires t.fps > 0.0 && t.bit.Finite?
    ensures BitString(s[..0], t) == "" && ParseBits(BitString(s[..0], t)) == 0
  {
  }

  lemma WeightsAreMultiples(t: Timing)
    requires t.fps > 0.0 && t.bit.Finite?
    ensures forall seg, w: nat :: Weight(seg, t, w) == w * Weight(seg, t, 1)
  {
  }

  lemma {:induction false} BitStep(s: seq<Segment>, k: nat, t: Timing)
    requires t.fps > 0.0 && t.bit.Finite? && 0 < k <= |s|
    ensures var bit := if Weight(s[k - 1], t, 1) == 1 then '1' else '0';
            && BitString(s[..k], t) == BitString(s[..k - 1], t) + [bit]
            && ParseBits(BitString(s[..k], t)) == 2 * ParseBits(BitString(s[..k - 1], t)) + Weight(s[k - 1], t, 1)
  {
    assert s[..k][..k - 1] == s[..k - 1];
    var before, bit := BitString(s[..k - 1], t), BitOf(s[k - 1], t);
    assert (before + [bit])[..|before|] == before;
  }

  lemma ReportIs(segs: seq<Segment>, a: nat, b: nat, index: nat, t: Timing)
    requires t.fps > 0.0 && a < b <= |segs| && b <= a + 6
    ensures GroupOf(index, segs[a..b], t).index == index && IsReport(GroupOf(index, segs[a..b], t), segs[a..b], t)
  {
    hide IsDecoding, ParseBits, BitString;
    var pulses := segs[a..b];
    if |pulses| == 6 && t.bit.Finite? {
      FiveBitsRead(pulses, t);
    }
  }

  /** Main result: on every list of segments the groups are exactly its bursts, each with its report. */
  lemma {:induction false} GroupsAreBursts(segs: seq<Segment>, i: nat, index: nat, t: Timing) returns (at: seq<nat>)
    requires t.fps > 0.0
    ensures IsGrouping(segs, i, index, GroupsFrom(segs, i, index, t), at, t)
    decreases |segs| - i
  {
    if i >= |segs| {
      at := [];
    } else if !IsSync(segs[i], t) {
      at := GroupsAreBursts(segs, i + 1, index, t);
      Skipped(segs, i, index, GroupsFrom(segs, i + 1, index, t), at, t);
    } else {
      var b := BurstEnd(segs, i, i + 1, t);
      EndOfBurst(segs, i, i + 1, t);
      ReportIs(segs, i, b, index, t);
      var more := GroupsAreBursts(segs, b, index + 1, t);
      at := [i] + more;
      OneMoreBurst(segs, i, b, index, GroupOf(index, segs[i..b], t), GroupsFrom(segs, b, index + 1, t), more, t);
    }
  }

  lemma Skipped(segs: seq<Segment>, i: nat, index: nat, groups: seq<Group>, at: seq<nat>, t: Timing)
    requires t.fps > 0.0 && i < |segs| && !Opens(segs[i], t) && IsGrouping(segs, i + 1, index, groups, at, t)
    ensures IsGrouping(segs, i, index, groups, at, t)
  {
    hide IsReport, IsBurst, Opens;
  }

  lemma {:induction false} OneMoreBurst(segs: seq<Segment>, i: nat, b: nat, index: nat, first: Group,
                                        later: seq<Group>, at: seq<nat>, t: Timing)
    requires t.fps > 0.0 && IsBurst(segs, i, b, t) && first.index == index && IsReport(first, segs[i..b], t)
    requires IsGrouping(segs, b, index + 1, later, at, t)
    ensures IsGrouping(segs, i, index, [first] + later, [i] + at, t)
  {
    hide Opens;
    assert ([first] + later)[1..] == later && ([i] + at)[1..] == at;
    assert |first.pulses| == b - i;
  }
}
