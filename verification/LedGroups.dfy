// The pulse protocol of the activity LED: one sync pulse, then five pulses that spell a stage code,
// most significant bit first, a long pulse for 1 and a short one for 0.

module LedGroups {
  import opened LedMask

  // ----- code bits

  function Digit(bit: nat): char {
    if bit == 0 then '0' else '1'
  }

  /** Binary digits without leading zeros. */
  function Binary(n: nat): (s: string)
    ensures |s| > 0
  {
    if n < 2 then [Digit(n)] else Binary(n / 2) + [Digit(n % 2)]
  }

  function Zeros(n: nat): (s: string)
    ensures |s| == n
  {
    if n == 0 then "" else "0" + Zeros(n - 1)
  }

  /** The digits of a stage code, padded to a width; nothing for a layout without code bits. */
  function Bits(code: nat, width: int): string {
    if width <= 0 then ""
    else
      var s := Binary(code);
      if |s| >= width then s else Zeros(width - |s|) + s
  }

  /** The number a string of binary digits denotes. */
  function ParseBits(s: string): nat {
    if s == "" then 0 else 2 * ParseBits(s[..|s| - 1]) + (if s[|s| - 1] == '1' then 1 else 0)
  }

  function Pow2(n: nat): (p: nat)
    ensures p > 0
  {
    if n == 0 then 1 else 2 * Pow2(n - 1)
  }

  predicate BinaryDigits(s: string) {
    forall i :: 0 <= i < |s| ==> s[i] == '0' || s[i] == '1'
  }

  lemma {:induction false} ParseOfBinary(n: nat)
    ensures ParseBits(Binary(n)) == n && BinaryDigits(Binary(n))
  {
    if n < 2 {
      assert [Digit(n)][..0] == "";
    } else {
      ParseOfBinary(n / 2);
      assert Binary(n)[..|Binary(n)| - 1] == Binary(n / 2);
    }
  }

  lemma {:induction false} ParseOfPadded(zeros: nat, s: string)
    ensures ParseBits(Zeros(zeros) + s) == ParseBits(s)
    ensures BinaryDigits(s) ==> BinaryDigits(Zeros(zeros) + s)
    decreases zeros, |s|
  {
    if zeros == 0 {
      assert Zeros(0) + s == s;
    } else {
      ParseOfPadded(zeros - 1, s);
      ParseOfLeadingZero(Zeros(zeros - 1) + s);
      assert Zeros(zeros) + s == "0" + (Zeros(zeros - 1) + s);
    }
  }

  lemma {:induction false} ParseOfLeadingZero(s: string)
    ensures ParseBits("0" + s) == ParseBits(s)
  {
    var z := "0" + s;
    if s == "" {
      assert z[..0] == "";
    } else {
      ParseOfLeadingZero(s[..|s| - 1]);
      assert z[..|z| - 1] == "0" + s[..|s| - 1];
    }
  }

  /** Reading the printed digits gives the code back, at every positive width. */
  lemma ParseOfBits(code: nat, width: int)
    requires width > 0
    ensures ParseBits(Bits(code, width)) == code && BinaryDigits(Bits(code, width))
  {
    ParseOfBinary(code);
    ParseOfPadded(if |Binary(code)| >= width then 0 else width - |Binary(code)|, Binary(code));
  }

  lemma {:induction false} BinaryLength(code: nat, width: nat)
    requires width > 0
    ensures code < Pow2(width) <==> |Binary(code)| <= width
  {
    if code >= 2 && width > 1 {
      BinaryLength(code / 2, width - 1);
    } else if width > 1 {
      assert Pow2(width) >= 2 by {
        assert Pow2(width - 1) >= 1;
      }
    } else {
      assert Pow2(1) == 2 by {
        assert Pow2(0) == 1;
      }
    }
  }

  /** A code has exactly width digits if and only if it fits. */
  lemma {:induction false} BitsWidth(code: nat, width: int)
    requires width > 0
    ensures |Bits(code, width)| == width <==> code < Pow2(width)
  {
    BinaryLength(code, width);
  }

  // ----- grouping

  /** A threshold in seconds as computed upstream: a number, or the NaN that stands for "too little data". */
  datatype Secs = Finite(s: real) | NonFinite

  datatype Timing = Timing(fps: real, sync: Secs, groupGap: real, maxPulse: real, bit: Secs)

  datatype Decode = NoDecode | Invalid | Decoded(bits: string, code: nat)

  datatype Group = Group(index: nat, pulses: seq<Segment>, startS: real, endS: real, decode: Decode, complete: bool)

  function Seconds(frames: int, fps: real): real
    requires fps > 0.0
  {
    frames as real / fps
  }

  predicate IsSync(seg: Segment, t: Timing)
    requires t.fps > 0.0
  {
    t.sync.Finite? && t.sync.s <= Seconds(seg.Frames(), t.fps) <= t.maxPulse
  }

  /** The dark time between two pulses is short enough for one burst. */
  predicate SameBurst(prev: Segment, next: Segment, t: Timing)
    requires t.fps > 0.0
  {
    Seconds(next.start - prev.end - 1, t.fps) <= t.groupGap
  }

  function BitOf(seg: Segment, t: Timing): char
    requires t.fps > 0.0 && t.bit.Finite?
  {
    if Seconds(seg.Frames(), t.fps) > t.bit.s then '1' else '0'
  }

  function BitString(segs: seq<Segment>, t: Timing): (s: string)
    requires t.fps > 0.0 && t.bit.Finite?
  {
    if segs == [] then "" else BitString(segs[..|segs| - 1], t) + [BitOf(segs[|segs| - 1], t)]
  }

  function DecodeOf(pulses: seq<Segment>, t: Timing): Decode
    requires t.fps > 0.0
  {
    if |pulses| == 6 && t.bit.Finite? then
      var bits := BitString(pulses[1..6], t);
      Decoded(bits, ParseBits(bits))
    else if |pulses| >= 2 then Invalid
    else NoDecode
  }

  /** The record of one burst. A burst that a long gap cut off has fewer than six pulses, so six pulses make it
      complete. */
  function GroupOf(index: nat, pulses: seq<Segment>, t: Timing): Group
    requires t.fps > 0.0 && pulses != []
  {
    Group(index, pulses, Seconds(pulses[0].start, t.fps), Seconds(pulses[|pulses| - 1].end + 1, t.fps),
          DecodeOf(pulses, t), |pulses| == 6)
  }

  /** Where a burst that began at segment i ends: after six pulses, before a long gap, or with the data. */
  function BurstEnd(segs: seq<Segment>, i: nat, j: nat, t: Timing): (end: nat)
    requires t.fps > 0.0 && i < j <= |segs|
    ensures j <= end <= |segs|
    decreases |segs| - j
  {
    if j < |segs| && j - i < 6 && SameBurst(segs[j - 1], segs[j], t) then BurstEnd(segs, i, j + 1, t) else j
  }

  function GroupsFrom(segs: seq<Segment>, i: nat, index: nat, t: Timing): seq<Group>
    requires t.fps > 0.0
    decreases |segs| - i
  {
    if i >= |segs| then []
    else if !IsSync(segs[i], t) then GroupsFrom(segs, i + 1, index, t)
    else
      var end := BurstEnd(segs, i, i + 1, t);
      [GroupOf(index, segs[i..end], t)] + GroupsFrom(segs, end, index + 1, t)
  }

  method BuildStageGroups(segs: seq<Segment>, t: Timing) returns (groups: seq<Group>)
    requires t.fps > 0.0
    ensures groups == GroupsFrom(segs, 0, 1, t)
  {
    groups := [];
    var i, index := 0, 1;
    while i < |segs|
      invariant 0 <= i && 0 < index
      invariant groups + GroupsFrom(segs, i, index, t) == GroupsFrom(segs, 0, 1, t)
      decreases |segs| - i
    {
      GroupsStep(segs, i, index, t, groups);
      var pulse := segs[i];
      var pulseS := Seconds(pulse.Frames(), t.fps);
      if !t.sync.Finite? || pulseS < t.sync.s || pulseS > t.maxPulse {
        i := i + 1;
        continue;
      }
      var pulses, j, valid := TakePulses(segs, i, t);
      var decode := NoDecode;
      if |pulses| == 6 && t.bit.Finite? {
        var bits := ReadBits(pulses[1..6], t);
        decode := Decoded(bits, ParseBits(bits));
      } else if |pulses| >= 2 {
        decode := Invalid;
      }
      var group := Group(index, pulses, Seconds(pulses[0].start, t.fps), Seconds(pulses[|pulses| - 1].end + 1, t.fps),
                         decode, valid && |pulses| == 6);
      assert group == GroupOf(index, segs[i..j], t);
      groups := groups + [group];
      index := index + 1;
      i := if j < i + 1 then i + 1 else j;
    }
  }

  lemma GroupsStep(segs: seq<Segment>, i: nat, index: nat, t: Timing, groups: seq<Group>)
    requires t.fps > 0.0 && i < |segs|
    ensures !IsSync(segs[i], t) ==> GroupsFrom(segs, i, index, t) == GroupsFrom(segs, i + 1, index, t)
    ensures var end := BurstEnd(segs, i, i + 1, t);
            IsSync(segs[i], t) ==>
              groups + GroupsFrom(segs, i, index, t) ==
                groups + [GroupOf(index, segs[i..end], t)] + GroupsFrom(segs, end, index + 1, t)
  {
    if IsSync(segs[i], t) {
      var end := BurstEnd(segs, i, i + 1, t);
      var group, later := GroupOf(index, segs[i..end], t), GroupsFrom(segs, end, index + 1, t);
      hide *;
      assert groups + ([group] + later) == groups + [group] + later;
    }
  }

  /** Collects the pulses of one burst. */
  method TakePulses(segs: seq<Segment>, i: nat, t: Timing) returns (pulses: seq<Segment>, j: nat, valid: bool)
    requires t.fps > 0.0 && i < |segs|
    ensures j == BurstEnd(segs, i, i + 1, t) && pulses == segs[i..j]
    ensures !valid ==> |pulses| < 6
  {
    pulses, j, valid := [segs[i]], i + 1, true;
    while j < |segs| && |pulses| < 6
      invariant i < j <= |segs| && pulses == segs[i..j] && valid
      invariant BurstEnd(segs, i, j, t) == BurstEnd(segs, i, i + 1, t)
      decreases |segs| - j
    {
      var prev := pulses[|pulses| - 1];
      var gapS := Seconds(segs[j].start - prev.end - 1, t.fps);
      if gapS > t.groupGap {
        valid := false;
        break;
      }
      pulses := pulses + [segs[j]];
      j := j + 1;
    }
  }

  method ReadBits(segs: seq<Segment>, t: Timing) returns (bits: string)
    requires t.fps > 0.0 && t.bit.Finite?
    ensures bits == BitString(segs, t)
  {
    bits := "";
    for k := 0 to |segs|
      invariant bits == BitString(segs[..k], t)
    {
      assert segs[..k + 1][..k] == segs[..k];
      bits := bits + [if Seconds(segs[k].Frames(), t.fps) > t.bit.s then '1' else '0'];
    }
    assert segs[..|segs|] == segs;
  }
}
