// The byte stream format of section B.2 of ITU-T H.265: the writer used by the MP4 demuxer
// and the NAL splitter of the header generators, which turn out to be inverse to each other
// on exactly the NAL lists described by Separable.

module AnnexB {
  import opened Bytes

  type Nal = seq<byte>

  const START_CODE: seq<byte> := [0, 0, 0, 1]

  /** The byte stream of a list of NALs: each one behind a 4-byte start code. */
  function Render(nals: seq<Nal>): seq<byte> {
    if nals == [] then [] else START_CODE + nals[0] + Render(nals[1..])
  }

  lemma {:induction false} RenderAppend(a: seq<Nal>, b: seq<Nal>)
    ensures Render(a + b) == Render(a) + Render(b)
  {
    if a == [] {
      assert a + b == b;
    } else {
      RenderAppend(a[1..], b);
      assert (a + b)[1..] == a[1..] + b;
      assert Render(a + b) == START_CODE + a[0] + Render(a[1..] + b);
      assert START_CODE + a[0] + (Render(a[1..]) + Render(b)) == START_CODE + a[0] + Render(a[1..]) + Render(b);
    }
  }

  /** Total payload of a NAL list, without start codes or length fields. */
  function Payload(nals: seq<Nal>): nat {
    if nals == [] then 0 else |nals[0]| + Payload(nals[1..])
  }

  lemma {:induction false} RenderLength(nals: seq<Nal>)
    ensures |Render(nals)| == Payload(nals) + 4 * |nals|
  {
    if nals != [] {
      RenderLength(nals[1..]);
    }
  }

  // ----- the splitter

  predicate Code4(d: seq<byte>, i: nat) {
    i + 4 <= |d| && d[i] == 0 && d[i + 1] == 0 && d[i + 2] == 0 && d[i + 3] == 1
  }

  predicate Code3(d: seq<byte>, i: nat) {
    i + 3 <= |d| && d[i] == 0 && d[i + 1] == 0 && d[i + 2] == 1
  }

  /** Length of the start code at i, the 4-byte form tried first; 0 if there is none. */
  function CodeLength(d: seq<byte>, i: nat): (sc: nat)
    ensures sc > 0 ==> 3 <= sc && i + sc <= |d| && d[i + sc - 1] == 1
  {
    if Code4(d, i) then 4 else if Code3(d, i) then 3 else 0
  }

  /** Positions that follow a start code: each behind a byte 1, at least 3 apart. */
  predicate AreStarts(d: seq<byte>, starts: seq<nat>) {
    && (forall k :: 0 <= k < |starts| ==> 3 <= starts[k] <= |d| && d[starts[k] - 1] == 1)
    && (forall j, k :: 0 <= j < k < |starts| ==> starts[j] + 3 <= starts[k])
  }

  /** The payload positions the splitter finds when it scans from i on. */
  function Starts(d: seq<byte>, i: nat): seq<nat>
    decreases |d| - i
  {
    if i + 3 >= |d| then []
    else
      var sc := CodeLength(d, i);
      if sc > 0 then [i + sc] + Starts(d, i + sc) else Starts(d, i + 1)
  }

  lemma OneMoreStart(d: seq<byte>, s: nat, rest: seq<nat>)
    requires AreStarts(d, rest) && forall k :: 0 <= k < |rest| ==> s + 3 <= rest[k]
    requires 3 <= s <= |d| && d[s - 1] == 1
    ensures AreStarts(d, [s] + rest)
  {
    var starts := [s] + rest;
    assert forall k :: 0 < k < |starts| ==> starts[k] == rest[k - 1];
  }

  lemma NoStarts(d: seq<byte>)
    ensures AreStarts(d, [])
  {
  }

  lemma {:induction false} StartsAreStarts(d: seq<byte>, i: nat)
    ensures AreStarts(d, Starts(d, i))
    ensures forall k :: 0 <= k < |Starts(d, i)| ==> i + 3 <= Starts(d, i)[k]
    decreases |d| - i
  {
    hide AreStarts;
    if i + 3 >= |d| {
      NoStarts(d);
    } else {
      var sc := CodeLength(d, i);
      if sc > 0 {
        StartsAreStarts(d, i + sc);
        OneMoreStart(d, i + sc, Starts(d, i + sc));
      } else {
        StartsAreStarts(d, i + 1);
      }
    }
  }

  /** Where the k-th NAL ends: before the next start code, or at the end of the data. */
  function NalEnd(d: seq<byte>, starts: seq<nat>, k: nat): (end: nat)
    requires k < |starts| && AreStarts(d, starts)
    ensures starts[k] <= end <= |d|
  {
    if k + 1 < |starts| then
      var ns := starts[k + 1];
      assert starts[k] + 3 <= ns;
      if d[ns - 4] != 0 then ns - 3 else ns - 4
    else |d|
  }

  function Slices(d: seq<byte>, starts: seq<nat>): (nals: seq<Nal>)
    requires AreStarts(d, starts)
    ensures |nals| == |starts|
  {
    if starts == [] then [] else [d[starts[0]..NalEnd(d, starts, 0)]] + Slices(d, starts[1..])
  }

  /** The NALs of a scan from i on. */
  function SplitFrom(d: seq<byte>, i: nat): seq<Nal> {
    StartsAreStarts(d, i);
    Slices(d, Starts(d, i))
  }

  function Split(d: seq<byte>): seq<Nal> {
    SplitFrom(d, 0)
  }

  lemma StartsStep(d: seq<byte>, i: nat, before: seq<nat>)
    ensures i + 3 >= |d| ==> before + Starts(d, i) == before
    ensures i + 3 < |d| && CodeLength(d, i) == 0 ==> before + Starts(d, i) == before + Starts(d, i + 1)
    ensures i + 3 < |d| && CodeLength(d, i) > 0 ==>
              var s := i + CodeLength(d, i); before + Starts(d, i) == before + [s] + Starts(d, s)
  {
    if i + 3 < |d| && CodeLength(d, i) > 0 {
      var s := i + CodeLength(d, i);
      assert before + ([s] + Starts(d, s)) == before + [s] + Starts(d, s);
    }
  }

  method FindStarts(d: seq<byte>) returns (starts: seq<nat>)
    ensures starts == Starts(d, 0)
  {
    hide Starts, Code4, Code3;
    starts := [];
    var i := 0;
    while i < |d| - 3
      invariant 0 <= i
      invariant Starts(d, 0) == starts + Starts(d, i)
      decreases |d| - i
    {
      CodesAsSlices(d, i);
      StartsStep(d, i, starts);
      var sc;
      if d[i..i + 4] == [0, 0, 0, 1] {
        sc := 4;
      } else if d[i..i + 3] == [0, 0, 1] {
        sc := 3;
      } else {
        i := i + 1;
        continue;
      }
      var s := i + sc;
      starts := starts + [s];
      i := s;
    }
    StartsStep(d, i, starts);
  }

  lemma CodesAsSlices(d: seq<byte>, i: nat)
    requires i + 4 <= |d|
    ensures Code4(d, i) <==> d[i..i + 4] == [0, 0, 0, 1]
    ensures Code3(d, i) <==> d[i..i + 3] == [0, 0, 1]
  {
    var four, three := d[i..i + 4], d[i..i + 3];
    assert four[0] == d[i] && four[1] == d[i + 1] && four[2] == d[i + 2] && four[3] == d[i + 3];
    assert three[0] == d[i] && three[1] == d[i + 1] && three[2] == d[i + 2];
  }

  /** The NALs of a splitter's table, in the order of their start positions. */
  function InOrder(starts: seq<nat>, nalBytes: map<nat, Nal>): seq<Nal>
    requires forall s :: s in starts ==> s in nalBytes
  {
    if starts == [] then [] else [nalBytes[starts[0]]] + InOrder(starts[1..], nalBytes)
  }

  /** Fills the table from payload offset to NAL bytes. */
  method SplitNals(d: seq<byte>) returns (starts: seq<nat>, nalBytes: map<nat, Nal>)
    ensures starts == Starts(d, 0)
    ensures forall s :: s in nalBytes <==> s in starts
    ensures InOrder(starts, nalBytes) == Split(d)
  {
    starts := FindStarts(d);
    StartsAreStarts(d, 0);
    nalBytes := CutNals(d, starts);
  }

  method CutNals(d: seq<byte>, starts: seq<nat>) returns (nalBytes: map<nat, Nal>)
    requires AreStarts(d, starts)
    ensures forall s :: s in nalBytes <==> s in starts
    ensures InOrder(starts, nalBytes) == Slices(d, starts)
  {
    nalBytes := map[];
    for k := 0 to |starts|
      invariant forall s :: s in nalBytes ==> s in starts
      invariant forall j :: 0 <= j < k ==>
                  starts[j] in nalBytes && nalBytes[starts[j]] == d[starts[j]..NalEnd(d, starts, j)]
    {
      nalBytes := nalBytes[starts[k] := d[starts[k]..NalEnd(d, starts, k)]];
    }
    TableIsSlices(d, starts, nalBytes);
  }

  lemma {:induction false} TableIsSlices(d: seq<byte>, starts: seq<nat>, nalBytes: map<nat, Nal>)
    requires AreStarts(d, starts)
    requires forall j :: 0 <= j < |starts| ==>
               starts[j] in nalBytes && nalBytes[starts[j]] == d[starts[j]..NalEnd(d, starts, j)]
    ensures InOrder(starts, nalBytes) == Slices(d, starts)
  {
    if starts != [] {
      var rest := starts[1..];
      AreStartsTail(d, starts);
      forall j | 0 <= j < |rest|
        ensures rest[j] in nalBytes && nalBytes[rest[j]] == d[rest[j]..NalEnd(d, rest, j)]
      {
        assert rest[j] == starts[j + 1];
        assert NalEnd(d, rest, j) == NalEnd(d, starts, j + 1);
      }
      TableIsSlices(d, rest, nalBytes);
    }
  }

  lemma AreStartsTail(d: seq<byte>, starts: seq<nat>)
    requires starts != [] && AreStarts(d, starts)
    ensures AreStarts(d, starts[1..])
  {
    assert forall k :: 0 <= k < |starts[1..]| ==> starts[1..][k] == starts[k + 1];
  }

  // ----- round trip

  /** No start code begins and ends inside the NAL. */
  predicate Clean(n: Nal) {
    forall p :: 0 <= p && p + 3 <= |n| ==> !Code3(n, p)
  }

  /** The same for the last NAL of a stream, where the scan stops 3 bytes before the end. */
  predicate CleanLast(n: Nal) {
    forall p :: 0 <= p && p + 3 < |n| ==> !Code3(n, p) && !Code4(n, p)
  }

  predicate Separable(nals: seq<Nal>) {
    && (forall k :: 0 <= k < |nals| - 1 ==> Clean(nals[k]))
    && (nals != [] ==> CleanLast(nals[|nals| - 1]))
  }

  /** A 4-byte or a 3-byte start code. */
  function StartCode(long: bool): (code: seq<byte>)
    ensures |code| == if long then 4 else 3
  {
    if long then [0, 0, 0, 1] else [0, 0, 1]
  }

  /** A byte stream whose writer chooses the length of each start code. */
  function RenderWith(nals: seq<Nal>, long: seq<bool>): seq<byte>
    requires |long| == |nals|
  {
    if nals == [] then [] else StartCode(long[0]) + nals[0] + RenderWith(nals[1..], long[1..])
  }

  /** What the splitter can take apart. A zero byte at the end of a NAL is taken for part of a 3-byte code behind it,
      and a 3-byte code at the very end is overlooked. */
  predicate SeparableWith(nals: seq<Nal>, long: seq<bool>)
    requires |long| == |nals|
  {
    && (forall k :: 0 <= k < |nals| - 1 ==> Clean(nals[k]) && (long[k + 1] || !EndsInZero(nals[k])))
    && (nals != [] ==>
          var last := |nals| - 1;
          CleanLast(nals[last]) && (long[last] || nals[last] != []))
  }

  predicate EndsInZero(n: Nal) {
    n != [] && n[|n| - 1] == 0
  }

  /** A start code of either length at i. */
  predicate CodeIs(d: seq<byte>, i: nat, long: bool) {
    if long then Code4(d, i) else Code3(d, i)
  }

  // ----- scans

  /** A scan passes over what holds no code. */
  lemma {:induction false} QuietScan(d: seq<byte>, i: nat, e: nat)
    requires i <= e && e + 3 <= |d| && forall p :: i <= p < e ==> CodeLength(d, p) == 0
    ensures Starts(d, i) == Starts(d, e)
    decreases e - i
  {
    if i < e {
      QuietScan(d, i + 1, e);
    }
  }

  /** A scan stops at the latest at a code on its way. */
  lemma {:induction false} CodeIsFound(d: seq<byte>, i: nat, p: nat)
    requires i <= p && p + 3 < |d| && CodeLength(d, p) > 0
    ensures Starts(d, i) != [] && Starts(d, i)[0] <= p + 4
    decreases p - i
  {
    if CodeLength(d, i) == 0 {
      CodeIsFound(d, i + 1, p);
    }
  }

  /** A scan from i to the end of the data finds nothing exactly if there is no code to find. */
  lemma {:induction false} ScanToEnd(d: seq<byte>, i: nat)
    ensures Starts(d, i) == [] <==> forall p :: i <= p && p + 3 < |d| ==> !Code3(d, p) && !Code4(d, p)
    decreases |d| - i
  {
    if i + 3 < |d| && !Code4(d, i) && !Code3(d, i) {
      ScanToEnd(d, i + 1);
    }
  }

  lemma {:induction false} LastNalScan(d: seq<byte>, s: nat, n: Nal)
    requires s + |n| == |d| && d[s..] == n
    ensures CleanLast(n) <==> Starts(d, s) == []
  {
    ScanToEnd(d, s);
    assert forall q :: 0 <= q < |n| ==> n[q] == d[s + q];
    if CleanLast(n) {
      forall p | s <= p && p + 3 < |d|
        ensures !Code3(d, p) && !Code4(d, p)
      {
        assert !Code3(n, p - s) && !Code4(n, p - s);
      }
    }
    if Starts(d, s) == [] {
      forall p | 0 <= p && p + 3 < |n|
        ensures !Code3(n, p) && !Code4(n, p)
      {
        assert !Code3(d, s + p) && !Code4(d, s + p);
      }
    }
  }

  /** In a clean NAL in front of a code, nothing else is found before the code, unless a zero makes a short code long.
      */
  lemma NothingBefore(d: seq<byte>, s: nat, n: Nal, long: bool, p: nat)
    requires s + |n| <= |d| && d[s..s + |n|] == n && CodeIs(d, s + |n|, long)
    requires Clean(n) && (long || !EndsInZero(n)) && s <= p < s + |n|
    ensures CodeLength(d, p) == 0
  {
    var e := s + |n|;
    assert forall q :: 0 <= q < |n| ==> n[q] == d[s + q];
    if p + 3 <= e {
      assert !Code3(n, p - s);
    }
    if p + 4 <= e {
      assert !Code3(n, p + 1 - s);
    }
    assert n[|n| - 1] == d[e - 1];
  }

  // ----- one NAL

  /** Where a NAL at s ends when the scan behind it finds starts. */
  function EndOf(d: seq<byte>, starts: seq<nat>): int
    requires AreStarts(d, starts)
  {
    if starts == [] then |d|
    else
      var first: int := starts[0];
      if first >= 4 && d[first - 4] != 0 then first - 3 else first - 4
  }

  lemma {:induction false} SlicesStep(d: seq<byte>, s: nat, rest: seq<nat>)
    requires AreStarts(d, rest) && AreStarts(d, [s] + rest)
    ensures s <= EndOf(d, rest) <= |d|
    ensures Slices(d, [s] + rest) == [d[s..EndOf(d, rest)]] + Slices(d, rest)
  {
    var starts := [s] + rest;
    assert starts[1..] == rest;
    assert rest != [] ==> starts[0] + 3 <= starts[1];
    assert NalEnd(d, starts, 0) == EndOf(d, rest);
  }

  lemma {:induction false} SplitStep(d: seq<byte>, at: nat)
    requires at + 3 < |d| && CodeLength(d, at) > 0
    ensures var s := at + CodeLength(d, at);
            && AreStarts(d, Starts(d, s)) && s <= EndOf(d, Starts(d, s)) <= |d|
            && SplitFrom(d, at) == [d[s..EndOf(d, Starts(d, s))]] + SplitFrom(d, s)
  {
    hide AreStarts, EndOf, Slices, CodeLength;
    var s := at + CodeLength(d, at);
    StartsAreStarts(d, at);
    StartsAreStarts(d, s);
    SlicesStep(d, s, Starts(d, s));
  }

  lemma CodeInFront(pre: seq<byte>, long: bool, n: Nal, tail: seq<byte>)
    ensures var d, s := pre + StartCode(long) + n + tail, |pre| + |StartCode(long)|;
            CodeIs(d, |pre|, long) && d[s..s + |n|] == n
  {
    var code := StartCode(long);
    var d := pre + code + n + tail;
    assert forall i :: 0 <= i < |code| ==> d[|pre| + i] == code[i];
  }

  lemma {:induction false} RenderStep(nals: seq<Nal>, long: seq<bool>)
    requires nals != [] && |long| == |nals|
    ensures RenderWith(nals, long) == StartCode(long[0]) + nals[0] + RenderWith(nals[1..], long[1..])
    ensures |nals| == 1 ==> RenderWith(nals[1..], long[1..]) == []
  {
  }

  lemma {:induction false} RenderParts(pre: seq<byte>, nals: seq<Nal>, long: seq<bool>)
    requires nals != [] && |long| == |nals|
    ensures var d, s := pre + RenderWith(nals, long), |pre| + |StartCode(long[0])|;
            && CodeIs(d, |pre|, long[0])
            && s + |nals[0]| <= |d| && d[s..s + |nals[0]|] == nals[0]
            && d == pre + StartCode(long[0]) + nals[0] + RenderWith(nals[1..], long[1..])
            && (|nals| == 1 ==> |d| == s + |nals[0]|)
  {
    hide CodeIs, StartCode, RenderWith;
    RenderStep(nals, long);
    var tail := RenderWith(nals[1..], long[1..]);
    CodeInFront(pre, long[0], nals[0], tail);
    assert pre + (StartCode(long[0]) + nals[0] + tail) == pre + StartCode(long[0]) + nals[0] + tail;
  }

  lemma CodeIsRead(d: seq<byte>, i: nat, long: bool)
    requires CodeIs(d, i, long)
    ensures CodeLength(d, i) == |StartCode(long)| && i + |StartCode(long)| <= |d|
  {
  }

  lemma NalStep(d: seq<byte>, at: nat, long: bool, n: Nal, next: bool, rest: seq<Nal>)
    requires CodeIs(d, at, long)
    requires var s := at + |StartCode(long)|;
             s + |n| <= |d| && d[s..s + |n|] == n && CodeIs(d, s + |n|, next)
    requires rest != []
    ensures var e := at + |StartCode(long)| + |n|;
            SplitFrom(d, at) == [n] + rest <==>
            Clean(n) && (next || !EndsInZero(n)) && SplitFrom(d, e) == rest
  {
    hide Clean, EndsInZero, CodeLength, AreStarts, EndOf, SplitFrom, Starts, Code3, Code4;
    var s := at + |StartCode(long)|;
    var e := s + |n|;
    CodeIsRead(d, at, long);
    CodeIsRead(d, e, next);
    SplitStep(d, at);
    if Clean(n) && (next || !EndsInZero(n)) {
      CleanNalStep(d, s, n, next);
      if SplitFrom(d, e) == rest {
        CleanNalEnds(d, s, n, next);
      }
      HeadAndTail(d[s..EndOf(d, Starts(d, s))], SplitFrom(d, s), n, rest);
    } else {
      SpoiltNalEnds(d, s, n, next);
      HeadAndTail(d[s..EndOf(d, Starts(d, s))], SplitFrom(d, s), n, rest);
    }
  }

  lemma HeadAndTail(a: Nal, more: seq<Nal>, n: Nal, rest: seq<Nal>)
    ensures [a] + more == [n] + rest <==> a == n && more == rest
  {
    if [a] + more == [n] + rest {
      assert ([a] + more)[0] == ([n] + rest)[0];
      assert more == ([a] + more)[1..];
      assert rest == ([n] + rest)[1..];
    }
  }

  lemma CleanNalStep(d: seq<byte>, s: nat, n: Nal, next: bool)
    requires s + |n| <= |d| && d[s..s + |n|] == n && CodeIs(d, s + |n|, next)
    requires Clean(n) && (next || !EndsInZero(n))
    ensures Starts(d, s) == Starts(d, s + |n|) && SplitFrom(d, s) == SplitFrom(d, s + |n|)
  {
    forall p | s <= p < s + |n|
      ensures CodeLength(d, p) == 0
    {
      NothingBefore(d, s, n, next, p);
    }
    QuietScan(d, s, s + |n|);
  }

  /** A clean NAL is cut exactly at the code behind it. */
  lemma {:induction false} CleanNalEnds(d: seq<byte>, s: nat, n: Nal, next: bool)
    requires s + |n| <= |d| && d[s..s + |n|] == n && CodeIs(d, s + |n|, next) && s > 0 && d[s - 1] == 1
    requires Clean(n) && (next || !EndsInZero(n)) && SplitFrom(d, s + |n|) != []
    ensures AreStarts(d, Starts(d, s)) && EndOf(d, Starts(d, s)) == s + |n|
  {
    var e := s + |n|;
    CleanNalStep(d, s, n, next);
    StartsAreStarts(d, s);
    CodeIsRead(d, e, next);
    assert Starts(d, e) != [];
    assert Starts(d, e)[0] == e + |StartCode(next)|;
    assert n != [] ==> n[|n| - 1] == d[e - 1];
  }

  /** Any other NAL is cut too early. */
  lemma {:induction false} SpoiltNalEnds(d: seq<byte>, s: nat, n: Nal, next: bool)
    requires s + |n| <= |d| && d[s..s + |n|] == n && CodeIs(d, s + |n|, next)
    requires !Clean(n) || (!next && EndsInZero(n))
    ensures AreStarts(d, Starts(d, s)) && EndOf(d, Starts(d, s)) < s + |n|
  {
    var e := s + |n|;
    StartsAreStarts(d, s);
    assert forall q :: 0 <= q < |n| ==> n[q] == d[s + q];
    if !Clean(n) {
      var p :| 0 <= p && p + 3 <= |n| && Code3(n, p);
      assert Code3(d, s + p);
      CodeIsFound(d, s, s + p);
    } else {
      assert Code4(d, e - 1);
      CodeIsFound(d, s, e - 1);
    }
  }

  // ----- all NALs

  lemma {:induction false} NothingLeft(d: seq<byte>, s: nat)
    ensures SplitFrom(d, s) == [] <==> Starts(d, s) == []
    ensures Starts(d, s) == [] ==> AreStarts(d, Starts(d, s)) && EndOf(d, Starts(d, s)) == |d|
  {
    hide Starts;
  }

  lemma OverlookedCode(d: seq<byte>, at: nat)
    requires at + 3 >= |d|
    ensures SplitFrom(d, at) == []
  {
  }

  lemma LastNal(d: seq<byte>, at: nat, long: bool, n: Nal)
    requires CodeIs(d, at, long) && at + |StartCode(long)| + |n| == |d| && d[at + |StartCode(long)|..] == n
    ensures SplitFrom(d, at) == [n] <==> CleanLast(n) && (long || n != [])
  {
    hide CleanLast, Code3, Code4, EndOf, SplitFrom, Starts, AreStarts, CodeLength;
    if !long && n == [] {
      OverlookedCode(d, at);
    } else {
      var s := at + |StartCode(long)|;
      CodeIsRead(d, at, long);
      SplitStep(d, at);
      LastNalScan(d, s, n);
      NothingLeft(d, s);
      assert [n] == [n] + [] && d[s..|d|] == n;
      HeadAndTail(d[s..EndOf(d, Starts(d, s))], SplitFrom(d, s), n, []);
    }
  }

  lemma {:induction false} SplitOfRender(pre: seq<byte>, nals: seq<Nal>, long: seq<bool>)
    requires nals != [] && |long| == |nals|
    ensures SplitFrom(pre + RenderWith(nals, long), |pre|) == nals <==> SeparableWith(nals, long)
    decreases |nals|
  {
    hide SplitFrom, Clean, CleanLast, CodeIs, RenderWith, StartCode, EndsInZero, SeparableWith;
    var n, rest, more := nals[0], nals[1..], long[1..];
    var d := pre + RenderWith(nals, long);
    RenderParts(pre, nals, long);
    assert nals == [n] + rest;
    if rest == [] {
      LastNal(d, |pre|, long[0], n);
      OneSeparable(nals, long);
    } else {
      var pre' := pre + StartCode(long[0]) + n;
      RenderParts(pre', rest, more);
      NalStep(d, |pre|, long[0], n, more[0], rest);
      SplitOfRender(pre', rest, more);
      SeparableStep(nals, long);
    }
  }

  lemma OneSeparable(nals: seq<Nal>, long: seq<bool>)
    requires |nals| == |long| == 1
    ensures SeparableWith(nals, long) <==> CleanLast(nals[0]) && (long[0] || nals[0] != [])
  {
  }

  lemma SeparableStep(nals: seq<Nal>, long: seq<bool>)
    requires |nals| > 1 && |long| == |nals|
    ensures SeparableWith(nals, long) <==>
            Clean(nals[0]) && (long[1] || !EndsInZero(nals[0])) && SeparableWith(nals[1..], long[1..])
  {
    hide Clean, CleanLast, EndsInZero;
    var rest, more := nals[1..], long[1..];
    assert forall k :: 0 <= k < |rest| ==> rest[k] == nals[k + 1] && more[k] == long[k + 1];
    if Clean(nals[0]) && (long[1] || !EndsInZero(nals[0])) && SeparableWith(rest, more) {
      forall k | 0 <= k < |nals| - 1
        ensures Clean(nals[k]) && (long[k + 1] || !EndsInZero(nals[k]))
      {
        if k > 0 {
          assert nals[k] == rest[k - 1] && long[k + 1] == more[k];
        }
      }
    }
  }

  /** Main result: whatever length the writer gave each start code, splitting the stream gives the written NALs, in
      order, if and only if they are separable. */
  lemma {:induction false} SplitInvertsRenderWith(nals: seq<Nal>, long: seq<bool>)
    requires |long| == |nals|
    ensures Split(RenderWith(nals, long)) == nals <==> SeparableWith(nals, long)
  {
    var d := RenderWith(nals, long);
    assert [] + d == d;
    if nals != [] {
      SplitOfRender([], nals, long);
    }
  }

  function AllLong(n: nat): (long: seq<bool>)
    ensures |long| == n && forall k :: 0 <= k < n ==> long[k]
  {
    seq(n, i => true)
  }

  lemma {:induction false} RenderIsLong(nals: seq<Nal>)
    ensures RenderWith(nals, AllLong(|nals|)) == Render(nals)
  {
    if nals != [] {
      RenderIsLong(nals[1..]);
      assert AllLong(|nals|)[1..] == AllLong(|nals[1..]|);
    }
  }

  /** With 4-byte codes only: exactly if no NAL holds a start code the scan can see. Empty NALs and NALs ending in zero
      bytes do no harm then. */
  lemma {:induction false} SplitInvertsRender(nals: seq<Nal>)
    ensures Split(Render(nals)) == nals <==> Separable(nals)
  {
    RenderIsLong(nals);
    SplitInvertsRenderWith(nals, AllLong(|nals|));
  }

  /** In front of a 3-byte code, a zero byte at the end of a NAL is lost. */
  lemma ZeroBeforeShortCodeIsLost()
    ensures var nals: seq<Nal> := [[7, 0], [9]];
            Separable(nals) && Split(RenderWith(nals, [true, false])) != nals
  {
    var nals: seq<Nal> := [[7, 0], [9]];
    assert EndsInZero(nals[0]);
    SplitInvertsRenderWith(nals, [true, false]);
  }

  /** A start code inside a NAL is cut at: three bytes before another NAL come back as something else. */
  lemma HiddenCodeIsCut()
    ensures !Separable([[0, 0, 1], [7]]) && Split(Render([[0, 0, 1], [7]])) != [[0, 0, 1], [7]]
  {
    var nals: seq<Nal> := [[0, 0, 1], [7]];
    assert Code3(nals[0], 0);
    SplitInvertsRender(nals);
  }

  /** The sufficient condition of the byte stream format: NALs without 00 00 01 inside. */
  lemma {:induction false} CleanNalsSurvive(nals: seq<Nal>)
    requires forall k :: 0 <= k < |nals| ==> Clean(nals[k])
    ensures Split(Render(nals)) == nals
  {
    if nals != [] {
      CleanIsCleanLast(nals[|nals| - 1]);
    }
    SplitInvertsRender(nals);
  }

  lemma CleanIsCleanLast(n: Nal)
    requires Clean(n)
    ensures CleanLast(n)
  {
    forall p | 0 <= p && p + 3 < |n|
      ensures !Code3(n, p) && !Code4(n, p)
    {
      assert !Code3(n, p + 1);
    }
  }

  // ----- the blob index of the multi-frame header

  /** Frame k's bytes are found again at its recorded offset of the joined blob. */
  method IndexBlob(nals: seq<Nal>) returns (blob: seq<byte>, offs: seq<nat>)
    ensures blob == Flatten(nals)
    ensures |offs| == |nals|
    ensures forall k :: 0 <= k < |nals| ==>
              offs[k] + |nals[k]| <= |blob| && blob[offs[k]..offs[k] + |nals[k]|] == nals[k]
    ensures forall k :: 0 <= k < |nals| ==> offs[k] == |Flatten(nals[..k])|
  {
    blob := Flatten(nals);
    offs := [];
    var off := 0;
    for k := 0 to |nals|
      invariant |offs| == k
      invariant off == |Flatten(nals[..k])|
      invariant forall j :: 0 <= j < k ==> offs[j] == |Flatten(nals[..j])|
      invariant forall j :: 0 <= j < k ==>
                  offs[j] + |nals[j]| <= |blob| && blob[offs[j]..offs[j] + |nals[j]|] == nals[j]
    {
      BlobPiece(nals, k);
      offs := offs + [off];
      off := off + |nals[k]|;
    }
  }

  lemma BlobPiece(nals: seq<Nal>, k: nat)
    requires k < |nals|
    ensures |Flatten(nals[..k + 1])| == |Flatten(nals[..k])| + |nals[k]|
    ensures var off := |Flatten(nals[..k])|;
            off + |nals[k]| <= |Flatten(nals)| && Flatten(nals)[off..off + |nals[k]|] == nals[k]
  {
    assert nals[..k + 1] == nals[..k] + [nals[k]];
    assert nals == nals[..k + 1] + nals[k + 1..];
    FlattenAppend(nals[..k], [nals[k]]);
    FlattenAppend(nals[..k + 1], nals[k + 1..]);
    assert Flatten([nals[k]]) == nals[k];
  }
}
