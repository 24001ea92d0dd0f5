// The best boot run among the decoded groups: a greedy search over all start groups, which finds a
// longest subsequence of the decoded codes that is a contiguous slice of the stage order.

module LedInterpret {
  import opened Bytes
  import opened LedGroups

  /** Stage order of the bit-code layout. */
  const LEGACY_ORDER: seq<nat> :=
    [1, 2, 3, 23, 24, 25, 26, 4, 5, 6, 7, 8, 9, 10, 11, 12, 13, 14, 15, 16, 17, 18, 19, 20, 21, 22]

  predicate DistinctOrder(order: seq<nat>) {
    forall i, j :: 0 <= i < j < |order| ==> order[i] != order[j]
  }

  lemma LegacyOrderIsDistinct()
    ensures DistinctOrder(LEGACY_ORDER)
    ensures forall i :: 0 <= i < |LEGACY_ORDER| ==> LEGACY_ORDER[i] < 32
  {
    var order := LEGACY_ORDER;
    assert |order| == 26;
    assert forall i :: 0 <= i < 26 ==> order[i] == if i < 3 then i + 1 else if i < 7 then i + 20 else i - 3;
  }

  // ----- decoded groups

  /** The groups that carry a code, in order. */
  function Decodes(groups: seq<Group>): (r: seq<Group>)
    ensures forall i :: 0 <= i < |r| ==> r[i].decode.Decoded?
  {
    if groups == [] then []
    else
      var last := groups[|groups| - 1];
      Decodes(groups[..|groups| - 1]) + if last.decode.Decoded? then [last] else []
  }

  method ExtractDecodes(groups: seq<Group>) returns (decodes: seq<Group>)
    ensures decodes == Decodes(groups)
  {
    decodes := [];
    for i := 0 to |groups|
      invariant decodes == Decodes(groups[..i])
    {
      assert groups[..i + 1][..i] == groups[..i];
      if groups[i].decode.Decoded? {
        decodes := decodes + [groups[i]];
      }
    }
    assert groups[..|groups|] == groups;
  }

  // ----- the greedy search

  /** The last position below n where the order has this code. */
  function LastIndex(order: seq<nat>, code: nat, n: nat): (r: Option<nat>)
    requires n <= |order|
    ensures r.None? ==> forall i :: 0 <= i < n ==> order[i] != code
    ensures r.Some? ==> r.value < n && order[r.value] == code
  {
    if n == 0 then None else if order[n - 1] == code then Some(n - 1) else LastIndex(order, code, n - 1)
  }

  /** Position of a code in the order; of its last occurrence, should there be several. */
  function StageIndex(order: seq<nat>, code: nat): Option<nat> {
    LastIndex(order, code, |order|)
  }

  predicate IsStage(order: seq<nat>, code: nat) {
    StageIndex(order, code).Some?
  }

  /** The groups a greedy run picks from position j on, when it expects stage e next. */
  function Follow(codes: seq<nat>, order: seq<nat>, j: nat, e: nat, last: nat): seq<nat>
    decreases |codes| - j
  {
    if j >= |codes| then []
    else if codes[j] == last then Follow(codes, order, j + 1, e, last)
    else if e < |order| && codes[j] == order[e] then [j] + Follow(codes, order, j + 1, e + 1, codes[j])
    else Follow(codes, order, j + 1, e, last)
  }

  /** The greedy run that starts with group s; empty if its code has no place in the order. */
  function Candidate(codes: seq<nat>, order: seq<nat>, s: nat): seq<nat>
    requires s < |codes|
  {
    match StageIndex(order, codes[s])
    case None => []
    case Some(p) => [s] + Follow(codes, order, s + 1, p + 1, codes[s])
  }

  /** Start a is at least as good as start b: longer run, or smaller start code, or earlier group. */
  predicate AtLeastAsGood(codes: seq<nat>, order: seq<nat>, a: nat, b: nat)
    requires a < |codes| && b < |codes|
  {
    var m, n := |Candidate(codes, order, a)|, |Candidate(codes, order, b)|;
    m > n || (m == n && (codes[a] < codes[b] || (codes[a] == codes[b] && a <= b)))
  }

  /** Positions of groups whose codes are the slice of the order that begins at p. */
  ghost predicate IsRun(codes: seq<nat>, order: seq<nat>, run: seq<nat>, p: nat) {
    && (forall i, j :: 0 <= i < j < |run| ==> run[i] < run[j])
    && p + |run| <= |order|
    && forall i :: 0 <= i < |run| ==> run[i] < |codes| && codes[run[i]] == order[p + i]
  }

  lemma {:induction false} FollowIsRun(codes: seq<nat>, order: seq<nat>, j: nat, e: nat, last: nat)
    requires e <= |order|
    ensures IsRun(codes, order, Follow(codes, order, j, e, last), e)
    ensures forall i :: 0 <= i < |Follow(codes, order, j, e, last)| ==> j <= Follow(codes, order, j, e, last)[i]
    decreases |codes| - j
  {
    if j < |codes| {
      if codes[j] != last && e < |order| && codes[j] == order[e] {
        FollowIsRun(codes, order, j + 1, e + 1, codes[j]);
        PrependIsRun(codes, order, j, Follow(codes, order, j + 1, e + 1, codes[j]), e);
      } else {
        FollowIsRun(codes, order, j + 1, e, last);
      }
    }
  }

  lemma CandidateIsRun(codes: seq<nat>, order: seq<nat>, s: nat)
    requires s < |codes| && IsStage(order, codes[s])
    ensures IsRun(codes, order, Candidate(codes, order, s), StageIndex(order, codes[s]).value)
    ensures Candidate(codes, order, s)[0] == s
  {
    var p := StageIndex(order, codes[s]).value;
    FollowIsRun(codes, order, s + 1, p + 1, codes[s]);
    PrependIsRun(codes, order, s, Follow(codes, order, s + 1, p + 1, codes[s]), p);
  }

  lemma PrependIsRun(codes: seq<nat>, order: seq<nat>, s: nat, rest: seq<nat>, p: nat)
    requires s < |codes| && p < |order| && codes[s] == order[p]
    requires IsRun(codes, order, rest, p + 1) && forall i :: 0 <= i < |rest| ==> s < rest[i]
    ensures IsRun(codes, order, [s] + rest, p)
  {
    var run := [s] + rest;
    forall i | 0 <= i < |run|
      ensures run[i] < |codes| && codes[run[i]] == order[p + i]
    {
      if i > 0 {
        assert run[i] == rest[i - 1];
        assert codes[rest[i - 1]] == order[p + 1 + (i - 1)];
      }
    }
  }

  /** Exchange argument: no run that expects the same stage from the same position on is longer than the greedy one. */
  lemma {:induction false} FollowIsLongest(codes: seq<nat>, order: seq<nat>, j: nat, e: nat, last: nat, run: seq<nat>)
    requires DistinctOrder(order) && 0 < e <= |order| && last == order[e - 1]
    requires IsRun(codes, order, run, e) && forall i :: 0 <= i < |run| ==> j <= run[i]
    ensures |run| <= |Follow(codes, order, j, e, last)|
    decreases |codes| - j
  {
    if run != [] {
      assert j <= run[0] < |codes|;
      assert codes[run[0]] == order[e] && order[e] != last;
      if codes[j] == order[e] {
        var rest := run[1..];
        assert forall i :: 0 <= i < |rest| ==> rest[i] == run[i + 1] && run[0] < rest[i];
        FollowIsLongest(codes, order, j + 1, e + 1, codes[j], rest);
      } else {
        assert run[0] != j;
        assert forall i :: 0 < i < |run| ==> run[0] < run[i];
        FollowIsLongest(codes, order, j + 1, e, last, run);
      }
    }
  }

  lemma IndexIsUnique(order: seq<nat>, p: nat)
    requires DistinctOrder(order) && p < |order|
    ensures StageIndex(order, order[p]) == Some(p)
  {
    var r := LastIndex(order, order[p], |order|);
    assert r.Some? && order[r.value] == order[p];
    assert r.value == p;
  }

  /** A run is no longer than the greedy run from its own first group. */
  lemma CandidateIsLongest(codes: seq<nat>, order: seq<nat>, run: seq<nat>, p: nat)
    requires DistinctOrder(order) && run != [] && IsRun(codes, order, run, p)
    ensures IsStage(order, codes[run[0]]) && |run| <= |Candidate(codes, order, run[0])|
  {
    assert codes[run[0]] == order[p];
    IndexIsUnique(order, p);
    var rest := run[1..];
    assert forall i :: 0 <= i < |rest| ==> rest[i] == run[i + 1];
    FollowIsLongest(codes, order, run[0] + 1, p + 1, order[p], rest);
  }

  /** The best start among the first n groups. */
  ghost predicate IsBest(codes: seq<nat>, order: seq<nat>, n: nat, best: seq<nat>, expected: nat)
    requires n <= |codes|
  {
    if best == [] then expected == 0 && forall s :: 0 <= s < n ==> !IsStage(order, codes[s])
    else
      && best[0] < n && IsStage(order, codes[best[0]])
      && best == Candidate(codes, order, best[0])
      && expected == StageIndex(order, codes[best[0]]).value + |best|
      && forall s :: 0 <= s < n && IsStage(order, codes[s]) ==> AtLeastAsGood(codes, order, best[0], s)
  }

  /** The search of the interpreter. Its last tie-break, on the last code of two runs with the same length and
      start code, never changes the choice, since such runs end with the same stage. */
  method BestRun(codes: seq<nat>, order: seq<nat>) returns (best: seq<nat>, expected: nat)
    ensures IsBest(codes, order, |codes|, best, expected)
  {
    best, expected := [], 0;
    for s := 0 to |codes|
      invariant IsBest(codes, order, s, best, expected)
    {
      best, expected := TryStart(codes, order, s, best, expected);
    }
  }

  /** One pass of the search: the greedy run from group s, compared with the best one so far. */
  method TryStart(codes: seq<nat>, order: seq<nat>, s: nat, best: seq<nat>, expected: nat)
    returns (best': seq<nat>, expected': nat)
    requires s < |codes| && IsBest(codes, order, s, best, expected)
    ensures IsBest(codes, order, s + 1, best', expected')
  {
    var place := StageIndex(order, codes[s]);
    if place.None? {
      return best, expected;
    }
    var candidate, e := GreedyRun(codes, order, s, place.value);
    BestStep(codes, order, s, best, expected);
    if Prefers(codes, candidate, best) {
      return candidate, e;
    } else {
      return best, expected;
    }
  }

  /** The comparison of a new run with the best one so far. */
  predicate Prefers(codes: seq<nat>, candidate: seq<nat>, best: seq<nat>)
    requires candidate != [] && forall i :: 0 <= i < |candidate| ==> candidate[i] < |codes|
    requires forall i :: 0 <= i < |best| ==> best[i] < |codes|
  {
    if best == [] then true
    else if |candidate| > |best| then true
    else if |candidate| == |best| && codes[candidate[0]] < codes[best[0]] then true
    else
      && |candidate| == |best| && codes[candidate[0]] == codes[best[0]]
      && codes[candidate[|candidate| - 1]] > codes[best[|best| - 1]]
  }

  lemma GoodIsTransitive(codes: seq<nat>, order: seq<nat>, a: nat, b: nat, c: nat)
    requires a < |codes| && b < |codes| && c < |codes|
    requires AtLeastAsGood(codes, order, a, b) && AtLeastAsGood(codes, order, b, c)
    ensures AtLeastAsGood(codes, order, a, c)
  {
  }

  /** A better start replaces the best one. */
  lemma BestReplaced(codes: seq<nat>, order: seq<nat>, s: nat, best: seq<nat>, expected: nat)
    requires s < |codes| && IsStage(order, codes[s]) && IsBest(codes, order, s, best, expected)
    requires best != [] ==> AtLeastAsGood(codes, order, s, best[0])
    ensures var candidate := Candidate(codes, order, s);
            IsBest(codes, order, s + 1, candidate, StageIndex(order, codes[s]).value + |candidate|)
  {
    CandidateIsRun(codes, order, s);
    forall q | 0 <= q < s + 1 && IsStage(order, codes[q])
      ensures AtLeastAsGood(codes, order, s, q)
    {
      if q < s {
        GoodIsTransitive(codes, order, s, best[0], q);
      }
    }
  }

  /** One start more: the comparison keeps or replaces the best run as it should. */
  lemma BestStep(codes: seq<nat>, order: seq<nat>, s: nat, best: seq<nat>, expected: nat)
    requires s < |codes| && IsStage(order, codes[s]) && IsBest(codes, order, s, best, expected)
    ensures var candidate := Candidate(codes, order, s);
            && candidate != [] && (forall i :: 0 <= i < |candidate| ==> candidate[i] < |codes|)
            && (forall i :: 0 <= i < |best| ==> best[i] < |codes|)
            && if Prefers(codes, candidate, best)
               then IsBest(codes, order, s + 1, candidate, StageIndex(order, codes[s]).value + |candidate|)
               else IsBest(codes, order, s + 1, best, expected)
  {
    CandidateIsRun(codes, order, s);
    var candidate := Candidate(codes, order, s);
    if best == [] {
      BestReplaced(codes, order, s, best, expected);
    } else {
      CandidateIsRun(codes, order, best[0]);
      if |candidate| == |best| && codes[s] == codes[best[0]] {
        SameEnd(codes, order, candidate, best, StageIndex(order, codes[s]).value);
      }
      if Prefers(codes, candidate, best) {
        BestReplaced(codes, order, s, best, expected);
      } else {
        assert AtLeastAsGood(codes, order, best[0], s);
      }
    }
  }

  /** Equally long runs from the same stage end with the same stage: the last tie-break is never decisive. */
  lemma SameEnd(codes: seq<nat>, order: seq<nat>, a: seq<nat>, b: seq<nat>, p: nat)
    requires IsRun(codes, order, a, p) && IsRun(codes, order, b, p) && |a| == |b| > 0
    ensures codes[a[|a| - 1]] == codes[b[|b| - 1]]
  {
    assert codes[a[|a| - 1]] == order[p + (|a| - 1)];
  }

  /** One greedy run, group by group. */
  method GreedyRun(codes: seq<nat>, order: seq<nat>, s: nat, p: nat) returns (candidate: seq<nat>, expected: nat)
    requires s < |codes| && StageIndex(order, codes[s]) == Some(p)
    ensures candidate == Candidate(codes, order, s) && expected == p + |candidate|
  {
    expected := p + 1;
    candidate := [s];
    var lastCode := codes[s];
    for j := s + 1 to |codes|
      invariant candidate + Follow(codes, order, j, expected, lastCode) == Candidate(codes, order, s)
      invariant expected == p + |candidate|
    {
      var code := codes[j];
      if code == lastCode {
        continue;
      }
      if expected < |order| && code == order[expected] {
        var rest := Follow(codes, order, j + 1, expected + 1, code);
        assert candidate + ([j] + rest) == candidate + [j] + rest;
        candidate := candidate + [j];
        lastCode := code;
        expected := expected + 1;
      }
    }
  }

  /** What the interpreter reports about the run. */
  datatype Interpretation = Interpretation(matched: seq<Group>, nextExpected: Option<nat>)

  method Interpret(groups: seq<Group>, order: seq<nat>) returns (r: Interpretation)
    ensures Interprets(Decodes(groups), order, r)
    ensures DistinctOrder(order) ==> ReportsLongestRun(CodesOf(Decodes(groups)), order, r)
  {
    var valid := ExtractDecodes(groups);
    var codes := seq(|valid|, i requires 0 <= i < |valid| => valid[i].decode.code);
    var best, expected := BestRun(codes, order);
    if best != [] {
      CandidateIsRun(codes, order, best[0]);
    }
    var matched := seq(|best|, i requires 0 <= i < |best| => valid[best[i]]);
    var next := if expected < |order| then Some(order[expected]) else None;
    r := Interpretation(matched, next);
    assert CodesOf(valid) == codes;
    assert ReportsBest(valid, order, r, best, expected);
    if DistinctOrder(order) {
      ReportIsOptimal(valid, order, r);
    }
  }

  /** The report shows a slice of the order that is found among the codes, no longer slice is found there, and none as
      long that begins with a smaller code; the expected stage is the one right behind it, the very first one if
      nothing is found. */
  ghost predicate ReportsLongestRun(codes: seq<nat>, order: seq<nat>, r: Interpretation) {
    exists p: nat :: ReportsSlice(order, r, p) && IsLongest(codes, order, p, |r.matched|)
  }

  ghost predicate ReportsSlice(order: seq<nat>, r: Interpretation, p: nat) {
    var n := |r.matched|;
    && (forall i :: 0 <= i < n ==> r.matched[i].decode.Decoded?)
    && p + n <= |order| && CodesOf(r.matched) == order[p..p + n]
    && (n == 0 ==> p == 0)
    && r.nextExpected == (if p + n < |order| then Some(order[p + n]) else None)
  }

  /** The n stages from p on are found among the codes, no longer slice is, and none as long begins with a smaller
      code. */
  ghost predicate IsLongest(codes: seq<nat>, order: seq<nat>, p: nat, n: nat) {
    && (exists run :: IsRun(codes, order, run, p) && |run| == n)
    && (forall run: seq<nat>, q: nat :: IsRun(codes, order, run, q) ==>
          |run| < n || (|run| == n && (n == 0 || order[p] <= order[q])))
  }

  lemma ReportIsOptimal(valid: seq<Group>, order: seq<nat>, r: Interpretation)
    requires forall i :: 0 <= i < |valid| ==> valid[i].decode.Decoded?
    requires DistinctOrder(order) && Interprets(valid, order, r)
    ensures ReportsLongestRun(CodesOf(valid), order, r)
  {
    hide IsBest, ReportsSlice, IsLongest, IsRun, CodesOf;
    var best: seq<nat>, expected: nat :| ReportsBest(valid, order, r, best, expected);
    BestIsLongest(CodesOf(valid), order, best, expected);
    BestIsSlice(valid, order, r, best, expected);
  }

  lemma BestIsLongest(codes: seq<nat>, order: seq<nat>, best: seq<nat>, expected: nat)
    requires DistinctOrder(order) && IsBest(codes, order, |codes|, best, expected)
    ensures |best| <= expected && IsLongest(codes, order, expected - |best|, |best|)
  {
    hide IsBest;
    BestIsOptimal(codes, order, best, expected);
    var p := expected - |best|;
    assert IsRun(codes, order, best, p);
    forall run: seq<nat>, q: nat | IsRun(codes, order, run, q)
      ensures |run| < |best| || (|run| == |best| && (|best| == 0 || order[p] <= order[q]))
    {
      assert run != [] ==> codes[run[0]] == order[q];
    }
  }

  lemma BestIsSlice(valid: seq<Group>, order: seq<nat>, r: Interpretation, best: seq<nat>, expected: nat)
    requires forall i :: 0 <= i < |valid| ==> valid[i].decode.Decoded?
    requires DistinctOrder(order) && ReportsBest(valid, order, r, best, expected)
    ensures |best| <= expected && |best| == |r.matched| && ReportsSlice(order, r, expected - |best|)
  {
    hide IsBest;
    var codes := CodesOf(valid);
    BestIsOptimal(codes, order, best, expected);
    var p := expected - |best|;
    assert CodesOf(r.matched) == order[p..p + |best|];
  }

  function CodesOf(valid: seq<Group>): (codes: seq<nat>)
    requires forall i :: 0 <= i < |valid| ==> valid[i].decode.Decoded?
    ensures |codes| == |valid|
  {
    seq(|valid|, i requires 0 <= i < |valid| => valid[i].decode.code)
  }

  /** The report shows a best run and the stage after it. */
  ghost predicate Interprets(valid: seq<Group>, order: seq<nat>, r: Interpretation)
    requires forall i :: 0 <= i < |valid| ==> valid[i].decode.Decoded?
  {
    exists best: seq<nat>, expected: nat :: ReportsBest(valid, order, r, best, expected)
  }

  ghost predicate ReportsBest(valid: seq<Group>, order: seq<nat>, r: Interpretation, best: seq<nat>, expected: nat)
    requires forall i :: 0 <= i < |valid| ==> valid[i].decode.Decoded?
  {
    && IsBest(CodesOf(valid), order, |valid|, best, expected)
    && |r.matched| == |best|
    && (forall i :: 0 <= i < |best| ==> best[i] < |valid| && r.matched[i] == valid[best[i]])
    && r.nextExpected == if expected < |order| then Some(order[expected]) else None
  }

  /** Main result: with a distinct stage order the best run is a run, no run of decoded groups is longer, no equally
      long one starts with a smaller code, and the expected stage is the one right behind it. */
  lemma BestIsOptimal(codes: seq<nat>, order: seq<nat>, best: seq<nat>, expected: nat)
    requires DistinctOrder(order) && IsBest(codes, order, |codes|, best, expected)
    ensures |best| <= expected && IsRun(codes, order, best, expected - |best|)
    ensures best == [] ==> expected == 0
    ensures forall run: seq<nat>, p: nat :: IsRun(codes, order, run, p) ==> |run| <= |best|
    ensures forall run: seq<nat>, p: nat :: IsRun(codes, order, run, p) && |run| == |best| && run != [] ==>
              codes[best[0]] <= codes[run[0]]
  {
    if best != [] {
      CandidateIsRun(codes, order, best[0]);
    }
    forall run: seq<nat>, p: nat | IsRun(codes, order, run, p) && run != []
      ensures |run| <= |best| && (|run| == |best| ==> codes[best[0]] <= codes[run[0]])
    {
      NoRunIsBetter(codes, order, best, expected, run, p);
    }
  }

  lemma NoRunIsBetter(codes: seq<nat>, order: seq<nat>, best: seq<nat>, expected: nat, run: seq<nat>, p: nat)
    requires DistinctOrder(order) && IsBest(codes, order, |codes|, best, expected)
    requires IsRun(codes, order, run, p) && run != []
    ensures best != [] && |run| <= |best| && (|run| == |best| ==> codes[best[0]] <= codes[run[0]])
  {
    CandidateIsLongest(codes, order, run, p);
  }

  /** The decodes are the groups that carry a code, each at its place: those of a part, then those of the rest. */
  lemma {:induction false} DecodesOfParts(a: seq<Group>, b: seq<Group>)
    ensures Decodes(a + b) == Decodes(a) + Decodes(b)
    decreases |b|
  {
    if b == [] {
      assert a + b == a;
    } else {
      var n := |b| - 1;
      var last := if b[n].decode.Decoded? then [b[n]] else [];
      assert (a + b)[..|a + b| - 1] == a + b[..n] && (a + b)[|a + b| - 1] == b[n];
      DecodesOfParts(a, b[..n]);
      assert Decodes(a) + Decodes(b[..n]) + last == Decodes(a) + (Decodes(b[..n]) + last);
    }
  }

  lemma DecodeOfOne(g: Group)
    ensures Decodes([g]) == if g.decode.Decoded? then [g] else []
  {
    assert [g][..0] == [] && Decodes([]) == [];
  }
}
