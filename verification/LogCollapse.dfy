// Collapsing floods of identical consecutive log lines, and what can be recovered from the result.

module LogCollapse {

  import opened Bytes

  type Line = string

  // ----- marker lines

  function Digit(d: nat): char
    requires d < 10
  {
    "0123456789"[d]
  }

  function Decimal(n: nat): (s: string)
    ensures |s| > 0
  {
    if n < 10 then [Digit(n)] else Decimal(n / 10) + [Digit(n % 10)]
  }

  function DigitValue(c: char): int {
    c as int - '0' as int
  }

  /** The number that decimal digits denote, most significant first. */
  function Denotes(s: string): int {
    if s == "" then 0 else 10 * Denotes(s[..|s| - 1]) + DigitValue(s[|s| - 1])
  }

  lemma {:induction false} DecimalDenotes(n: nat)
    ensures Denotes(Decimal(n)) == n
    ensures forall i :: 0 <= i < |Decimal(n)| ==> '0' <= Decimal(n)[i] <= '9'
  {
    DigitDenotes(n % 10);
    if n >= 10 {
      DecimalDenotes(n / 10);
      assert Decimal(n)[..|Decimal(n)| - 1] == Decimal(n / 10);
    } else {
      assert [Digit(n)][..0] == "";
    }
  }

  lemma DigitDenotes(d: nat)
    requires d < 10
    ensures DigitValue(Digit(d)) == d && '0' <= Digit(d) <= '9'
  {
  }

  /** The words around the count in a marker line. All results hold for any wording. */
  datatype Wording = Wording(before: string, after: string)

  const MARKER := Wording("[collapse-uart-log-floods: previous line repeated ", " more times]\n")

  function Marker(w: Wording, n: nat): Line {
    w.before + Decimal(n) + w.after
  }

  ghost predicate IsMarker(w: Wording, l: Line) {
    exists n :: l == Marker(w, n)
  }

  lemma {:induction false} DecimalIsInjective(m: nat, n: nat)
    requires Decimal(m) == Decimal(n)
    ensures m == n
    decreases m
  {
    var s := Decimal(m);
    assert s[|s| - 1] == Digit(m % 10) == Digit(n % 10);
    assert m % 10 == n % 10;
    if m >= 10 && n >= 10 {
      assert Decimal(m)[..|s| - 1] == Decimal(m / 10) && Decimal(n)[..|s| - 1] == Decimal(n / 10);
      DecimalIsInjective(m / 10, n / 10);
    }
  }

  lemma MarkerIsInjective(w: Wording, m: nat, n: nat)
    requires Marker(w, m) == Marker(w, n)
    ensures m == n
  {
    var from := |w.before|;
    assert |Decimal(m)| == |Decimal(n)|;
    assert Marker(w, m)[from..from + |Decimal(m)|] == Decimal(m);
    assert Marker(w, n)[from..from + |Decimal(n)|] == Decimal(n);
    DecimalIsInjective(m, n);
  }

  // ----- runs

  datatype Run = Run(line: Line, count: nat)

  /** The maximal runs of equal consecutive lines. */
  function Runs(log: seq<Line>): (runs: seq<Run>)
    ensures log == [] <==> runs == []
    ensures log != [] ==> runs[|runs| - 1].line == log[|log| - 1]
  {
    if log == [] then []
    else
      var before, line := Runs(log[..|log| - 1]), log[|log| - 1];
      if before != [] && before[|before| - 1].line == line then
        before[..|before| - 1] + [Run(line, before[|before| - 1].count + 1)]
      else before + [Run(line, 1)]
  }

  function Repeat(l: Line, n: nat): (r: seq<Line>)
    ensures |r| == n && forall i :: 0 <= i < n ==> r[i] == l
  {
    if n == 0 then [] else Repeat(l, n - 1) + [l]
  }

  lemma {:induction false} RepeatFromFront(l: Line, n: nat)
    ensures Repeat(l, n + 1) == [l] + Repeat(l, n)
  {
  }

  /** The log a list of runs stands for. */
  function Expand(runs: seq<Run>): seq<Line> {
    if runs == [] then [] else Expand(runs[..|runs| - 1]) + Repeat(runs[|runs| - 1].line, runs[|runs| - 1].count)
  }

  lemma {:induction false} ExpandOneMore(runs: seq<Run>, run: Run)
    ensures Expand(runs + [run]) == Expand(runs) + Repeat(run.line, run.count)
  {
    assert (runs + [run])[..|runs|] == runs;
  }

  lemma {:induction false} ExpandLonger(runs: seq<Run>, l: Line, n: nat)
    ensures Expand(runs + [Run(l, n + 1)]) == Expand(runs + [Run(l, n)]) + [l]
  {
    ExpandOneMore(runs, Run(l, n));
    ExpandOneMore(runs, Run(l, n + 1));
    assert Expand(runs) + (Repeat(l, n) + [l]) == (Expand(runs) + Repeat(l, n)) + [l];
  }

  lemma {:induction false} ExpandOfRuns(log: seq<Line>)
    ensures Expand(Runs(log)) == log
  {
    hide Expand;
    if log == [] {
      NothingExpanded();
    } else {
      var init, line := log[..|log| - 1], log[|log| - 1];
      var before := Runs(init);
      ExpandOfRuns(init);
      assert log == init + [line];
      if before != [] && before[|before| - 1].line == line {
        var older, n := before[..|before| - 1], before[|before| - 1].count;
        assert before == older + [Run(line, n)];
        ExpandLonger(older, line, n);
      } else {
        ExpandOneMore(before, Run(line, 1));
        assert Repeat(line, 0) == [];
        assert Repeat(line, 1) == [line];
      }
    }
  }

  /** Every run holds a line of the log at least once, and neighbouring runs hold different lines. */
  lemma {:induction false} RunsAreMaximal(log: seq<Line>)
    ensures forall k :: 0 <= k < |Runs(log)| ==> Runs(log)[k].count > 0 && Runs(log)[k].line in log
    ensures forall k :: 0 < k < |Runs(log)| ==> Runs(log)[k - 1].line != Runs(log)[k].line
  {
    if log != [] {
      RunsAreMaximal(log[..|log| - 1]);
    }
  }

  /** What the tool writes for a run: the line, and a marker if the run is longer than minRun. */
  function RunText(w: Wording, run: Run, minRun: int): seq<Line> {
    if run.count > minRun && run.count > 0 then [run.line, Marker(w, run.count - 1)] else [run.line]
  }

  function Text(w: Wording, runs: seq<Run>, minRun: int): seq<Line> {
    if runs == [] then [] else Text(w, runs[..|runs| - 1], minRun) + RunText(w, runs[|runs| - 1], minRun)
  }

  function Marked(runs: seq<Run>, minRun: int): nat {
    if runs == [] then 0 else Marked(runs[..|runs| - 1], minRun) + if runs[|runs| - 1].count > minRun then 1 else 0
  }

  /** Sum of run length minus 1 over the marked runs. */
  function Dropped(runs: seq<Run>, minRun: int): int {
    if runs == [] then 0
    else Dropped(runs[..|runs| - 1], minRun) + if runs[|runs| - 1].count > minRun then runs[|runs| - 1].count - 1 else 0
  }

  lemma {:induction false} OneMoreRun(w: Wording, runs: seq<Run>, run: Run, minRun: int)
    ensures Text(w, runs + [run], minRun) == Text(w, runs, minRun) + RunText(w, run, minRun)
    ensures Marked(runs + [run], minRun) == Marked(runs, minRun) + if run.count > minRun then 1 else 0
    ensures Dropped(runs + [run], minRun) == Dropped(runs, minRun) + if run.count > minRun then run.count - 1 else 0
  {
    assert (runs + [run])[..|runs|] == runs;
  }

  /** The closed runs and the open one. */
  ghost function Seen(done: seq<Run>, prev: Option<Line>, count: nat): seq<Run> {
    if prev.None? then done else done + [Run(prev.value, count)]
  }

  lemma {:induction false} NothingSeen(w: Wording, minRun: int)
    ensures Runs([]) == [] == Seen([], None, 0)
    ensures Text(w, [], minRun) == [] && Marked([], minRun) == 0 && Dropped([], minRun) == 0
  {
  }

  lemma {:induction false} NextLine(log: seq<Line>, line: Line, done: seq<Run>, prev: Option<Line>, count: nat)
    requires Runs(log) == Seen(done, prev, count)
    requires prev.None? ==> done == []
    ensures prev == Some(line) ==> Runs(log + [line]) == Seen(done, prev, count + 1)
    ensures prev != Some(line) ==> Runs(log + [line]) == Seen(Seen(done, prev, count), Some(line), 1)
  {
    assert (log + [line])[..|log|] == log;
    if prev.Some? {
      assert Seen(done, prev, count)[..|done|] == done;
    }
  }

  /** The state that the streaming loop and its emit step share. */
  class Collapser {
    const wording: Wording
    const minRun: int
    var dst: seq<Line>
    var runs: nat
    var dropped: int
    var prev: Option<Line>
    var count: nat

    constructor (wording: Wording, minRun: int)
      ensures this.wording == wording && this.minRun == minRun
      ensures dst == [] && runs == 0 && dropped == 0 && prev == None && count == 0
    {
      this.wording, this.minRun := wording, minRun;
      dst, runs, dropped, prev, count := [], 0, 0, None, 0;
    }

    /** The runs closed so far are written and counted. */
    ghost predicate Wrote(done: seq<Run>)
      reads `dst, `runs, `dropped
    {
      dst == Text(wording, done, minRun) && runs == Marked(done, minRun) && dropped == Dropped(done, minRun)
    }

    method Emit(ghost done: seq<Run>)
      requires Wrote(done) && (prev.Some? ==> count > 0)
      modifies `dst, `runs, `dropped
      ensures Wrote(Seen(done, prev, count))
    {
      if prev.None? {
        return;
      }
      OneMoreRun(wording, done, Run(prev.value, count), minRun);
      dst := dst + [prev.value];
      if count > minRun {
        var extra := count - 1;
        dst := dst + [Marker(wording, extra)];
        runs := runs + 1;
        dropped := dropped + extra;
      }
    }
  }

  method Collapse(src: seq<Line>, minRun: int, wording: Wording := MARKER)
    returns (dst: seq<Line>, runs: nat, dropped: int)
    ensures dst == Text(wording, Runs(src), minRun)
    ensures runs == Marked(Runs(src), minRun) && dropped == Dropped(Runs(src), minRun)
  {
    hide Runs, Text, Marked, Dropped, Seen;
    var c := new Collapser(wording, minRun);
    ghost var done: seq<Run> := [];
    NothingSeen(wording, minRun);
    assert src[..0] == [];
    for i := 0 to |src|
      invariant fresh(c) && c.wording == wording && c.minRun == minRun && c.Wrote(done)
      invariant c.prev.None? ==> done == []
      invariant c.prev.Some? ==> c.count > 0
      invariant Runs(src[..i]) == Seen(done, c.prev, c.count)
    {
      var line := src[i];
      NextLine(src[..i], line, done, c.prev, c.count);
      assert src[..i] + [line] == src[..i + 1];
      if c.prev == Some(line) {
        c.count := c.count + 1;
        continue;
      }
      ghost var seen := Seen(done, c.prev, c.count);
      c.Emit(done);
      done := seen;
      c.prev := Some(line);
      c.count := 1;
    }
    assert src[..|src|] == src;
    c.Emit(done);
    dst, runs, dropped := c.dst, c.runs, c.dropped;
  }

  // ----- what can be recovered

  /** The lines of an output that are not markers. */
  ghost function Unmarked(w: Wording, text: seq<Line>): seq<Line> {
    if text == [] then []
    else
      var before := Unmarked(w, text[..|text| - 1]);
      if IsMarker(w, text[|text| - 1]) then before else before + [text[|text| - 1]]
  }

  /** A log with consecutive duplicates removed. */
  function Dedup(log: seq<Line>): seq<Line> {
    if log == [] then []
    else
      var before := Dedup(log[..|log| - 1]);
      if |log| > 1 && log[|log| - 2] == log[|log| - 1] then before else before + [log[|log| - 1]]
  }

  ghost predicate NoMarkers(w: Wording, log: seq<Line>) {
    forall i :: 0 <= i < |log| ==> !IsMarker(w, log[i])
  }

  ghost predicate PlainRuns(w: Wording, runs: seq<Run>) {
    forall k :: 0 <= k < |runs| ==> !IsMarker(w, runs[k].line) && runs[k].count > 0
  }

  function Heads(runs: seq<Run>): (r: seq<Line>) {
    if runs == [] then [] else Heads(runs[..|runs| - 1]) + [runs[|runs| - 1].line]
  }

  lemma {:induction false} HeadsOneMore(runs: seq<Run>, run: Run)
    ensures Heads(runs + [run]) == Heads(runs) + [run.line]
  {
    assert (runs + [run])[..|runs|] == runs;
  }

  lemma {:induction false} DedupIsHeads(log: seq<Line>)
    ensures Dedup(log) == Heads(Runs(log))
  {
    if log != [] {
      var init, line := log[..|log| - 1], log[|log| - 1];
      var before := Runs(init);
      DedupIsHeads(init);
      if before != [] && before[|before| - 1].line == line {
        var older, n := before[..|before| - 1], before[|before| - 1].count;
        assert before == older + [Run(line, n)];
        HeadsOneMore(older, Run(line, n));
        HeadsOneMore(older, Run(line, n + 1));
      } else {
        HeadsOneMore(before, Run(line, 1));
      }
    }
  }

  lemma {:induction false} UnmarkedOne(w: Wording, text: seq<Line>, l: Line)
    ensures Unmarked(w, text + [l]) == if IsMarker(w, l) then Unmarked(w, text) else Unmarked(w, text) + [l]
  {
    assert (text + [l])[..|text|] == text;
  }

  lemma {:induction false} UnmarkedRun(w: Wording, before: seq<Line>, run: Run, minRun: int)
    requires !IsMarker(w, run.line)
    ensures Unmarked(w, before + RunText(w, run, minRun)) == Unmarked(w, before) + [run.line]
  {
    UnmarkedOne(w, before, run.line);
    if run.count > minRun && run.count > 0 {
      var marker := Marker(w, run.count - 1);
      UnmarkedOne(w, before + [run.line], marker);
      assert before + [run.line] + [marker] == before + [run.line, marker];
    }
  }

  lemma {:induction false} UnmarkedText(w: Wording, runs: seq<Run>, minRun: int)
    requires PlainRuns(w, runs)
    ensures Unmarked(w, Text(w, runs, minRun)) == Heads(runs)
  {
    if runs != [] {
      var init, last := runs[..|runs| - 1], runs[|runs| - 1];
      UnmarkedText(w, init, minRun);
      UnmarkedRun(w, Text(w, init, minRun), last, minRun);
    }
  }

  /** Main result: without its markers the output of a log is the log without consecutive duplicates. */
  lemma {:induction false} OutputIsDeduplicated(w: Wording, log: seq<Line>, minRun: int)
    requires NoMarkers(w, log)
    ensures Unmarked(w, Text(w, Runs(log), minRun)) == Dedup(log)
  {
    RunsAreMaximal(log);
    UnmarkedText(w, Runs(log), minRun);
    DedupIsHeads(log);
  }

  /** Replaces each marker by that many copies of the line before it. */
  ghost function Restore(w: Wording, text: seq<Line>): seq<Line> {
    if text == [] then []
    else
      var n := |text| - 1;
      var before := Restore(w, text[..n]);
      if n > 0 && IsMarker(w, text[n]) then
        var k :| text[n] == Marker(w, k);
        before + Repeat(text[n - 1], k)
      else before + [text[n]]
  }

  lemma {:induction false} RestoreLine(w: Wording, text: seq<Line>, l: Line)
    requires !IsMarker(w, l)
    ensures Restore(w, text + [l]) == Restore(w, text) + [l]
  {
    assert (text + [l])[..|text|] == text;
  }

  lemma {:induction false} RestoreMarker(w: Wording, text: seq<Line>, l: Line, n: nat)
    ensures Restore(w, text + [l, Marker(w, n)]) == Restore(w, text + [l]) + Repeat(l, n)
  {
    var all := text + [l, Marker(w, n)];
    assert all[..|text| + 1] == text + [l];
    assert IsMarker(w, Marker(w, n));
    forall j | Marker(w, n) == Marker(w, j)
      ensures j == n
    {
      MarkerIsInjective(w, n, j);
    }
  }

  /** How many copies of a run's line the output still tells of. */
  function Kept(run: Run, minRun: int): nat {
    if run.count > minRun && run.count > 0 then run.count else 1
  }

  function Recovered(runs: seq<Run>, minRun: int): seq<Run> {
    if runs == [] then []
    else Recovered(runs[..|runs| - 1], minRun) + [Run(runs[|runs| - 1].line, Kept(runs[|runs| - 1], minRun))]
  }

  lemma {:induction false} RestoreRun(w: Wording, before: seq<Line>, run: Run, minRun: int)
    requires !IsMarker(w, run.line)
    ensures Restore(w, before + RunText(w, run, minRun)) == Restore(w, before) + Repeat(run.line, Kept(run, minRun))
  {
    var l := run.line;
    RestoreLine(w, before, l);
    if run.count > minRun && run.count > 0 {
      RestoreMarker(w, before, l, run.count - 1);
      RepeatFromFront(l, run.count - 1);
      assert Restore(w, before) + [l] + Repeat(l, run.count - 1) ==
        Restore(w, before) + ([l] + Repeat(l, run.count - 1));
    } else {
      assert Repeat(l, 0) == [];
      assert Repeat(l, 1) == [l];
    }
  }

  lemma {:induction false} RestoreText(w: Wording, runs: seq<Run>, minRun: int)
    requires PlainRuns(w, runs)
    ensures Restore(w, Text(w, runs, minRun)) == Expand(Recovered(runs, minRun))
  {
    if runs != [] {
      var init, last := runs[..|runs| - 1], runs[|runs| - 1];
      RestoreText(w, init, minRun);
      RestoreRun(w, Text(w, init, minRun), last, minRun);
      ExpandOneMore(Recovered(init, minRun), Run(last.line, Kept(last, minRun)));
    }
  }

  /** Every run is a single line or long enough to get a marker. */
  ghost predicate Recoverable(runs: seq<Run>, minRun: int) {
    forall k :: 0 <= k < |runs| ==> runs[k].count == 1 || runs[k].count > minRun
  }

  lemma NothingExpanded()
    ensures Expand([]) == []
  {
  }

  lemma {:induction false} RecoveredIsShorter(runs: seq<Run>, minRun: int)
    requires forall k :: 0 <= k < |runs| ==> runs[k].count > 0
    ensures |Expand(Recovered(runs, minRun))| <= |Expand(runs)|
    ensures |Expand(Recovered(runs, minRun))| == |Expand(runs)| <==> Recoverable(runs, minRun)
    ensures Recoverable(runs, minRun) ==> Recovered(runs, minRun) == runs
  {
    hide Expand;
    if runs == [] {
      NothingExpanded();
    } else {
      var init, last := runs[..|runs| - 1], runs[|runs| - 1];
      assert runs == init + [last];
      RecoveredIsShorter(init, minRun);
      ExpandOneMore(init, last);
      ExpandOneMore(Recovered(init, minRun), Run(last.line, Kept(last, minRun)));
      assert Recoverable(runs, minRun) <==> Recoverable(init, minRun) && (last.count == 1 || last.count > minRun);
    }
  }

  /** Main result: the log can be restored exactly when no run is of 2 to minRun lines. */
  lemma {:induction false} LogIsRestoredIff(w: Wording, log: seq<Line>, minRun: int)
    requires NoMarkers(w, log)
    ensures Restore(w, Text(w, Runs(log), minRun)) == log <==> Recoverable(Runs(log), minRun)
  {
    RunsAreMaximal(log);
    RestoreText(w, Runs(log), minRun);
    RecoveredIsShorter(Runs(log), minRun);
    ExpandOfRuns(log);
  }

  lemma MarkersAreLong(w: Wording, l: Line)
    requires |l| <= |w.before|
    ensures !IsMarker(w, l)
  {
  }

  lemma {:induction false} TwiceIsRestoredOnce(w: Wording, l: Line)
    requires !IsMarker(w, l)
    ensures Restore(w, Text(w, Runs([l, l]), 2)) == [l]
  {
    hide Restore, Text, IsMarker;
    assert [l, l][..1] == [l] && [l][..0] == [];
    assert Runs([l]) == [Run(l, 1)];
    assert Runs([l, l]) == [Run(l, 2)];
    RestoreText(w, Runs([l, l]), 2);
    assert Recovered(Runs([l, l]), 2) == [Run(l, 1)];
    assert Repeat(l, 0) == [] && Repeat(l, 1) == [l];
    assert Expand([Run(l, 1)]) == [l];
  }

  /** A line written twice is restored once when two repetitions are not worth a marker. */
  lemma ShortRunIsLost()
    ensures var log: seq<Line> := ["x\n", "x\n"];
            NoMarkers(MARKER, log) && Restore(MARKER, Text(MARKER, Runs(log), 2)) == ["x\n"] != log
  {
    hide Restore, Text, Runs, IsMarker;
    MarkersAreLong(MARKER, "x\n");
    TwiceIsRestoredOnce(MARKER, "x\n");
  }

  lemma {:induction false} TextCounts(w: Wording, runs: seq<Run>, minRun: int)
    requires forall k :: 0 <= k < |runs| ==> runs[k].count > 0
    ensures |Text(w, runs, minRun)| == |Heads(runs)| + Marked(runs, minRun)
    ensures |Expand(Recovered(runs, minRun))| == |Heads(runs)| + Dropped(runs, minRun)
  {
    hide Expand;
    if runs == [] {
      NothingExpanded();
    } else {
      var init, last := runs[..|runs| - 1], runs[|runs| - 1];
      TextCounts(w, init, minRun);
      ExpandOneMore(Recovered(init, minRun), Run(last.line, Kept(last, minRun)));
    }
  }

  /** What the counters say: one marker line for each run counted, and as many lines dropped as expanding the markers
      brings back. */
  lemma {:induction false} CountersAddUp(w: Wording, log: seq<Line>, minRun: int)
    requires NoMarkers(w, log)
    ensures var text := Text(w, Runs(log), minRun);
            && |text| == |Unmarked(w, text)| + Marked(Runs(log), minRun)
            && |Restore(w, text)| == |Unmarked(w, text)| + Dropped(Runs(log), minRun)
  {
    RunsAreMaximal(log);
    UnmarkedText(w, Runs(log), minRun);
    RestoreText(w, Runs(log), minRun);
    TextCounts(w, Runs(log), minRun);
  }
}
