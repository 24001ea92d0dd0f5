// The buffer-object ownership checker: a one-pass state machine over trace events, compared with a
// statement about the whole trace.

module BoTrace {

  datatype Op = Create | Mmap | Close

  /** One trace line; cpu is the address of the handle's mapping, 0 if it has none. */
  datatype Event = Event(op: Op, handle: nat, cpu: nat)

  datatype Overlap = Overlap(cpu: nat, old_: nat, new_: nat, at: nat)

  datatype State = State(owner: map<nat, nat>, live: set<nat>, reuse: map<nat, set<nat>>, overlap: seq<Overlap>,
                         ops: map<Op, nat>)

  const START := State(map[], {}, map[], [], map[])

  function Count(ops: map<Op, nat>, op: Op): nat {
    if op in ops then ops[op] else 0
  }

  function Handles(reuse: map<nat, set<nat>>, cpu: nat): set<nat> {
    if cpu in reuse then reuse[cpu] else {}
  }

  /** What the checker does with the event numbered order (from 1). */
  function Step(s: State, e: Event, order: nat): State {
    var s := s.(ops := s.ops[e.op := Count(s.ops, e.op) + 1]);
    if e.cpu == 0 then s
    else if e.op == Close then
      s.(live := s.live - {e.handle},
         owner := if e.cpu in s.owner && s.owner[e.cpu] == e.handle then s.owner - {e.cpu} else s.owner)
    else
      var clash := e.cpu in s.owner && s.owner[e.cpu] != e.handle && s.owner[e.cpu] in s.live;
      s.(overlap := if clash then s.overlap + [Overlap(e.cpu, s.owner[e.cpu], e.handle, order)] else s.overlap,
         owner := s.owner[e.cpu := e.handle],
         live := s.live + {e.handle},
         reuse := s.reuse[e.cpu := Handles(s.reuse, e.cpu) + {e.handle}])
  }

  function After(t: seq<Event>, n: nat): State
    requires n <= |t|
  {
    if n == 0 then START else Step(After(t, n - 1), t[n - 1], n)
  }

  /** The checker's pass over a trace. */
  method Analyze(t: seq<Event>)
    returns (ops: map<Op, nat>, owner: map<nat, nat>, live: set<nat>, reuse: map<nat, set<nat>>,
             overlap: seq<Overlap>, order: nat)
    ensures State(owner, live, reuse, overlap, ops) == After(t, |t|) && order == |t|
  {
    owner, live, reuse, overlap, ops, order := map[], {}, map[], [], map[], 0;
    while order < |t|
      invariant order <= |t|
      invariant State(owner, live, reuse, overlap, ops) == After(t, order)
    {
      var e := t[order];
      order := order + 1;
      ops := ops[e.op := Count(ops, e.op) + 1];
      if e.cpu == 0 {
        continue;
      }
      if e.op == Close {
        live := live - {e.handle};
        if e.cpu in owner && owner[e.cpu] == e.handle {
          owner := owner - {e.cpu};
        }
        continue;
      }
      if e.cpu in owner {
        var prev := owner[e.cpu];
        if prev != e.handle && prev in live {
          overlap := overlap + [Overlap(e.cpu, prev, e.handle, order)];
        }
      }
      owner := owner[e.cpu := e.handle];
      live := live + {e.handle};
      reuse := reuse[e.cpu := Handles(reuse, e.cpu) + {e.handle}];
    }
  }

  // ----- what a trace says

  /** Event i maps handle h at address a. */
  predicate Opens(t: seq<Event>, i: int, h: nat, a: nat) {
    0 <= i < |t| && t[i].op != Close && t[i].handle == h && t[i].cpu == a && a != 0
  }

  predicate Closes(t: seq<Event>, i: int, h: nat) {
    0 <= i < |t| && t[i].op == Close && t[i].handle == h
  }

  /** After n events handle h has a mapping at a: it was mapped there and has not been closed since. */
  ghost predicate LiveAt(t: seq<Event>, n: nat, h: nat, a: nat) {
    exists i :: 0 <= i < n && Opens(t, i, h, a) && forall j :: i < j < n ==> !Closes(t, j, h)
  }

  /** A live handle keeps its address, and is closed at that address. */
  ghost predicate KeepsAddresses(t: seq<Event>) {
    forall n: nat, h, a :: n < |t| && LiveAt(t, n, h, a) && t[n].handle == h ==>
      if t[n].op == Close then t[n].cpu == a else t[n].cpu == a || t[n].cpu == 0
  }

  /** After n events no address has two live handles. */
  ghost predicate SoleOwners(t: seq<Event>, n: nat) {
    forall h, k, a :: LiveAt(t, n, h, a) && LiveAt(t, n, k, a) ==> h == k
  }

  /** What one more event does to the live handles. */
  lemma LiveStep(t: seq<Event>, n: nat, h: nat, a: nat)
    requires n < |t|
    ensures LiveAt(t, n + 1, h, a) <==> Opens(t, n, h, a) || (LiveAt(t, n, h, a) && !Closes(t, n, h))
  {
    if LiveAt(t, n + 1, h, a) && !Opens(t, n, h, a) {
      var i :| 0 <= i < n + 1 && Opens(t, i, h, a) && forall j :: i < j < n + 1 ==> !Closes(t, j, h);
      assert i < n;
    }
    if LiveAt(t, n, h, a) && !Closes(t, n, h) {
      var i :| 0 <= i < n && Opens(t, i, h, a) && forall j :: i < j < n ==> !Closes(t, j, h);
      assert forall j :: i < j < n + 1 ==> !Closes(t, j, h);
    }
  }

  // ----- what the checker's tables mean, on every trace

  predicate ClosesAt(t: seq<Event>, i: int, h: nat, a: nat) {
    Closes(t, i, h) && t[i].cpu == a
  }

  predicate OpensAt(t: seq<Event>, i: int, a: nat) {
    0 <= i < |t| && Opens(t, i, t[i].handle, a)
  }

  /** Handle h was the last to be mapped at a, and no close of h has named a since. */
  ghost predicate Holds(t: seq<Event>, n: nat, h: nat, a: nat) {
    exists i :: 0 <= i < n && Opens(t, i, h, a) && forall j :: i < j < n ==> !OpensAt(t, j, a) && !ClosesAt(t, j, h, a)
  }

  /** Handle h was mapped somewhere, and no close of h has named an address since. */
  ghost predicate Believed(t: seq<Event>, n: nat, h: nat) {
    exists i, a :: 0 <= i < n && Opens(t, i, h, a) && forall j :: i < j < n && Closes(t, j, h) ==> t[j].cpu == 0
  }

  lemma HoldsStep(t: seq<Event>, n: nat, h: nat, a: nat)
    requires n < |t|
    ensures Holds(t, n + 1, h, a) <==>
            Opens(t, n, h, a) || (Holds(t, n, h, a) && !OpensAt(t, n, a) && !ClosesAt(t, n, h, a))
  {
    if Holds(t, n + 1, h, a) && !Opens(t, n, h, a) {
      var i :| 0 <= i < n + 1 && Opens(t, i, h, a)
               && forall j :: i < j < n + 1 ==> !OpensAt(t, j, a) && !ClosesAt(t, j, h, a);
      assert i < n;
    }
    if Holds(t, n, h, a) && !OpensAt(t, n, a) && !ClosesAt(t, n, h, a) {
      var i :| 0 <= i < n && Opens(t, i, h, a)
               && forall j :: i < j < n ==> !OpensAt(t, j, a) && !ClosesAt(t, j, h, a);
      assert forall j :: i < j < n + 1 ==> !OpensAt(t, j, a) && !ClosesAt(t, j, h, a);
    }
  }

  lemma BelievedStep(t: seq<Event>, n: nat, h: nat)
    requires n < |t|
    ensures Believed(t, n + 1, h) <==>
            Opens(t, n, h, t[n].cpu) || (Believed(t, n, h) && !(Closes(t, n, h) && t[n].cpu != 0))
  {
    if Believed(t, n + 1, h) && !Opens(t, n, h, t[n].cpu) {
      var i, a :| 0 <= i < n + 1 && Opens(t, i, h, a) && forall j :: i < j < n + 1 && Closes(t, j, h) ==> t[j].cpu == 0;
      assert i < n;
    }
    if Believed(t, n, h) && !(Closes(t, n, h) && t[n].cpu != 0) {
      var i, a :| 0 <= i < n && Opens(t, i, h, a) && forall j :: i < j < n && Closes(t, j, h) ==> t[j].cpu == 0;
      assert forall j :: i < j < n + 1 && Closes(t, j, h) ==> t[j].cpu == 0;
    }
  }

  /** The owner table maps each address to its holder. */
  lemma {:induction false} OwnerIsHolder(t: seq<Event>, n: nat, h: nat, a: nat)
    requires n <= |t|
    ensures a in After(t, n).owner && After(t, n).owner[a] == h <==> Holds(t, n, h, a)
  {
    if n > 0 {
      assert After(t, n) == Step(After(t, n - 1), t[n - 1], n);
      OwnerIsHolder(t, n - 1, h, a);
      HoldsStep(t, n - 1, h, a);
    }
  }

  /** The live set is the set of the handles believed open. */
  lemma {:induction false} LiveIsBelieved(t: seq<Event>, n: nat, h: nat)
    requires n <= |t|
    ensures h in After(t, n).live <==> Believed(t, n, h)
  {
    if n > 0 {
      assert After(t, n) == Step(After(t, n - 1), t[n - 1], n);
      LiveIsBelieved(t, n - 1, h);
      BelievedStep(t, n - 1, h);
    }
  }

  /** Event m maps a handle at an address that another handle, still believed open, holds. */
  ghost predicate Clash(t: seq<Event>, m: nat, old_: nat, new_: nat, a: nat) {
    Opens(t, m, new_, a) && old_ != new_ && Holds(t, m, old_, a) && Believed(t, m, old_)
  }

  /** On every trace the report lists exactly the clashes, each with the number of its event. */
  lemma {:induction false} ReportsAreClashes(t: seq<Event>, n: nat, o: Overlap)
    requires n <= |t|
    ensures o in After(t, n).overlap <==> 1 <= o.at <= n && Clash(t, o.at - 1, o.old_, o.new_, o.cpu)
  {
    if n > 0 {
      ReportsAreClashes(t, n - 1, o);
      LastReport(t, n, o);
    }
  }

  lemma StepReports(s: State, e: Event, n: nat, o: Overlap)
    ensures o in Step(s, e, n).overlap <==>
            || o in s.overlap
            || (e.cpu != 0 && e.op != Close
                && e.cpu in s.owner && s.owner[e.cpu] != e.handle && s.owner[e.cpu] in s.live
                && o == Overlap(e.cpu, s.owner[e.cpu], e.handle, n))
  {
  }

  lemma LastReport(t: seq<Event>, n: nat, o: Overlap)
    requires 0 < n <= |t|
    ensures o in After(t, n).overlap <==>
            o in After(t, n - 1).overlap || (o.at == n && Clash(t, n - 1, o.old_, o.new_, o.cpu))
  {
    hide Holds, Believed, Step;
    var s, e := After(t, n - 1), t[n - 1];
    StepReports(s, e, n, o);
    OwnerIsHolder(t, n - 1, o.old_, o.cpu);
    LiveIsBelieved(t, n - 1, o.old_);
  }

  /** The report is empty exactly if no event clashes with a holder believed open. */
  lemma {:induction false} SilenceIffNoClash(t: seq<Event>, n: nat)
    requires n <= |t|
    ensures After(t, n).overlap == [] <==> forall m: nat, old_, new_, a :: m < n ==> !Clash(t, m, old_, new_, a)
  {
    forall m: nat, old_, new_, a | m < n && Clash(t, m, old_, new_, a)
      ensures After(t, n).overlap != []
    {
      ReportsAreClashes(t, n, Overlap(a, old_, new_, m + 1));
    }
    if After(t, n).overlap != [] {
      var o := After(t, n).overlap[0];
      ReportsAreClashes(t, n, o);
    }
  }

  // ----- what an empty report means

  lemma LiveIsBelievedOpen(t: seq<Event>, n: nat, h: nat, a: nat)
    requires LiveAt(t, n, h, a)
    ensures Believed(t, n, h)
  {
  }

  /** While nothing is reported, a live handle holds its address. */
  lemma {:induction false} LiveHandleHolds(t: seq<Event>, n: nat, h: nat, a: nat)
    requires n <= |t| && After(t, n).overlap == [] && LiveAt(t, n, h, a)
    ensures Holds(t, n, h, a)
  {
    if n > 0 {
      LiveStep(t, n - 1, h, a);
      HoldsStep(t, n - 1, h, a);
      if !Opens(t, n - 1, h, a) {
        OverlapsOnlyGrow(t, n - 1, n);
        LiveHandleHolds(t, n - 1, h, a);
        LiveIsBelievedOpen(t, n - 1, h, a);
        SilenceIffNoClash(t, n);
        assert !Clash(t, n - 1, h, t[n - 1].handle, a);
      }
    }
  }

  lemma {:induction false} OverlapsOnlyGrow(t: seq<Event>, m: nat, n: nat)
    requires m <= n <= |t|
    ensures After(t, m).overlap <= After(t, n).overlap
    decreases n - m
  {
    if m < n {
      OverlapsOnlyGrow(t, m, n - 1);
    }
  }

  /** Main result: on every trace an empty report proves that at no point an address has two live handles. */
  lemma {:induction false} SilenceIsSound(t: seq<Event>, n: nat)
    requires n <= |t| && After(t, |t|).overlap == []
    ensures SoleOwners(t, n)
  {
    OverlapsOnlyGrow(t, n, |t|);
    forall h, k, a | LiveAt(t, n, h, a) && LiveAt(t, n, k, a)
      ensures h == k
    {
      LiveHandleHolds(t, n, h, a);
      LiveHandleHolds(t, n, k, a);
      OwnerIsHolder(t, n, h, a);
      OwnerIsHolder(t, n, k, a);
    }
  }

  ghost predicate AlwaysSole(t: seq<Event>) {
    forall n: nat :: n <= |t| ==> SoleOwners(t, n)
  }

  /** Main result: the report is right, that is, empty exactly if there is nothing to report, if and only if there
      is something to report or no event clashes. So the one failure is the false alarm. */
  lemma {:induction false} ReportIsRightIff(t: seq<Event>)
    ensures (After(t, |t|).overlap == [] <==> AlwaysSole(t)) <==>
            !AlwaysSole(t) || forall m: nat, old_, new_, a :: m < |t| ==> !Clash(t, m, old_, new_, a)
  {
    SilenceIffNoClash(t, |t|);
    if After(t, |t|).overlap == [] {
      forall n: nat | n <= |t|
        ensures SoleOwners(t, n)
      {
        SilenceIsSound(t, n);
      }
    }
  }

  /** A reported event gives its address a second live handle exactly if the old handle is not closed since it
      was mapped there; and then the trace does have a double owner. */
  lemma {:induction false} ReportIsReal(t: seq<Event>, o: Overlap)
    requires o in After(t, |t|).overlap
    ensures 1 <= o.at <= |t| && o.old_ != o.new_ && LiveAt(t, o.at, o.new_, o.cpu)
    ensures LiveAt(t, o.at, o.old_, o.cpu) <==> LiveAt(t, o.at - 1, o.old_, o.cpu)
    ensures LiveAt(t, o.at - 1, o.old_, o.cpu) ==> !SoleOwners(t, o.at)
    ensures KeepsAddresses(t) ==> LiveAt(t, o.at - 1, o.old_, o.cpu)
  {
    ReportsAreClashes(t, |t|, o);
    LiveStep(t, o.at - 1, o.new_, o.cpu);
    LiveStep(t, o.at - 1, o.old_, o.cpu);
    if KeepsAddresses(t) {
      HolderIsLive(t, o.at - 1, o.old_, o.cpu);
    }
  }

  /** Where live handles keep their addresses and are closed at them, a holder is live. */
  lemma {:induction false} HolderIsLive(t: seq<Event>, n: nat, h: nat, a: nat)
    requires n <= |t| && KeepsAddresses(t) && Holds(t, n, h, a)
    ensures LiveAt(t, n, h, a)
  {
    if n > 0 {
      HoldsStep(t, n - 1, h, a);
      LiveStep(t, n - 1, h, a);
      if !Opens(t, n - 1, h, a) {
        HolderIsLive(t, n - 1, h, a);
      }
    }
  }

  /** On such traces the report is empty if and only if at no point an address has two live handles. */
  lemma {:induction false} SilenceIffSoleOwners(t: seq<Event>)
    requires KeepsAddresses(t)
    ensures After(t, |t|).overlap == [] <==> forall n :: 0 <= n <= |t| ==> SoleOwners(t, n)
  {
    if After(t, |t|).overlap == [] {
      forall n | 0 <= n <= |t|
        ensures SoleOwners(t, n)
      {
        SilenceIsSound(t, n);
      }
    } else {
      ReportIsReal(t, After(t, |t|).overlap[0]);
    }
  }

  /** After a silent trace the owner table maps every live address to its live handle; on a trace of that kind it
      holds nothing else. */
  lemma {:induction false} SilentOwners(t: seq<Event>, h: nat, a: nat)
    requires After(t, |t|).overlap == []
    ensures LiveAt(t, |t|, h, a) ==> a in After(t, |t|).owner && After(t, |t|).owner[a] == h
    ensures KeepsAddresses(t) && a in After(t, |t|).owner && After(t, |t|).owner[a] == h ==> LiveAt(t, |t|, h, a)
  {
    OwnerIsHolder(t, |t|, h, a);
    if LiveAt(t, |t|, h, a) {
      LiveHandleHolds(t, |t|, h, a);
    }
    if KeepsAddresses(t) && Holds(t, |t|, h, a) {
      HolderIsLive(t, |t|, h, a);
    }
  }

  /** Reuse is never mistaken for overlap: the reuse table lists every handle ever mapped at an address. */
  lemma {:induction false} ReuseIsHistory(t: seq<Event>, n: nat, h: nat, a: nat)
    requires n <= |t|
    ensures h in Handles(After(t, n).reuse, a) <==> exists i :: 0 <= i < n && Opens(t, i, h, a)
    decreases n
  {
    if n > 0 {
      ReuseIsHistory(t, n - 1, h, a);
      if exists i :: 0 <= i < n && Opens(t, i, h, a) {
        var i :| 0 <= i < n && Opens(t, i, h, a);
        assert i < n - 1 || i == n - 1;
      }
      if h in Handles(After(t, n).reuse, a) && !Opens(t, n - 1, h, a) {
        var i :| 0 <= i < n - 1 && Opens(t, i, h, a);
        assert 0 <= i < n;
      }
    }
  }

  /** The false alarm occurs: a close without an address is skipped, and the next owner is reported
      although the address never has two live handles. */
  lemma SkippedCloseIsReported()
    ensures var t := [Event(Create, 1, 16), Event(Close, 1, 0), Event(Create, 2, 16)];
            && !KeepsAddresses(t)
            && After(t, 3).overlap == [Overlap(16, 1, 2, 3)]
            && forall n :: 0 <= n <= 3 ==> SoleOwners(t, n)
  {
    var t := [Event(Create, 1, 16), Event(Close, 1, 0), Event(Create, 2, 16)];
    assert Opens(t, 0, 1, 16) && LiveAt(t, 1, 1, 16);
    assert After(t, 1) == Step(START, t[0], 1);
    assert After(t, 2) == Step(After(t, 1), t[1], 2);
    assert Closes(t, 1, 1);
  }

  /** The numbers of the events with an operation among the first n. */
  ghost function EventsWith(t: seq<Event>, n: nat, op: Op): set<int>
    requires n <= |t|
  {
    set i | 0 <= i < n && t[i].op == op
  }

  lemma StepCounts(s: State, e: Event, n: nat, op: Op)
    ensures Count(Step(s, e, n).ops, op) == Count(s.ops, op) + if e.op == op then 1 else 0
  {
  }

  lemma OneMoreEvent(t: seq<Event>, n: nat, op: Op)
    requires 0 < n <= |t|
    ensures |EventsWith(t, n, op)| == |EventsWith(t, n - 1, op)| + if t[n - 1].op == op then 1 else 0
  {
    var before := EventsWith(t, n - 1, op);
    assert n - 1 !in before;
    assert EventsWith(t, n, op) == if t[n - 1].op == op then before + {n - 1} else before;
  }

  /** The operations are counted. */
  lemma {:induction false} OpsAreCounted(t: seq<Event>, n: nat, op: Op)
    requires n <= |t|
    ensures Count(After(t, n).ops, op) == |EventsWith(t, n, op)|
  {
    hide Step;
    if n > 0 {
      OpsAreCounted(t, n - 1, op);
      StepCounts(After(t, n - 1), t[n - 1], n, op);
      OneMoreEvent(t, n, op);
    } else {
      assert EventsWith(t, 0, op) == {};
    }
  }
}
