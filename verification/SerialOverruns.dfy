/** When the overrun counter of a serial port is exact. A line-status interrupt adds to it without the lock,
    so an addition made between its read and its write is lost. */
module SerialOverruns {
  import opened SerialSteps

  /** All that the counter has to hold: the bytes dropped and the overruns reported. */
  function Total(s: State): nat {
    Drops(s.arrivals) + |s.reported|
  }

  predicate Exact(s: State) {
    s.overruns == Total(s) % 0x1_0000_0000
  }

  // ------------------------------------------------------------ which programs keep it exact

  /** Where the last reported overrun of a program is; 0 when there is none. */
  function LastReport(p: seq<Task>): (k: nat)
    ensures k <= |p|
    ensures Reports(p) > 0 ==> k < |p| && p[k] == LineStatus(true)
    ensures forall j :: k < j < |p| ==> p[j] != LineStatus(true)
  {
    if p == [] then 0
    else
      var last := |p| - 1;
      ReportsSplit(p, last);
      if p[last] == LineStatus(true) then last else LastReport(p[..last])
  }

  lemma {:induction false} ReportsSplit(p: seq<Task>, n: nat)
    requires n <= |p|
    ensures Reports(p) == Reports(p[..n]) + Reports(p[n..])
    decreases n
  {
    if n > 0 {
      ReportsSplit(p[1..], n - 1);
      assert p[..n][1..] == p[1..][..n - 1];
    } else {
      assert p[0..] == p;
    }
  }

  lemma {:induction false} ReadsSplit(p: seq<Task>, n: nat)
    requires n <= |p|
    ensures Reads(p) == Reads(p[..n]) + Reads(p[n..])
    decreases n
  {
    if n > 0 {
      ReadsSplit(p[1..], n - 1);
      assert p[..n][1..] == p[1..][..n - 1];
    } else {
      assert p[0..] == p;
    }
  }

  /** How many bytes the first `n` programs read, without the one of thread `w`. */
  function OthersRead(programs: seq<seq<Task>>, w: nat, n: nat): nat
    requires n <= |programs|
  {
    if n == 0 then 0
    else OthersRead(programs, w, n - 1) + if n - 1 == w then 0 else |Reads(programs[n - 1])|
  }

  /** How many bytes can arrive before thread `w` has added its last report. */
  function Load(programs: seq<seq<Task>>, w: nat): nat
    requires w < |programs|
  {
    |Reads(programs[w][..LastReport(programs[w])])| + OthersRead(programs, w, |programs|)
  }

  predicate OnlyReporter(programs: seq<seq<Task>>, w: nat) {
    w < |programs| && forall i :: 0 <= i < |programs| && i != w ==> Reports(programs[i]) == 0
  }

  predicate OnlyReader(programs: seq<seq<Task>>, w: nat) {
    forall i :: 0 <= i < |programs| && i != w ==> Reads(programs[i]) == []
  }

  /** Nobody reports an overrun; or only thread `w` does, and either no other thread reads bytes, or so few
      are read before its last report that the ring of 255 takes them all. */
  ghost predicate Exactable(programs: seq<seq<Task>>) {
    || (forall i :: 0 <= i < |programs| ==> Reports(programs[i]) == 0)
    || exists w: nat :: OnlyReporter(programs, w) && (OnlyReader(programs, w) || Load(programs, w) <= 255)
  }

  // ------------------------------------------------------------ what keeps it exact

  /** The counter, when the thread at `pc` is inside the lock (or none, with `pc` Out). */
  predicate CountBooks(s: State, pc: Pc) {
    && (pc.CountDrop? ==> pc.seen == s.overruns)
    && Drops(s.arrivals) >= UncountedDrop(pc)
    && s.overruns == (Drops(s.arrivals) - UncountedDrop(pc) + |s.reported|) % 0x1_0000_0000
  }

  /** The counter holds all drops and reports but the one the thread inside is about to add, and whoever is
      about to write has read its present value. */
  ghost predicate Ledger(s: State) {
    && (forall i :: 0 <= i < |s.threads| && s.threads[i].pc.AddOverrun? ==> s.threads[i].pc.seen == s.overruns)
    && (|| (Free(s) && CountBooks(s, Out))
        || exists h: nat :: Alone(s, h) && CountBooks(s, s.threads[h].pc))
  }

  predicate Adding(pc: Pc) {
    UncountedDrop(pc) == 1 || pc.AddOverrun?
  }

  /** While a thread adds a reported overrun no other thread adds to the counter. */
  ghost predicate Undisturbed(s: State) {
    forall i, j :: 0 <= i < |s.threads| && 0 <= j < |s.threads| && i != j && s.threads[i].pc.AddOverrun? ==>
      !Adding(s.threads[j].pc)
  }

  lemma CountEntry(s: State, i: nat)
    requires i < |s.threads| && s.threads[i].pc == Holds && s.threads[i].todo != [] && CountBooks(s, Holds)
    ensures var r := Step(s, i); CountBooks(r, r.threads[i].pc) && r.overruns == s.overruns
  {
    hide Drops, Inc;
    var task := s.threads[i].todo[0];
    if task.RxIrq? {
      ArrivalsNext(s.arrivals, Arrival(i, task.c, |s.rx| < 255), i);
    }
  }

  lemma CountInside(s: State, i: nat)
    requires i < |s.threads| && s.threads[i].pc != Holds && !StaysOut(s, i) && CountBooks(s, s.threads[i].pc)
    ensures var r := Step(s, i); CountBooks(r, r.threads[i].pc)
    ensures Step(s, i).overruns == s.overruns || s.threads[i].pc.CountDrop?
  {
    hide Drops, Inc, Enter;
    IncMod(Drops(s.arrivals) - UncountedDrop(s.threads[i].pc) + |s.reported|);
  }

  /** A step of the thread inside the lock, or of one that gets it. */
  lemma LedgerInside(s: State, i: nat)
    requires i < |s.threads| && PcFits(s.threads[i]) && Ledger(s) && Undisturbed(s) && !StaysOut(s, i)
    ensures Ledger(Step(s, i))
  {
    StepExclusive(s, i);
    StepOthers(s, i);
    InsideNext(s, i);
    hide Step, CountBooks, StaysOut, PcFits;
    if s.threads[i].pc == Holds {
      CountEntry(s, i);
    } else {
      CountInside(s, i);
    }
  }

  lemma InsideNext(s: State, i: nat)
    requires i < |s.threads| && PcFits(s.threads[i]) && !StaysOut(s, i)
    ensures s.threads[i].todo != [] && !Step(s, i).threads[i].pc.AddOverrun?
    ensures s.threads[i].pc.Leaving? ==> Step(s, i).threads[i].pc == Out
  {
  }

  /** A step outside the lock. */
  lemma LedgerOutside(s: State, i: nat)
    requires i < |s.threads| && PcFits(s.threads[i]) && Ledger(s) && Undisturbed(s) && StaysOut(s, i)
    ensures Ledger(Step(s, i))
  {
    StepOutside(s, i);
    StepOthers(s, i);
    hide TxBooks, IerOk, Drops, Inc;
    IncMod(Drops(s.arrivals) + |s.reported|);
  }

  lemma LedgerStep(s: State, i: nat)
    requires i < |s.threads| && PcFits(s.threads[i]) && Ledger(s) && Undisturbed(s)
    ensures Ledger(Step(s, i))
  {
    hide *;
    if StaysOut(s, i) {
      LedgerOutside(s, i);
    } else {
      LedgerInside(s, i);
    }
  }

  // ------------------------------------------------------------ what a thread has left to do

  lemma StepTail(s: State, i: nat)
    requires i < |s.threads|
    ensures var t, u := s.threads[i].todo, Step(s, i).threads[i].todo; u == t || (t != [] && u == t[1..])
  {
    hide Enter, Inc, Outside;
    if s.threads[i].todo != [] {
      EnterTail(s, i);
    }
  }

  lemma EnterTail(s: State, i: nat)
    requires i < |s.threads| && s.threads[i].todo != []
    ensures Enter(s, i, s.threads[i].todo[0]).threads[i].todo == s.threads[i].todo
    ensures var u := Outside(s, i, s.threads[i].todo[0]).threads[i].todo;
            u == s.threads[i].todo || u == s.threads[i].todo[1..]
  {
  }

  /** The rest of a program. */
  predicate Rest(todo: seq<Task>, program: seq<Task>) {
    |todo| <= |program| && todo == program[|program| - |todo|..]
  }

  lemma RestShrinks(todo: seq<Task>, program: seq<Task>)
    requires Rest(todo, program) && todo != []
    ensures Rest(todo[1..], program)
  {
  }

  /** Who has read a byte, and how many bytes must have arrived before one is dropped. */
  ghost predicate Runs(s: State, programs: seq<seq<Task>>) {
    && |s.threads| == |programs|
    && (forall i :: 0 <= i < |programs| ==> Rest(s.threads[i].todo, programs[i]))
    && (forall k :: 0 <= k < |s.arrivals| ==> s.arrivals[k].thread < |programs|)
    && (Drops(s.arrivals) > 0 ==> |s.arrivals| > 255)
  }

  lemma DropNeedsFullRing(s: State, i: nat)
    requires i < |s.threads| && RxBooks(s) && (Drops(s.arrivals) > 0 ==> |s.arrivals| > 255)
    ensures var r := Step(s, i); Drops(r.arrivals) > 0 ==> |r.arrivals| > 255
  {
    hide Drops, Kept;
    if s.threads[i].todo != [] && s.threads[i].pc == Holds && s.threads[i].todo[0].RxIrq? {
      ArrivalsNext(s.arrivals, Arrival(i, s.threads[i].todo[0].c, |s.rx| < 255), i);
    }
  }

  lemma RunsStep(s: State, i: nat, programs: seq<seq<Task>>)
    requires i < |s.threads| && Runs(s, programs) && RxBooks(s)
    ensures Runs(Step(s, i), programs)
  {
    StepOthers(s, i);
    StepTail(s, i);
    DropNeedsFullRing(s, i);
    Recorded(s, i);
    if s.threads[i].todo != [] {
      RestShrinks(s.threads[i].todo, programs[i]);
    }
    hide Step, RxBooks, Drops, Rest;
  }

  // ------------------------------------------------------------ arrivals before the last report

  /** The arrivals at the first `n` threads. */
  function ArrivedBelow(a: seq<Arrival>, n: nat): nat {
    if n == 0 then 0 else ArrivedBelow(a, n - 1) + |ArrivedAt(a, n - 1)|
  }

  lemma {:induction false} ArrivedBelowNext(a: seq<Arrival>, x: Arrival, n: nat)
    ensures ArrivedBelow(a + [x], n) == ArrivedBelow(a, n) + if x.thread < n then 1 else 0
  {
    if n > 0 {
      ArrivedBelowNext(a, x, n - 1);
      ArrivalsNext(a, x, n - 1);
    }
  }

  lemma {:induction false} NoneArrived(n: nat)
    ensures ArrivedBelow([], n) == 0
  {
    if n > 0 {
      NoneArrived(n - 1);
    }
  }

  lemma {:induction false} AllArrived(a: seq<Arrival>, n: nat)
    requires forall k :: 0 <= k < |a| ==> a[k].thread < n
    ensures ArrivedBelow(a, n) == |a|
  {
    if a == [] {
      NoneArrived(n);
    } else {
      var last := |a| - 1;
      AllArrived(a[..last], n);
      ArrivedBelowNext(a[..last], a[last], n);
      assert a == a[..last] + [a[last]];
    }
  }

  lemma {:induction false} ArrivedOfOthers(a: seq<Arrival>, programs: seq<seq<Task>>, w: nat, n: nat)
    requires n <= |programs| && forall i :: 0 <= i < |programs| ==> ArrivedAt(a, i) <= Reads(programs[i])
    ensures ArrivedBelow(a, n) <= OthersRead(programs, w, n) + if w < n then |ArrivedAt(a, w)| else 0
  {
    if n > 0 {
      ArrivedOfOthers(a, programs, w, n - 1);
      assert ArrivedAt(a, n - 1) <= Reads(programs[n - 1]);
    }
  }

  lemma StillReporting(p: seq<Task>, n: nat)
    requires n < |p| && p[n] == LineStatus(true)
    ensures n <= LastReport(p) && |Reads(p[..n])| <= |Reads(p[..LastReport(p)])|
  {
    var last := LastReport(p);
    assert n <= last;
    ReadsSplit(p[..last], n);
    assert p[..last][..n] == p[..n];
  }

  lemma ArrivedBeforeReport(s: State, programs: seq<seq<Task>>, w: nat)
    requires w < |s.threads| && w < |programs| && InProgram(s, w, programs[w]) && Rest(s.threads[w].todo, programs[w])
    requires PcFits(s.threads[w]) && s.threads[w].pc.AddOverrun?
    ensures |ArrivedAt(s.arrivals, w)| <= |Reads(programs[w][..LastReport(programs[w])])|
  {
    hide Reads, ArrivedAt, SentBy, CountOf;
    var p := programs[w];
    var n := |p| - |s.threads[w].todo|;
    StillReporting(p, n);
    ReadsSplit(p, n);
  }

  lemma FewArrivals(s: State, programs: seq<seq<Task>>, w: nat)
    requires Inv(s, programs) && Runs(s, programs) && w < |programs| && s.threads[w].pc.AddOverrun?
    requires Load(programs, w) <= 255
    ensures Drops(s.arrivals) == 0
  {
    hide Drops, PcFits, RxBooks, LockBooks, Rest, ArrivedAt, Reads;
    forall i | 0 <= i < |programs| ensures ArrivedAt(s.arrivals, i) <= Reads(programs[i]) {
      assert InProgram(s, i, programs[i]);
    }
    AllArrived(s.arrivals, |programs|);
    ArrivedOfOthers(s.arrivals, programs, w, |programs|);
    ArrivedBeforeReport(s, programs, w);
  }

  // ------------------------------------------------------------ exactness

  lemma ReportOfReporter(s: State, programs: seq<seq<Task>>, i: nat)
    requires Inv(s, programs) && i < |s.threads| && s.threads[i].pc.AddOverrun?
    ensures Reports(programs[i]) > 0
  {
    hide RxBooks, LockBooks, SentBy, ArrivedAt, CountOf;
    assert PcFits(s.threads[i]) && InProgram(s, i, programs[i]);
  }

  lemma {:induction false} HasRead(p: seq<Task>, k: nat)
    requires k < |p| && p[k].RxIrq?
    ensures Reads(p) != []
  {
    if k > 0 {
      HasRead(p[1..], k - 1);
    }
  }

  /** A thread that adds a dropped byte had one to read, and the drop is on record. */
  lemma DropOfReader(s: State, programs: seq<seq<Task>>, j: nat)
    requires Inv(s, programs) && Runs(s, programs) && Ledger(s) && j < |s.threads|
    requires UncountedDrop(s.threads[j].pc) == 1
    ensures Reads(programs[j]) != [] && Drops(s.arrivals) > 0
  {
    hide RxBooks, LockBooks, InProgram, Drops, Reads;
    assert PcFits(s.threads[j]);
    assert Rest(s.threads[j].todo, programs[j]);
    HasRead(programs[j], |programs[j]| - |s.threads[j].todo|);
    assert Inside(s.threads[j].pc);
  }

  lemma ExactableUndisturbed(s: State, programs: seq<seq<Task>>)
    requires Inv(s, programs) && Runs(s, programs) && Ledger(s) && Exactable(programs)
    ensures Undisturbed(s)
  {
    hide Inv, Runs, Ledger, Load, Drops, Reads, Reports;
    forall i, j | 0 <= i < |s.threads| && 0 <= j < |s.threads| && i != j && s.threads[i].pc.AddOverrun?
      ensures !Adding(s.threads[j].pc)
    {
      ReportOfReporter(s, programs, i);
      SameCount(s, programs);
      var w: nat :| OnlyReporter(programs, w) && (OnlyReader(programs, w) || Load(programs, w) <= 255);
      assert w == i;
      if s.threads[j].pc.AddOverrun? {
        ReportOfReporter(s, programs, j);
      } else if UncountedDrop(s.threads[j].pc) == 1 {
        DropOfReader(s, programs, j);
        if Load(programs, w) <= 255 {
          FewArrivals(s, programs, w);
        }
      }
    }
  }

  lemma SameCount(s: State, programs: seq<seq<Task>>)
    requires Inv(s, programs)
    ensures |s.threads| == |programs|
  {
  }

  lemma OpenedLedger(programs: seq<seq<Task>>)
    ensures Ledger(Opened(programs)) && Runs(Opened(programs), programs)
  {
  }

  lemma {:induction false} LedgerKept(programs: seq<seq<Task>>, schedule: seq<nat>)
    requires Exactable(programs)
    ensures var s := Steps(Opened(programs), schedule); Ledger(s) && Runs(s, programs)
  {
    hide *;
    if schedule == [] {
      OpenedLedger(programs);
      NoSteps(Opened(programs));
    } else {
      var front, i := schedule[..|schedule| - 1], schedule[|schedule| - 1];
      LedgerKept(programs, front);
      StepsKeep(programs, front);
      var s := Steps(Opened(programs), front);
      LastStep(Opened(programs), schedule);
      if i < |s.threads| {
        ExactableUndisturbed(s, programs);
        InvFits(s, i, programs);
        LedgerStep(s, i);
        InvRx(s, programs);
        RunsStep(s, i, programs);
      }
    }
  }

  lemma NoSteps(s: State)
    ensures Steps(s, []) == s
  {
  }

  lemma LastStep(s: State, schedule: seq<nat>)
    requires schedule != []
    ensures var t, i := Steps(s, schedule[..|schedule| - 1]), schedule[|schedule| - 1];
            Steps(s, schedule) == if i < |t.threads| then Step(t, i) else t
  {
  }

  lemma InvRx(s: State, programs: seq<seq<Task>>)
    requires Inv(s, programs)
    ensures RxBooks(s)
  {
  }

  /** On such programs the overrun counter is exact under every schedule, whenever the lock is free: every
      arrived byte is queued and counted as received, or counted as an overrun with the reported ones. */
  lemma OverrunsExact(programs: seq<seq<Task>>, schedule: seq<nat>)
    requires Exactable(programs)
    ensures var s := Steps(Opened(programs), schedule);
            && (s.lock == 0 ==> Exact(s))
            && |s.arrivals| == |Kept(s.arrivals)| + Drops(s.arrivals)
  {
    hide Steps, Drops, Kept, Runs, Exactable, Inv;
    LedgerKept(programs, schedule);
    StepsKeep(programs, schedule);
    InvRx(Steps(Opened(programs), schedule), programs);
  }

  // ------------------------------------------------------------ schedules that lose an addition

  /** Interrupt handlers: they neither send nor take bytes, so they never wait for another thread. */
  predicate Handlers(p: seq<Task>) {
    forall k :: 0 <= k < |p| ==> p[k].TxIrq? || p[k].RxIrq? || p[k].LineStatus?
  }

  ghost predicate AllHandlers(programs: seq<seq<Task>>) {
    forall i :: 0 <= i < |programs| ==> Handlers(programs[i])
  }

  /** Thread `i` is about to serve an interrupt, and nobody holds the lock. */
  ghost predicate Ready(s: State, i: nat) {
    && i < |s.threads| && s.threads[i].pc == Out && s.threads[i].todo != [] && Handlers(s.threads[i].todo)
    && s.lock == 0 && s.tx == []
  }

  /** The state after thread `i` has served its next interrupt without interruption. */
  function Served(s: State, i: nat): State
    requires i < |s.threads| && s.threads[i].todo != []
  {
    var r := Finished(s, i);
    match s.threads[i].todo[0]
    case LineStatus(overrun) =>
      if overrun then r.(overruns := Inc(s.overruns), reported := s.reported + [i]) else r
    case RxIrq(c) =>
      if |s.rx| < 255 then
        r.(rx := s.rx + [c], rxBytes := Inc(s.rxBytes), arrivals := s.arrivals + [Arrival(i, c, true)])
      else r.(overruns := Inc(s.overruns), arrivals := s.arrivals + [Arrival(i, c, false)])
    case _ => r.(ier := s.ier.(thre := false))
  }

  /** How many accesses that takes. */
  function Accesses(s: State, task: Task): nat {
    match task
    case LineStatus(overrun) => if overrun then 2 else 1
    case RxIrq(_) => if |s.rx| < 255 then 3 else 5
    case _ => 6
  }

  function Solo(i: nat, n: nat): seq<nat> {
    seq(n, _ => i)
  }

  lemma SoloNext(s: State, i: nat, n: nat)
    requires i < |s.threads|
    ensures Steps(s, Solo(i, 0)) == s
    ensures Steps(s, Solo(i, n + 1)) == Step(Steps(s, Solo(i, n)), i)
  {
    assert Solo(i, n + 1)[..n] == Solo(i, n);
  }

  lemma {:induction false} StepsJoin(s: State, a: seq<nat>, b: seq<nat>)
    ensures Steps(s, a + b) == Steps(Steps(s, a), b)
    decreases |b|
  {
    if b == [] {
      assert a + b == a;
    } else {
      assert (a + b)[..|a + b| - 1] == a + b[..|b| - 1];
      StepsJoin(s, a, b[..|b| - 1]);
    }
  }

  /** A step of thread `i` from `s` with its thread at `pc` to `r` with its thread at `next`. */
  ghost predicate Goes(s: State, i: nat, pc: Pc, r: State, next: Pc) {
    i < |s.threads| == |r.threads| && Step(Moved(s, i, pc), i) == Moved(r, i, next)
  }

  lemma Begins(s: State, i: nat)
    requires Ready(s, i)
    ensures Moved(s, i, Out) == s
    ensures !s.threads[i].todo[0].LineStatus? ==> Goes(s, i, Out, s.(lock := 1), Holds)
    ensures s.threads[i].todo[0] == LineStatus(true) ==> Goes(s, i, Out, s, AddOverrun(s.overruns))
  {
    assert s.threads[i := s.threads[i]] == s.threads;
  }

  lemma Ends(s: State, i: nat)
    requires i < |s.threads| && s.threads[i].todo != []
    ensures Step(Moved(s, i, Leaving(true)), i) == Finished(s.(lock := 0), i)
    ensures Step(Moved(s, i, AddOverrun(s.overruns)), i)
         == Finished(s.(overruns := Inc(s.overruns), reported := s.reported + [i]), i)
  {
  }

  lemma ServeReport(s: State, i: nat)
    requires Ready(s, i) && s.threads[i].todo[0].LineStatus?
    ensures Steps(s, Solo(i, Accesses(s, s.threads[i].todo[0]))) == Served(s, i)
  {
    SoloNext(s, i, 0);
    SoloNext(s, i, 1);
    if s.threads[i].todo[0].overrun {
      hide Steps, Step, Solo, Moved;
      Begins(s, i);
      Ends(s, i);
    } else {
      hide Steps, Solo;
    }
  }

  /** What a kept and a dropped byte do inside the lock. */
  lemma Arrives(s: State, i: nat)
    requires i < |s.threads| && s.threads[i].todo != [] && s.threads[i].todo[0].RxIrq?
    ensures var c := s.threads[i].todo[0].c;
            var r := s.(arrivals := s.arrivals + [Arrival(i, c, |s.rx| < 255)]);
            if |s.rx| < 255
            then Goes(s, i, Holds, r.(rx := s.rx + [c], rxBytes := Inc(s.rxBytes)), Leaving(true))
            else Goes(s, i, Holds, r, Dropped)
  {
  }

  lemma CountsDrop(s: State, i: nat)
    requires i < |s.threads| && s.threads[i].todo != []
    ensures Goes(s, i, Dropped, s, CountDrop(s.overruns))
    ensures Goes(s, i, CountDrop(s.overruns), s.(overruns := Inc(s.overruns)), Leaving(true))
  {
  }

  lemma ServeKept(s: State, i: nat)
    requires Ready(s, i) && s.threads[i].todo[0].RxIrq? && |s.rx| < 255
    ensures Steps(s, Solo(i, 3)) == Served(s, i)
  {
    hide Steps, Step, Solo, Moved, Inc;
    var c, t := s.threads[i].todo[0].c, s.(lock := 1);
    SoloNext(s, i, 0);
    SoloNext(s, i, 1);
    SoloNext(s, i, 2);
    Begins(s, i);
    Arrives(t, i);
    Ends(t.(rx := s.rx + [c], rxBytes := Inc(s.rxBytes), arrivals := s.arrivals + [Arrival(i, c, true)]), i);
  }

  lemma ServeDropped(s: State, i: nat)
    requires Ready(s, i) && s.threads[i].todo[0].RxIrq? && |s.rx| >= 255
    ensures Steps(s, Solo(i, 5)) == Served(s, i)
  {
    hide Steps, Step, Solo, Moved, Inc;
    var c, t := s.threads[i].todo[0].c, s.(lock := 1);
    var u := t.(arrivals := s.arrivals + [Arrival(i, c, false)]);
    SoloNext(s, i, 0);
    SoloNext(s, i, 1);
    SoloNext(s, i, 2);
    SoloNext(s, i, 3);
    SoloNext(s, i, 4);
    Begins(s, i);
    Arrives(t, i);
    CountsDrop(u, i);
    Ends(u.(overruns := Inc(s.overruns)), i);
  }

  /** A transmit interrupt with nothing to send turns itself off. */
  lemma ServesNothing(s: State, i: nat)
    requires i < |s.threads| && s.threads[i].todo != [] && s.threads[i].todo[0].TxIrq? && s.tx == []
    ensures Goes(s, i, Holds, s, TxLoop(0)) && Goes(s, i, TxLoop(0), s, TxCheck)
    ensures Goes(s, i, TxCheck, s, DisableThre(s.ier))
    ensures Goes(s, i, DisableThre(s.ier), s.(ier := s.ier.(thre := false)), Leaving(true))
  {
  }

  lemma ServeTxEmpty(s: State, i: nat)
    requires Ready(s, i) && s.threads[i].todo[0].TxIrq?
    ensures Steps(s, Solo(i, 6)) == Served(s, i)
  {
    hide Steps, Step, Solo, Moved;
    var t := s.(lock := 1);
    SoloNext(s, i, 0);
    SoloNext(s, i, 1);
    SoloNext(s, i, 2);
    SoloNext(s, i, 3);
    SoloNext(s, i, 4);
    SoloNext(s, i, 5);
    Begins(s, i);
    ServesNothing(t, i);
    Ends(t.(ier := s.ier.(thre := false)), i);
  }

  lemma ServeTask(s: State, i: nat)
    requires Ready(s, i)
    ensures Steps(s, Solo(i, Accesses(s, s.threads[i].todo[0]))) == Served(s, i)
  {
    hide Steps, Solo, Served;
    match s.threads[i].todo[0]
    case LineStatus(_) => ServeReport(s, i);
    case RxIrq(_) => if |s.rx| < 255 { ServeKept(s, i); } else { ServeDropped(s, i); }
    case _ => ServeTxEmpty(s, i);
  }

  /** Nobody is inside the lock, nothing waits to be sent, and the counter is exact. */
  ghost predicate Idle(s: State) {
    s.lock == 0 && s.tx == [] && |s.rx| <= 255 && Exact(s)
  }

  /** Serving the interrupt adds to the counter. */
  predicate Counts(s: State, task: Task) {
    task == LineStatus(true) || (task.RxIrq? && |s.rx| >= 255)
  }

  lemma ServedTotal(s: State, i: nat)
    requires Ready(s, i) && Idle(s)
    ensures var r, t := Served(s, i), s.threads[i];
            && Idle(r) && r.threads == s.threads[i := Thread(t.todo[1..], Out)]
            && Total(r) == Total(s) + (if Counts(s, t.todo[0]) then 1 else 0)
            && |r.rx| == if t.todo[0].RxIrq? && |s.rx| < 255 then |s.rx| + 1 else |s.rx|
  {
    hide Drops, Inc;
    var task := s.threads[i].todo[0];
    IncMod(Total(s));
    if task.RxIrq? {
      ArrivalsNext(s.arrivals, Arrival(i, task.c, |s.rx| < 255), i);
    }
  }

  /** Thread `w` serves its next `n` interrupts, the others wait. */
  lemma {:induction false} RunAlone(s: State, w: nat, n: nat) returns (schedule: seq<nat>)
    requires w < |s.threads| && Idle(s) && s.threads[w].pc == Out && Handlers(s.threads[w].todo)
    requires n <= |s.threads[w].todo|
    ensures var r := Steps(s, schedule);
            && Idle(r) && r.threads == s.threads[w := Thread(s.threads[w].todo[n..], Out)]
            && (|r.rx| == |s.rx| + |Reads(s.threads[w].todo[..n])| || |r.rx| == 255)
    decreases n
  {
    hide Served, Exact;
    if n == 0 {
      schedule := [];
    } else {
      var t := s.threads[w];
      ServeTask(s, w);
      ServedTotal(s, w);
      var first := Solo(w, Accesses(s, t.todo[0]));
      var rest := RunAlone(Served(s, w), w, n - 1);
      schedule := first + rest;
      StepsJoin(s, first, rest);
      assert t.todo[..n][1..] == t.todo[1..][..n - 1];
    }
  }

  function Todos(threads: seq<Thread>): (p: seq<seq<Task>>)
    ensures |p| == |threads|
  {
    seq(|threads|, i requires 0 <= i < |threads| => threads[i].todo)
  }

  /** All threads but `w` wait outside, and serve interrupts. */
  ghost predicate OthersReady(s: State, w: nat) {
    forall j :: 0 <= j < |s.threads| && j != w ==> s.threads[j].pc == Out && Handlers(s.threads[j].todo)
  }

  /** Some thread but `w` has a report left, or together they have more bytes to read than the ring takes. */
  ghost predicate WillCount(s: State, w: nat) {
    || (exists j :: 0 <= j < |s.threads| && j != w && Reports(s.threads[j].todo) > 0)
    || |s.rx| + OthersRead(Todos(s.threads), w, |s.threads|) > 255
  }

  /** The interrupts that the first `n` threads still have to serve, without those of `w`. */
  function Remaining(threads: seq<Thread>, w: nat, n: nat): nat
    requires n <= |threads|
  {
    if n == 0 then 0 else Remaining(threads, w, n - 1) + if n - 1 == w then 0 else |threads[n - 1].todo|
  }

  lemma {:induction false} RemainingServed(threads: seq<Thread>, w: nat, j: nat, n: nat)
    requires n <= |threads| && j < |threads| && j != w && threads[j].todo != []
    ensures Remaining(threads[j := Thread(threads[j].todo[1..], Out)], w, n)
         == Remaining(threads, w, n) - if j < n then 1 else 0
  {
    if n > 0 {
      RemainingServed(threads, w, j, n - 1);
    }
  }

  lemma {:induction false} OthersReadServed(p: seq<seq<Task>>, w: nat, j: nat, n: nat)
    requires n <= |p| && j < |p| && j != w && p[j] != []
    ensures OthersRead(p[j := p[j][1..]], w, n) == OthersRead(p, w, n) - if j < n && p[j][0].RxIrq? then 1 else 0
  {
    if n > 0 {
      OthersReadServed(p, w, j, n - 1);
    }
  }

  /** Nothing can be left to count when nobody has anything to do. */
  lemma {:induction false} NothingLeft(p: seq<seq<Task>>, w: nat, n: nat)
    requires n <= |p| && forall j :: 0 <= j < n && j != w ==> p[j] == []
    ensures OthersRead(p, w, n) == 0
  {
    if n > 0 {
      NothingLeft(p, w, n - 1);
    }
  }

  lemma SomeoneHasWork(s: State, w: nat) returns (j: nat)
    requires WillCount(s, w) && |s.rx| <= 255
    ensures j < |s.threads| && j != w && s.threads[j].todo != []
  {
    if forall j :: 0 <= j < |s.threads| && j != w ==> s.threads[j].todo == [] {
      NothingLeft(Todos(s.threads), w, |s.threads|);
      assert false;
    }
    j :| 0 <= j < |s.threads| && j != w && s.threads[j].todo != [];
  }

  /** An interrupt that counts nothing leaves as much to count. */
  lemma StillCounts(s: State, w: nat, j: nat)
    requires Ready(s, j) && Idle(s) && j != w && WillCount(s, w) && !Counts(s, s.threads[j].todo[0])
    ensures WillCount(Served(s, j), w)
  {
    var r, t := Served(s, j), s.threads[j];
    ServedTotal(s, j);
    OthersReadServed(Todos(s.threads), w, j, |s.threads|);
    assert Todos(r.threads) == Todos(s.threads)[j := t.todo[1..]];
    if k :| 0 <= k < |s.threads| && k != w && Reports(s.threads[k].todo) > 0 {
      assert Reports(r.threads[k].todo) > 0;
    }
  }

  /** The other threads serve interrupts one after the other until one of them adds to the counter. */
  lemma {:induction false} UntilCounted(s: State, w: nat) returns (schedule: seq<nat>)
    requires w < |s.threads| && Idle(s) && OthersReady(s, w) && WillCount(s, w)
    ensures var r := Steps(s, schedule);
            Idle(r) && |r.threads| == |s.threads| && r.threads[w] == s.threads[w] && Total(r) == Total(s) + 1
    decreases Remaining(s.threads, w, |s.threads|)
  {
    hide Served, Total, Exact, WillCount, Reports, Reads, Steps, Counts;
    var j := SomeoneHasWork(s, w);
    var task := s.threads[j].todo[0];
    schedule := Solo(j, Accesses(s, task));
    ServeTask(s, j);
    ServedTotal(s, j);
    if !Counts(s, task) {
      StillCounts(s, w, j);
      RemainingServed(s.threads, w, j, |s.threads|);
      var rest := UntilCounted(Served(s, j), w);
      StepsJoin(s, schedule, rest);
      schedule := schedule + rest;
    }
  }

  /** A thread that has read the counter writes it after somebody else has added to it. */
  lemma LateWrite(s: State, w: nat, seen: nat)
    requires w < |s.threads| && s.threads[w].pc == AddOverrun(seen) && s.threads[w].todo != []
    requires s.lock == 0 && Total(s) >= 1 && seen == (Total(s) - 1) % 0x1_0000_0000
    ensures var r := Step(s, w); r.lock == 0 && !Exact(r)
  {
    hide Drops;
    IncMod(Total(s) - 1);
  }

  /** Thread `w` reads the counter for its last report, another thread adds to it, and `w` writes. */
  lemma Lost(programs: seq<seq<Task>>, w: nat) returns (schedule: seq<nat>)
    requires AllHandlers(programs) && w < |programs| && Reports(programs[w]) > 0
    requires !OnlyReporter(programs, w) || (!OnlyReader(programs, w) && Load(programs, w) > 255)
    ensures var s := Steps(Opened(programs), schedule); s.lock == 0 && !Exact(s)
  {
    hide Steps, Total, WillCount, Reports, Reads, Load, OnlyReporter, OnlyReader, Step;
    var p, n, s0 := programs[w], LastReport(programs[w]), Opened(programs);
    OpenedIdle(programs);
    var a := RunAlone(s0, w, n);
    var s1 := Steps(s0, a);
    var s2 := Step(s1, w);
    ReadsNow(s1, w);
    AtLastReport(programs, w, s1, s2);
    var b := UntilCounted(s2, w);
    var s3 := Steps(s2, b);
    LateWrite(s3, w, s1.overruns);
    OneStep(s1, w);
    OneStep(s3, w);
    StepsJoin(s0, a, [w]);
    StepsJoin(s0, a + [w], b);
    StepsJoin(s0, a + [w] + b, [w]);
    schedule := a + [w] + b + [w];
  }

  lemma OneStep(s: State, i: nat)
    requires i < |s.threads|
    ensures Steps(s, [i]) == Step(s, i)
  {
    assert [i][..0] == [];
  }

  lemma OpenedIdle(programs: seq<seq<Task>>)
    ensures Idle(Opened(programs))
  {
  }

  lemma ReadsNow(s: State, w: nat)
    requires w < |s.threads| && s.threads[w].pc == Out && s.threads[w].todo != []
    requires s.threads[w].todo[0] == LineStatus(true)
    ensures var r := Step(s, w);
            && r == s.(threads := s.threads[w := Thread(s.threads[w].todo, AddOverrun(s.overruns))])
            && Total(r) == Total(s) && (Idle(s) ==> Idle(r))
  {
    hide Drops;
  }

  lemma {:induction false} SomeoneReads(p: seq<seq<Task>>, w: nat, n: nat)
    requires n <= |p| && exists j :: 0 <= j < n && j != w && Reads(p[j]) != []
    ensures OthersRead(p, w, n) > 0
  {
    var j :| 0 <= j < n && j != w && Reads(p[j]) != [];
    if j < n - 1 {
      SomeoneReads(p, w, n - 1);
    }
  }

  lemma {:induction false} OthersReadSame(p: seq<seq<Task>>, q: seq<seq<Task>>, w: nat, n: nat)
    requires n <= |p| == |q| && forall j :: 0 <= j < n && j != w ==> p[j] == q[j]
    ensures OthersRead(p, w, n) == OthersRead(q, w, n)
  {
    if n > 0 {
      OthersReadSame(p, q, w, n - 1);
    }
  }

  /** When `w` has read the counter for its last report, the others still have something to add. */
  lemma AtLastReport(programs: seq<seq<Task>>, w: nat, s: State, r: State)
    requires AllHandlers(programs) && w < |programs|
    requires !OnlyReporter(programs, w) || (!OnlyReader(programs, w) && Load(programs, w) > 255)
    requires var n := LastReport(programs[w]);
             && s.threads == Opened(programs).threads[w := Thread(programs[w][n..], Out)]
             && (|s.rx| == |Reads(programs[w][..n])| || |s.rx| == 255)
    requires |r.threads| == |s.threads| && r.rx == s.rx
    requires forall j :: 0 <= j < |s.threads| && j != w ==> r.threads[j] == s.threads[j]
    ensures OthersReady(r, w) && WillCount(r, w)
  {
    hide Reads, Reports;
    OthersReadSame(programs, Todos(r.threads), w, |programs|);
    if OnlyReporter(programs, w) {
      SomeoneReads(programs, w, |programs|);
    } else {
      var j :| 0 <= j < |programs| && j != w && Reports(programs[j]) != 0;
      assert Reports(r.threads[j].todo) > 0;
    }
  }

  /** For interrupt handlers the counter is exact under every schedule, whenever the lock is free, if and only
      if nobody reports an overrun, or one thread does and no other can drop a byte meanwhile. */
  lemma ExactIff(programs: seq<seq<Task>>)
    requires AllHandlers(programs)
    ensures Exactable(programs)
       <==> forall schedule: seq<nat> ::
              var s := Steps(Opened(programs), schedule); s.lock == 0 ==> Exact(s)
  {
    hide Steps, Exact, Load, OnlyReader, Reports;
    if Exactable(programs) {
      forall schedule: seq<nat>
        ensures var s := Steps(Opened(programs), schedule); s.lock == 0 ==> Exact(s)
      {
        OverrunsExact(programs, schedule);
      }
    } else {
      var w :| 0 <= w < |programs| && Reports(programs[w]) != 0;
      var schedule := Lost(programs, w);
    }
  }
}
