/** Producers, consumers and interrupt handlers on one serial port, one memory or port access at a time,
    in any interleaving. */
module SerialSteps {

  /** What a thread still has to do: send a byte, serve a transmit interrupt, serve a receive interrupt that
      has read `c` from the port, serve a line-status interrupt, take a byte. */
  datatype Task = Send(c: nat) | TxIrq | RxIrq(c: nat) | LineStatus(overrun: bool) | Receive

  /** The interrupt-enable register. */
  datatype Ier = Ier(rda: bool, thre: bool, rls: bool)

  /** Where a thread is: outside the lock (Out, and AddOverrun), or inside with the lock held. */
  datatype Pc =
    | Out
    | Holds
    | Pushed
    | EnableThre(read: Ier)
    | CountTx
    | TxLoop(sent: nat)
    | TxByte(sent: nat, c: nat)
    | TxCheck
    | DisableThre(read: Ier)
    | Dropped
    | CountDrop(seen: nat)
    | Leaving(finished: bool)
    | AddOverrun(seen: nat)

  datatype Thread = Thread(todo: seq<Task>, pc: Pc)

  datatype Accepted = Accepted(thread: nat, c: nat)

  datatype Arrival = Arrival(thread: nat, c: nat, kept: bool)

  /** The port with its rings as queues, and what has happened on it so far: the bytes sent, accepted,
      arrived and delivered, and the threads that have added a reported overrun. */
  datatype State = State(
    threads: seq<Thread>, lock: nat, ier: Ier, tx: seq<nat>, rx: seq<nat>,
    txBytes: nat, rxBytes: nat, overruns: nat,
    wire: seq<nat>, accepted: seq<Accepted>, arrivals: seq<Arrival>, delivered: seq<nat>, reported: seq<nat>)

  function Moved(s: State, i: nat, pc: Pc): State
    requires i < |s.threads|
  {
    s.(threads := s.threads[i := Thread(s.threads[i].todo, pc)])
  }

  function Inc(n: nat): nat {
    (n + 1) % 0x1_0000_0000
  }

  lemma IncMod(n: nat)
    ensures Inc(n % 0x1_0000_0000) == (n + 1) % 0x1_0000_0000
  {
  }

  /** What a thread does first with the lock: its ring operation. */
  function Enter(s: State, i: nat, task: Task): State
    requires i < |s.threads|
  {
    match task
    case Send(c) =>
      if |s.tx| < 255 then Moved(s.(tx := s.tx + [c], accepted := s.accepted + [Accepted(i, c)]), i, Pushed)
      else Moved(s, i, Leaving(false))
    case TxIrq => Moved(s, i, TxLoop(0))
    case RxIrq(c) =>
      if |s.rx| < 255 then
        var kept := s.arrivals + [Arrival(i, c, true)];
        Moved(s.(rx := s.rx + [c], rxBytes := Inc(s.rxBytes), arrivals := kept), i, Leaving(true))
      else Moved(s.(arrivals := s.arrivals + [Arrival(i, c, false)]), i, Dropped)
    case LineStatus(_) => s
    case Receive =>
      if s.rx == [] then Moved(s, i, Leaving(true))
      else Moved(s.(rx := s.rx[1..], delivered := s.delivered + [s.rx[0]]), i, Leaving(true))
  }

  function Finished(s: State, i: nat): State
    requires i < |s.threads| && s.threads[i].todo != []
  {
    s.(threads := s.threads[i := Thread(s.threads[i].todo[1..], Out)])
  }

  /** A thread outside the lock: it tries to get it, or serves a line-status interrupt, which needs none. */
  function Outside(s: State, i: nat, task: Task): State
    requires i < |s.threads| && s.threads[i].todo != []
  {
    if task.LineStatus? then if task.overrun then Moved(s, i, AddOverrun(s.overruns)) else Finished(s, i)
    else if s.lock == 0 then Moved(s.(lock := 1), i, Holds)
    else s
  }

  /** One access by thread `i`. A thread that finds the lock taken stays where it is. */
  function Step(s: State, i: nat): State
    requires i < |s.threads|
  {
    var t := s.threads[i];
    if t.todo == [] then s
    else
      match t.pc
      case Out => Outside(s, i, t.todo[0])
      case Holds => Enter(s, i, t.todo[0])
      case Pushed => Moved(s, i, EnableThre(s.ier))
      case EnableThre(v) => Moved(s.(ier := v.(thre := true)), i, CountTx)
      case CountTx => Moved(s.(txBytes := Inc(s.txBytes)), i, Leaving(true))
      case TxLoop(n) =>
        if n < 16 && s.tx != [] then Moved(s.(tx := s.tx[1..]), i, TxByte(n, s.tx[0])) else Moved(s, i, TxCheck)
      case TxByte(n, c) => Moved(s.(wire := s.wire + [c]), i, TxLoop(n + 1))
      case TxCheck => if s.tx == [] then Moved(s, i, DisableThre(s.ier)) else Moved(s, i, Leaving(true))
      case DisableThre(v) => Moved(s.(ier := v.(thre := false)), i, Leaving(true))
      case Dropped => Moved(s, i, CountDrop(s.overruns))
      case CountDrop(v) => Moved(s.(overruns := Inc(v)), i, Leaving(true))
      case AddOverrun(v) => Finished(s.(overruns := Inc(v), reported := s.reported + [i]), i)
      case Leaving(finished) =>
        s.(lock := 0, threads := s.threads[i := Thread(if finished then t.todo[1..] else t.todo, Out)])
  }

  // ------------------------------------------------------------ what every interleaving keeps

  function Bytes(a: seq<Accepted>): seq<nat> {
    if a == [] then [] else Bytes(a[..|a| - 1]) + [a[|a| - 1].c]
  }

  /** The accepted bytes of one thread. */
  function SentBy(a: seq<Accepted>, i: nat): seq<nat> {
    if a == [] then []
    else SentBy(a[..|a| - 1], i) + if a[|a| - 1].thread == i then [a[|a| - 1].c] else []
  }

  function Kept(a: seq<Arrival>): seq<nat> {
    if a == [] then [] else Kept(a[..|a| - 1]) + if a[|a| - 1].kept then [a[|a| - 1].c] else []
  }

  /** How many arrived bytes found the ring full. */
  function Drops(a: seq<Arrival>): nat {
    if a == [] then 0 else Drops(a[..|a| - 1]) + if a[|a| - 1].kept then 0 else 1
  }

  /** The arrivals at one thread. */
  function ArrivedAt(a: seq<Arrival>, i: nat): seq<nat> {
    if a == [] then []
    else ArrivedAt(a[..|a| - 1], i) + if a[|a| - 1].thread == i then [a[|a| - 1].c] else []
  }

  function CountOf(a: seq<nat>, i: nat): nat {
    if a == [] then 0 else CountOf(a[..|a| - 1], i) + if a[|a| - 1] == i then 1 else 0
  }

  /** The bytes a program sends. */
  function Sends(p: seq<Task>): seq<nat> {
    if p == [] then [] else (if p[0].Send? then [p[0].c] else []) + Sends(p[1..])
  }

  /** The bytes a program's receive interrupts read from the port. */
  function Reads(p: seq<Task>): seq<nat> {
    if p == [] then [] else (if p[0].RxIrq? then [p[0].c] else []) + Reads(p[1..])
  }

  /** The overruns a program's line-status interrupts report. */
  function Reports(p: seq<Task>): nat {
    if p == [] then 0 else (if p[0] == LineStatus(true) then 1 else 0) + Reports(p[1..])
  }

  /** The byte a handler has taken out of the ring and not yet written to the port. */
  function InFlight(pc: Pc): seq<nat> {
    if pc.TxByte? then [pc.c] else []
  }

  /** Accepted but not yet counted. */
  function Uncounted(pc: Pc): nat {
    if pc.Pushed? || pc.EnableThre? || pc.CountTx? then 1 else 0
  }

  /** Dropped but not yet counted. */
  function UncountedDrop(pc: Pc): nat {
    if pc.Dropped? || pc.CountDrop? then 1 else 0
  }

  /** Whether the first task's byte is already accepted. */
  predicate HeadSent(t: Thread) {
    t.todo != [] && (Uncounted(t.pc) == 1 || (t.pc == Leaving(true) && t.todo[0].Send?))
  }

  /** Whether the first task's byte has already arrived. */
  predicate HeadRead(t: Thread) {
    t.todo != [] && (UncountedDrop(t.pc) == 1 || (t.pc == Leaving(true) && t.todo[0].RxIrq?))
  }

  /** What a thread still has to send, and to read. */
  function Pending(t: Thread): seq<nat> {
    Sends(if HeadSent(t) then t.todo[1..] else t.todo)
  }

  function Unread(t: Thread): seq<nat> {
    Reads(if HeadRead(t) then t.todo[1..] else t.todo)
  }

  predicate Inside(pc: Pc) {
    pc != Out && !pc.AddOverrun?
  }

  /** The enable register against the ring, at each place inside the lock. */
  predicate IerOk(s: State, pc: Pc) {
    match pc
    case Pushed => s.tx != []
    case EnableThre(v) => s.tx != [] && v == s.ier
    case CountTx => s.tx != [] && s.ier.thre
    case TxLoop(_) => s.tx != [] ==> s.ier.thre
    case TxByte(_, _) => s.tx != [] ==> s.ier.thre
    case TxCheck => s.tx != [] ==> s.ier.thre
    case DisableThre(v) => s.tx == [] && v == s.ier
    case _ => s.ier.thre <==> s.tx != []
  }

  predicate PcFits(t: Thread) {
    && (t.pc != Out ==> t.todo != [])
    && (Inside(t.pc) ==> !t.todo[0].LineStatus?)
    && (t.pc.AddOverrun? ==> t.todo[0] == LineStatus(true))
    && (Uncounted(t.pc) == 1 ==> t.todo[0].Send?)
    && (UncountedDrop(t.pc) == 1 ==> t.todo[0].RxIrq?)
    && (t.pc == Leaving(false) ==> t.todo[0].Send?)
    && (t.pc.TxLoop? || t.pc.TxByte? || t.pc.TxCheck? || t.pc.DisableThre? ==> t.todo[0].TxIrq?)
  }

  /** The books of the transmit side, when the thread at `pc` is inside the lock (or none, with `pc` Out). */
  predicate TxBooks(s: State, pc: Pc) {
    && |s.tx| <= 255
    && Bytes(s.accepted) == s.wire + InFlight(pc) + s.tx
    && |s.accepted| >= Uncounted(pc) && s.txBytes == (|s.accepted| - Uncounted(pc)) % 0x1_0000_0000
  }

  /** The books of the receive side: what was not dropped was delivered or waits, and is counted. */
  predicate RxBooks(s: State) {
    && |s.rx| <= 255
    && Kept(s.arrivals) == s.delivered + s.rx
    && s.rxBytes == |Kept(s.arrivals)| % 0x1_0000_0000
    && |s.arrivals| == |Kept(s.arrivals)| + Drops(s.arrivals)
  }

  /** Each thread has sent, read and reported a prefix of its program. */
  predicate InProgram(s: State, i: nat, program: seq<Task>)
    requires i < |s.threads|
  {
    && SentBy(s.accepted, i) + Pending(s.threads[i]) == Sends(program)
    && ArrivedAt(s.arrivals, i) + Unread(s.threads[i]) == Reads(program)
    && CountOf(s.reported, i) + Reports(s.threads[i].todo) == Reports(program)
  }

  /** Only the thread `h` is inside the lock. */
  ghost predicate Alone(s: State, h: nat) {
    h < |s.threads| && Inside(s.threads[h].pc) && s.lock == 1
    && forall i :: 0 <= i < |s.threads| && i != h ==> !Inside(s.threads[i].pc)
  }

  ghost predicate Free(s: State) {
    s.lock == 0 && forall i :: 0 <= i < |s.threads| ==> !Inside(s.threads[i].pc)
  }

  /** The transmit side's books, with the thread inside the lock if there is one. */
  ghost predicate LockBooks(s: State) {
    || (Free(s) && TxBooks(s, Out) && IerOk(s, Out))
    || exists h: nat :: Alone(s, h) && TxBooks(s, s.threads[h].pc) && IerOk(s, s.threads[h].pc)
  }

  ghost predicate Inv(s: State, programs: seq<seq<Task>>) {
    && |programs| == |s.threads|
    && (forall i :: 0 <= i < |s.threads| ==> PcFits(s.threads[i]))
    && (forall i :: 0 <= i < |s.threads| ==> InProgram(s, i, programs[i]))
    && RxBooks(s)
    && LockBooks(s)
  }

  function Opened(programs: seq<seq<Task>>): State {
    State(seq(|programs|, i requires 0 <= i < |programs| => Thread(programs[i], Out)), 0, Ier(true, false, true),
          [], [], 0, 0, 0, [], [], [], [], [])
  }

  lemma OpenedKeeps(programs: seq<seq<Task>>)
    ensures Inv(Opened(programs), programs)
  {
  }

  // ------------------------------------------------------------ one access

  lemma EnterTx(s: State, i: nat, task: Task)
    requires i < |s.threads| && TxBooks(s, Holds) && IerOk(s, Holds) && !task.LineStatus?
    ensures var r := Enter(s, i, task); TxBooks(r, r.threads[i].pc) && IerOk(r, r.threads[i].pc)
  {
    hide Bytes;
    if task.Send? {
      AcceptedNext(s.accepted, Accepted(i, task.c), i);
    }
  }

  /** The transmit interrupt's steps. */
  lemma ServeTx(s: State, i: nat)
    requires i < |s.threads| && s.threads[i].todo != []
    requires var pc := s.threads[i].pc; pc.TxLoop? || pc.TxByte? || pc.TxCheck? || pc.DisableThre?
    requires TxBooks(s, s.threads[i].pc) && IerOk(s, s.threads[i].pc)
    ensures var r := Step(s, i); TxBooks(r, r.threads[i].pc) && IerOk(r, r.threads[i].pc)
  {
    hide Bytes, Enter, Outside;
    assert s.tx != [] ==> s.wire + s.tx == s.wire + [s.tx[0]] + s.tx[1..];
  }

  /** The books of the transmit side after the step of the thread inside, or after it entered. */
  lemma StepTx(s: State, i: nat)
    requires i < |s.threads| && PcFits(s.threads[i]) && s.threads[i].todo != []
    requires TxBooks(s, s.threads[i].pc) && IerOk(s, s.threads[i].pc)
    requires !s.threads[i].pc.AddOverrun?
    requires s.threads[i].pc == Out ==> s.lock == 0 && !s.threads[i].todo[0].LineStatus?
    ensures var r := Step(s, i); TxBooks(r, r.threads[i].pc) && IerOk(r, r.threads[i].pc)
  {
    var t := s.threads[i];
    hide Bytes, Enter;
    if t.pc == Holds {
      EnterTx(s, i, t.todo[0]);
    } else if t.pc.TxLoop? || t.pc.TxByte? || t.pc.TxCheck? || t.pc.DisableThre? {
      ServeTx(s, i);
    } else {
      ServeSend(s, i);
    }
  }

  /** A sender's steps, the counting of a dropped byte, and the lock itself. */
  lemma ServeSend(s: State, i: nat)
    requires i < |s.threads| && s.threads[i].todo != []
    requires var pc := s.threads[i].pc;
             || Uncounted(pc) == 1 || UncountedDrop(pc) == 1 || pc.Leaving?
             || (pc == Out && s.lock == 0 && !s.threads[i].todo[0].LineStatus?)
    requires TxBooks(s, s.threads[i].pc) && IerOk(s, s.threads[i].pc)
    ensures var r := Step(s, i); TxBooks(r, r.threads[i].pc) && IerOk(r, r.threads[i].pc)
  {
    hide Bytes, Enter;
  }

  lemma EnterRx(s: State, i: nat, task: Task)
    requires i < |s.threads| && RxBooks(s)
    ensures RxBooks(Enter(s, i, task))
  {
    hide Kept, Drops, Inc;
    if task.RxIrq? {
      IncMod(|Kept(s.arrivals)|);
      ArrivalsNext(s.arrivals, Arrival(i, task.c, |s.rx| < 255), i);
      assert s.delivered + (s.rx + [task.c]) == (s.delivered + s.rx) + [task.c];
    } else if task.Receive? {
      assert s.rx != [] ==> s.delivered + [s.rx[0]] + s.rx[1..] == s.delivered + s.rx;
    }
  }

  lemma StepFits(s: State, i: nat)
    requires i < |s.threads| && PcFits(s.threads[i]) && s.threads[i].todo != []
    ensures PcFits(Step(s, i).threads[i])
  {
  }

  lemma StepRx(s: State, i: nat)
    requires i < |s.threads| && s.threads[i].todo != [] && RxBooks(s)
    ensures RxBooks(Step(s, i))
  {
    hide Kept, Drops, Enter;
    if s.threads[i].pc == Holds {
      EnterRx(s, i, s.threads[i].todo[0]);
    }
  }

  lemma AcceptedNext(s: seq<Accepted>, a: Accepted, j: nat)
    ensures Bytes(s + [a]) == Bytes(s) + [a.c]
    ensures SentBy(s + [a], j) == SentBy(s, j) + if a.thread == j then [a.c] else []
  {
    assert (s + [a])[..|s|] == s;
  }

  lemma ArrivalsNext(s: seq<Arrival>, a: Arrival, j: nat)
    ensures Kept(s + [a]) == Kept(s) + if a.kept then [a.c] else []
    ensures Drops(s + [a]) == Drops(s) + if a.kept then 0 else 1
    ensures ArrivedAt(s + [a], j) == ArrivedAt(s, j) + if a.thread == j then [a.c] else []
  {
    assert (s + [a])[..|s|] == s;
  }

  lemma ReportedNext(s: seq<nat>, i: nat, j: nat)
    ensures CountOf(s + [i], j) == CountOf(s, j) + if i == j then 1 else 0
  {
    assert (s + [i])[..|s|] == s;
  }

  /** What thread `i` still has to do shrinks by exactly what its step did. */
  lemma OwnStep(s: State, i: nat)
    requires i < |s.threads| && PcFits(s.threads[i])
    ensures var r := Step(s, i);
            && SentBy(r.accepted, i) + Pending(r.threads[i]) == SentBy(s.accepted, i) + Pending(s.threads[i])
            && ArrivedAt(r.arrivals, i) + Unread(r.threads[i]) == ArrivedAt(s.arrivals, i) + Unread(s.threads[i])
            && CountOf(r.reported, i) + Reports(r.threads[i].todo)
                 == CountOf(s.reported, i) + Reports(s.threads[i].todo)
  {
    var t := s.threads[i];
    hide *;
    if t.todo != [] && t.pc == Holds {
      OwnEntry(s, i);
    } else if t.todo != [] && t.pc == Out {
      OwnOut(s, i);
    } else {
      OwnOther(s, i);
    }
  }

  lemma OwnOut(s: State, i: nat)
    requires i < |s.threads| && s.threads[i].pc == Out && s.threads[i].todo != []
    ensures var r := Step(s, i);
            && r.accepted == s.accepted && r.arrivals == s.arrivals && r.reported == s.reported
            && Pending(r.threads[i]) == Pending(s.threads[i]) && Unread(r.threads[i]) == Unread(s.threads[i])
            && Reports(r.threads[i].todo) == Reports(s.threads[i].todo)
  {
  }

  lemma OwnEntry(s: State, i: nat)
    requires i < |s.threads| && s.threads[i].pc == Holds && PcFits(s.threads[i])
    ensures var r := Step(s, i);
            && SentBy(r.accepted, i) + Pending(r.threads[i]) == SentBy(s.accepted, i) + Pending(s.threads[i])
            && ArrivedAt(r.arrivals, i) + Unread(r.threads[i]) == ArrivedAt(s.arrivals, i) + Unread(s.threads[i])
            && r.reported == s.reported && r.threads[i].todo == s.threads[i].todo
  {
    hide *;
    var t, r := s.threads[i], Step(s, i);
    HoldsWork(t);
    Entered(s, i);
    if t.todo[0].Send? && |s.tx| < 255 {
      AcceptedNext(s.accepted, Accepted(i, t.todo[0].c), i);
      HeadWasSent(t);
    } else if t.todo[0].RxIrq? {
      ArrivalsNext(s.arrivals, Arrival(i, t.todo[0].c, |s.rx| < 255), i);
      HeadWasRead(t, |s.rx| < 255);
    }
  }

  lemma HoldsWork(t: Thread)
    requires PcFits(t) && t.pc == Holds
    ensures t.todo != [] && !t.todo[0].LineStatus?
  {
  }

  /** What entering changes, seen from the thread. */
  lemma Entered(s: State, i: nat)
    requires i < |s.threads| && s.threads[i].pc == Holds && s.threads[i].todo != [] && !s.threads[i].todo[0].LineStatus?
    ensures var r, t := Step(s, i), s.threads[i];
            && |r.threads| == |s.threads| && r.reported == s.reported && r.threads[i].todo == t.todo
            && match t.todo[0] {
                 case Send(c) =>
                   && r.arrivals == s.arrivals && Unread(r.threads[i]) == Unread(t)
                   && (if |s.tx| < 255
                       then r.accepted == s.accepted + [Accepted(i, c)] && r.threads[i] == Thread(t.todo, Pushed)
                       else r.accepted == s.accepted && Pending(r.threads[i]) == Pending(t))
                 case RxIrq(c) =>
                   && r.accepted == s.accepted && Pending(r.threads[i]) == Pending(t)
                   && r.arrivals == s.arrivals + [Arrival(i, c, |s.rx| < 255)]
                   && r.threads[i] == Thread(t.todo, if |s.rx| < 255 then Leaving(true) else Dropped)
                 case _ =>
                   && r.accepted == s.accepted && Pending(r.threads[i]) == Pending(t)
                   && r.arrivals == s.arrivals && Unread(r.threads[i]) == Unread(t)
               }
  {
    hide Sends, Reads;
  }

  lemma HeadWasSent(t: Thread)
    requires t.pc == Holds && t.todo != [] && t.todo[0].Send?
    ensures Pending(t) == [t.todo[0].c] + Pending(Thread(t.todo, Pushed))
  {
  }

  lemma HeadWasRead(t: Thread, kept: bool)
    requires t.pc == Holds && t.todo != [] && t.todo[0].RxIrq?
    ensures Unread(t) == [t.todo[0].c] + Unread(Thread(t.todo, if kept then Leaving(true) else Dropped))
  {
  }

  lemma OwnOther(s: State, i: nat)
    requires i < |s.threads| && s.threads[i].pc != Holds && PcFits(s.threads[i])
    requires s.threads[i].pc != Out || s.threads[i].todo == []
    ensures var r := Step(s, i);
            && r.accepted == s.accepted && Pending(r.threads[i]) == Pending(s.threads[i])
            && r.arrivals == s.arrivals && Unread(r.threads[i]) == Unread(s.threads[i])
            && CountOf(r.reported, i) + Reports(r.threads[i].todo)
                 == CountOf(s.reported, i) + Reports(s.threads[i].todo)
  {
    hide CountOf, Enter, Outside;
    ReportedNext(s.reported, i, i);
  }

  /** Each step adds at most one entry to each record, under the thread's own number. */
  lemma Recorded(s: State, i: nat)
    requires i < |s.threads|
    ensures var r := Step(s, i);
            && (r.accepted == s.accepted || exists c :: r.accepted == s.accepted + [Accepted(i, c)])
            && (r.arrivals == s.arrivals || exists c, kept :: r.arrivals == s.arrivals + [Arrival(i, c, kept)])
            && (r.reported == s.reported || r.reported == s.reported + [i])
  {
  }

  /** Nothing that thread `i` does is put down to thread `j`. */
  lemma OthersStep(s: State, i: nat, j: nat)
    requires i < |s.threads| && j < |s.threads| && i != j
    ensures var r := Step(s, i);
            && SentBy(r.accepted, j) == SentBy(s.accepted, j)
            && ArrivedAt(r.arrivals, j) == ArrivedAt(s.arrivals, j) && CountOf(r.reported, j) == CountOf(s.reported, j)
  {
    hide *;
    var r := Step(s, i);
    Recorded(s, i);
    if r.accepted != s.accepted {
      var c :| r.accepted == s.accepted + [Accepted(i, c)];
      AcceptedNext(s.accepted, Accepted(i, c), j);
    }
    if r.arrivals != s.arrivals {
      var c, kept :| r.arrivals == s.arrivals + [Arrival(i, c, kept)];
      ArrivalsNext(s.arrivals, Arrival(i, c, kept), j);
    }
    ReportedNext(s.reported, i, j);
  }

  /** Each thread's accepted, arrived and reported bytes stay the done part of its program, in order. */
  lemma StepOrder(s: State, i: nat, j: nat, program: seq<Task>)
    requires i < |s.threads| && j < |s.threads| && PcFits(s.threads[i]) && InProgram(s, j, program)
    ensures |Step(s, i).threads| == |s.threads| && InProgram(Step(s, i), j, program)
  {
    hide *;
    StepOthers(s, i);
    if i == j {
      OwnStep(s, i);
    } else {
      OthersStep(s, i, j);
    }
    StillInProgram(s, Step(s, i), j, program);
  }

  lemma StillInProgram(s: State, r: State, j: nat, program: seq<Task>)
    requires j < |s.threads| && |r.threads| == |s.threads| && InProgram(s, j, program)
    requires SentBy(r.accepted, j) + Pending(r.threads[j]) == SentBy(s.accepted, j) + Pending(s.threads[j])
    requires ArrivedAt(r.arrivals, j) + Unread(r.threads[j]) == ArrivedAt(s.arrivals, j) + Unread(s.threads[j])
    requires CountOf(r.reported, j) + Reports(r.threads[j].todo) == CountOf(s.reported, j) + Reports(s.threads[j].todo)
    ensures InProgram(r, j, program)
  {
    hide SentBy, ArrivedAt, CountOf, Pending, Unread, Reports, Sends, Reads;
  }

  /** A step outside the lock that does not get it: nothing of the port changes but the overrun counter. */
  predicate StaysOut(s: State, i: nat)
    requires i < |s.threads|
  {
    var t := s.threads[i];
    t.pc.AddOverrun? || t.todo == [] || (t.pc == Out && (t.todo[0].LineStatus? || s.lock != 0))
  }

  lemma StepExclusive(s: State, i: nat)
    requires i < |s.threads| && PcFits(s.threads[i])
    requires Free(s) || exists h: nat :: Alone(s, h)
    ensures !StaysOut(s, i) && Free(s) ==> s.threads[i].pc == Out && Alone(Step(s, i), i)
    ensures !StaysOut(s, i) && !Free(s) ==> Alone(s, i)
    ensures !StaysOut(s, i) && Alone(s, i) ==>
              if s.threads[i].pc.Leaving? then Free(Step(s, i)) else Alone(Step(s, i), i)
  {
  }

  lemma StepOutside(s: State, i: nat)
    requires i < |s.threads| && StaysOut(s, i) && PcFits(s.threads[i])
    ensures var r := Step(s, i);
            && (Free(s) ==> Free(r))
            && (forall h: nat :: Alone(s, h) ==> Alone(r, h) && r.threads[h].pc == s.threads[h].pc)
            && forall pc :: (TxBooks(s, pc) ==> TxBooks(r, pc)) && (IerOk(s, pc) ==> IerOk(r, pc))
  {
    hide Bytes;
  }

  lemma StepOthers(s: State, i: nat)
    requires i < |s.threads|
    ensures |Step(s, i).threads| == |s.threads|
    ensures forall j :: 0 <= j < |s.threads| && j != i ==> Step(s, i).threads[j] == s.threads[j]
  {
  }

  lemma StepLock(s: State, i: nat)
    requires i < |s.threads| && PcFits(s.threads[i]) && LockBooks(s)
    ensures LockBooks(Step(s, i))
  {
    StepOthers(s, i);
    StepExclusive(s, i);
    hide Step, TxBooks, IerOk, PcFits;
    if StaysOut(s, i) {
      StepOutside(s, i);
    } else {
      FreeMeansOut(s, i);
      StepTx(s, i);
    }
  }

  lemma FreeMeansOut(s: State, i: nat)
    requires i < |s.threads| && !StaysOut(s, i)
    ensures s.threads[i].todo != [] && !s.threads[i].pc.AddOverrun?
    ensures s.threads[i].pc == Out ==> s.lock == 0 && !s.threads[i].todo[0].LineStatus?
  {
  }

  /** Every access of every thread keeps the invariant. */
  lemma StepKeeps(s: State, i: nat, programs: seq<seq<Task>>)
    requires i < |s.threads| && Inv(s, programs)
    ensures Inv(Step(s, i), programs)
  {
    var r := Step(s, i);
    StepOthers(s, i);
    assert PcFits(s.threads[i]);
    StepLock(s, i);
    hide Step, TxBooks, IerOk, RxBooks, InProgram, Free, Alone;
    if s.threads[i].todo != [] {
      StepRx(s, i);
      StepFits(s, i);
    } else {
      NothingToDo(s, i);
    }
    forall j | 0 <= j < |s.threads|
      ensures InProgram(r, j, programs[j])
    {
      StepOrder(s, i, j, programs[j]);
    }
  }

  lemma NothingToDo(s: State, i: nat)
    requires i < |s.threads| && s.threads[i].todo == []
    ensures Step(s, i) == s
  {
  }

  lemma InvFits(s: State, i: nat, programs: seq<seq<Task>>)
    requires Inv(s, programs) && i < |s.threads|
    ensures PcFits(s.threads[i])
  {
  }

  // ------------------------------------------------------------ runs

  /** The state after a schedule: which thread makes the next access. */
  function Steps(s: State, schedule: seq<nat>): (r: State)
    ensures |r.threads| == |s.threads|
  {
    if schedule == [] then s
    else
      var t := Steps(s, schedule[..|schedule| - 1]);
      var i := schedule[|schedule| - 1];
      if i < |t.threads| then Step(t, i) else t
  }

  lemma {:induction false} StepsKeep(programs: seq<seq<Task>>, schedule: seq<nat>)
    ensures Inv(Steps(Opened(programs), schedule), programs)
  {
    hide Inv, Step;
    if schedule == [] {
      OpenedKeeps(programs);
    } else {
      StepsKeep(programs, schedule[..|schedule| - 1]);
      var t, i := Steps(Opened(programs), schedule[..|schedule| - 1]), schedule[|schedule| - 1];
      if i < |t.threads| {
        StepKeeps(t, i, programs);
      }
    }
  }

  /** Whenever the lock is free: accepted bytes are the wire followed by the ring, the transmit interrupt
      is enabled exactly when the ring holds bytes, and the counters of both rings are right. */
  lemma AtRelease(programs: seq<seq<Task>>, schedule: seq<nat>)
    ensures var s := Steps(Opened(programs), schedule);
            s.lock == 0 ==>
              && Bytes(s.accepted) == s.wire + s.tx
              && (s.ier.thre <==> s.tx != [])
              && s.txBytes == |s.accepted| % 0x1_0000_0000
              && Kept(s.arrivals) == s.delivered + s.rx
              && s.rxBytes == |Kept(s.arrivals)| % 0x1_0000_0000
  {
    StepsKeep(programs, schedule);
    hide Bytes, Kept, Drops, Sends, SentBy, PcFits, Steps, InProgram;
  }

  /** In every state, held or not: at most one thread is inside the lock, the wire is a prefix of what was
      accepted, and what each thread has sent, read and reported is a prefix of its program, all of it once
      the program is done. */
  lemma InOrder(programs: seq<seq<Task>>, schedule: seq<nat>, i: nat, j: nat)
    requires i < |programs| && j < |programs|
    ensures var s := Steps(Opened(programs), schedule);
            && (Inside(s.threads[i].pc) && Inside(s.threads[j].pc) ==> i == j)
            && s.wire <= Bytes(s.accepted)
            && SentBy(s.accepted, i) <= Sends(programs[i])
            && ArrivedAt(s.arrivals, i) <= Reads(programs[i])
            && CountOf(s.reported, i) <= Reports(programs[i])
            && (s.threads[i].todo == [] ==>
                  && SentBy(s.accepted, i) == Sends(programs[i]) && ArrivedAt(s.arrivals, i) == Reads(programs[i])
                  && CountOf(s.reported, i) == Reports(programs[i]))
  {
    StepsKeep(programs, schedule);
    hide Steps, Opened;
  }
}
