/** What each task on a serial port achieves when its thread runs without interruption. */
module SerialWork {
  import opened SerialSteps
  import opened SerialOverruns

  /** Thread `i` is about to begin its next task, and nobody holds the lock. */
  predicate Starts(s: State, i: nat) {
    i < |s.threads| && s.threads[i].pc == Out && s.threads[i].todo != [] && s.lock == 0
  }

  /** `r` is `s` with the first task of thread `i` done, but for ring, wire, records and registers. */
  ghost predicate TaskDone(s: State, i: nat, r: State) {
    && i < |s.threads| && s.threads[i].todo != []
    && r.threads == s.threads[i := Thread(s.threads[i].todo[1..], Out)] && r.lock == 0
    && r.overruns == s.overruns && r.reported == s.reported
  }

  lemma GetsLock(s: State, i: nat)
    requires Starts(s, i) && !s.threads[i].todo[0].LineStatus?
    ensures Moved(s, i, Out) == s && Goes(s, i, Out, s.(lock := 1), Holds)
  {
    assert s.threads[i := s.threads[i]] == s.threads;
  }

  lemma GivesUp(s: State, i: nat)
    requires i < |s.threads| && s.threads[i].todo != []
    ensures Step(Moved(s, i, Leaving(false)), i) == Moved(s.(lock := 0), i, Out)
  {
  }

  lemma Accepts(s: State, i: nat)
    requires i < |s.threads| && s.threads[i].todo != [] && s.threads[i].todo[0].Send?
    ensures var c := s.threads[i].todo[0].c;
            if |s.tx| < 255
            then Goes(s, i, Holds, s.(tx := s.tx + [c], accepted := s.accepted + [Accepted(i, c)]), Pushed)
            else Goes(s, i, Holds, s, Leaving(false))
  {
  }

  lemma Announces(s: State, i: nat)
    requires i < |s.threads| && s.threads[i].todo != []
    ensures Goes(s, i, Pushed, s, EnableThre(s.ier))
    ensures Goes(s, i, EnableThre(s.ier), s.(ier := s.ier.(thre := true)), CountTx)
    ensures Goes(s, i, CountTx, s.(txBytes := Inc(s.txBytes)), Leaving(true))
  {
  }

  /** The port with one more byte accepted, in the ring and counted. */
  function WithAccepted(s: State, i: nat, c: nat): State {
    s.(lock := 0, tx := s.tx + [c], accepted := s.accepted + [Accepted(i, c)], ier := s.ier.(thre := true),
       txBytes := Inc(s.txBytes))
  }

  /** One access more. */
  lemma Onward(s: State, i: nat, n: nat, x: State, pc: Pc, y: State, next: Pc)
    requires Goes(x, i, pc, y, next) && i < |s.threads| && Steps(s, Solo(i, n)) == Moved(x, i, pc)
    ensures Steps(s, Solo(i, n + 1)) == Moved(y, i, next)
  {
    hide Steps, Step, Solo, Moved;
    SoloNext(s, i, n);
  }

  lemma SendSteps(s: State, i: nat)
    requires Starts(s, i) && s.threads[i].todo[0].Send? && |s.tx| < 255
    ensures Steps(s, Solo(i, 6)) == Finished(WithAccepted(s, i, s.threads[i].todo[0].c), i)
  {
    hide Steps, Step, Solo, Moved, Inc, Finished, Goes;
    var c, t := s.threads[i].todo[0].c, s.(lock := 1);
    var u := t.(tx := s.tx + [c], accepted := s.accepted + [Accepted(i, c)]);
    var v := u.(ier := s.ier.(thre := true));
    var w := v.(txBytes := Inc(s.txBytes));
    SoloNext(s, i, 0);
    GetsLock(s, i);
    Onward(s, i, 0, s, Out, t, Holds);
    Accepts(t, i);
    Onward(s, i, 1, t, Holds, u, Pushed);
    Announces(u, i);
    Onward(s, i, 2, u, Pushed, u, EnableThre(s.ier));
    Onward(s, i, 3, u, EnableThre(s.ier), v, CountTx);
    Announces(v, i);
    Onward(s, i, 4, v, CountTx, w, Leaving(true));
    SoloNext(s, i, 5);
    Ends(w, i);
  }

  /** A byte is sent into a ring with room: it waits there behind all others, and the transmit interrupt is on. */
  lemma SendWork(s: State, i: nat)
    requires Starts(s, i) && s.threads[i].todo[0].Send? && |s.tx| < 255
    ensures var r, c := Steps(s, Solo(i, 6)), s.threads[i].todo[0].c;
            && TaskDone(s, i, r) && r.tx == s.tx + [c] && r.accepted == s.accepted + [Accepted(i, c)]
            && r.ier == s.ier.(thre := true) && r.txBytes == (s.txBytes + 1) % 0x1_0000_0000
            && r.wire == s.wire && r.rx == s.rx && r.delivered == s.delivered && r.arrivals == s.arrivals
  {
    hide Steps, Solo;
    SendSteps(s, i);
  }

  /** Into a full ring nothing is sent; the thread tries again. */
  lemma SendWaits(s: State, i: nat)
    requires Starts(s, i) && s.threads[i].todo[0].Send? && |s.tx| >= 255
    ensures Steps(s, Solo(i, 3)) == s
  {
    hide Steps, Step, Solo, Moved;
    SoloNext(s, i, 0);
    SoloNext(s, i, 1);
    SoloNext(s, i, 2);
    GetsLock(s, i);
    Accepts(s.(lock := 1), i);
    GivesUp(s.(lock := 1), i);
    assert s.(lock := 1).(lock := 0) == s;
  }

  lemma Delivers(s: State, i: nat)
    requires i < |s.threads| && s.threads[i].todo != [] && s.threads[i].todo[0].Receive?
    ensures if s.rx == [] then Goes(s, i, Holds, s, Leaving(true))
            else Goes(s, i, Holds, s.(rx := s.rx[1..], delivered := s.delivered + [s.rx[0]]), Leaving(true))
  {
  }

  /** The port with the oldest byte taken, if there is one. */
  function Taken(s: State): State {
    if s.rx == [] then s.(lock := 0) else s.(lock := 0, rx := s.rx[1..], delivered := s.delivered + [s.rx[0]])
  }

  lemma ReceiveSteps(s: State, i: nat)
    requires Starts(s, i) && s.threads[i].todo[0].Receive?
    ensures Steps(s, Solo(i, 3)) == Finished(Taken(s), i)
  {
    hide Steps, Step, Solo, Moved, Finished, Goes;
    var t := s.(lock := 1);
    var u := if s.rx == [] then t else t.(rx := s.rx[1..], delivered := s.delivered + [s.rx[0]]);
    SoloNext(s, i, 0);
    GetsLock(s, i);
    Onward(s, i, 0, s, Out, t, Holds);
    Delivers(t, i);
    Onward(s, i, 1, t, Holds, u, Leaving(true));
    SoloNext(s, i, 2);
    Ends(u, i);
  }

  /** Taking a byte delivers the oldest one that waits, if there is one. */
  lemma ReceiveWork(s: State, i: nat)
    requires Starts(s, i) && s.threads[i].todo[0].Receive?
    ensures var r := Steps(s, Solo(i, 3));
            && TaskDone(s, i, r) && r.tx == s.tx && r.wire == s.wire && r.ier == s.ier && r.arrivals == s.arrivals
            && if s.rx == [] then r.rx == [] && r.delivered == s.delivered
               else r.rx == s.rx[1..] && r.delivered == s.delivered + [s.rx[0]]
  {
    hide Steps, Solo;
    ReceiveSteps(s, i);
  }

  // ------------------------------------------------------------ the transmit interrupt

  lemma TransmitsOne(s: State, i: nat, n: nat)
    requires i < |s.threads| && s.threads[i].todo != [] && n < 16 && s.tx != []
    ensures Goes(s, i, TxLoop(n), s.(tx := s.tx[1..]), TxByte(n, s.tx[0]))
    ensures Goes(s, i, TxByte(n, s.tx[0]), s.(wire := s.wire + [s.tx[0]]), TxLoop(n + 1))
  {
  }

  /** The port after `m` bytes have gone from the ring to the wire. */
  function Sent(s: State, m: nat): State
    requires m <= |s.tx|
  {
    s.(tx := s.tx[m..], wire := s.wire + s.tx[..m])
  }

  lemma {:induction false} TxRounds(s: State, i: nat, n: nat, m: nat)
    requires i < |s.threads| && s.threads[i].todo != [] && n + m <= 16 && m <= |s.tx|
    ensures Steps(Moved(s, i, TxLoop(n)), Solo(i, 2 * m)) == Moved(Sent(s, m), i, TxLoop(n + m))
    decreases m
  {
    hide Steps, Step, Solo, Moved, Sent;
    var first := Moved(s, i, TxLoop(n));
    if m == 0 {
      SentNone(s);
      MovedThreads(s, i, TxLoop(n));
      SoloNext(first, i, 0);
    } else {
      var one := s.(tx := s.tx[1..]);
      var next := Sent(s, 1);
      SentOne(s, m);
      TransmitsOne(s, i, n);
      SecondAccess(s, i, n);
      TxRounds(next, i, n + 1, m - 1);
      MovedThreads(s, i, TxLoop(n));
      SoloNext(first, i, 0);
      SoloNext(first, i, 1);
      SoloSum(i, 2, 2 * (m - 1));
      StepsJoin(first, Solo(i, 2), Solo(i, 2 * (m - 1)));
    }
  }

  lemma SecondAccess(s: State, i: nat, n: nat)
    requires i < |s.threads| && s.threads[i].todo != [] && s.tx != []
    ensures Step(Moved(s.(tx := s.tx[1..]), i, TxByte(n, s.tx[0])), i) == Moved(Sent(s, 1), i, TxLoop(n + 1))
  {
    assert s.tx[..1] == [s.tx[0]];
  }

  lemma MovedThreads(s: State, i: nat, pc: Pc)
    requires i < |s.threads|
    ensures |Moved(s, i, pc).threads| == |s.threads|
  {
  }

  lemma SentNone(s: State)
    ensures Sent(s, 0) == s
  {
  }

  lemma SentOne(s: State, m: nat)
    requires 1 <= m <= |s.tx|
    ensures var t := Sent(s, 1); t.threads == s.threads && |t.tx| == |s.tx| - 1 && Sent(t, m - 1) == Sent(s, m)
  {
    assert s.tx[..1] + s.tx[1..][..m - 1] == s.tx[..m];
  }

  lemma SoloSum(i: nat, m: nat, n: nat)
    ensures Solo(i, m + n) == Solo(i, m) + Solo(i, n)
  {
  }

  lemma TransmitsLast(s: State, i: nat, n: nat)
    requires i < |s.threads| && s.threads[i].todo != [] && (n == 16 || s.tx == [])
    ensures Goes(s, i, TxLoop(n), s, TxCheck)
    ensures s.tx != [] ==> Goes(s, i, TxCheck, s, Leaving(true))
    ensures s.tx == [] ==> Goes(s, i, TxCheck, s, DisableThre(s.ier))
    ensures Goes(s, i, DisableThre(s.ier), s.(ier := s.ier.(thre := false)), Leaving(true))
  {
  }

  /** The end of a transmit interrupt, from the loop's exit on. */
  lemma TransmitEnds(s: State, i: nat, n: nat)
    requires i < |s.threads| && s.threads[i].todo != [] && (n == 16 || s.tx == [])
    ensures Steps(Moved(s, i, TxLoop(n)), Solo(i, if s.tx == [] then 4 else 3))
         == Finished(s.(lock := 0, ier := if s.tx == [] then s.ier.(thre := false) else s.ier), i)
  {
    hide Steps, Step, Solo, Moved;
    var first := Moved(s, i, TxLoop(n));
    MovedThreads(s, i, TxLoop(n));
    SoloNext(first, i, 0);
    SoloNext(first, i, 1);
    SoloNext(first, i, 2);
    TransmitsLast(s, i, n);
    if s.tx == [] {
      SoloNext(first, i, 3);
      Ends(s.(ier := s.ier.(thre := false)), i);
    } else {
      Ends(s, i);
    }
  }

  lemma EntersLoop(s: State, i: nat)
    requires Starts(s, i) && s.threads[i].todo[0].TxIrq?
    ensures Steps(s, Solo(i, 2)) == Moved(s.(lock := 1), i, TxLoop(0))
  {
    hide Steps, Solo;
    SoloNext(s, i, 0);
    SoloNext(s, i, 1);
  }

  /** A transmit interrupt moves the 16 oldest waiting bytes to the wire, or all when there are fewer, in order;
      it turns itself off exactly when none is left. */
  lemma TransmitWork(s: State, i: nat)
    requires Starts(s, i) && s.threads[i].todo[0].TxIrq?
    ensures var m := if |s.tx| < 16 then |s.tx| else 16;
            var r := Steps(s, Solo(i, 2 + 2 * m + if |s.tx| <= 16 then 4 else 3));
            && TaskDone(s, i, r)
            && r.wire == s.wire + s.tx[..m] && r.tx == s.tx[m..] && r.accepted == s.accepted
            && r.ier == (if |s.tx| <= 16 then s.ier.(thre := false) else s.ier)
            && r.rx == s.rx && r.delivered == s.delivered && r.arrivals == s.arrivals
  {
    hide Steps, Step, Solo, Moved;
    var m := if |s.tx| < 16 then |s.tx| else 16;
    var k := if |s.tx| <= 16 then 4 else 3;
    var t := s.(lock := 1);
    EntersLoop(s, i);
    TxRounds(t, i, 0, m);
    TransmitEnds(Sent(t, m), i, m);
    SoloSum(i, 2, 2 * m);
    SoloSum(i, 2 + 2 * m, k);
    StepsJoin(s, Solo(i, 2), Solo(i, 2 * m));
    StepsJoin(s, Solo(i, 2 + 2 * m), Solo(i, k));
  }

  // ------------------------------------------------------------ the other interrupts

  predicate RestOn(v: Ier) {
    v.rda && v.rls
  }

  /** Whatever is about to be written to the enable register leaves the receive interrupts on. */
  ghost predicate ReceiveOn(s: State) {
    && RestOn(s.ier)
    && forall i :: 0 <= i < |s.threads| ==>
         var pc := s.threads[i].pc; (pc.EnableThre? || pc.DisableThre? ==> RestOn(pc.read))
  }

  lemma StepReceiveOn(s: State, i: nat)
    requires i < |s.threads| && ReceiveOn(s)
    ensures ReceiveOn(Step(s, i))
  {
    StepOthers(s, i);
  }

  /** Switching the transmit interrupt never switches the receive and line-status interrupts off. */
  lemma {:induction false} ReceiveStaysOn(programs: seq<seq<Task>>, schedule: seq<nat>)
    ensures var s := Steps(Opened(programs), schedule); ReceiveOn(s) && s.ier.rda && s.ier.rls
  {
    hide Step;
    if schedule != [] {
      ReceiveStaysOn(programs, schedule[..|schedule| - 1]);
      var t, i := Steps(Opened(programs), schedule[..|schedule| - 1]), schedule[|schedule| - 1];
      if i < |t.threads| {
        StepReceiveOn(t, i);
      }
    }
  }

  /** A receive interrupt queues its byte behind all others, or drops it when 255 wait, and counts either. */
  lemma ArrivalWork(s: State, i: nat)
    requires Ready(s, i) && s.threads[i].todo[0].RxIrq?
    ensures var c := s.threads[i].todo[0].c;
            if |s.rx| < 255
            then
              var r := Steps(s, Solo(i, 3));
              && TaskDone(s, i, r) && r.rx == s.rx + [c] && r.rxBytes == (s.rxBytes + 1) % 0x1_0000_0000
              && r.arrivals == s.arrivals + [Arrival(i, c, true)]
            else
              var r := Steps(s, Solo(i, 5));
              && r.rx == s.rx && r.rxBytes == s.rxBytes && r.overruns == (s.overruns + 1) % 0x1_0000_0000
              && r.arrivals == s.arrivals + [Arrival(i, c, false)]
  {
    hide Steps, Solo, Step;
    if |s.rx| < 255 {
      ServeKept(s, i);
    } else {
      ServeDropped(s, i);
    }
  }
}
