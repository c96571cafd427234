/** The serial port with its ring buffers, performing the accesses of the step system. */
module SerialPorts {
  import opened SerialSteps

  /** The bytes between tail and head, around the end of the buffer if need be. */
  function Queue(buf: seq<nat>, head: nat, tail: nat): seq<nat>
    requires |buf| == 256 && head < 256 && tail < 256
  {
    if head >= tail then buf[tail..head] else buf[tail..] + buf[..head]
  }

  class Ring {
    const buf: array<nat>
    var head: nat
    var tail: nat

    ghost predicate Valid()
      reads this
    {
      buf.Length == 256 && head < 256 && tail < 256
    }

    ghost function Contents(): (q: seq<nat>)
      requires Valid()
      reads this, buf
    {
      Queue(buf[..], head, tail)
    }

    constructor ()
      ensures Valid() && fresh(buf) && Contents() == []
    {
      buf := new nat[256](i => 0);
      head, tail := 0, 0;
    }

    /** Appends unless 255 bytes are waiting. */
    method Push(c: nat) returns (ok: bool)
      requires Valid()
      modifies this`head, buf
      ensures Valid() && (ok <==> |old(Contents())| < 255)
      ensures Contents() == if ok then old(Contents()) + [c] else old(Contents())
    {
      var next := (head + 1) % 256;
      if next == tail {
        return false;
      }
      buf[head] := c;
      head := next;
      ok := true;
    }

    /** Takes the oldest byte. */
    method Pop() returns (ok: bool, c: nat)
      requires Valid()
      modifies this`tail
      ensures Valid() && (ok <==> old(Contents()) != [])
      ensures ok ==> old(Contents()) == [c] + Contents()
      ensures !ok ==> Contents() == old(Contents())
    {
      if head == tail {
        return false, 0;
      }
      c := buf[tail];
      tail := (tail + 1) % 256;
      ok := true;
    }
  }

  class Port {
    const tx: Ring
    const rx: Ring
    var threads: seq<Thread>
    var lock: nat
    var ier: Ier
    var txBytes: nat
    var rxBytes: nat
    var overruns: nat
    ghost var wire: seq<nat>
    ghost var accepted: seq<Accepted>
    ghost var arrivals: seq<Arrival>
    ghost var delivered: seq<nat>
    ghost var reported: seq<nat>

    ghost predicate Valid()
      reads this, tx, rx
    {
      tx.Valid() && rx.Valid() && tx != rx && tx.buf != rx.buf
    }

    /** The port as the step system sees it. */
    ghost function View(): State
      requires Valid()
      reads this, tx, rx, tx.buf, rx.buf
    {
      State(threads, lock, ier, tx.Contents(), rx.Contents(), txBytes, rxBytes, overruns,
            wire, accepted, arrivals, delivered, reported)
    }

    /** Opened with empty rings, receive interrupts on and the transmit interrupt off. */
    constructor (programs: seq<seq<Task>>)
      ensures Valid() && fresh(tx) && fresh(rx) && fresh(tx.buf) && fresh(rx.buf)
      ensures View() == Opened(programs)
    {
      tx := new Ring();
      rx := new Ring();
      threads := seq(|programs|, i requires 0 <= i < |programs| => Thread(programs[i], Out));
      lock, ier := 0, Ier(true, false, true);
      txBytes, rxBytes, overruns := 0, 0, 0;
      wire, accepted, arrivals, delivered, reported := [], [], [], [], [];
    }

    method Goto(i: nat, pc: Pc)
      requires Valid() && i < |threads|
      modifies this`threads
      ensures Valid() && View() == Moved(old(View()), i, pc)
    {
      threads := threads[i := Thread(threads[i].todo, pc)];
    }

    method DoSend(i: nat, c: nat)
      requires Valid() && i < |threads|
      modifies this`threads, this`accepted, tx`head, tx.buf
      ensures Valid() && View() == Enter(old(View()), i, Send(c))
    {
      var ok := tx.Push(c);
      if ok {
        accepted := accepted + [Accepted(i, c)];
        Goto(i, Pushed);
      } else {
        Goto(i, Leaving(false));
      }
    }

    method DoReceive(i: nat, c: nat)
      requires Valid() && i < |threads|
      modifies this`threads, this`rxBytes, this`arrivals, rx`head, rx.buf
      ensures Valid() && View() == Enter(old(View()), i, RxIrq(c))
    {
      var ok := rx.Push(c);
      arrivals := arrivals + [Arrival(i, c, ok)];
      if ok {
        rxBytes := (rxBytes + 1) % 0x1_0000_0000;
        Goto(i, Leaving(true));
      } else {
        Goto(i, Dropped);
      }
    }

    method DoTake(i: nat)
      requires Valid() && i < |threads|
      modifies this`threads, this`delivered, rx`tail
      ensures Valid() && View() == Enter(old(View()), i, Receive)
    {
      var ok, c := rx.Pop();
      if ok {
        delivered := delivered + [c];
      }
      Goto(i, Leaving(true));
    }

    /** The ring operation of a thread that has just got the lock. */
    method DoEnter(i: nat, task: Task)
      requires Valid() && i < |threads| && !task.LineStatus?
      modifies this, tx`head, tx.buf, rx`head, rx`tail, rx.buf
      ensures Valid() && View() == Enter(old(View()), i, task)
    {
      match task {
        case Send(c) => DoSend(i, c);
        case TxIrq => Goto(i, TxLoop(0));
        case RxIrq(c) => DoReceive(i, c);
        case LineStatus(_) =>
        case Receive => DoTake(i);
      }
    }

    /** The transmit interrupt: up to sixteen bytes to the port, then off if the ring is empty. */
    method DoTransmit(i: nat, n: nat)
      requires Valid() && i < |threads| && threads[i].pc == TxLoop(n) && threads[i].todo != []
      modifies this`threads, tx`tail
      ensures Valid() && View() == Step(old(View()), i)
    {
      hide Enter;
      if n < 16 {
        var ok, c := tx.Pop();
        Goto(i, if ok then TxByte(n, c) else TxCheck);
      } else {
        Goto(i, TxCheck);
      }
    }

    method DoCheck(i: nat)
      requires Valid() && i < |threads| && threads[i].pc == TxCheck && threads[i].todo != []
      modifies this`threads
      ensures Valid() && View() == Step(old(View()), i)
    {
      hide Enter;
      Goto(i, if tx.head == tx.tail then DisableThre(ier) else Leaving(true));
    }

    /** Outside the lock: the compare-and-swap, or a line-status interrupt, which reads the counter first. */
    method DoOutside(i: nat)
      requires Valid() && i < |threads| && threads[i].pc == Out && threads[i].todo != []
      modifies this`threads, this`lock
      ensures Valid() && View() == Outside(old(View()), i, old(threads)[i].todo[0])
    {
      hide Queue;
      var t := threads[i];
      if t.todo[0].LineStatus? {
        if t.todo[0].overrun {
          Goto(i, AddOverrun(overruns));
        } else {
          threads := threads[i := Thread(t.todo[1..], Out)];
        }
      } else if lock == 0 {
        lock := 1;
        Goto(i, Holds);
      }
    }

    /** The accesses to the interrupt-enable register and to the counters. */
    method DoRegister(i: nat)
      requires Valid() && i < |threads| && threads[i].todo != []
      requires var pc := threads[i].pc;
               pc.Pushed? || pc.EnableThre? || pc.CountTx? || pc.DisableThre? || pc.Dropped? || pc.CountDrop?
      modifies this`threads, this`ier, this`txBytes, this`overruns
      ensures Valid() && View() == Step(old(View()), i)
    {
      hide Enter, Queue, Outside;
      match threads[i].pc {
        case Pushed => Goto(i, EnableThre(ier));
        case EnableThre(v) =>
          ier := v.(thre := true);
          Goto(i, CountTx);
        case CountTx =>
          txBytes := (txBytes + 1) % 0x1_0000_0000;
          Goto(i, Leaving(true));
        case DisableThre(v) =>
          ier := v.(thre := false);
          Goto(i, Leaving(true));
        case Dropped => Goto(i, CountDrop(overruns));
        case CountDrop(seen) =>
          overruns := (seen + 1) % 0x1_0000_0000;
          Goto(i, Leaving(true));
      }
    }

    /** One access of thread `i`. */
    method StepThread(i: nat)
      requires Valid() && i < |threads|
      modifies this, tx, tx.buf, rx, rx.buf
      ensures Valid() && (PcFits(old(threads)[i]) ==> View() == Step(old(View()), i))
    {
      hide Enter, Queue, Outside;
      var t := threads[i];
      if t.todo == [] {
        return;
      }
      match t.pc {
        case Out => DoOutside(i);
        case Holds =>
          if !t.todo[0].LineStatus? {
            DoEnter(i, t.todo[0]);
          }
        case TxLoop(n) => DoTransmit(i, n);
        case TxByte(n, c) =>
          wire := wire + [c];
          Goto(i, TxLoop(n + 1));
        case TxCheck => DoCheck(i);
        case Leaving(finished) =>
          threads := threads[i := Thread(if finished then t.todo[1..] else t.todo, Out)];
          lock := 0;
        case AddOverrun(seen) =>
          overruns := (seen + 1) % 0x1_0000_0000;
          reported := reported + [i];
          threads := threads[i := Thread(t.todo[1..], Out)];
        case _ => DoRegister(i);
      }
    }

    /** Any schedule of accesses, from a freshly opened port. */
    method Run(programs: seq<seq<Task>>, schedule: seq<nat>)
      requires Valid() && View() == Opened(programs)
      modifies this, tx, tx.buf, rx, rx.buf
      ensures Valid() && View() == Steps(Opened(programs), schedule) && Inv(View(), programs)
    {
      hide Inv, Step, PcFits, Queue;
      for k := 0 to |schedule|
        invariant Valid() && View() == Steps(Opened(programs), schedule[..k])
      {
        assert schedule[..k + 1][..k] == schedule[..k];
        if schedule[k] < |threads| {
          StepsKeep(programs, schedule[..k]);
          InvFits(View(), schedule[k], programs);
          StepThread(schedule[k]);
        }
      }
      assert schedule[..|schedule|] == schedule;
      StepsKeep(programs, schedule);
    }
  }
}
