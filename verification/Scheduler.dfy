/** The round-robin switch on the timer, and what the tasks see of it. */
module RoundRobin {
  import opened Euclid

  /** The processor's registers: fifteen general ones, then rip, cs, rflags, rsp and ss. */
  type Regs = s: seq<nat> | |s| == 20 witness seq(20, i => 0)

  /** What an interrupt stores: the registers with vector and error code in the middle. */
  type Frame = s: seq<nat> | |s| == 22 witness seq(22, i => 0)

  function ToFrame(r: Regs, vector: nat, error: nat): Frame {
    r[..15] + [vector, error] + r[15..]
  }

  /** What returning from the interrupt loads. */
  function FromFrame(f: Frame): Regs {
    f[..15] + f[17..]
  }

  /** A task on its own: its registers after `n` instructions. */
  function Iterate(exec: Regs -> Regs, f: Regs, n: nat): Regs {
    if n == 0 then f else exec(Iterate(exec, f, n - 1))
  }

  /** The registers after each of the first `n` instructions of a task on its own. */
  function Alone(exec: Regs -> Regs, f: Regs, n: nat): (t: seq<Regs>)
    ensures |t| == n
  {
    if n == 0 then [] else Alone(exec, f, n - 1) + [Iterate(exec, f, n)]
  }

  /** Trace and registers of a task that ran alone for `n` instructions. */
  function RunAlone(exec: Regs -> Regs, f: Regs, n: nat): (seq<Regs>, Regs) {
    (Alone(exec, f, n), Iterate(exec, f, n))
  }

  /** Whose turn it is after `i` ticks among `n` tasks. */
  function Turn(i: nat, n: nat): (k: nat)
    requires 0 < n
    ensures k < n
  {
    i % n
  }

  lemma TurnNext(i: nat, n: nat)
    requires 0 < n
    ensures Turn(i + 1, n) == (Turn(i, n) + 1) % n && Turn(0, n) == 0
  {
    NextIndex(i, n);
  }

  /** How many instructions task `k` of `n` got in these time slices, the first of which was task 0's. */
  function Ran(slices: seq<nat>, n: nat, k: nat): nat
    requires 0 < n
  {
    if slices == [] then 0
    else Ran(slices[..|slices| - 1], n, k) + if Turn(|slices| - 1, n) == k then slices[|slices| - 1] else 0
  }

  /** The slices are shared out without loss. */
  function Sum(slices: seq<nat>): nat {
    if slices == [] then 0 else Sum(slices[..|slices| - 1]) + slices[|slices| - 1]
  }

  function Shares(slices: seq<nat>, n: nat, upto: nat): nat
    requires 0 < n
  {
    if upto == 0 then 0 else Shares(slices, n, upto - 1) + Ran(slices, n, upto - 1)
  }

  lemma {:induction false} SharesSum(slices: seq<nat>, n: nat)
    requires 0 < n
    ensures Shares(slices, n, n) == Sum(slices)
  {
    if slices == [] {
      NoShares(n, n);
    } else {
      var front := slices[..|slices| - 1];
      SharesSum(front, n);
      SharesNext(slices, n, n);
    }
  }

  lemma {:induction false} NoShares(n: nat, upto: nat)
    requires 0 < n
    ensures Shares([], n, upto) == 0
  {
    if upto > 0 {
      NoShares(n, upto - 1);
    }
  }

  lemma {:induction false} SharesNext(slices: seq<nat>, n: nat, upto: nat)
    requires 0 < n && slices != []
    ensures Shares(slices, n, upto) == Shares(slices[..|slices| - 1], n, upto)
         + if Turn(|slices| - 1, n) < upto then slices[|slices| - 1] else 0
  {
    if upto > 0 {
      SharesNext(slices, n, upto - 1);
    }
  }

  class Scheduler {
    const count: nat
    const saved: array2<nat>
    var current: nat
    var switches: nat
    var running: bool

    ghost predicate Valid()
      reads this
    {
      && saved.Length0 == count && saved.Length1 == 22 && (count > 0 ==> current < count)
      && switches < 0x1_0000_0000_0000_0000
    }

    ghost function Saved(k: nat): Frame
      requires Valid() && k < count
      reads this, saved
    {
      seq(22, r requires 0 <= r < 22 reads this, saved => if Valid() && k < count then saved[k, r] else 0)
    }

    constructor (frames: seq<Frame>)
      ensures Valid() && fresh(saved) && count == |frames| && current == 0 && switches == 0 && !running
      ensures forall k :: 0 <= k < count ==> Saved(k) == frames[k]
    {
      count := |frames|;
      saved := new nat[|frames|, 22]((k, r) requires 0 <= k < |frames| && 0 <= r < 22 => frames[k][r]);
      current, switches, running := 0, 0, false;
    }

    /** Enters the first task with the frame prepared for it. */
    method Start(frame: array<nat>)
      requires Valid() && count > 0 && current == 0 && frame.Length == 22
      modifies this`running, frame
      ensures Valid() && running && frame[..] == Saved(0)
      ensures forall k :: 0 <= k < count ==> Saved(k) == old(Saved(k))
    {
      running := true;
      LoadFrame(0, frame);
    }

    method SaveFrame(k: nat, frame: array<nat>)
      requires Valid() && k < count && frame.Length == 22
      modifies saved
      ensures Saved(k) == frame[..] && forall j :: 0 <= j < count && j != k ==> Saved(j) == old(Saved(j))
    {
      for r := 0 to 22
        invariant forall i :: 0 <= i < r ==> saved[k, i] == frame[i]
        invariant forall j, i :: 0 <= j < count && 0 <= i < 22 && j != k ==> saved[j, i] == old(saved[j, i])
      {
        saved[k, r] := frame[r];
      }
    }

    method LoadFrame(k: nat, frame: array<nat>)
      requires Valid() && k < count && frame.Length == 22
      modifies frame
      ensures frame[..] == Saved(k)
    {
      for r := 0 to 22
        invariant forall i :: 0 <= i < r ==> frame[i] == saved[k, i]
      {
        frame[r] := saved[k, r];
      }
    }

    /** The timer: the interrupted frame is kept for its task, and the next task's kept frame is loaded.
        With fewer than two tasks, or before the start, nothing changes. */
    method OnTimer(frame: array<nat>)
      requires Valid() && frame.Length == 22
      modifies this`current, this`switches, saved, frame
      ensures Valid()
      ensures running && count >= 2 ==>
                && current == (old(current) + 1) % count
                && Saved(old(current)) == old(frame[..]) && frame[..] == old(Saved((current + 1) % count))
                && (forall k :: 0 <= k < count && k != old(current) ==> Saved(k) == old(Saved(k)))
                && switches == (old(switches) + 1) % 0x1_0000_0000_0000_0000
      ensures !(running && count >= 2) ==>
                && current == old(current) && switches == old(switches) && frame[..] == old(frame[..])
                && forall k :: 0 <= k < count ==> Saved(k) == old(Saved(k))
    {
      if count == 0 {
        return;
      }
      if !running || count < 2 {
        return;
      }
      SaveFrame(current, frame);
      current := (current + 1) % count;
      LoadFrame(current, frame);
      switches := Wrap64(switches + 1);
    }

    /** The registers every task was prepared with. */
    ghost function Prepared(): (all: seq<Regs>)
      requires Valid()
      ensures |all| == count
      reads this, saved
    {
      seq(count, k requires 0 <= k < count && Valid() reads this, saved => FromFrame(Saved(k)))
    }

    /** The registers of every task: on the processor if it is running, else as kept. */
    ghost function Registers(cpu: seq<nat>): (all: seq<Regs>)
      requires Valid() && |cpu| == 20
      ensures |all| == count
      reads this, saved
    {
      seq(count, k requires 0 <= k < count && Valid() reads this, saved =>
        if k == current then cpu else FromFrame(Saved(k)))
    }
  }

  /** The processor executes `n` instructions. */
  method Execute(exec: Regs -> Regs, cpu: array<nat>, n: nat, ghost from: Regs, ghost done: nat) returns (t: seq<Regs>)
    requires cpu.Length == 20 && cpu[..] == RunAlone(exec, from, done).1
    modifies cpu
    ensures RunAlone(exec, from, done + n) == (RunAlone(exec, from, done).0 + t, cpu[..])
  {
    t := [];
    for i := 0 to n
      invariant cpu[..] == Iterate(exec, from, done + i)
      invariant Alone(exec, from, done) + t == Alone(exec, from, done + i)
    {
      var f: Regs := exec(cpu[..]);
      forall r | 0 <= r < 20 { cpu[r] := f[r]; }
      assert cpu[..] == f;
      t := t + [f];
    }
  }

  /** A timer interrupt: the registers are stored in a frame, the switch exchanges it, and the return loads it. */
  method Tick(sched: Scheduler, cpu: array<nat>)
    requires sched.Valid() && sched.running && sched.count >= 2 && cpu.Length == 20
    modifies sched`current, sched`switches, sched.saved, cpu
    ensures sched.Valid() && sched.current == (old(sched.current) + 1) % sched.count
    ensures sched.switches == Wrap64(old(sched.switches) + 1)
    ensures sched.Registers(cpu[..]) == old(sched.Registers(cpu[..]))
  {
    var regs := cpu[..];
    var frame := new nat[22](i requires 0 <= i < 22 => ToFrame(regs, 32, 0)[i]);
    assert frame[..] == ToFrame(regs, 32, 0);
    NextDiffers(sched.current, sched.count);
    sched.OnTimer(frame);
    assert FromFrame(ToFrame(regs, 32, 0)) == regs;
    var back := FromFrame(frame[..]);
    forall r | 0 <= r < 20 { cpu[r] := back[r]; }
    assert cpu[..] == back;
  }

  lemma NextDiffers(i: nat, n: nat)
    requires i < n && 2 <= n
    ensures (i + 1) % n == if i + 1 == n then 0 else i + 1
  {
  }

  /** Every task has the registers, and has left the trace, of running alone as long as its slices were. */
  ghost predicate AsAlone(regs: seq<Regs>, traces: seq<seq<Regs>>, exec: Regs -> Regs, init: seq<Regs>,
                          slices: seq<nat>) {
    && 0 < |init| == |regs| == |traces|
    && forall k :: 0 <= k < |init| ==>
         (traces[k], regs[k]) == RunAlone(exec, init[k], Ran(slices, |init|, k))
  }

  /** The instructions in the first `upto` traces. */
  function Lengths(traces: seq<seq<Regs>>, upto: nat): nat
    requires upto <= |traces|
  {
    if upto == 0 then 0 else Lengths(traces, upto - 1) + |traces[upto - 1]|
  }

  lemma {:induction false} LengthsAreShares(regs: seq<Regs>, traces: seq<seq<Regs>>, exec: Regs -> Regs,
                                            init: seq<Regs>, slices: seq<nat>, upto: nat)
    requires AsAlone(regs, traces, exec, init, slices) && upto <= |init|
    ensures |traces| == |init| && Lengths(traces, upto) == Shares(slices, |init|, upto)
  {
    if upto > 0 {
      LengthsAreShares(regs, traces, exec, init, slices, upto - 1);
      SoFar(regs, traces, exec, init, slices, upto - 1);
    }
  }

  /** Every instruction of every slice is in some task's trace. */
  lemma NothingLost(regs: seq<Regs>, traces: seq<seq<Regs>>, exec: Regs -> Regs, init: seq<Regs>, slices: seq<nat>)
    requires AsAlone(regs, traces, exec, init, slices)
    ensures |traces| == |init| && Lengths(traces, |traces|) == Sum(slices)
  {
    LengthsAreShares(regs, traces, exec, init, slices, |init|);
    SharesSum(slices, |init|);
  }

  lemma SoFar(regs: seq<Regs>, traces: seq<seq<Regs>>, exec: Regs -> Regs, init: seq<Regs>, slices: seq<nat>, k: nat)
    requires AsAlone(regs, traces, exec, init, slices) && k < |init|
    ensures |regs| == |init| && |traces| == |init|
    ensures (traces[k], regs[k]) == RunAlone(exec, init[k], Ran(slices, |init|, k))
  {
  }

  lemma RanNext(slices: seq<nat>, m: nat, n: nat, k: nat)
    requires 0 < n
    ensures Ran(slices + [m], n, k) == Ran(slices, n, k) + if Turn(|slices|, n) == k then m else 0
  {
    assert (slices + [m])[..|slices|] == slices;
  }

  /** One slice more. */
  lemma SliceKeeps(regs: seq<Regs>, traces: seq<seq<Regs>>, exec: Regs -> Regs, init: seq<Regs>, slices: seq<nat>,
                   m: nat, c: nat, next: Regs, trace: seq<Regs>)
    requires AsAlone(regs, traces, exec, init, slices) && c == Turn(|slices|, |init|)
    requires (trace, next) == RunAlone(exec, init[c], Ran(slices, |init|, c) + m)
    ensures AsAlone(regs[c := next], traces[c := trace], exec, init, slices + [m])
  {
    hide *;
    assert |regs| == |init| && |traces| == |init| by { SoFar(regs, traces, exec, init, slices, c); }
    forall k | 0 <= k < |init|
      ensures (traces[c := trace][k], regs[c := next][k]) == RunAlone(exec, init[k], Ran(slices + [m], |init|, k))
    {
      RanNext(slices, m, |init|, k);
      SoFar(regs, traces, exec, init, slices, k);
      assert Ran(slices + [m], |init|, k) == if k == c then Ran(slices, |init|, c) + m else Ran(slices, |init|, k);
    }
    AllAlone(regs[c := next], traces[c := trace], exec, init, slices + [m]);
  }

  lemma AllAlone(regs: seq<Regs>, traces: seq<seq<Regs>>, exec: Regs -> Regs, init: seq<Regs>, slices: seq<nat>)
    requires 0 < |init| && |init| == |regs| && |init| == |traces|
    requires forall k :: 0 <= k < |init| ==> (traces[k], regs[k]) == RunAlone(exec, init[k], Ran(slices, |init|, k))
    ensures AsAlone(regs, traces, exec, init, slices)
  {
  }

  /** One slice and the tick at its end. */
  method Slice(sched: Scheduler, cpu: array<nat>, exec: Regs -> Regs, traces: seq<seq<Regs>>, m: nat,
               ghost init: seq<Regs>, ghost slices: seq<nat>) returns (next: seq<seq<Regs>>)
    requires sched.Valid() && sched.running && sched.count >= 2 && cpu.Length == 20 && |init| == |traces| == sched.count
    requires sched.current == Turn(|slices|, sched.count)
    requires AsAlone(sched.Registers(cpu[..]), traces, exec, init, slices)
    modifies sched`current, sched`switches, sched.saved, cpu
    ensures sched.Valid() && sched.current == Turn(|slices| + 1, sched.count) && |next| == sched.count
    ensures sched.switches == Wrap64(old(sched.switches) + 1)
    ensures AsAlone(sched.Registers(cpu[..]), next, exec, init, slices + [m])
  {
    hide FromFrame, Wrap64, AsAlone, Ran, Turn, RunAlone;
    var c := sched.current;
    ghost var regs := sched.Registers(cpu[..]);
    SoFar(regs, traces, exec, init, slices, c);
    var t := Execute(exec, cpu, m, init[c], Ran(slices, sched.count, c));
    next := traces[c := traces[c] + t];
    SliceKeeps(regs, traces, exec, init, slices, m, c, cpu[..], next[c]);
    assert sched.Registers(cpu[..]) == regs[c := cpu[..]];
    Tick(sched, cpu);
    TurnNext(|slices|, sched.count);
  }

  /** The first task's prepared registers on the processor. */
  method Enter(sched: Scheduler, cpu: array<nat>)
    requires sched.Valid() && sched.count > 0 && sched.current == 0 && cpu.Length == 20
    modifies sched`running, cpu
    ensures sched.Valid() && sched.running && sched.Registers(cpu[..]) == old(sched.Prepared())
  {
    var frame := new nat[22](i => 0);
    sched.Start(frame);
    var first := FromFrame(frame[..]);
    forall r | 0 <= r < 20 { cpu[r] := first[r]; }
    assert cpu[..] == first;
    assert forall k :: 0 <= k < sched.count ==> sched.Saved(k) == old(sched.Saved(k));
  }

  /** From the start of the first task through any time slices, each ended by a tick: the running index counts
      the ticks, every task sees the registers, instruction by instruction, that it would see alone, and every
      instruction belongs to some task. */
  method Run(sched: Scheduler, cpu: array<nat>, exec: Regs -> Regs, slices: seq<nat>) returns (traces: seq<seq<Regs>>)
    requires sched.Valid() && sched.count >= 2 && sched.current == 0 && cpu.Length == 20
    modifies sched`current, sched`switches, sched`running, sched.saved, cpu
    ensures sched.Valid() && sched.current == Turn(|slices|, sched.count)
    ensures sched.switches == Wrap64(old(sched.switches) + |slices|)
    ensures AsAlone(sched.Registers(cpu[..]), traces, exec, old(sched.Prepared()), slices)
    ensures Lengths(traces, |traces|) == Sum(slices)
  {
    hide FromFrame, Wrap64, AsAlone, Ran, Turn, RunAlone, Lengths, Sum;
    Enter(sched, cpu);
    TurnNext(0, sched.count);
    NextCount(sched.switches, 0);
    traces := seq(sched.count, k => []);
    ghost var init := sched.Registers(cpu[..]);
    StartsAlone(init, traces, exec);
    for i := 0 to |slices|
      invariant sched.Valid() && sched.running && sched.current == Turn(i, sched.count) && |traces| == sched.count
      invariant sched.switches == Wrap64(old(sched.switches) + i)
      invariant AsAlone(sched.Registers(cpu[..]), traces, exec, init, slices[..i])
    {
      assert slices[..i] + [slices[i]] == slices[..i + 1];
      traces := Slice(sched, cpu, exec, traces, slices[i], init, slices[..i]);
      NextCount(old(sched.switches), i);
    }
    assert slices[..|slices|] == slices;
    NothingLost(sched.Registers(cpu[..]), traces, exec, init, slices);
  }

  lemma StartsAlone(regs: seq<Regs>, traces: seq<seq<Regs>>, exec: Regs -> Regs)
    requires 0 < |regs| == |traces| && forall k :: 0 <= k < |traces| ==> traces[k] == []
    ensures AsAlone(regs, traces, exec, regs, [])
  {
  }

  /** A 64-bit counter. */
  function Wrap64(n: nat): nat {
    n % 0x1_0000_0000_0000_0000
  }

  lemma NextCount(a: nat, i: nat)
    ensures Wrap64(Wrap64(a + i) + 1) == Wrap64(a + (i + 1))
    ensures a < 0x1_0000_0000_0000_0000 ==> Wrap64(a) == a
  {
  }

  lemma NextIndex(i: nat, n: nat)
    requires 0 < n
    ensures (i % n + 1) % n == (i + 1) % n
  {
    var q := i / n;
    if i % n + 1 == n {
      assert n * (q + 1) == n * q + n;
      RemainderIs(i + 1, n, q + 1, 0);
    } else {
      RemainderIs(i + 1, n, q, i % n + 1);
    }
  }

  lemma RemainderIs(v: nat, n: nat, q: int, r: nat)
    requires r < n && v == n * q + r
    ensures v % n == r
  {
    var p := v / n;
    assert v == n * p + v % n;
    if p < q {
      Products(n, p + 1, q);
    } else if q < p {
      Products(n, q + 1, p);
    }
  }
}
