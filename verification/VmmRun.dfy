/** Any run of mappings and unmappings on one address space, while others take pages, write and return them. */
module VirtualMemoryRuns {
  import opened PageTables
  import opened PhysicalPages
  import opened VirtualMemory

  datatype Op =
    | MapPage(vaddr: nat, paddr: nat, flags: nat)
    | UnmapPage(vaddr: nat)
    | TakePages(count: nat)
    | TakePage
    | WriteWord(page: nat, i: nat, w: nat)
    | GivePages(page: nat, count: nat)

  /** Whether an operation succeeded, and the pages it gave to its caller with the words found there. */
  datatype Answer = Answer(ok: bool, got: map<nat, Frame>)

  type Held = map<nat, Frame>

  predicate AllHeld(held: Held, page: nat, count: nat) {
    forall n :: page <= n < page + count ==> n in held
  }

  /** What the holders of pages have after an operation. Writes and returns of pages that are not held are
      not made. */
  function HeldAfter(held: Held, op: Op, a: Answer): Held {
    match op
    case TakePage => held + a.got
    case TakePages(_) => held + a.got
    case WriteWord(page, i, w) => if page in held && i < 512 then held[page := held[page][i := w]] else held
    case GivePages(page, count) =>
      if AllHeld(held, page, count) then map n | n in held && !(page <= n < page + count) :: held[n] else held
    case _ => held
  }

  /** What an operation answers: a mapping fails exactly when the free pages do not suffice for the missing
      tables, a request for pages exactly when there is no such run, and it gets the lowest. */
  ghost predicate Answers(ram: Ram, root: nat, free: set<nat>, op: Op, a: Answer) {
    match op
    case MapPage(v, _, _) => (a.ok <==> Missing(ram, root, PathOf(v)) <= |free|) && a.got == map[]
    case TakePage =>
      if free == {} then !a.ok && a.got == map[]
      else a.ok && exists p :: p in free && (forall q :: q in free ==> p <= q) && a.got.Keys == {p}
    case TakePages(count) =>
      if count == 0 || forall s: nat :: !IsRun(free, s, count) then !a.ok && a.got == map[]
      else a.ok && exists s: nat :: IsRun(free, s, count) && (forall t: nat :: t < s ==> !IsRun(free, t, count))
                                 && a.got.Keys == Pages(s, count)
    case _ => a.ok && a.got == map[]
  }

  /** The page-table word of page `p` after a run: what the last successful operation on that page left. */
  function Replay(ops: seq<Op>, answers: seq<Answer>, p: Path, before: nat): nat
    requires |ops| == |answers|
  {
    if ops == [] then before
    else
      var last := |ops| - 1;
      PteAfter(Replay(ops[..last], answers[..last], p, before), ops[last], answers[last], p)
  }

  function PteAfter(w: nat, op: Op, a: Answer, p: Path): nat {
    match op
    case MapPage(v, paddr, f) => if a.ok && PathOf(v) == p then Or(BaseOf(paddr), f) else w
    case UnmapPage(v) => if PathOf(v) == p then 0 else w
    case _ => w
  }

  /** Held pages are neither free nor tables, and hold their holders' words. */
  ghost predicate HeldApart(held: Held, ram: Ram, root: nat, free: set<nat>) {
    forall n :: n in held ==> 0 < n < |ram| && n !in free && NoTable(ram, root, n) && ram[n] == held[n]
  }

  /** What becomes of the free pages: a mapping turns as many into tables as are missing, or all when they do
      not suffice; requests take what they answer; returns give back what was held. */
  ghost predicate Moves(ram: Ram, root: nat, free: set<nat>, held: Held, op: Op, a: Answer, ram': Ram,
                        after: set<nat>) {
    match op
    case MapPage(v, _, _) =>
      && after <= free && TablesGrow(ram, ram', root, free - after)
      && if a.ok then |after| + Missing(ram, root, PathOf(v)) == |free| else after == {}
    case UnmapPage(_) => after == free && TablesGrow(ram, ram', root, {})
    case WriteWord(_, _, _) => after == free && TablesGrow(ram, ram', root, {})
    case GivePages(page, count) =>
      ram' == ram && after == if AllHeld(held, page, count) then free + Pages(page, count) else free
    case _ => ram' == ram && after == free - a.got.Keys && a.got.Keys <= free
  }

  // ------------------------------------------------------------ one operation

  lemma HeldUntouched(held: Held, a: Ram, b: Ram, root: nat, free: set<nat>, after: set<nat>)
    requires HeldApart(held, a, root, free) && after <= free
    requires TablesFrom(a, b, root, free - after) && OthersUntouched(a, b, root, free)
    ensures HeldApart(held, b, root, after)
  {
    forall n | n in held
      ensures NoTable(b, root, n) && b[n] == held[n]
    {
      forall p | IsTable(b, root, p)
        ensures Reach(b, root, p) != n
      {
        assert Reach(b, root, p) == Reach(a, root, p) ==> IsTable(a, root, p);
      }
    }
  }

  lemma SameReach(a: Ram, b: Ram, root: nat, free: set<nat>)
    requires forall p: Path :: |p| <= 3 ==> Reach(b, root, p) == Reach(a, root, p)
    ensures TablesFrom(a, b, root, free)
  {
  }

  /** Pages that were free become held. */
  lemma HeldTaken(held: Held, ram: Ram, root: nat, free: set<nat>, after: set<nat>, got: Held)
    requires HeldApart(held, ram, root, free) && TablesTaken(ram, root, free) && after <= free
    requires forall n :: n in got ==> n in free && n !in after && n < |ram| && ram[n] == got[n]
    ensures HeldApart(held + got, ram, root, after) && TablesTaken(ram, root, after)
  {
    forall n | n in got
      ensures NoTable(ram, root, n)
    {
      FreePageIsNoTable(ram, root, free, n);
    }
  }

  /** Held pages become free. */
  lemma HeldGiven(held: Held, ram: Ram, root: nat, free: set<nat>, after: set<nat>, page: nat, count: nat)
    requires HeldApart(held, ram, root, free) && TablesTaken(ram, root, free) && AllHeld(held, page, count)
    requires forall n :: n in after ==> n in free || page <= n < page + count
    ensures HeldApart(map n | n in held && !(page <= n < page + count) :: held[n], ram, root, after)
    ensures TablesTaken(ram, root, after)
  {
    forall p | IsTable(ram, root, p)
      ensures Reach(ram, root, p) !in after
    {
    }
  }

  /** A holder writes to its page: no table and no other held page changes. */
  lemma HeldWritten(held: Held, ram: Ram, root: nat, free: set<nat>, page: nat, f: Frame)
    requires HeldApart(held, ram, root, free) && TablesTaken(ram, root, free) && Tree(ram, root) && page in held
    ensures page < |ram| && HeldApart(held[page := f], ram[page := f], root, free)
    ensures Tree(ram[page := f], root) && TablesTaken(ram[page := f], root, free)
    ensures forall p: Path :: |p| == 4 ==> Pte(ram[page := f], root, p) == Pte(ram, root, p)
    ensures TablesGrow(ram, ram[page := f], root, {})
  {
    ZeroKeeps(ram, root, page, f);
    SameReach(ram, ram[page := f], root, {});
    TablesGrowSame(ram, ram[page := f], root);
    TakenUnchanged(ram, ram[page := f], root, free);
    var e := ram[page := f];
    forall n | n in held
      ensures NoTable(e, root, n)
    {
      forall p | IsTable(e, root, p)
        ensures Reach(e, root, p) != n
      {
        assert IsTable(ram, root, p);
      }
    }
  }

  ghost predicate Ready(vmm: Vmm, held: Held)
    reads vmm, vmm.pmm, vmm.pmm.bitmap
  {
    && vmm.Valid() && vmm.pmm.HintSound() && HeldApart(held, vmm.ram, vmm.root, vmm.pmm.Free())
    && forall n :: n in held ==> n < vmm.pmm.totalPages
  }

  method DoTake(vmm: Vmm, held: Held) returns (a: Answer)
    requires Ready(vmm, held)
    modifies vmm.pmm`freePages, vmm.pmm`scanHint, vmm.pmm.bitmap
    ensures Ready(vmm, held + a.got)
    ensures Answers(vmm.ram, vmm.root, old(vmm.pmm.Free()), TakePage, a)
    ensures vmm.pmm.Free() == old(vmm.pmm.Free()) - a.got.Keys && a.got.Keys <= old(vmm.pmm.Free())
  {
    hide Tree, Reach, FreeIn, IsTable, TablesTaken, HeldApart;
    ghost var free, hint := vmm.pmm.Free(), vmm.pmm.scanHint;
    ZeroTaken(vmm.ram, vmm.root, free);
    vmm.pmm.FreeBelow();
    var addr := vmm.pmm.AllocPage();
    var n := addr / 4096;
    a := if addr == 0 then Answer(false, map[]) else Answer(true, map[n := vmm.ram[n]]);
    if addr != 0 {
      LowestPicked(free, hint, n);
    }
    HeldTaken(held, vmm.ram, vmm.root, free, vmm.pmm.Free(), a.got);
  }

  lemma LowestPicked(free: set<nat>, hint: nat, p: nat)
    requires Picked(free, hint, p) && forall q :: q in free ==> q >= hint
    ensures p in free && forall q :: q in free ==> p <= q
  {
  }

  /** The words in a run of pages. */
  function Found(ram: Ram, s: nat, count: nat): (got: Held)
    requires s + count <= |ram|
    ensures got.Keys == Pages(s, count) && forall n :: n in got ==> n < |ram| && got[n] == ram[n]
  {
    map n: nat | s <= n < s + count :: ram[n]
  }

  lemma RunPages(free: set<nat>, s: nat, count: nat)
    requires IsRun(free, s, count)
    ensures forall n :: n in Pages(s, count) ==> n in free
  {
  }

  lemma RunAnswered(ram: Ram, root: nat, free: set<nat>, count: nat, got: Held, start: nat)
    requires count > 0 && IsRun(free, start, count) && forall t: nat :: t < start ==> !IsRun(free, t, count)
    requires got.Keys == Pages(start, count)
    ensures Answers(ram, root, free, TakePages(count), Answer(true, got))
  {
    hide Pages, IsRun;
  }

  lemma RunRefused(ram: Ram, root: nat, free: set<nat>, count: nat)
    requires count == 0 || forall s: nat :: !IsRun(free, s, count)
    ensures Answers(ram, root, free, TakePages(count), Answer(false, map[]))
  {
  }

  /** The pages of the lowest run, with their words. */
  method TakeRunPages(vmm: Vmm, count: nat) returns (a: Answer)
    requires vmm.Valid() && vmm.pmm.HintSound()
    modifies vmm.pmm`freePages, vmm.pmm`scanHint, vmm.pmm.bitmap
    ensures vmm.pmm.Valid() && vmm.pmm.HintSound()
    ensures Answers(vmm.ram, vmm.root, old(vmm.pmm.Free()), TakePages(count), a)
    ensures vmm.pmm.Free() == old(vmm.pmm.Free()) - a.got.Keys && a.got.Keys <= old(vmm.pmm.Free())
    ensures forall n :: n in a.got ==> n < |vmm.ram| && vmm.ram[n] == a.got[n]
  {
    hide Tree, TablesTaken, FreeIn, Pages, IsRun, Found, Answers;
    ghost var free := vmm.pmm.Free();
    ZeroTaken(vmm.ram, vmm.root, free);
    vmm.pmm.FreeBelow();
    ghost var start;
    var addr;
    addr, start := vmm.pmm.AllocPages(count);
    if addr == 0 {
      RunNotAtZero(free, start, count);
      RunRefused(vmm.ram, vmm.root, free, count);
      a := Answer(false, map[]);
    } else {
      PhysicalPages.PageNumber(start);
      RunPages(free, start, count);
      a := Answer(true, Found(vmm.ram, addr / 4096, count));
      RunAnswered(vmm.ram, vmm.root, free, count, a.got, start);
    }
  }

  method DoTakeRun(vmm: Vmm, count: nat, held: Held) returns (a: Answer)
    requires Ready(vmm, held)
    modifies vmm.pmm`freePages, vmm.pmm`scanHint, vmm.pmm.bitmap
    ensures Ready(vmm, held + a.got)
    ensures Answers(vmm.ram, vmm.root, old(vmm.pmm.Free()), TakePages(count), a)
    ensures vmm.pmm.Free() == old(vmm.pmm.Free()) - a.got.Keys && a.got.Keys <= old(vmm.pmm.Free())
  {
    hide Tree, FreeIn, TablesTaken, HeldApart, Answers;
    ghost var free := vmm.pmm.Free();
    vmm.pmm.FreeBelow();
    a := TakeRunPages(vmm, count);
    HeldTaken(held, vmm.ram, vmm.root, free, vmm.pmm.Free(), a.got);
  }

  lemma RunNotAtZero(free: set<nat>, start: nat, count: nat)
    requires 0 !in free
    ensures count > 0 && IsRun(free, start, count) ==> start != 0
  {
  }

  lemma GivenPages(held: Held, free: set<nat>, after: set<nat>, page: nat, count: nat, total: nat)
    requires AllHeld(held, page, count) && forall n :: n in held ==> n < total
    requires forall q: nat :: q in after <==> q in free || (page <= q < page + count && q < total)
    ensures after == free + Pages(page, count)
  {
    forall q | q in Pages(page, count)
      ensures q in after
    {
      assert q in held;
    }
  }

  method DoGive(vmm: Vmm, page: nat, count: nat, held: Held)
    requires Ready(vmm, held)
    modifies vmm.pmm`freePages, vmm.pmm`scanHint, vmm.pmm.bitmap
    ensures Ready(vmm, HeldAfter(held, GivePages(page, count), Answer(true, map[])))
    ensures vmm.pmm.Free() == if AllHeld(held, page, count) then old(vmm.pmm.Free()) + Pages(page, count)
                              else old(vmm.pmm.Free())
  {
    hide Tree, Reach, FreeIn, IsTable, TablesTaken, HeldApart, Pages;
    if forall n :: page <= n < page + count ==> n in held {
      ghost var free := vmm.pmm.Free();
      PhysicalPages.PageNumber(page);
      vmm.pmm.FreePages(page * 4096, count);
      HeldGiven(held, vmm.ram, vmm.root, free, vmm.pmm.Free(), page, count);
      GivenPages(held, free, vmm.pmm.Free(), page, count, vmm.pmm.totalPages);
    }
  }

  method DoWrite(vmm: Vmm, page: nat, i: nat, w: nat, held: Held)
    requires Ready(vmm, held)
    modifies vmm`ram
    ensures Ready(vmm, HeldAfter(held, WriteWord(page, i, w), Answer(true, map[])))
    ensures forall p: Path :: |p| == 4 ==> Pte(vmm.ram, vmm.root, p) == Pte(old(vmm.ram), vmm.root, p)
    ensures TablesGrow(old(vmm.ram), vmm.ram, vmm.root, {})
  {
    hide Tree, Reach, FreeIn, IsTable, TablesTaken, Pte, TablesGrow;
    TablesGrowSame(vmm.ram, vmm.ram, vmm.root);
    if page in held && i < 512 {
      HeldWritten(held, vmm.ram, vmm.root, vmm.pmm.Free(), page, held[page][i := w]);
      vmm.ram := SetWord(vmm.ram, page, i, w);
    }
  }

  method Perform(vmm: Vmm, op: Op, held: Held) returns (a: Answer)
    requires Ready(vmm, held)
    modifies vmm`ram, vmm.pmm`freePages, vmm.pmm`scanHint, vmm.pmm.bitmap
    ensures Ready(vmm, HeldAfter(held, op, a))
    ensures Answers(old(vmm.ram), vmm.root, old(vmm.pmm.Free()), op, a)
    ensures Moves(old(vmm.ram), vmm.root, old(vmm.pmm.Free()), held, op, a, vmm.ram, vmm.pmm.Free())
    ensures forall p: Path :: |p| == 4 ==>
              Pte(vmm.ram, vmm.root, p) == PteAfter(Pte(old(vmm.ram), vmm.root, p), op, a, p)
  {
    hide Tree, TablesTaken, Reach, Pte, FreeIn, PathOf, HeldApart, TablesFrom, OthersUntouched, Missing, TablesGrow;
    ghost var ram, free := vmm.ram, vmm.pmm.Free();
    a := Answer(true, map[]);
    match op {
      case MapPage(v, paddr, f) =>
        var r := vmm.Map(v, paddr, f);
        HeldUntouched(held, ram, vmm.ram, vmm.root, free, vmm.pmm.Free());
        a := Answer(r == 0, map[]);
      case UnmapPage(v) =>
        vmm.Unmap(v);
        SameReach(ram, vmm.ram, vmm.root, free - vmm.pmm.Free());
        TablesGrowSame(ram, vmm.ram, vmm.root);
        HeldUntouched(held, ram, vmm.ram, vmm.root, free, vmm.pmm.Free());
      case TakePages(count) => a := DoTakeRun(vmm, count, held);
      case TakePage => a := DoTake(vmm, held);
      case WriteWord(page, i, w) => DoWrite(vmm, page, i, w, held);
      case GivePages(page, count) => DoGive(vmm, page, count, held);
    }
  }

  // ------------------------------------------------------------ runs

  /** Memory, free pages and held pages along a run. */
  datatype Course = Course(rams: seq<Ram>, frees: seq<set<nat>>, held: seq<Held>)

  ghost predicate IsCourse(c: Course, root: nat, ops: seq<Op>, answers: seq<Answer>) {
    && |ops| == |answers| && |c.rams| == |c.frees| == |c.held| == |ops| + 1
    && forall i {:trigger ops[i]} :: 0 <= i < |ops| ==>
         && Answers(c.rams[i], root, c.frees[i], ops[i], answers[i])
         && c.held[i + 1] == HeldAfter(c.held[i], ops[i], answers[i])
         && Moves(c.rams[i], root, c.frees[i], c.held[i], ops[i], answers[i], c.rams[i + 1], c.frees[i + 1])
  }

  lemma CourseGoesOn(c: Course, root: nat, ops: seq<Op>, answers: seq<Answer>, op: Op, a: Answer, ram: Ram,
                     free: set<nat>)
    requires IsCourse(c, root, ops, answers) && Answers(c.rams[|ops|], root, c.frees[|ops|], op, a)
    requires Moves(c.rams[|ops|], root, c.frees[|ops|], c.held[|ops|], op, a, ram, free)
    ensures IsCourse(Course(c.rams + [ram], c.frees + [free], c.held + [HeldAfter(c.held[|ops|], op, a)]),
                     root, ops + [op], answers + [a])
  {
    hide Answers, HeldAfter, Moves;
  }

  /** Page `n` is free, held, or a table. */
  ghost predicate Accounted(ram: Ram, root: nat, free: set<nat>, held: Held, n: nat) {
    n in free || n in held || IsTablePage(ram, root, n)
  }

  lemma StepLosesNothing(ram: Ram, root: nat, free: set<nat>, held: Held, op: Op, a: Answer, ram': Ram,
                         after: set<nat>, n: nat)
    requires Moves(ram, root, free, held, op, a, ram', after) && Accounted(ram, root, free, held, n)
    ensures Accounted(ram', root, after, HeldAfter(held, op, a), n)
  {
    hide Pages, Reach, Missing;
    if IsTablePage(ram, root, n) && ram' != ram {
      var p: Path :| IsTable(ram, root, p) && Reach(ram, root, p) == n;
      assert IsTable(ram', root, p);
    }
  }

  /** Pages leave the free set only into tables and holders' hands: every page that was free at the start is
      free, held or a table in every state of the run. */
  lemma {:induction false} NoPageLost(c: Course, root: nat, ops: seq<Op>, answers: seq<Answer>, i: nat, n: nat)
    requires IsCourse(c, root, ops, answers) && i <= |ops| && n in c.frees[0]
    ensures Accounted(c.rams[i], root, c.frees[i], c.held[i], n)
  {
    hide Answers, HeldAfter, Moves;
    if i > 0 {
      NoPageLost(c, root, ops, answers, i - 1, n);
      var op := ops[i - 1];
      StepLosesNothing(c.rams[i - 1], root, c.frees[i - 1], c.held[i - 1], op, answers[i - 1],
                       c.rams[i], c.frees[i], n);
    }
  }

  lemma ReplayNext(ops: seq<Op>, answers: seq<Answer>, op: Op, a: Answer, p: Path, before: nat)
    requires |ops| == |answers|
    ensures Replay(ops + [op], answers + [a], p, before) == PteAfter(Replay(ops, answers, p, before), op, a, p)
  {
    assert (ops + [op])[..|ops|] == ops && (answers + [a])[..|answers|] == answers;
  }

  /** Over any run the tables stay a tree of allocated pages apart from all held pages; every page-table word
      is what the last successful operation on its page left; held pages keep their holders' words; and
      every answer is the one the state demands. */
  method Run(vmm: Vmm, ops: seq<Op>) returns (answers: seq<Answer>, ghost c: Course)
    requires Ready(vmm, map[])
    modifies vmm`ram, vmm.pmm`freePages, vmm.pmm`scanHint, vmm.pmm.bitmap
    ensures IsCourse(c, vmm.root, ops, answers)
    ensures c.rams[0] == old(vmm.ram) && c.frees[0] == old(vmm.pmm.Free()) && c.held[0] == map[]
    ensures c.rams[|ops|] == vmm.ram && c.frees[|ops|] == vmm.pmm.Free() && Ready(vmm, c.held[|ops|])
    ensures forall p: Path :: |p| == 4 ==>
              Pte(vmm.ram, vmm.root, p) == Replay(ops, answers, p, Pte(old(vmm.ram), vmm.root, p))
  {
    hide Ready, Pte, FreeIn, Replay, Answers, HeldAfter, PteAfter, Moves;
    answers := [];
    var held: Held := map[];
    ReadyMeans(vmm, held);
    c := Course([vmm.ram], [vmm.pmm.Free()], [held]);
    NothingReplayed();
    for i := 0 to |ops|
      invariant Ready(vmm, held) && vmm.Valid() && |answers| == i
      invariant IsCourse(c, vmm.root, ops[..i], answers)
      invariant c.rams[0] == old(vmm.ram) && c.frees[0] == old(vmm.pmm.Free()) && c.held[0] == map[]
      invariant c.rams[i] == vmm.ram && c.frees[i] == vmm.pmm.Free() && c.held[i] == held
      invariant forall p: Path :: |p| == 4 ==>
                  Pte(vmm.ram, vmm.root, p) == Replay(ops[..i], answers, p, Pte(old(vmm.ram), vmm.root, p))
    {
      ghost var ram, before := vmm.ram, answers;
      var a := Perform(vmm, ops[i], held);
      held := HeldAfter(held, ops[i], a);
      ReadyMeans(vmm, held);
      CourseGoesOn(c, vmm.root, ops[..i], answers, ops[i], a, vmm.ram, vmm.pmm.Free());
      assert ops[..i] + [ops[i]] == ops[..i + 1];
      c := Course(c.rams + [vmm.ram], c.frees + [vmm.pmm.Free()], c.held + [held]);
      answers := answers + [a];
      forall p: Path | |p| == 4
        ensures Pte(vmm.ram, vmm.root, p) == Replay(ops[..i + 1], answers, p, Pte(old(vmm.ram), vmm.root, p))
      {
        ReplayNext(ops[..i], before, ops[i], a, p, Pte(old(vmm.ram), vmm.root, p));
      }
    }
    assert ops[..|ops|] == ops;
  }

  lemma ReadyMeans(vmm: Vmm, held: Held)
    requires Ready(vmm, held)
    ensures vmm.Valid()
  {
  }

  lemma NothingReplayed()
    ensures forall p: Path, w: nat :: Replay([], [], p, w) == w
  {
  }
}
