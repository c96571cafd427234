/** Any run of the page allocator from its start, against the set of free pages. */
module PhysicalPageRuns {
  import opened PhysicalPages

  datatype Op =
    | TakePage
    | TakeRun(count: nat)
    | GivePage(addr: nat)
    | GiveRun(addr: nat, count: nat)

  ghost predicate Lowest(free: set<nat>, p: nat) {
    p in free && forall q :: q in free ==> p <= q
  }

  ghost predicate LowestRun(free: set<nat>, s: nat, count: nat) {
    IsRun(free, s, count) && forall t: nat :: t < s ==> !IsRun(free, t, count)
  }

  /** What an operation makes of the free pages, and which address it answers: that of the lowest free page
      or run, or 0 when there is none. */
  ghost predicate Does(free: set<nat>, op: Op, addr: nat, after: set<nat>, total: nat) {
    match op
    case TakePage =>
      if free == {} then addr == 0 && after == free
      else addr % 4096 == 0 && Lowest(free, addr / 4096) && after == free - {addr / 4096}
    case TakeRun(count) =>
      if count == 0 || forall s: nat :: !IsRun(free, s, count) then addr == 0 && after == free
      else addr % 4096 == 0 && LowestRun(free, addr / 4096, count) && after == free - Pages(addr / 4096, count)
    case GivePage(a) => after == if a / 4096 < total then free + {a / 4096} else free
    case GiveRun(a, count) =>
      forall q: nat :: q in after <==> q in free || (a / 4096 <= q < a / 4096 + count && q < total)
  }

  /** Address 0 means failure to the callers. It is answered exactly when nothing was taken, if and only if page
      0 is not what the request takes: not the lowest free page, or not in the lowest run. */
  lemma ZeroMeansNothing(free: set<nat>, op: Op, addr: nat, after: set<nat>, total: nat)
    requires Does(free, op, addr, after, total) && (op.TakePage? || op.TakeRun?)
    ensures (addr == 0 <==> after == free)
       <==> if op.TakePage? then !Lowest(free, 0) else op.count == 0 || !IsRun(free, 0, op.count)
  {
    if op.TakePage? {
      if free != {} {
        var p := addr / 4096;
        assert p !in after;
        assert Lowest(free, 0) ==> p == 0;
      }
    } else if op.count > 0 && exists s: nat :: IsRun(free, s, op.count) {
      var s := addr / 4096;
      assert s in free && s in Pages(s, op.count) && s !in after;
      assert IsRun(free, 0, op.count) ==> s == 0;
    }
  }

  /** Nothing gives page 0 back. */
  predicate KeepsZero(op: Op) {
    match op
    case GivePage(a) => a / 4096 != 0
    case GiveRun(a, count) => a / 4096 != 0
    case _ => true
  }

  lemma StaysAway(free: set<nat>, op: Op, addr: nat, after: set<nat>, total: nat)
    requires Does(free, op, addr, after, total) && 0 !in free && KeepsZero(op)
    ensures 0 !in after
    ensures op.TakePage? || op.TakeRun? ==> (addr == 0 <==> after == free)
  {
    if op.TakePage? || op.TakeRun? {
      ZeroMeansNothing(free, op, addr, after, total);
    }
  }

  /** If page 0 is not free at the start and never given back, a request answers 0 exactly when it takes
      nothing, all along the run. */
  lemma {:induction false} ZeroMeansNothingAlong(frees: seq<set<nat>>, ops: seq<Op>, addrs: seq<nat>, total: nat,
                                                 i: nat)
    requires IsCourse(frees, ops, addrs, total) && 0 !in frees[0] && i <= |ops|
    requires forall j :: 0 <= j < |ops| ==> KeepsZero(ops[j])
    ensures 0 !in frees[i]
    ensures i < |ops| && (ops[i].TakePage? || ops[i].TakeRun?) ==> (addrs[i] == 0 <==> frees[i + 1] == frees[i])
  {
    hide Does;
    if i > 0 {
      ZeroMeansNothingAlong(frees, ops, addrs, total, i - 1);
      var op := ops[i - 1];
      StaysAway(frees[i - 1], op, addrs[i - 1], frees[i], total);
    }
    if i < |ops| {
      var op := ops[i];
      StaysAway(frees[i], op, addrs[i], frees[i + 1], total);
    }
  }

  /** With page 0 free, the next request for a page takes it and is answered 0: it is lost. */
  method ZeroPageLost(pmm: Pmm) returns (addr: nat)
    requires pmm.Valid() && pmm.HintSound() && 0 in pmm.Free()
    modifies pmm`freePages, pmm`scanHint, pmm.bitmap
    ensures addr == 0 && pmm.Valid() && pmm.Free() == old(pmm.Free()) - {0}
  {
    hide FreeIn;
    addr := pmm.AllocPage();
  }

  ghost predicate IsCourse(frees: seq<set<nat>>, ops: seq<Op>, addrs: seq<nat>, total: nat) {
    && |frees| == |ops| + 1 && |addrs| == |ops|
    && forall i {:trigger ops[i]} :: 0 <= i < |ops| ==> Does(frees[i], ops[i], addrs[i], frees[i + 1], total)
  }

  lemma CourseGoesOn(frees: seq<set<nat>>, ops: seq<Op>, addrs: seq<nat>, total: nat, op: Op, addr: nat,
                     after: set<nat>)
    requires IsCourse(frees, ops, addrs, total) && Does(frees[|ops|], op, addr, after, total)
    ensures IsCourse(frees + [after], ops + [op], addrs + [addr], total)
  {
    hide Does;
  }

  method DoTake(pmm: Pmm) returns (addr: nat)
    requires pmm.Valid() && pmm.HintSound()
    modifies pmm`freePages, pmm`scanHint, pmm.bitmap
    ensures pmm.Valid() && pmm.HintSound()
    ensures Does(old(pmm.Free()), TakePage, addr, pmm.Free(), pmm.totalPages)
  {
    hide FreeIn, Picked;
    ghost var f, h := pmm.Free(), pmm.scanHint;
    addr := pmm.AllocPage();
    if f != {} {
      PickedIsLowest(f, h, addr / 4096);
    }
  }

  lemma PickedIsLowest(free: set<nat>, hint: nat, p: nat)
    requires Picked(free, hint, p) && forall q :: q in free ==> q >= hint
    ensures Lowest(free, p)
  {
  }

  method DoTakeRun(pmm: Pmm, count: nat) returns (addr: nat)
    requires pmm.Valid() && pmm.HintSound()
    modifies pmm`freePages, pmm`scanHint, pmm.bitmap
    ensures pmm.Valid() && pmm.HintSound()
    ensures Does(old(pmm.Free()), TakeRun(count), addr, pmm.Free(), pmm.totalPages)
  {
    hide FreeIn, Pages, IsRun, Does;
    ghost var f, start := pmm.Free(), 0;
    addr, start := pmm.AllocPages(count);
    if count == 0 || forall s: nat :: !IsRun(f, s, count) {
      NoRun(f, count, pmm.totalPages);
    } else {
      PageNumber(start);
      FoundRun(f, count, start, pmm.totalPages);
    }
  }

  lemma NoRun(f: set<nat>, count: nat, total: nat)
    requires count == 0 || forall s: nat :: !IsRun(f, s, count)
    ensures Does(f, TakeRun(count), 0, f, total)
  {
  }

  lemma FoundRun(f: set<nat>, count: nat, s: nat, total: nat)
    requires count > 0 && IsRun(f, s, count) && forall t: nat :: t < s ==> !IsRun(f, t, count)
    ensures Does(f, TakeRun(count), 4096 * s, f - Pages(s, count), total)
  {
    hide IsRun, Pages;
  }

  method Perform(pmm: Pmm, op: Op) returns (addr: nat)
    requires pmm.Valid() && pmm.HintSound()
    modifies pmm`freePages, pmm`scanHint, pmm.bitmap
    ensures pmm.Valid() && pmm.HintSound()
    ensures Does(old(pmm.Free()), op, addr, pmm.Free(), pmm.totalPages)
  {
    hide FreeIn, IsRun, Pages, Lowest, LowestRun;
    addr := 0;
    match op {
      case TakePage => addr := DoTake(pmm);
      case TakeRun(count) => addr := DoTakeRun(pmm, count);
      case GivePage(a) => pmm.FreePage(a);
      case GiveRun(a, count) => pmm.FreePages(a, count);
    }
  }

  /** Any operations in any order. */
  method Run(pmm: Pmm, ops: seq<Op>) returns (addrs: seq<nat>, ghost frees: seq<set<nat>>)
    requires pmm.Valid() && pmm.HintSound()
    modifies pmm`freePages, pmm`scanHint, pmm.bitmap
    ensures pmm.Valid() && pmm.HintSound() && IsCourse(frees, ops, addrs, pmm.totalPages)
    ensures frees[0] == old(pmm.Free()) && frees[|ops|] == pmm.Free() && pmm.freePages == |frees[|ops|]|
  {
    hide FreeIn, Does;
    addrs, frees := [], [pmm.Free()];
    for i := 0 to |ops|
      invariant pmm.Valid() && pmm.HintSound() && IsCourse(frees, ops[..i], addrs, pmm.totalPages)
      invariant frees[0] == old(pmm.Free()) && frees[i] == pmm.Free()
    {
      var addr := Perform(pmm, ops[i]);
      CourseGoesOn(frees, ops[..i], addrs, pmm.totalPages, ops[i], addr, pmm.Free());
      assert ops[..i] + [ops[i]] == ops[..i + 1];
      addrs, frees := addrs + [addr], frees + [pmm.Free()];
    }
    assert ops[..|ops|] == ops;
  }

  /** The same from the memory map on: the first free pages are the usable ones less the bitmap's own. */
  method InitAndRun(memmap: seq<Region>, ops: seq<Op>)
    returns (ok: bool, pmm: Pmm, addrs: seq<nat>, ghost frees: seq<set<nat>>)
    requires PageAligned(memmap) && DisjointRegions(memmap)
    ensures ok <==> var k := HostRegion(memmap, BitmapBytes(memmap)); k < |memmap| && memmap[k].base != 0
    ensures ok ==>
              && pmm.Valid() && IsCourse(frees, ops, addrs, pmm.totalPages)
              && frees[0] == UsablePages(memmap) - BitmapPages(memmap)
              && |frees[0]| == |UsablePages(memmap)| - (pmm.totalPages + 32767) / 32768
              && frees[|ops|] == pmm.Free() && pmm.freePages == |frees[|ops|]|
  {
    hide FreeIn, Does;
    pmm := new Pmm();
    ok := pmm.Init(memmap);
    addrs, frees := [], [];
    if ok {
      addrs, frees := Run(pmm, ops);
    }
  }
}
