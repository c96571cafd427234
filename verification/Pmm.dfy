/** The physical page allocator: a bitmap of pages with a search hint. */
module PhysicalPages {
  import opened Bytes
  import opened Sets

  predicate Allocated(bitmap: seq<byte>, page: nat)
    requires page / 8 < |bitmap|
  {
    On(bitmap[page / 8], page % 8)
  }

  ghost function FreeIn(bitmap: seq<byte>, total: nat): set<nat>
    requires total <= 8 * |bitmap|
  {
    set i: nat | i < total && !Allocated(bitmap, i)
  }

  /** Changing the bit of one page changes that page's state and no other. */
  lemma PageBit(bm: seq<byte>, page: nat, i: nat)
    requires page / 8 < |bm| && i / 8 < |bm|
    ensures Allocated(bm[page / 8 := TurnOn(bm[page / 8], page % 8)], i) == (i == page || Allocated(bm, i))
    ensures Allocated(bm[page / 8 := TurnOff(bm[page / 8], page % 8)], i) == (i != page && Allocated(bm, i))
  {
    if i / 8 == page / 8 {
      ByteBitUpdate(bm[page / 8], page % 8, i % 8);
    }
  }

  lemma PageSet(bm: seq<byte>, page: nat, total: nat)
    requires page < total <= 8 * |bm|
    ensures FreeIn(bm[page / 8 := TurnOn(bm[page / 8], page % 8)], total) == FreeIn(bm, total) - {page}
    ensures FreeIn(bm[page / 8 := TurnOff(bm[page / 8], page % 8)], total) == FreeIn(bm, total) + {page}
  {
    forall i: nat | i < total
      ensures Allocated(bm[page / 8 := TurnOn(bm[page / 8], page % 8)], i) == (i == page || Allocated(bm, i))
      ensures Allocated(bm[page / 8 := TurnOff(bm[page / 8], page % 8)], i) == (i != page && Allocated(bm, i))
    {
      PageBit(bm, page, i);
    }
  }

  ghost function Pages(start: nat, count: nat): (s: set<nat>)
    ensures |s| == count
    ensures forall i: nat :: i in s <==> start <= i < start + count
  {
    if count == 0 then {} else Pages(start, count - 1) + {start + count - 1}
  }

  /** All pages of a run are free. */
  predicate IsRun(free: set<nat>, start: nat, count: nat) {
    forall i :: start <= i < start + count ==> i in free
  }

  /** The page an allocation takes when it searches from `hint` and then wraps around. */
  ghost predicate Picked(free: set<nat>, hint: nat, p: nat) {
    && p in free
    && (forall q :: q in free && q < p ==> p >= hint > q)
    && (p < hint ==> forall q :: q in free ==> q < hint)
  }

  // ------------------------------------------------------------------ the memory map

  datatype Region = Region(base: nat, length: nat, usable: bool)

  ghost function RegionPages(r: Region): set<nat> {
    if r.usable then Pages(r.base / 4096, r.length / 4096) else {}
  }

  ghost function UsablePages(memmap: seq<Region>): set<nat> {
    if memmap == [] then {}
    else UsablePages(memmap[..|memmap| - 1]) + RegionPages(memmap[|memmap| - 1])
  }

  predicate PageAligned(memmap: seq<Region>) {
    forall i :: 0 <= i < |memmap| && memmap[i].usable ==> memmap[i].base % 4096 == 0 && memmap[i].length % 4096 == 0
  }

  ghost predicate DisjointRegions(memmap: seq<Region>) {
    forall i, j :: 0 <= i < j < |memmap| ==> RegionPages(memmap[i]) !! RegionPages(memmap[j])
  }

  lemma {:induction false} DisjointFromEarlier(memmap: seq<Region>, i: nat, n: nat)
    requires DisjointRegions(memmap) && n <= i < |memmap|
    ensures RegionPages(memmap[i]) !! UsablePages(memmap[..n])
  {
    if n > 0 {
      DisjointFromEarlier(memmap, i, n - 1);
      assert memmap[..n][..n - 1] == memmap[..n - 1];
    }
  }

  /** The usable pages are those that lie whole in a usable region. */
  lemma {:induction false} UsableMeans(memmap: seq<Region>, p: nat)
    requires PageAligned(memmap)
    ensures p in UsablePages(memmap) <==>
              exists i :: 0 <= i < |memmap| && memmap[i].usable
                          && memmap[i].base <= 4096 * p && 4096 * p + 4096 <= memmap[i].base + memmap[i].length
  {
    if memmap != [] {
      var last := |memmap| - 1;
      var r := memmap[last];
      UsableMeans(memmap[..last], p);
      assert r.usable ==> r.base == r.base / 4096 * 4096 && r.length == r.length / 4096 * 4096;
      assert p in RegionPages(r) <==> r.usable && r.base <= 4096 * p && 4096 * p + 4096 <= r.base + r.length;
      forall i | 0 <= i < last
        ensures memmap[..last][i] == memmap[i]
      {
      }
    }
  }

  /** The end of the highest region. */
  function Highest(memmap: seq<Region>): (h: nat)
    ensures forall i :: 0 <= i < |memmap| ==> memmap[i].base + memmap[i].length <= h
    ensures if memmap == [] then h == 0 else exists i :: 0 <= i < |memmap| && memmap[i].base + memmap[i].length == h
  {
    if memmap == [] then 0
    else
      var last := |memmap| - 1;
      var h, end := Highest(memmap[..last]), memmap[last].base + memmap[last].length;
      assert forall i :: 0 <= i < last ==> memmap[i] == memmap[..last][i];
      if end > h then end else h
  }

  predicate Hosts(r: Region, bytes: nat) {
    r.usable && r.length >= bytes
  }

  /** The first usable region that can hold the bitmap, or |memmap|. */
  function HostRegion(memmap: seq<Region>, bytes: nat): (k: nat)
    ensures k <= |memmap| && (k < |memmap| ==> Hosts(memmap[k], bytes))
    ensures forall i :: 0 <= i < k ==> !Hosts(memmap[i], bytes)
  {
    HostFrom(memmap, bytes, 0)
  }

  function HostFrom(memmap: seq<Region>, bytes: nat, i: nat): (k: nat)
    requires i <= |memmap| && forall j :: 0 <= j < i ==> !Hosts(memmap[j], bytes)
    ensures i <= k <= |memmap| && (k < |memmap| ==> Hosts(memmap[k], bytes))
    ensures forall j :: 0 <= j < k ==> !Hosts(memmap[j], bytes)
    decreases |memmap| - i
  {
    if i == |memmap| || Hosts(memmap[i], bytes) then i else HostFrom(memmap, bytes, i + 1)
  }

  function BitmapBytes(memmap: seq<Region>): nat {
    (Highest(memmap) / 4096 + 7) / 8
  }

  /** Pages the bitmap itself occupies. */
  ghost function BitmapPages(memmap: seq<Region>): set<nat>
    requires HostRegion(memmap, BitmapBytes(memmap)) < |memmap|
  {
    Pages(memmap[HostRegion(memmap, BitmapBytes(memmap))].base / 4096, (BitmapBytes(memmap) + 4095) / 4096)
  }

  /** The bitmap has a bit for every page and no byte more than that needs; it fills a page for every 32768. */
  lemma BitmapSize(total: nat)
    ensures var bytes := (total + 7) / 8;
            && total <= 8 * bytes && (if total > 0 then 8 * (bytes - 1) < total else bytes == 0)
            && (bytes + 4095) / 4096 == (total + 32767) / 32768
            && forall length: nat :: length >= bytes <==> 8 * length >= total
  {
  }

  /** The first usable region that holds a bit for every page is the host. */
  lemma HostMeans(memmap: seq<Region>, k: nat)
    ensures k < |memmap| && HostRegion(memmap, BitmapBytes(memmap)) == k <==>
              && k < |memmap| && memmap[k].usable && 8 * memmap[k].length >= Highest(memmap) / 4096
              && forall j :: 0 <= j < k && memmap[j].usable ==> 8 * memmap[j].length < Highest(memmap) / 4096
  {
    BitmapSize(Highest(memmap) / 4096);
    var h := HostRegion(memmap, BitmapBytes(memmap));
    forall j | 0 <= j < |memmap|
      ensures Hosts(memmap[j], BitmapBytes(memmap)) <==>
                memmap[j].usable && 8 * memmap[j].length >= Highest(memmap) / 4096
    {
    }
  }

  /** Region `k` is the first usable one that holds `total` bits. */
  predicate FirstHost(memmap: seq<Region>, k: nat, total: nat) {
    && k < |memmap| && memmap[k].usable && 8 * memmap[k].length >= total
    && forall j :: 0 <= j < k && memmap[j].usable ==> 8 * memmap[j].length < total
  }

  lemma HostFound(memmap: seq<Region>)
    ensures var h := HostRegion(memmap, BitmapBytes(memmap));
            (h < |memmap| && memmap[h].base != 0)
              <==> exists k: nat :: FirstHost(memmap, k, Highest(memmap) / 4096) && memmap[k].base != 0
  {
    var h := HostRegion(memmap, BitmapBytes(memmap));
    forall k: nat
      ensures FirstHost(memmap, k, Highest(memmap) / 4096) <==> k < |memmap| && k == h
    {
      HostMeans(memmap, k);
    }
  }

  /** The bitmap's own pages are usable ones, so reserving them costs as many. */
  lemma ReservedCount(memmap: seq<Region>)
    requires PageAligned(memmap) && HostRegion(memmap, BitmapBytes(memmap)) < |memmap|
    ensures |UsablePages(memmap) - BitmapPages(memmap)|
         == |UsablePages(memmap)| - (Highest(memmap) / 4096 + 32767) / 32768
  {
    hide Highest, HostRegion, Pages;
    var k, u, b := HostRegion(memmap, BitmapBytes(memmap)), UsablePages(memmap), BitmapPages(memmap);
    BitmapSize(Highest(memmap) / 4096);
    assert memmap[k].base == memmap[k].base / 4096 * 4096 && memmap[k].length == memmap[k].length / 4096 * 4096;
    forall p | p in b
      ensures p in u
    {
      assert memmap[k].usable && memmap[k].base <= 4096 * p && 4096 * p + 4096 <= memmap[k].base + memmap[k].length;
      UsableMeans(memmap, p);
    }
    assert b <= u && u == (u - b) + b;
  }

  lemma AllTaken(bitmap: seq<byte>, total: nat)
    requires total <= 8 * |bitmap| && forall i :: 0 <= i < |bitmap| ==> bitmap[i] == 0xFF
    ensures FreeIn(bitmap, total) == {}
  {
    forall i: nat | i < total
      ensures Allocated(bitmap, i)
    {
      FullByte(bitmap[i / 8]);
    }
  }

  lemma RegionInside(memmap: seq<Region>, i: nat)
    requires PageAligned(memmap) && i < |memmap| && memmap[i].usable
    ensures memmap[i].base / 4096 + memmap[i].length / 4096 <= Highest(memmap) / 4096
  {
    var r := memmap[i];
    assert r.base == r.base / 4096 * 4096 && r.length == r.length / 4096 * 4096;
  }

  // ------------------------------------------------------------------ the allocator

  class Pmm {
    var bitmap: array<byte>
    var totalPages: nat
    var freePages: int
    var scanHint: nat

    /** The bitmap describes all pages and the counter counts the clear bits. */
    ghost predicate Valid()
      reads this, bitmap
    {
      totalPages <= 8 * bitmap.Length && freePages == |FreeIn(bitmap[..], totalPages)|
    }

    ghost function Free(): set<nat>
      reads this, bitmap
      requires totalPages <= 8 * bitmap.Length
    {
      FreeIn(bitmap[..], totalPages)
    }

    /** Every page below the hint is allocated. */
    ghost predicate HintSound()
      reads this, bitmap
      requires totalPages <= 8 * bitmap.Length
    {
      forall i :: i in Free() ==> scanHint <= i
    }

    constructor ()
      ensures Valid() && HintSound() && Free() == {} && fresh(bitmap)
    {
      bitmap := new byte[0];
      totalPages, freePages, scanHint := 0, 0, 0;
    }

    method BitmapTest(page: nat) returns (b: bool)
      requires page < totalPages <= 8 * bitmap.Length
      ensures b <==> page !in Free()
    {
      b := On(bitmap[page / 8], page % 8);
    }

    method BitmapSet(page: nat)
      requires page < totalPages <= 8 * bitmap.Length
      modifies bitmap
      ensures Free() == old(Free()) - {page}
    {
      PageSet(bitmap[..], page, totalPages);
      ghost var bm := bitmap[..];
      bitmap[page / 8] := TurnOn(bitmap[page / 8], page % 8);
      assert bitmap[..] == bm[page / 8 := TurnOn(bm[page / 8], page % 8)];
    }

    method BitmapClear(page: nat)
      requires page < totalPages <= 8 * bitmap.Length
      modifies bitmap
      ensures Free() == old(Free()) + {page}
    {
      PageSet(bitmap[..], page, totalPages);
      ghost var bm := bitmap[..];
      bitmap[page / 8] := TurnOff(bitmap[page / 8], page % 8);
      assert bitmap[..] == bm[page / 8 := TurnOff(bm[page / 8], page % 8)];
    }

    /** Marks a free page allocated and counts it. */
    method Take(page: nat)
      requires Valid() && page < totalPages && page in Free()
      modifies this`freePages, bitmap
      ensures Valid() && Free() == old(Free()) - {page}
    {
      hide FreeIn;
      BitmapSet(page);
      freePages := freePages - 1;
    }

    /** Marks an allocated page free and counts it. */
    method Give(page: nat)
      requires Valid() && page < totalPages && page !in Free()
      modifies this`freePages, bitmap
      ensures Valid() && Free() == old(Free()) + {page}
    {
      hide FreeIn;
      BitmapClear(page);
      freePages := freePages + 1;
    }

    /** One search loop: takes the first free page in [from, end). */
    method TakeFirst(from: nat, end: nat) returns (found: bool, page: nat)
      requires Valid() && end <= totalPages
      modifies this`freePages, this`scanHint, bitmap
      ensures Valid()
      ensures !found ==>
                && Free() == old(Free()) && scanHint == old(scanHint)
                && forall q :: q in Free() ==> !(from <= q < end)
      ensures found ==>
                && from <= page < end && page in old(Free()) && (forall q :: q in old(Free()) && q < page ==> q < from)
                && Free() == old(Free()) - {page} && scanHint == page + 1
    {
      hide FreeIn, Pages;
      page := from;
      ghost var f := Free();
      while page < end
        invariant from <= page && Valid() && Free() == f && scanHint == old(scanHint)
        invariant forall q :: q in f ==> !(from <= q < page)
        decreases end - page
      {
        var taken := BitmapTest(page);
        if !taken {
          Take(page);
          scanHint := page + 1;
          return true, page;
        }
        page := page + 1;
      }
      found := false;
    }

    /** Takes the first free page at or above the hint, otherwise the first below it. */
    method AllocPage() returns (addr: nat)
      requires Valid()
      modifies this`freePages, this`scanHint, bitmap
      ensures Valid()
      ensures old(Free()) == {} ==> addr == 0 && Free() == {} && scanHint == old(scanHint)
      ensures old(Free()) != {} ==>
                && Picked(old(Free()), old(scanHint), addr / 4096) && addr % 4096 == 0
                && Free() == old(Free()) - {addr / 4096} && scanHint == addr / 4096 + 1
      ensures addr == 0 <==> old(Free()) == {} || Picked(old(Free()), old(scanHint), 0)
      ensures 0 !in old(Free()) ==> (addr == 0 <==> old(Free()) == {})
      ensures old(HintSound()) ==> HintSound()
    {
      hide FreeIn, Pages;
      FreeBelow();
      var found, page := TakeFirst(scanHint, totalPages);
      if !found {
        found, page := TakeFirst(0, if scanHint < totalPages then scanHint else totalPages);
        if !found {
          assert old(Free()) == {};
          return 0;
        }
      }
      PageNumber(page);
      addr := page * 4096;
    }

    lemma FreeBelow()
      requires totalPages <= 8 * bitmap.Length
      ensures forall q :: q in Free() ==> q < totalPages
    {
    }

    /** With a sound hint the page taken is the lowest free one, and the second search never succeeds. */
    lemma HintedPickIsLowest(p: nat)
      requires Valid() && HintSound() && Picked(Free(), scanHint, p)
      ensures p >= scanHint && forall q :: q in Free() ==> p <= q
    {
    }

    /** The test loop of a run search: counts free pages from `start`, at most `count`. */
    method FreeRunLength(start: nat, count: nat) returns (j: nat)
      requires start + count <= totalPages <= 8 * bitmap.Length
      ensures j <= count && IsRun(Free(), start, j) && (j < count ==> start + j !in Free())
    {
      hide FreeIn, Pages;
      j := 0;
      while j < count
        invariant j <= count && IsRun(Free(), start, j)
      {
        var taken := BitmapTest(start + j);
        if taken {
          return;
        }
        j := j + 1;
      }
    }

    /** Takes the lowest run of `count` free pages. */
    method AllocPages(count: nat) returns (addr: nat, ghost start: nat)
      requires Valid()
      modifies this`freePages, bitmap
      ensures Valid() && scanHint == old(scanHint)
      ensures count == 0 || (forall s: nat :: !IsRun(old(Free()), s, count)) ==>
                addr == 0 && Free() == old(Free()) && freePages == old(freePages)
      ensures count > 0 && (exists s: nat :: IsRun(old(Free()), s, count)) ==>
                && IsRun(old(Free()), start, count) && (forall s: nat :: s < start ==> !IsRun(old(Free()), s, count))
                && addr == 4096 * start && start + count <= totalPages
                && Free() == old(Free()) - Pages(start, count)
      ensures old(HintSound()) ==> HintSound()
    {
      hide FreeIn, Pages;
      start, addr := 0, 0;
      ghost var f := Free();
      FreeBelow();
      if count == 0 {
        return;
      }
      if count > totalPages {
        forall s: nat ensures !IsRun(f, s, count) {
          RunBelow(f, s, count, totalPages);
        }
        return;
      }
      var s := 0;
      while s + count <= totalPages
        invariant Free() == f && Valid() && freePages == old(freePages)
        invariant forall t: nat :: t < s ==> !IsRun(f, t, count)
        decreases totalPages - s
      {
        var j := FreeRunLength(s, count);
        if j == count {
          start := s;
          SetPages(s, count);
          freePages := freePages - count;
          RunCount(f, s, count);
          return s * 4096, s;
        }
        SkipBlocked(f, s, j, count);
        s := s + j + 1;
      }
      forall t: nat ensures !IsRun(f, t, count) {
        if t >= s {
          RunBelow(f, t, count, totalPages);
        }
      }
    }

    /** The setting loop. */
    method SetPages(start: nat, count: nat)
      requires start + count <= totalPages <= 8 * bitmap.Length
      modifies bitmap
      ensures Free() == old(Free()) - Pages(start, count)
    {
      hide FreeIn, Pages;
      ghost var f := Free();
      var k := 0;
      while k < count
        invariant k <= count && totalPages <= 8 * bitmap.Length
        invariant forall q: nat :: q in Free() <==> q in f && !(start <= q < start + k)
      {
        BitmapSet(start + k);
        k := k + 1;
      }
      assert Free() == f - Pages(start, count);
    }

    /** Frees one page; freeing a free page or one out of range does nothing. */
    method FreePage(addr: nat)
      requires Valid()
      modifies this`freePages, this`scanHint, bitmap
      ensures Valid()
      ensures addr / 4096 < totalPages ==> Free() == old(Free()) + {addr / 4096}
      ensures addr / 4096 >= totalPages ==> Free() == old(Free())
      ensures old(HintSound()) ==> HintSound()
    {
      hide FreeIn, Pages;
      var page := addr / 4096;
      if page >= totalPages {
        return;
      }
      var taken := BitmapTest(page);
      if taken {
        Give(page);
        if page < scanHint {
          scanHint := page;
        }
      } else {
        assert Free() == old(Free()) + {page};
      }
    }

    /** Frees `count` pages. */
    method FreePages(addr: nat, count: nat)
      requires Valid()
      modifies this`freePages, this`scanHint, bitmap
      ensures Valid()
      ensures forall q: nat ::
                q in Free() <==> q in old(Free()) || (addr / 4096 <= q < addr / 4096 + count && q < totalPages)
      ensures old(HintSound()) ==> HintSound()
    {
      hide FreeIn, Pages;
      var start := addr / 4096;
      var i := 0;
      while i < count
        invariant i <= count && Valid()
        invariant forall q: nat :: q in Free() <==> q in old(Free()) || (start <= q < start + i && q < totalPages)
        invariant old(HintSound()) ==> HintSound()
      {
        PageNumber(start + i);
        FreePage((start + i) * 4096);
        i := i + 1;
      }
    }

    /** Freeing what a successful allocation returned restores free pages and counter. */
    method AllocThenFree(count: nat)
      requires Valid() && count > 0 && exists s: nat :: IsRun(Free(), s, count)
      modifies this`freePages, this`scanHint, bitmap
      ensures Free() == old(Free()) && freePages == old(freePages)
    {
      hide FreeIn, Pages, IsRun;
      var addr, start := AllocPages(count);
      PageNumber(start);
      FreePages(addr, count);
      RunRestored(old(Free()), start, count, Free(), totalPages);
    }

    /** The clearing loop over one usable region. */
    method ClearPages(start: nat, count: nat)
      requires Valid() && start + count <= totalPages && forall q :: q in Free() ==> !(start <= q < start + count)
      modifies this`freePages, bitmap
      ensures Valid() && Free() == old(Free()) + Pages(start, count)
    {
      hide FreeIn, Pages;
      ghost var f := Free();
      var p := 0;
      while p < count
        invariant p <= count && Valid()
        invariant forall q: nat :: q in Free() <==> q in f || start <= q < start + p
      {
        Give(start + p);
        p := p + 1;
      }
      assert Free() == f + Pages(start, count);
    }

    /** The loop that takes the bitmap's own pages. */
    method ReservePages(start: nat, count: nat)
      requires Valid() && start + count <= totalPages
      modifies this`freePages, bitmap
      ensures Valid() && Free() == old(Free()) - Pages(start, count)
    {
      hide FreeIn, Pages;
      ghost var f := Free();
      var p := 0;
      while p < count
        invariant p <= count && Valid()
        invariant forall q: nat :: q in Free() <==> q in f && !(start <= q < start + p)
      {
        var taken := BitmapTest(start + p);
        if !taken {
          Take(start + p);
        }
        p := p + 1;
      }
      assert Free() == f - Pages(start, count);
    }

    /** Builds the bitmap from the memory map. Fails when no usable region can hold the bitmap, and also
        when the first one that can starts at address 0. */
    method Init(memmap: seq<Region>) returns (ok: bool)
      requires PageAligned(memmap) && DisjointRegions(memmap)
      modifies this
      ensures ok <==> var k := HostRegion(memmap, BitmapBytes(memmap)); k < |memmap| && memmap[k].base != 0
      ensures ok <==> exists k: nat :: FirstHost(memmap, k, Highest(memmap) / 4096) && memmap[k].base != 0
      ensures ok ==>
                && fresh(bitmap) && Valid() && HintSound() && totalPages == Highest(memmap) / 4096
                && Free() == UsablePages(memmap) - BitmapPages(memmap)
                && totalPages <= 8 * bitmap.Length
                && (if totalPages > 0 then 8 * (bitmap.Length - 1) < totalPages else bitmap.Length == 0)
                && |Free()| == |UsablePages(memmap)| - (totalPages + 32767) / 32768
    {
      hide FreeIn, Pages, Highest, HostRegion, UsablePages, Hosts, FirstHost;
      BitmapSize(Highest(memmap) / 4096);
      HostFound(memmap);
      var highest := FindHighest(memmap);
      var bytes := (highest / 4096 + 7) / 8;
      var k := FindHost(memmap, bytes);
      if k == |memmap| || memmap[k].base == 0 {
        return false;
      }
      var bits := new byte[bytes];
      Fill(bits);
      bitmap, totalPages, freePages, scanHint := bits, highest / 4096, 0, 0;
      AllTaken(bits[..], totalPages);
      ClearUsable(memmap);
      HostPagesFit(memmap, k);
      ReservePages(memmap[k].base / 4096, (bytes + 4095) / 4096);
      ReservedCount(memmap);
      ok := true;
    }

    /** Clears the pages of every usable region. */
    method ClearUsable(memmap: seq<Region>)
      requires Valid() && Free() == {} && totalPages == Highest(memmap) / 4096
      requires PageAligned(memmap) && DisjointRegions(memmap)
      modifies this`freePages, bitmap
      ensures Valid() && Free() == UsablePages(memmap)
    {
      hide FreeIn, Pages, UsablePages, RegionPages, DisjointRegions, PageAligned, Highest;
      var i := 0;
      NothingUsable(memmap);
      while i < |memmap|
        invariant i <= |memmap| && Valid() && Free() == UsablePages(memmap[..i])
      {
        UsableStep(memmap, i);
        if memmap[i].usable {
          RegionInside(memmap, i);
          ClearPages(memmap[i].base / 4096, memmap[i].length / 4096);
        }
        i := i + 1;
      }
      assert memmap[..i] == memmap;
    }
  }

  lemma NothingUsable(memmap: seq<Region>)
    ensures UsablePages(memmap[..0]) == {}
  {
  }

  lemma UsableStep(memmap: seq<Region>, i: nat)
    requires DisjointRegions(memmap) && i < |memmap|
    ensures UsablePages(memmap[..i + 1]) == UsablePages(memmap[..i])
              + if memmap[i].usable then Pages(memmap[i].base / 4096, memmap[i].length / 4096) else {}
    ensures memmap[i].usable ==> forall q :: q in UsablePages(memmap[..i]) ==>
              !(memmap[i].base / 4096 <= q < memmap[i].base / 4096 + memmap[i].length / 4096)
  {
    hide Pages;
    assert memmap[..i + 1][..i] == memmap[..i];
    DisjointFromEarlier(memmap, i, i);
    assert forall q :: q in UsablePages(memmap[..i]) ==> q !in RegionPages(memmap[i]);
  }

  /** The loop that finds the end of memory. */
  method FindHighest(memmap: seq<Region>) returns (highest: nat)
    ensures highest == Highest(memmap)
  {
    highest := 0;
    var i := 0;
    while i < |memmap|
      invariant i <= |memmap| && highest == Highest(memmap[..i])
    {
      assert memmap[..i + 1][..i] == memmap[..i];
      var end := memmap[i].base + memmap[i].length;
      if end > highest {
        highest := end;
      }
      i := i + 1;
    }
    assert memmap[..i] == memmap;
  }

  /** The loop that finds room for the bitmap. */
  method FindHost(memmap: seq<Region>, bytes: nat) returns (k: nat)
    ensures k == HostRegion(memmap, bytes)
  {
    k := 0;
    while k < |memmap| && !Hosts(memmap[k], bytes)
      invariant k <= |memmap| && forall j :: 0 <= j < k ==> !Hosts(memmap[j], bytes)
    {
      k := k + 1;
    }
  }

  /** Fills a buffer with ones. */
  method Fill(bits: array<byte>)
    modifies bits
    ensures forall i :: 0 <= i < bits.Length ==> bits[i] == 0xFF
  {
    var i := 0;
    while i < bits.Length
      invariant i <= bits.Length && forall j :: 0 <= j < i ==> bits[j] == 0xFF
    {
      bits[i] := 0xFF;
      i := i + 1;
    }
  }

  lemma HostPagesFit(memmap: seq<Region>, k: nat)
    requires PageAligned(memmap) && k < |memmap| && Hosts(memmap[k], BitmapBytes(memmap))
    ensures memmap[k].base / 4096 + (BitmapBytes(memmap) + 4095) / 4096 <= Highest(memmap) / 4096
  {
    RegionInside(memmap, k);
    assert memmap[k].length == memmap[k].length / 4096 * 4096;
  }

  lemma RunBelow(free: set<nat>, s: nat, count: nat, total: nat)
    requires forall q :: q in free ==> q < total
    requires count > 0 && s + count > total
    ensures !IsRun(free, s, count)
  {
    assert s + count - 1 !in free;
  }

  /** A taken page at start + j blocks every run that starts in [start, start + j]: the skip misses nothing. */
  lemma SkipBlocked(free: set<nat>, start: nat, j: nat, count: nat)
    requires j < count && start + j !in free
    ensures forall t: nat :: start <= t < start + j + 1 ==> !IsRun(free, t, count)
  {
  }

  lemma RunCount(free: set<nat>, start: nat, count: nat)
    requires IsRun(free, start, count)
    ensures |free - Pages(start, count)| == |free| - count
  {
    assert Pages(start, count) <= free;
    assert free == (free - Pages(start, count)) + Pages(start, count);
  }

  lemma RunRestored(free: set<nat>, start: nat, count: nat, after: set<nat>, total: nat)
    requires IsRun(free, start, count) && start + count <= total
    requires forall q: nat ::
               q in after <==> q in free - Pages(start, count) || (start <= q < start + count && q < total)
    ensures after == free
  {
  }

  lemma PageNumber(p: nat)
    ensures p * 4096 / 4096 == p && p * 4096 % 4096 == 0
  {
  }
}
