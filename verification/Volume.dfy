/** Disk-level routines of InnoFS: the sector allocator and the linking of data sectors. */
module Volumes {
  import opened Bytes
  import opened Layout
  import opened Chains
  import opened Files

  /** Sector `n` is the lowest one whose allocation bit is clear. */
  ghost predicate IsLowestFree(d: Disk, n: nat) {
    n in FreeSet(d) && forall m: nat :: m < n ==> Used(d, m)
  }

  /** The disk is full, and the first word of the superblock has been overwritten with 0. */
  ghost predicate Ruined(d: Disk) {
    FreeSet(d) == {} && d.data[0].next == 0
  }

  class Volume {
    var disk: Disk

    constructor (contents: Disk)
      ensures disk == contents
    {
      disk := contents;
    }

    method BitmapAllocSector() returns (sector: nat)
      modifies this
      ensures disk.root == old(disk).root && disk.data == old(disk).data
      ensures FreeSet(old(disk)) == {} ==> sector == 0 && disk == old(disk)
      ensures FreeSet(old(disk)) != {} ==>
                && IsLowestFree(old(disk), sector)
                && UsedSet(disk) == UsedSet(old(disk)) + {sector}
                && FreeSet(disk) == FreeSet(old(disk)) - {sector}
    {
      var i := 0;
      while i < BITMAP_SECTORS
        invariant i <= BITMAP_SECTORS && disk == old(disk)
        invariant forall n: nat :: n < i * 4096 ==> Used(disk, n)
      {
        var bitmap := disk.bitmap[i];
        var at := 0;
        while at < SECTOR_SIZE
          invariant at <= SECTOR_SIZE && disk == old(disk)
          invariant forall n: nat :: n < i * 4096 + at * 8 ==> Used(disk, n)
        {
          FullByte(bitmap[at]);
          if bitmap[at] != 0xFF {
            var bit := 0;
            while bit < 8
              invariant bit <= 8 && disk == old(disk)
              invariant forall n: nat :: n < i * 4096 + at * 8 + bit ==> Used(disk, n)
            {
              BitmapPosition(i, at, bit);
              sector := i * 4096 + at * 8 + bit;
              if !On(bitmap[at], bit) {
                BitmapUpdate(disk, sector, TurnOn(bitmap[at], bit), true);
                disk := WithBitmapByte(disk, i, at, TurnOn(bitmap[at], bit));
                assert sector in FreeSet(old(disk));
                return;
              }
              assert Used(disk, sector);
              bit := bit + 1;
            }
          } else {
            forall n: nat | i * 4096 + at * 8 <= n < i * 4096 + at * 8 + 8
              ensures Used(disk, n)
            {
              BitmapPosition(i, at, n - (i * 4096 + at * 8));
            }
          }
          at := at + 1;
        }
        i := i + 1;
      }
      sector := 0;
    }

    method BitmapFreeSector(sector: nat)
      requires sector < MANAGED
      modifies this
      ensures disk.root == old(disk).root && disk.data == old(disk).data
      ensures sector < DATA_START ==> disk == old(disk)
      ensures sector >= DATA_START ==>
                && UsedSet(disk) == UsedSet(old(disk)) - {sector}
                && FreeSet(disk) == FreeSet(old(disk)) + {sector}
    {
      if sector < DATA_START {
        return;
      }
      var bitmapSector := sector / 4096;
      var byteIndex := sector % 4096 / 8;
      var bit := sector % 8;
      var cleared := TurnOff(disk.bitmap[bitmapSector][byteIndex], bit);
      BitmapUpdate(disk, sector, cleared, false);
      disk := WithBitmapByte(disk, bitmapSector, byteIndex, cleared);
    }

    /** Links the sector `new_` behind `last`, and zeroes it. */
    method Link(last: nat, new_: nat)
      requires DATA_START <= last < MANAGED && DATA_START <= new_ < MANAGED && last != new_
      modifies this
      ensures Linked(old(disk), disk, last, new_) && disk.bitmap == old(disk).bitmap
    {
      disk := disk.(data := disk.data[last := disk.data[last].(next := new_)]);
      disk := disk.(data := disk.data[new_ := DataSector(0, Zeros(508))]);
    }

    /** Takes a free sector, links it behind `last`, and zeroes it; 0 when the disk is full. Behind sector 0
        the link goes into the superblock. */
    method LinkNew(last: nat) returns (new_: nat)
      requires Reserved(disk) && (last == 0 || (DATA_START <= last < MANAGED && last in UsedSet(disk)))
      modifies this
      ensures FreeSet(old(disk)) == {} ==> new_ == 0 && disk == old(disk)
      ensures FreeSet(old(disk)) != {} ==>
                && new_ != 0 && IsLowestFree(old(disk), new_)
                && UsedSet(disk) == UsedSet(old(disk)) + {new_} && FreeSet(disk) == FreeSet(old(disk)) - {new_}
                && (last != 0 ==> Linked(old(disk), disk, last, new_))
                && (last == 0 ==> StartedBehindBoot(old(disk), disk, new_))
    {
      new_ := BitmapAllocSector();
      if new_ == 0 {
        assert 0 in UsedSet(old(disk));
        return;
      }
      assert new_ >= DATA_START && new_ != last;
      ghost var e := disk;
      if last != 0 {
        Link(last, new_);
      } else {
        disk := disk.(data := disk.data[0 := disk.data[0].(next := new_)]);
        disk := disk.(data := disk.data[new_ := DataSector(0, Zeros(508))]);
      }
      BitmapFrame(e, disk);
    }

    /** The unchecked extension of a write: on a full disk it links and zeroes sector 0. */
    method Extend(current: nat) returns (next: nat)
      requires Reserved(disk) && (current == 0 || (DATA_START <= current < MANAGED && current in UsedSet(disk)))
      modifies this
      ensures FreeSet(old(disk)) == {} ==>
                && next == 0 && Ruined(disk)
                && disk == old(disk).(data := old(disk).data[current := old(disk).data[current].(next := 0)]
                                                         [0 := DataSector(0, Zeros(508))])
      ensures FreeSet(old(disk)) != {} && current != 0 ==>
                && next != 0 && IsLowestFree(old(disk), next) && Linked(old(disk), disk, current, next)
                && UsedSet(disk) == UsedSet(old(disk)) + {next} && FreeSet(disk) == FreeSet(old(disk)) - {next}
    {
      next := BitmapAllocSector();
      assert FreeSet(old(disk)) == {} <==> next == 0 by {
        assert 0 in UsedSet(old(disk));
      }
      ghost var e := disk;
      disk := disk.(data := disk.data[current := disk.data[current].(next := next)]);
      disk := disk.(data := disk.data[next := DataSector(0, Zeros(508))]);
      BitmapFrame(e, disk);
    }

    /** From the sector at position `i` of a growing chain to the next one, linking a new zeroed sector when
        the chain ends there. When that fails on a full disk the walk is lost: it goes on in sector 0. */
    method FollowOrExtend(current: nat, ghost d: Disk, ghost ss: seq<nat>, ghost cc: seq<nat>, ghost i: nat,
                          ghost lost: bool)
      returns (next: nat, ghost tt: seq<nat>, ghost nowLost: bool)
      requires Walking(disk, d, ss, cc, lost) && current == (if lost then 0 else if i < |cc| then cc[i] else 0)
      requires !lost ==> i < |cc|
      modifies this
      ensures nowLost <==> lost || (i + 1 == |cc| && FreeSet(old(disk)) == {})
      ensures Walking(disk, d, ss, tt, nowLost) && cc <= tt
      ensures Flat(disk, tt) == Flat(old(disk), cc) + Zeros(508 * (|tt| - |cc|))
      ensures nowLost ==> next == 0 && tt == cc
      ensures !nowLost ==> i + 1 < |tt| && next == tt[i + 1] && |tt| == (if i + 1 < |cc| then |cc| else |cc| + 1)
    {
      hide IsChain, UsedSet, FreeSet, OnlyChanged, Flat;
      tt, nowLost := cc, lost;
      NoZeros(Flat(disk, cc));
      WalkingReserved(disk, d, ss, cc, lost);
      if !lost {
        GrownNext(d, ss, disk, cc, i);
      }
      if disk.data[current].next == 0 {
        next := Extend(current);
        if next == 0 {
          nowLost := true;
          LostHere(d, ss, old(disk), cc, current, disk, lost);
        } else {
          GrownByOne(d, ss, old(disk), cc, disk, next);
          tt := cc + [next];
        }
      } else {
        next := disk.data[current].next;
      }
    }

    /** Gives an empty chain its first sector; 0 when the disk is full. */
    method StartChain() returns (first: nat)
      requires Reserved(disk)
      modifies this
      ensures FreeSet(old(disk)) == {} ==> first == 0 && disk == old(disk)
      ensures FreeSet(old(disk)) != {} ==>
                && first != 0 && Grown(old(disk), [], disk, [first])
                && Flat(disk, [first]) == Flat(old(disk), []) + Zeros(508)
    {
      first := BitmapAllocSector();
      if first != 0 {
        assert FreeSet(old(disk)) != {};
        disk := disk.(data := disk.data[first := DataSector(0, Zeros(508))]);
        GrownFromEmpty(old(disk), disk, first);
      }
    }

    /** The skipping loop of a write: follows `n` links, extending the chain where it is too short. It gets
        lost exactly when the free sectors do not suffice. */
    method SkipExtending(first: nat, n: nat, ghost d: Disk, ghost ss: seq<nat>, ghost cc: seq<nat>)
      returns (current: nat, ghost tt: seq<nat>, ghost lost: bool)
      requires Grown(d, ss, disk, cc) && cc != [] && first == cc[0]
      modifies this
      ensures lost <==> n + 1 - |cc| > |FreeSet(old(disk))|
      ensures Walking(disk, d, ss, tt, lost) && cc <= tt
      ensures Flat(disk, tt) == Flat(old(disk), cc) + Zeros(508 * (|tt| - |cc|))
      ensures lost ==> current == 0 && |tt| == |cc| + |FreeSet(old(disk))|
      ensures !lost ==> |tt| == Max(|cc|, n + 1) && current == tt[n] && tt[0] == first
    {
      hide Flat, IsChain, OnlyChanged, UsedSet, FreeSet, Reserved, Ruined;
      current, tt, lost := first, cc, false;
      NoZeros(Flat(disk, cc));
      ghost var room := |cc| + |FreeSet(disk)|;
      var i := 0;
      while i < n
        invariant i <= n && Walking(disk, d, ss, tt, lost) && (lost ==> current == 0)
        invariant lost ==> n + 1 > room == |tt|
        invariant !lost ==> |tt| == Max(|cc|, i + 1) && current == tt[i] && tt[0] == first
        invariant !lost ==> |tt| + |FreeSet(disk)| == room
        invariant cc <= tt && Flat(disk, tt) == Flat(old(disk), cc) + Zeros(508 * (|tt| - |cc|))
      {
        ghost var k := |tt|;
        current, tt, lost := FollowOrExtend(current, d, ss, tt, i, lost);
        MoreZeros(Flat(old(disk), cc), 508 * (k - |cc|), 508 * (|tt| - k));
        i := i + 1;
      }
    }

    /** Writes bytes inside one sector of a grown chain, or of sector 0 when the walk is lost. */
    method WriteSector(current: nat, at: nat, bytes: seq<byte>,
                       ghost d: Disk, ghost ss: seq<nat>, ghost cc: seq<nat>, ghost pos: nat, ghost lost: bool)
      requires Walking(disk, d, ss, cc, lost)
      requires if lost then current == 0 else SectorOf(pos) < |cc| && current == cc[SectorOf(pos)]
      requires at == OffsetIn(pos) && at + |bytes| <= 508
      modifies this
      ensures Walking(disk, d, ss, cc, lost) && |FreeSet(disk)| == |FreeSet(old(disk))|
      ensures lost ==> Flat(disk, cc) == Flat(old(disk), cc)
      ensures !lost ==>
                && pos + |bytes| <= |Flat(old(disk), cc)|
                && Flat(disk, cc) == Splice(Flat(old(disk), cc), pos, bytes)
    {
      if !lost {
        GrownWrite(d, ss, disk, cc, SectorOf(pos), at, bytes);
      } else {
        BootFrame(d, disk, cc);
        BootFrame(d, WithData(disk, 0, at, bytes), cc);
        assert BootOf(d, WithData(disk, 0, at, bytes)) == BootOf(d, disk);
      }
      disk := WithData(disk, current, at, bytes);
    }

    /** The writing loop, from the sector that holds position `offset`. It gets lost exactly when the free
        sectors do not suffice. */
    method WriteLoop(first: nat, offset: nat, bytes: seq<byte>,
                     ghost d: Disk, ghost ss: seq<nat>, ghost cc: seq<nat>, ghost lost: bool)
      returns (ghost tt: seq<nat>, ghost nowLost: bool)
      requires Walking(disk, d, ss, cc, lost)
      requires if lost then first == 0 else SectorOf(offset) < |cc| && first == cc[SectorOf(offset)]
      modifies this
      ensures nowLost <==> lost || SectorsFor(offset + |bytes|) - |cc| > |FreeSet(old(disk))|
      ensures Walking(disk, d, ss, tt, nowLost) && cc <= tt
      ensures lost ==> tt == cc && Flat(disk, tt) == Flat(old(disk), cc)
      ensures nowLost && !lost ==>
                && |tt| == |cc| + |FreeSet(old(disk))|
                && Flat(disk, tt) == ContentWhenFull(Flat(old(disk), cc), |tt|, offset, bytes)
      ensures !nowLost ==>
                && |tt| == Max(|cc|, SectorsFor(offset + |bytes|)) && tt[0] == cc[0]
                && Flat(disk, tt) == Written(Flat(old(disk), cc), |cc|, |tt|, offset, bytes)
    {
      hide Flat, IsChain, OnlyChanged, UsedSet, FreeSet, Reserved, SectorOf, OffsetIn, SectorsFor, Written, Elems;
      hide Ruined, ContentWhenFull, BootOf;
      tt, nowLost := cc, lost;
      var current, done := first, 0;
      ghost var c := Flat(disk, cc);
      ghost var room := |cc| + |FreeSet(disk)|;
      if !lost {
        NothingWritten(c, |cc|, offset);
        SectorsForAt(offset, |cc|);
      }
      while done < |bytes|
        invariant done <= |bytes| && Walking(disk, d, ss, tt, nowLost)
        invariant (lost ==> nowLost) && (nowLost ==> current == 0)
        invariant lost ==> tt == cc && Flat(disk, tt) == c
        invariant nowLost && !lost ==> SectorsFor(offset + |bytes|) > room == |tt|
        invariant nowLost && !lost ==> Flat(disk, tt) == ContentWhenFull(c, |tt|, offset, bytes)
        invariant cc <= tt
        invariant !nowLost ==> tt[0] == cc[0] && |tt| + |FreeSet(disk)| == room
        invariant !nowLost && done < |bytes| ==>
                    && |tt| == Max(|cc|, SectorOf(offset + done) + 1)
                    && current == tt[SectorOf(offset + done)]
        invariant !nowLost && done == |bytes| ==> |tt| == Max(|cc|, SectorsFor(offset + |bytes|))
        invariant !nowLost ==> offset + done <= |Flat(disk, tt)|
        invariant !nowLost ==> Flat(disk, tt) == Written(c, |cc|, |tt|, offset, bytes[..done])
      {
        var pos := offset + done;
        Position(pos);
        var at := OffsetIn(pos);
        var n := Min(508 - at, |bytes| - done);
        WriteSector(current, at, bytes[done..done + n], d, ss, tt, pos, nowLost);
        if !nowLost {
          WrittenMore(c, |cc|, |tt|, offset, bytes, done, n);
        }
        Advance(pos, n);
        SectorsForLater(pos, n, |bytes| - done);
        done := done + n;
        if at + n == 508 && done < |bytes| {
          ghost var uu, wasLost := tt, nowLost;
          SectorsForLater(pos + n, |bytes| - done, |bytes| - done);
          current, tt, nowLost := FollowOrExtend(current, d, ss, tt, SectorOf(pos), nowLost);
          if !nowLost {
            WrittenGrow(c, |cc|, |uu|, |tt|, offset, bytes[..done]);
          } else if !wasLost {
            WrittenFull(c, |cc|, |tt|, offset, bytes, done);
          }
        }
      }
      assert bytes[..done] == bytes;
    }

    /** Writes `bytes` at `offset` of the chain `ss`. Returns the chain's first sector, or 0 when the chain
        was empty and the disk is full. Without room for the write the chain takes all free sectors and holds
        the bytes that fit; the rest goes into the superblock. */
    method WriteChain(first: nat, offset: nat, bytes: seq<byte>, ghost ss: seq<nat>)
      returns (newFirst: nat, ghost cc: seq<nat>)
      requires HasChain(disk, first, ss)
      modifies this
      ensures ss == [] && FreeSet(old(disk)) == {} ==> newFirst == 0 && disk == old(disk)
      ensures ss != [] || FreeSet(old(disk)) != {} ==> newFirst != 0
      ensures (ss != [] || FreeSet(old(disk)) != {}) && HasRoom(old(disk), ss, offset, |bytes|) ==>
                && Grown(old(disk), ss, disk, cc) && cc != [] && newFirst == cc[0]
                && Flat(disk, cc) == ContentAfterWrite(Flat(old(disk), ss), offset, bytes)
      ensures !HasRoom(old(disk), ss, offset, |bytes|) ==>
                && Walking(disk, old(disk), ss, cc, true) && cc != [] && newFirst == cc[0]
                && |cc| == |ss| + |FreeSet(old(disk))|
                && Flat(disk, cc) == ContentWhenFull(Flat(old(disk), ss), |cc|, offset, bytes)
    {
      hide Flat, OnlyChanged, SectorOf, SectorsFor, ContentAfterWrite, ContentWhenFull, Written, Reserved, IsChain;
      hide UsedSet, FreeSet, Elems, Ruined, BootOf;
      cc, newFirst := ss, first;
      ghost var d, c := disk, Flat(disk, ss);
      if newFirst == 0 {
        newFirst := StartChain();
        if newFirst == 0 {
          return;
        }
        cc := [newFirst];
      } else {
        GrownNothing(d, ss);
        NoZeros(c);
      }
      assert Grown(d, ss, disk, cc) && Flat(disk, cc) == c + Zeros(508 * (|cc| - |ss|)) && |cc| == Max(|ss|, 1);
      RoomLeft(d, ss, disk, cc, offset, |bytes|);
      ghost var j := |cc|;
      var current;
      ghost var lost;
      current, cc, lost := SkipExtending(newFirst, SectorOf(offset), d, ss, cc);
      ghost var k := |cc|;
      ghost var wasLost := lost;
      cc, lost := WriteLoop(current, offset, bytes, d, ss, cc, lost);
      if !lost {
        WriteMeaning(c, |ss|, j, k, |cc|, offset, bytes);
      } else {
        FullMeaning(c, |ss|, j, k, |cc|, offset, bytes, wasLost);
      }
    }

    /** Frees every sector of a chain. */
    method FreeChain(first: nat, ghost ss: seq<nat>)
      requires HasChain(disk, first, ss)
      modifies this
      ensures disk.root == old(disk).root && disk.data == old(disk).data
      ensures UsedSet(disk) == UsedSet(old(disk)) - Elems(ss)
    {
      hide Flat, UsedSet, FreeSet, Reserved;
      HeadOf(disk, ss);
      var current := first;
      ghost var q := 0;
      NoElems(ss);
      while current != 0
        invariant q <= |ss| && current == if q < |ss| then ss[q] else 0
        invariant disk.root == old(disk).root && disk.data == old(disk).data
        invariant UsedSet(disk) == UsedSet(old(disk)) - Elems(ss[..q])
        decreases |ss| - q
      {
        ChainStep(old(disk), ss, q);
        OneMoreElem(ss, q);
        var next := disk.data[current].next;
        BitmapFreeSector(current);
        current := next;
        q := q + 1;
      }
      assert ss[..|ss|] == ss;
    }
  }

  /** A new zeroed sector whose number went into the superblock's first word. */
  ghost predicate StartedBehindBoot(d: Disk, e: Disk, new_: nat) {
    && DATA_START <= new_ < MANAGED && e.root == d.root
    && IsZeroSector(e.data[new_])
    && e.data == d.data[0 := d.data[0].(next := new_)][new_ := e.data[new_]]
  }

  /** The disk but for what a lost walk has done to the superblock. */
  ghost function Behind(d: Disk, e: Disk, lost: bool): Disk {
    if lost then BootOf(d, e) else e
  }

  /** A walk along a growing chain, or one that is lost, in sector 0 of a full disk. */
  ghost predicate Walking(e: Disk, d: Disk, ss: seq<nat>, cc: seq<nat>, lost: bool) {
    Grown(d, ss, Behind(d, e, lost), cc) && (lost ==> Ruined(e))
  }

  lemma WalkingReserved(e: Disk, d: Disk, ss: seq<nat>, cc: seq<nat>, lost: bool)
    requires Walking(e, d, ss, cc, lost)
    ensures Reserved(e) && InDataArea(cc)
  {
    BootFrame(d, e, cc);
    forall n: nat | n < DATA_START
      ensures Used(e, n)
    {
      assert n in UsedSet(d) && n in UsedSet(e);
    }
  }

  /** Extending on a full disk, or when already lost, changes the superblock only. */
  lemma LostHere(d: Disk, ss: seq<nat>, e: Disk, cc: seq<nat>, last: nat, f: Disk, lost: bool)
    requires Walking(e, d, ss, cc, lost) && InDataArea(cc) && last < MANAGED && FreeSet(e) == {}
    requires if lost then last == 0 else last >= DATA_START && e.data[last].next == 0
    requires f == e.(data := e.data[last := e.data[last].(next := 0)][0 := DataSector(0, Zeros(508))])
    ensures Walking(f, d, ss, cc, true) && Flat(f, cc) == Flat(e, cc)
  {
    BootFrame(d, e, cc);
    BootFrame(d, f, cc);
    if !lost {
      GrownKeepsBoot(d, ss, e, cc);
      assert e.data[last].(next := 0) == e.data[last];
    }
    assert BootOf(d, f).data == Behind(d, e, lost).data;
    assert BootOf(d, f) == Behind(d, e, lost);
  }

  lemma NoElems(ss: seq<nat>)
    ensures Elems(ss[..0]) == {}
  {
  }

  lemma OneMoreElem(ss: seq<nat>, q: nat)
    requires q < |ss|
    ensures Elems(ss[..q + 1]) == Elems(ss[..q]) + {ss[q]}
  {
    assert ss[..q + 1] == ss[..q] + [ss[q]];
  }

  /** The chain of an open file is well formed and allocated. */
  ghost predicate HasChain(d: Disk, first: nat, ss: seq<nat>) {
    && InDataArea(ss) && IsChain(d, ss) && Head(ss) == first
    && Reserved(d) && Elems(ss) <= UsedSet(d)
  }

  /** Enough free sectors for a write; for a file without sectors the source also handles a full disk. */
  ghost predicate HasRoom(d: Disk, ss: seq<nat>, offset: nat, count: nat) {
    || (ss == [] && FreeSet(d) == {})
    || SectorsAfterWrite(|ss|, offset, count) - |ss| <= |FreeSet(d)|
  }

  /** A write has room exactly when both its loops find enough free sectors. */
  lemma RoomLeft(d: Disk, ss: seq<nat>, e: Disk, cc: seq<nat>, offset: nat, count: nat)
    requires Grown(d, ss, e, cc) && (ss != [] || FreeSet(d) != {}) && |cc| == Max(|ss|, 1)
    ensures HasRoom(d, ss, offset, count)
       <==> SectorOf(offset) + 1 - |cc| <= |FreeSet(e)| && SectorsFor(offset + count) - |cc| <= |FreeSet(e)|
  {
    hide SectorOf, SectorsFor;
  }

  lemma GrownNothing(d: Disk, ss: seq<nat>)
    requires IsChain(d, ss) && Reserved(d) && Elems(ss) <= UsedSet(d)
    ensures Grown(d, ss, d, ss)
  {
  }

  /** Start, skip and write together have the meaning of one write to the content of the chain. */
  lemma WriteMeaning(c: seq<byte>, n: nat, j: nat, k: nat, m: nat, offset: nat, bytes: seq<byte>)
    requires |c| == 508 * n && j == Max(n, 1) && k == Max(j, SectorOf(offset) + 1)
    requires m == Max(k, SectorsFor(offset + |bytes|))
    ensures Written(c + Zeros(508 * (j - n)) + Zeros(508 * (k - j)), k, m, offset, bytes)
         == ContentAfterWrite(c, offset, bytes)
  {
  }

  /** A write that gets lost while skipping or while writing: what the chain then holds. */
  lemma FullMeaning(c: seq<byte>, n: nat, j: nat, k: nat, m: nat, offset: nat, bytes: seq<byte>, skipping: bool)
    requires |c| == 508 * n && n <= j <= k <= m && (skipping ==> k == m && SectorOf(offset) >= m)
    ensures var grown := c + Zeros(508 * (j - n)) + Zeros(508 * (k - j));
            ContentWhenFull(c, m, offset, bytes) == if skipping then grown else ContentWhenFull(grown, m, offset, bytes)
  {
    MoreZeros(c, 508 * (j - n), 508 * (k - j));
    MoreZeros(c, 508 * (k - n), 508 * (m - k));
  }

  lemma SectorsForAt(pos: nat, k: nat)
    requires SectorOf(pos) < k
    ensures SectorsFor(pos) <= SectorOf(pos) + 1
    ensures pos <= 508 * k
  {
  }

  /** Content after growing from `j` to `k` sectors and writing at `offset`. */
  ghost function Written(c: seq<byte>, j: nat, k: nat, offset: nat, bytes: seq<byte>): (r: seq<byte>)
    ensures |r| == |c| + 508 * Max(0, k - j)
  {
    var grown := c + Zeros(508 * Max(0, k - j));
    if offset + |bytes| <= |grown| then Splice(grown, offset, bytes) else grown
  }

  lemma NothingWritten(c: seq<byte>, j: nat, offset: nat)
    ensures Written(c, j, j, offset, []) == c
  {
  }

  lemma WrittenMore(c: seq<byte>, j: nat, k: nat, offset: nat, bytes: seq<byte>, done: nat, n: nat)
    requires done + n <= |bytes| && offset + done + n <= |c| + 508 * Max(0, k - j)
    ensures Splice(Written(c, j, k, offset, bytes[..done]), offset + done, bytes[done..done + n])
         == Written(c, j, k, offset, bytes[..done + n])
  {
    SpliceAppend(c + Zeros(508 * Max(0, k - j)), offset, bytes[..done], bytes[done..done + n]);
    assert bytes[..done] + bytes[done..done + n] == bytes[..done + n];
  }

  lemma WrittenFull(c: seq<byte>, j: nat, k: nat, offset: nat, bytes: seq<byte>, done: nat)
    requires |c| == 508 * j && j <= k && done <= |bytes| && offset + done == 508 * k
    ensures Written(c, j, k, offset, bytes[..done]) + Zeros(0) == ContentWhenFull(c, k, offset, bytes)
  {
  }

  lemma WrittenGrow(c: seq<byte>, j: nat, k: nat, m: nat, offset: nat, bytes: seq<byte>)
    requires j <= k <= m && offset + |bytes| <= |c| + 508 * (k - j)
    ensures Written(c, j, k, offset, bytes) + Zeros(508 * (m - k)) == Written(c, j, m, offset, bytes)
  {
    SpliceGrow(c + Zeros(508 * (k - j)), Zeros(508 * (m - k)), offset, bytes);
    MoreZeros(c, 508 * (k - j), 508 * (m - k));
  }

  lemma NoZeros(c: seq<byte>)
    ensures c == c + Zeros(0)
  {
  }

  lemma MoreZeros(c: seq<byte>, m: nat, n: nat)
    ensures c + Zeros(m) + Zeros(n) == c + Zeros(m + n)
  {
    ZerosSum(m, n);
  }
}
