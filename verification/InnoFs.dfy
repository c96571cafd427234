/** The open-file table of InnoFS and the operations on it. */
module InnoFileSystem {
  import opened Bytes
  import opened Layout
  import opened Chains
  import opened Files
  import opened Directories
  import opened Dirents
  import opened DirectoryOps
  import opened Volumes
  import opened Ownership
  import opened Handles
  import opened FileSteps

  /** Why opening `name` fails before any handle is looked for. */
  ghost predicate Refused(d: Disk, name: Name, mode: Mode, uid: nat) {
    || (exists k: nat :: Binds(d.root, name, k) && (!MayAccess(d.root[k], uid) || IsDirectory(d.root[k])))
    || (NotBound(d.root, name, ROOT_SLOTS) && (!mode.create || FirstFree(d.root) == ROOT_SLOTS))
  }

  lemma RefusedWhenFound(d: Disk, name: Name, mode: Mode, uid: nat, k: nat)
    requires UniqueNames(d.root) && Binds(d.root, name, k)
    ensures Refused(d, name, mode, uid) <==> !MayAccess(d.root[k], uid) || IsDirectory(d.root[k])
  {
    assert k < ROOT_SLOTS;
  }

  /** Refusal in plain terms: a directory, or an entry for root or its owner only; or no entry to create. */
  lemma RefusedMeans(d: Disk, name: Name, mode: Mode, uid: nat)
    requires UniqueNames(d.root)
    ensures forall k: nat :: Binds(d.root, name, k) ==>
              var e := d.root[k];
              (Refused(d, name, mode, uid) <==>
                On(e.flags, 0) || (uid != 0 && (On(e.flags, 1) || (On(e.flags, 2) && uid != e.owner))))
    ensures NotBound(d.root, name, ROOT_SLOTS) ==>
              (Refused(d, name, mode, uid) <==> !mode.create || forall k :: 0 <= k < ROOT_SLOTS ==> Live(d.root[k]))
  {
    hide On, UniqueNames;
    forall k: nat | Binds(d.root, name, k)
      ensures Refused(d, name, mode, uid) <==> !MayAccess(d.root[k], uid) || IsDirectory(d.root[k])
    {
      RefusedWhenFound(d, name, mode, uid, k);
    }
  }

  /** Permission to use an entry: root may, and others as far as the entry's flags allow. */
  predicate MayAccess(e: Dirent, uid: nat) {
    uid == 0 || (!On(e.flags, 1) && (On(e.flags, 2) ==> e.owner == uid))
  }

  predicate IsDirectory(e: Dirent) {
    On(e.flags, 0)
  }

  /** A write to the handle has the sectors it needs (or is refused anyway). */
  ghost predicate RoomFor(d: Disk, files: seq<Handle>, o: Owners, fd: int, count: nat) {
    CanWrite(files, fd) && files[fd].slot in o.chains ==> HasRoom(d, o.chains[files[fd].slot], files[fd].offset, count)
  }

  class InnoFs {
    const vol: Volume
    var files: seq<Handle>

    /** Which chain and which sectors belong to which root slot. */
    ghost var owners: Owners

    ghost predicate Valid()
      reads this, vol
    {
      Consistent(vol.disk, files, owners)
    }

    /** Mounts a volume whose root directory is in order. */
    constructor (v: Volume, ghost o: Owners)
      requires Consistent(v.disk, seq(MAX_OPEN_FILES, _ => UNUSED), o)
      ensures vol == v && files == seq(MAX_OPEN_FILES, _ => UNUSED) && owners == o && Valid()
    {
      vol := v;
      files := seq(MAX_OPEN_FILES, _ => UNUSED);
      owners := o;
    }

    /** Reads up to `count` bytes at the handle's offset. */
    method Read(fd: int, count: nat, ghost ss: seq<nat>) returns (readBytes: int, out: seq<byte>)
      requires IsOpen(files, fd) ==> HasChain(vol.disk, files[fd].first, ss)
      modifies this`files
      ensures readBytes == -1 <==> fd < 0 || fd >= |old(files)| || !old(files)[fd].used || !old(files)[fd].mode.read
      ensures !IsOpen(old(files), fd) || !old(files)[fd].mode.read ==>
                readBytes == -1 && out == [] && files == old(files)
      ensures IsOpen(old(files), fd) && old(files)[fd].mode.read ==>
                var f := old(files)[fd];
                var c := Flat(vol.disk, ss);
                && out == BytesRead(c, f.size, f.offset, count)
                && readBytes == |out|
                && files == old(files)[fd := f.(offset := f.offset + |out|)]
    {
      if !IsOpen(files, fd) {
        return -1, [];
      }
      if !files[fd].mode.read {
        return -1, [];
      }
      var f := files[fd];
      out := ReadChain(vol.disk, f.first, f.offset, f.size, count, ss);
      readBytes := |out|;
      files := files[fd := f.(offset := f.offset + |out|)];
    }

    /** Writes `bytes` at the handle's offset, growing the chain as needed. */
    method Write(fd: int, bytes: seq<byte>, ghost ss: seq<nat>) returns (written: int, ghost cc: seq<nat>)
      requires CanWrite(files, fd) ==>
                 HasChain(vol.disk, files[fd].first, ss)
      modifies this`files, vol
      ensures written == -1 <==> fd < 0 || fd >= |old(files)| || !old(files)[fd].used || !old(files)[fd].mode.write
      ensures !CanWrite(old(files), fd) ==>
                written == -1 && files == old(files) && vol.disk == old(vol.disk)
      ensures CanWrite(old(files), fd) && ss == [] && FreeSet(old(vol.disk)) == {} ==>
                written == 0 && files == old(files) && vol.disk == old(vol.disk)
      ensures CanWrite(old(files), fd) && (ss != [] || FreeSet(old(vol.disk)) != {}) ==>
                var f := old(files)[fd];
                && written == |bytes| && fd < |files|
                && files == old(files)[fd := f.(first := files[fd].first, offset := f.offset + |bytes|,
                                                size := SizeAfterWrite(f.size, f.offset, |bytes|))]
                && if HasRoom(old(vol.disk), ss, f.offset, |bytes|)
                   then
                     && Grown(old(vol.disk), ss, vol.disk, cc) && cc != [] && files[fd].first == cc[0]
                     && Flat(vol.disk, cc) == ContentAfterWrite(Flat(old(vol.disk), ss), f.offset, bytes)
                   else
                     && Walking(vol.disk, old(vol.disk), ss, cc, true) && cc != [] && files[fd].first == cc[0]
                     && |cc| == |ss| + |FreeSet(old(vol.disk))|
                     && Flat(vol.disk, cc) == ContentWhenFull(Flat(old(vol.disk), ss), |cc|, f.offset, bytes)
    {
      cc := ss;
      if !CanWrite(files, fd) {
        return -1, cc;
      }
      var f := files[fd];
      var first;
      first, cc := vol.WriteChain(f.first, f.offset, bytes, ss);
      if first == 0 {
        return 0, cc;
      }
      files := files[fd := f.(first := first, offset := f.offset + |bytes|,
                              size := SizeAfterWrite(f.size, f.offset, |bytes|))];
      written := |bytes|;
    }

    /** Reading through the open-file table. */
    method ReadFile(fd: int, count: nat) returns (readBytes: int, out: seq<byte>)
      requires Valid()
      modifies this`files
      ensures Valid()
      ensures forall m: nat :: m in owners.chains && m < ROOT_SLOTS && InDataArea(owners.chains[m]) ==>
                Content(vol.disk, files, owners, m) == Content(vol.disk, old(files), owners, m)
      ensures !IsOpen(old(files), fd) || !old(files)[fd].mode.read ==>
                readBytes == -1 && out == [] && files == old(files)
      ensures IsOpen(old(files), fd) && old(files)[fd].mode.read ==>
                var f := old(files)[fd];
                && f.slot in owners.chains && InDataArea(owners.chains[f.slot]) && f.slot < ROOT_SLOTS
                && out == Piece(Content(vol.disk, old(files), owners, f.slot), f.offset, Min(f.offset + count, f.size))
                && readBytes == |out| && files == old(files)[fd := f.(offset := f.offset + |out|)]
    {
      hide ChainsOk, UniqueNames, AllHandlesOk, EntriesOk, IsChain, Flat, Piece, UsedSet, HandleOf, BytesRead;
      if !IsOpen(files, fd) {
        return -1, [];
      }
      ghost var d, gs, o := vol.disk, files, owners;
      HandleIsOk(d, gs, o, fd);
      ghost var f := files[fd];
      ChainAllocated(d, o, f.slot);
      readBytes, out := Read(fd, count, owners.chains[f.slot]);
      if f.mode.read {
        ReadOfContent(Flat(d, o.chains[f.slot]), f.size, f.offset, count);
        ReadKeeps(d, gs, o, fd, f.offset + |out|);
      }
    }

    /** Writing through the open-file table. */
    method WriteFile(fd: int, bytes: seq<byte>) returns (written: int)
      requires Valid()
      modifies this, vol
      ensures written == -1 <==> fd < 0 || fd >= |old(files)| || !old(files)[fd].used || !old(files)[fd].mode.write
      ensures RoomFor(old(vol.disk), old(files), old(owners), fd, |bytes|) ==>
                Valid() && vol.disk.data[0] == old(vol.disk).data[0]
      ensures !RoomFor(old(vol.disk), old(files), old(owners), fd, |bytes|) ==>
                && written == |bytes| && Ruined(vol.disk) && CanWrite(old(files), fd)
                && CutShort(old(vol.disk), old(files), old(owners), fd, bytes, vol.disk, files, owners)
                && ((exists p :: Consistent(vol.disk, files, p)) <==> bytes == [])
      ensures !CanWrite(old(files), fd) ==>
                written == -1 && files == old(files) && vol.disk == old(vol.disk) && owners == old(owners)
      ensures CanWrite(old(files), fd) && old(files)[fd].first == 0 && FreeSet(old(vol.disk)) == {} ==>
                written == 0 && files == old(files) && vol.disk == old(vol.disk) && owners == old(owners)
      ensures CanWrite(old(files), fd) && (old(files)[fd].first != 0 || FreeSet(old(vol.disk)) != {})
              && RoomFor(old(vol.disk), old(files), old(owners), fd, |bytes|) ==>
                && written == |bytes|
                && WriteDone(old(vol.disk), old(files), old(owners), fd, bytes, vol.disk, files, owners)
    {
      hide ChainsOk, UniqueNames, AllHandlesOk, EntriesOk, IsChain, Flat, UsedSet, FreeSet, HandleOf;
      hide ContentAfterWrite, ContentWhenFull, WriteDone, CutShort, OthersKept, Used, Reserved, Elems, Content;
      if !CanWrite(files, fd) {
        return -1;
      }
      ghost var d, gs, o := vol.disk, files, owners;
      HandleIsOk(d, gs, o, fd);
      ghost var k := files[fd].slot;
      ChainAllocated(d, o, k);
      HeadOf(d, o.chains[k]);
      ghost var cc;
      written, cc := Write(fd, bytes, owners.chains[k]);
      if (o.chains[k] != [] || FreeSet(d) != {}) && HasRoom(d, o.chains[k], gs[fd].offset, |bytes|) {
        owners := Grow(owners, k, cc);
        WriteWhole(d, gs, o, fd, bytes, vol.disk, cc, files[fd]);
        GrownKeepsBoot(d, o.chains[k], vol.disk, cc);
      } else if o.chains[k] != [] || FreeSet(d) != {} {
        owners := Grow(owners, k, cc);
        WriteCutShort(d, gs, o, fd, bytes, vol.disk, cc, files[fd]);
        WriteNeedsRoom(d, gs, o, fd, bytes, vol.disk, files, owners);
      }
    }

    /** The lowest unused handle, or -1. */
    method AllocFd() returns (fd: int)
      requires |files| == MAX_OPEN_FILES
      ensures fd == FreeHandle(files)
      ensures if fd == -1 then forall g :: 0 <= g < 16 ==> files[g].used
              else 0 <= fd < 16 && !files[fd].used && forall g :: 0 <= g < fd ==> files[g].used
    {
      var i := 0;
      while i < MAX_OPEN_FILES
        invariant i <= MAX_OPEN_FILES
        invariant forall g :: 0 <= g < i ==> files[g].used
      {
        if !files[i].used {
          return i;
        }
        i := i + 1;
      }
      fd := -1;
    }

    /** The part of open before the handle: the slot of the file, found, truncated or created; -1 when refused. */
    method FindOrCreate(name: Name, mode: Mode, uid: nat) returns (slot: int)
      requires Valid() && ValidName(name)
      requires forall k: nat :: Binds(vol.disk.root, name, k) ==> HandleOf(files, k) < 0
      modifies this`owners, vol
      ensures Valid()
      ensures vol.disk.bitmap == old(vol.disk).bitmap && vol.disk.data == old(vol.disk).data
      ensures slot == -1 <==> Refused(old(vol.disk), name, mode, uid)
      ensures forall k: nat :: Binds(old(vol.disk).root, name, k) ==>
                var e := old(vol.disk).root[k];
                (slot == -1 <==> On(e.flags, 0) || (uid != 0 && (On(e.flags, 1) || (On(e.flags, 2) && uid != e.owner))))
      ensures NotBound(old(vol.disk).root, name, ROOT_SLOTS) ==>
                (slot == -1 <==> !mode.create || forall k :: 0 <= k < ROOT_SLOTS ==> Live(old(vol.disk).root[k]))
      ensures slot == -1 ==> vol.disk == old(vol.disk) && owners == old(owners)
      ensures slot != -1 ==>
                && 0 <= slot < ROOT_SLOTS && Binds(vol.disk.root, name, slot) && HandleOf(files, slot) < 0
                && slot in owners.chains && InDataArea(owners.chains[slot])
                && OthersKept(old(vol.disk), files, old(owners), vol.disk, files, owners, slot)
      ensures slot != -1 && slot in old(owners).chains ==>
                && Binds(old(vol.disk).root, name, slot)
                && vol.disk == (if mode.create
                                then WithRootEntry(old(vol.disk), slot, old(vol.disk).root[slot].(size := 0))
                                else old(vol.disk))
                && owners == old(owners) && InDataArea(owners.chains[slot])
                && Content(vol.disk, files, owners, slot)
                   == if mode.create then [] else Content(old(vol.disk), files, owners, slot)
      ensures slot != -1 && slot !in old(owners).chains ==>
                && NotBound(old(vol.disk).root, name, ROOT_SLOTS)
                && owners == AddSlot(old(owners), slot) && Content(vol.disk, files, owners, slot) == []
                && vol.disk.root[slot] == Dirent(name, 0, 0, uid, 0)
    {
      hide IsChain, Owned, Accounted, UniqueNames, AllHandlesOk, EntriesOk, Flat, HandleOf, FirstFree, Content;
      RefusedMeans(vol.disk, name, mode, uid);
      var found, k := FindInRoot(vol.disk, name);
      if found {
        RefusedWhenFound(vol.disk, name, mode, uid, k);
        var e := vol.disk.root[k];
        if !MayAccess(e, uid) || IsDirectory(e) {
          return -1;
        }
        SameSlotsKept(vol.disk, files, owners, k);
        if mode.create {
          TruncateKeeps(vol.disk, files, owners, k);
          vol.disk := WithRootEntry(vol.disk, k, e.(size := 0));
        }
      } else {
        if !mode.create {
          return -1;
        }
        var ok;
        ok, k := AddToRoot(vol, name, uid, 0);
        if !ok {
          return -1;
        }
        CreateKeeps(old(vol.disk), files, owners, k, NewEntry(name, uid, 0));
        owners := AddSlot(owners, k);
      }
      slot := k;
    }

    /** Opens or creates a file of the root directory; `slot` is its slot, or -1 when refused. */
    method Open(name: Name, mode: Mode, uid: nat) returns (fd: int, ghost slot: int)
      requires Valid() && ValidName(name)
      requires forall k: nat :: Binds(vol.disk.root, name, k) ==> HandleOf(files, k) < 0
      modifies this, vol
      ensures Valid()
      ensures vol.disk.bitmap == old(vol.disk).bitmap && vol.disk.data == old(vol.disk).data
      ensures slot == -1 <==> Refused(old(vol.disk), name, mode, uid)
      ensures forall k: nat :: Binds(old(vol.disk).root, name, k) ==>
                var e := old(vol.disk).root[k];
                (slot == -1 <==> On(e.flags, 0) || (uid != 0 && (On(e.flags, 1) || (On(e.flags, 2) && uid != e.owner))))
      ensures NotBound(old(vol.disk).root, name, ROOT_SLOTS) ==>
                (slot == -1 <==> !mode.create || forall k :: 0 <= k < ROOT_SLOTS ==> Live(old(vol.disk).root[k]))
      ensures slot == -1 ==> fd == -1 && vol.disk == old(vol.disk) && files == old(files) && owners == old(owners)
      ensures slot != -1 ==>
                && 0 <= slot < ROOT_SLOTS && Binds(vol.disk.root, name, slot)
                && slot in owners.chains && InDataArea(owners.chains[slot])
                && OthersKept(old(vol.disk), old(files), old(owners), vol.disk, files, owners, slot)
                && fd == FreeHandle(old(files))
                && files == (if fd < 0 then old(files)
                             else
                               var e := vol.disk.root[slot];
                               old(files)[fd := Handle(true, slot, 0, e.size, e.first, mode)])
      ensures slot != -1 && slot in old(owners).chains ==>
                && Binds(old(vol.disk).root, name, slot)
                && vol.disk == (if mode.create
                                then WithRootEntry(old(vol.disk), slot, old(vol.disk).root[slot].(size := 0))
                                else old(vol.disk))
                && owners == old(owners) && InDataArea(owners.chains[slot])
                && Content(vol.disk, files, owners, slot)
                   == if mode.create then [] else Content(old(vol.disk), old(files), owners, slot)
      ensures slot != -1 && slot !in old(owners).chains ==>
                && NotBound(old(vol.disk).root, name, ROOT_SLOTS)
                && owners == AddSlot(old(owners), slot) && Content(vol.disk, files, owners, slot) == []
                && vol.disk.root[slot] == Dirent(name, 0, 0, uid, 0)
    {
      hide IsChain, Owned, Accounted, UniqueNames, AllHandlesOk, EntriesOk, Flat, HandleOf, FirstFree, FreeHandle;
      hide Content, Refused, LiveSlots;
      var k := FindOrCreate(name, mode, uid);
      slot := k;
      if k == -1 {
        return -1, -1;
      }
      fd := AllocFd();
      if fd >= 0 {
        OpenKeeps(vol.disk, files, owners, fd, k, mode);
        files := files[fd := Handle(true, k, 0, vol.disk.root[k].size, vol.disk.root[k].first, mode)];
      }
    }

    /** Closes a handle, writing size and first sector back to the root directory. */
    method Close(fd: int)
      requires Valid()
      modifies this`files, vol
      ensures Valid()
      ensures !IsOpen(old(files), fd) ==> files == old(files) && vol.disk == old(vol.disk)
      ensures IsOpen(old(files), fd) ==>
                var f := old(files)[fd];
                && f.slot < ROOT_SLOTS && f.slot in owners.chains && InDataArea(owners.chains[f.slot])
                && files == old(files)[fd := f.(used := false)]
                && vol.disk == ClosedDisk(old(vol.disk), f)
                && OthersKept(old(vol.disk), old(files), owners, vol.disk, files, owners, f.slot)
                && Content(vol.disk, files, owners, f.slot) == Content(old(vol.disk), old(files), owners, f.slot)
      ensures IsOpen(old(files), fd) && old(files)[fd].slot < ROOT_SLOTS ==>
                var f := old(files)[fd];
                var e := old(vol.disk).root[f.slot];
                var now := if f.mode.write || f.mode.create then e.(size := f.size, first := f.first) else e;
                vol.disk == old(vol.disk).(root := old(vol.disk).root[f.slot := now])
    {
      if !IsOpen(files, fd) {
        return;
      }
      CloseKeeps(vol.disk, files, owners, fd);
      var f := files[fd];
      if f.mode.write || f.mode.create {
        vol.disk := WithRootEntry(vol.disk, f.slot, vol.disk.root[f.slot].(size := f.size, first := f.first));
      }
      files := files[fd := f.(used := false)];
    }

    /** Removes a file of the root directory and frees its sectors. The invariant survives exactly when the
        file was not open. */
    method Remove(name: Name, uid: nat) returns (result: int, ghost slot: int)
      requires Valid()
      modifies this`owners, vol
      ensures result == 0 || result == -1
      ensures result == -1 <==> NotBound(old(vol.disk).root, name, ROOT_SLOTS)
                                || exists k: nat :: Binds(old(vol.disk).root, name, k)
                                                    && !MayAccess(old(vol.disk).root[k], uid)
      ensures forall k: nat :: Binds(old(vol.disk).root, name, k) ==>
                var e := old(vol.disk).root[k];
                (result == -1 <==> uid != 0 && (On(e.flags, 1) || (On(e.flags, 2) && uid != e.owner)))
      ensures result == -1 ==> Valid() && vol.disk == old(vol.disk) && owners == old(owners)
      ensures result == 0 ==>
                && 0 <= slot < ROOT_SLOTS && Binds(old(vol.disk).root, name, slot) && slot in old(owners).chains
                && owners == Drop(old(owners), slot)
                && vol.disk.data == old(vol.disk).data
                && vol.disk.root == old(vol.disk).root[slot := old(vol.disk).root[slot].(name := [])]
                && UsedSet(vol.disk) == UsedSet(old(vol.disk)) - FreedSectors(old(vol.disk), old(owners), slot)
                && ((exists p :: Consistent(vol.disk, files, p)) <==> HandleOf(files, slot) < 0)
      ensures result == 0 && HandleOf(files, slot) < 0 ==>
                && Valid()
                && UsedSet(vol.disk) == UsedSet(old(vol.disk)) - Elems(old(owners).chains[slot])
                && OthersKept(old(vol.disk), files, old(owners), vol.disk, files, owners, slot)
    {
      hide Owned, Accounted, AllHandlesOk, Flat, HandleOf, UsedSet, IsChain, Used, Content;
      var found, k := FindInRoot(vol.disk, name);
      slot := k;
      if !found {
        return -1, -1;
      }
      BoundOnlyAt(vol.disk.root, name, k);
      var e := vol.disk.root[k];
      if !MayAccess(e, uid) {
        return -1, -1;
      }
      ghost var ss := owners.chains[k];
      EntryLeads(vol.disk, files, owners, k);
      vol.FreeChain(e.first, if e.first == 0 then [] else ss);
      ghost var d := vol.disk;
      vol.disk := WithRootEntry(vol.disk, k, e.(name := []));
      BitmapFrame(d, vol.disk);
      FreedAre(old(vol.disk), owners, k);
      RemoveNeedsClosed(old(vol.disk), files, owners, k, vol.disk);
      if HandleOf(files, k) < 0 {
        FreedWhenClosed(old(vol.disk), files, owners, k);
        RemoveKeeps(old(vol.disk), files, owners, k, vol.disk);
      }
      owners := Drop(owners, k);
      result := 0;
    }
  }

  /** A root entry leads to the chain of its slot, or nowhere. */
  lemma EntryLeads(d: Disk, files: seq<Handle>, o: Owners, k: nat)
    requires Consistent(d, files, o) && k in o.chains
    ensures k < ROOT_SLOTS && HasChain(d, d.root[k].first, if d.root[k].first == 0 then [] else o.chains[k])
  {
    assert EntryOk(d, files, o, k);
    ChainAllocated(d, o, k);
    HeadOf(d, o.chains[k]);
  }

  lemma FreedAre(d: Disk, o: Owners, k: nat)
    requires k in o.chains && k < ROOT_SLOTS
    ensures FreedSectors(d, o, k) == Elems(if d.root[k].first == 0 then [] else o.chains[k])
  {
  }

  lemma BoundOnlyAt(es: seq<Dirent>, name: Name, k: nat)
    requires UniqueNames(es) && Binds(es, name, k)
    ensures forall m: nat :: Binds(es, name, m) ==> m == k
    ensures !NotBound(es, name, |es|)
  {
  }

  lemma ReadOfContent(c: seq<byte>, size: nat, offset: nat, count: nat)
    requires offset <= size <= |c|
    ensures BytesRead(c, size, offset, count) == Piece(Piece(c, 0, size), offset, Min(offset + count, size))
    ensures offset + |BytesRead(c, size, offset, count)| <= size
  {
  }

  /** Follows `n` links from the sector `first`, stopping where the chain ends. */
  method SkipSectors(d: Disk, first: nat, n: nat, ghost ss: seq<nat>) returns (current: nat)
    requires IsChain(d, ss) && Head(ss) == first
    ensures current == if n < |ss| then ss[n] else 0
  {
    current := first;
    var i := 0;
    while i < n && current != 0
      invariant i <= n
      invariant current == if i < |ss| then ss[i] else 0
    {
      current := NextOf(d, current);
      i := i + 1;
    }
  }

  function SectorBytes(d: Disk, sector: nat, at: nat, n: nat): seq<byte>
    requires sector < DISK_SECTORS && at + n <= 508
  {
    d.data[sector].data[at..at + n]
  }

  /** The reading loop: the bytes at `offset` of a file of `size` bytes whose sectors are `ss`. */
  method ReadChain(d: Disk, first: nat, offset: nat, size: nat, count: nat, ghost ss: seq<nat>)
    returns (out: seq<byte>)
    requires IsChain(d, ss) && Head(ss) == first
    ensures out == BytesRead(Flat(d, ss), size, offset, count)
  {
    hide Flat, IsChain, InDataArea, SectorOf, OffsetIn, Piece, SectorBytes, NextOf, Head;
    var current := SkipSectors(d, first, SectorOf(offset), ss);
    HeadOf(d, ss);
    ghost var c, q := Flat(d, ss), SectorOf(offset);
    EmptyPiece(c, offset);
    out := [];
    var pos, left := offset, count;
    while left > 0 && current != 0 && pos < size
      invariant left == count - (pos - offset) && offset <= pos
      invariant offset < pos ==> pos <= Min(offset + count, Min(size, |c|))
      invariant out == Piece(c, offset, pos)
      invariant left > 0 && pos < size ==> q == SectorOf(pos) && current == if q < |ss| then ss[q] else 0
    {
      var sectorOffset := OffsetIn(pos);
      var toRead := Min(Min(508 - sectorOffset, left), size - pos);
      ReadStep(d, ss, offset, pos, toRead);
      out := out + SectorBytes(d, current, sectorOffset, toRead);
      left := left - toRead;
      pos := pos + toRead;
      if sectorOffset + toRead == 508 {
        current := NextOf(d, current);
        q := q + 1;
      }
    }
    PastTheEnd(d, ss, pos);
  }

  /** One round of the reading loop: the bytes it takes and the sector it goes on with. */
  lemma ReadStep(d: Disk, ss: seq<nat>, start: nat, pos: nat, n: nat)
    requires IsChain(d, ss) && SectorOf(pos) < |ss| && start <= pos && OffsetIn(pos) + n <= 508
    ensures ss[SectorOf(pos)] < DISK_SECTORS && pos + n <= |Flat(d, ss)|
    ensures Piece(Flat(d, ss), start, pos) + SectorBytes(d, ss[SectorOf(pos)], OffsetIn(pos), n)
         == Piece(Flat(d, ss), start, pos + n)
    ensures NextOf(d, ss[SectorOf(pos)]) == if SectorOf(pos) + 1 < |ss| then ss[SectorOf(pos) + 1] else 0
    ensures SectorOf(pos + n) == if OffsetIn(pos) + n == 508 then SectorOf(pos) + 1 else SectorOf(pos)
  {
    hide Flat, Piece, SectorBytes, SectorOf, OffsetIn;
    ChainStep(d, ss, SectorOf(pos));
    ReadPiece(d, ss, pos, n, start);
    Advance(pos, n);
  }

  lemma PastTheEnd(d: Disk, ss: seq<nat>, pos: nat)
    requires InDataArea(ss)
    ensures SectorOf(pos) >= |ss| <==> pos >= |Flat(d, ss)|
  {
  }

  /** A piece of one sector of a chain is a piece of the chain's content. */
  lemma FlatPiece(d: Disk, ss: seq<nat>, pos: nat, n: nat)
    requires InDataArea(ss) && SectorOf(pos) < |ss| && OffsetIn(pos) + n <= 508
    ensures pos + n <= |Flat(d, ss)|
    ensures SectorBytes(d, ss[SectorOf(pos)], OffsetIn(pos), n) == Flat(d, ss)[pos..pos + n]
  {
    var q, at := SectorOf(pos), OffsetIn(pos);
    var piece, c := SectorBytes(d, ss[q], at, n), Flat(d, ss)[pos..pos + n];
    forall i | 0 <= i < n
      ensures piece[i] == c[i]
    {
      assert (pos + i) / 508 == q && (pos + i) % 508 == at + i;
    }
  }

  lemma ReadPiece(d: Disk, ss: seq<nat>, pos: nat, n: nat, start: nat)
    requires InDataArea(ss) && SectorOf(pos) < |ss| && OffsetIn(pos) + n <= 508 && start <= pos
    ensures pos + n <= |Flat(d, ss)|
    ensures Piece(Flat(d, ss), start, pos) + SectorBytes(d, ss[SectorOf(pos)], OffsetIn(pos), n)
         == Piece(Flat(d, ss), start, pos + n)
  {
    FlatPiece(d, ss, pos, n);
  }

  lemma EmptyPiece(c: seq<byte>, n: nat)
    ensures Piece(c, n, n) == []
  {
  }
}
