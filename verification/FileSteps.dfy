/** Each operation on files of the root directory keeps the invariant and touches one file only. */
module FileSteps {
  import opened Bytes
  import opened Layout
  import opened Chains
  import opened Files
  import opened Directories
  import opened DirectoryOps
  import opened Volumes
  import opened Ownership
  import opened Handles

  lemma HandleIsOk(d: Disk, files: seq<Handle>, o: Owners, fd: int)
    requires Consistent(d, files, o) && IsOpen(files, fd)
    ensures HandleOk(d, files[fd], o) && HandleOf(files, files[fd].slot) == fd
  {
    HandleOfUnique(files, fd);
  }

  // ------------------------------------------------------------------ reading

  lemma ReadKeeps(d: Disk, files: seq<Handle>, o: Owners, fd: int, offset: nat)
    requires Consistent(d, files, o) && IsOpen(files, fd) && offset <= files[fd].size
    ensures Consistent(d, files[fd := files[fd].(offset := offset)], o)
    ensures forall k: nat :: k in o.chains && k < ROOT_SLOTS && InDataArea(o.chains[k]) ==>
              Content(d, files[fd := files[fd].(offset := offset)], o, k) == Content(d, files, o, k)
  {
    hide ChainsOk, IsChain, UniqueNames;
    var gs := files[fd := files[fd].(offset := offset)];
    HandleUpdate(files, fd, gs[fd], 0);
    forall g | IsOpen(gs, g) ensures HandleOk(d, gs[g], o) {
      assert IsOpen(files, g);
    }
    forall k: nat | k in o.chains && k < ROOT_SLOTS
      ensures EntryOk(d, gs, o, k) && SizeOf(d, gs, k) == SizeOf(d, files, k)
    {
      HandleUpdate(files, fd, gs[fd], k);
      assert EntryOk(d, files, o, k);
    }
  }

  // ------------------------------------------------------------------ writing

  ghost predicate WroteHandle(f: Handle, g: Handle, cc: seq<nat>, count: nat) {
    cc != [] && g == f.(first := cc[0], offset := f.offset + count, size := SizeAfterWrite(f.size, f.offset, count))
  }

  lemma WriteKeepsHandles(d: Disk, files: seq<Handle>, o: Owners, fd: int, e: Disk, cc: seq<nat>, g: Handle, count: nat)
    requires Consistent(d, files, o) && CanWrite(files, fd)
    requires files[fd].slot in o.chains && o.chains[files[fd].slot] <= cc && e.root == d.root
    requires WroteHandle(files[fd], g, cc, count) && files[fd].offset + count <= 508 * |cc|
    ensures AllHandlesOk(e, files[fd := g], Grow(o, files[fd].slot, cc))
    ensures EntriesOk(e, files[fd := g], Grow(o, files[fd].slot, cc))
    ensures forall m: nat :: m < ROOT_SLOTS && m != files[fd].slot ==>
              SizeOf(e, files[fd := g], m) == SizeOf(d, files, m)
    ensures SizeOf(e, files[fd := g], files[fd].slot) == g.size
  {
    hide ChainsOk, IsChain, UniqueNames;
    var k, gs, p := files[fd].slot, files[fd := g], Grow(o, files[fd].slot, cc);
    HandleIsOk(d, files, o, fd);
    forall h | IsOpen(gs, h) ensures HandleOk(e, gs[h], p) {
      assert IsOpen(files, h);
    }
    forall m: nat | m < ROOT_SLOTS
      ensures HandleOf(gs, m) == HandleOf(files, m)
    {
      HandleUpdate(files, fd, g, m);
    }
    forall m: nat | m in p.chains && m < ROOT_SLOTS
      ensures EntryOk(e, gs, p, m)
    {
      assert EntryOk(d, files, o, m);
    }
  }

  /** A write keeps the invariant, gives the file its new content, and leaves every other file alone. */
  lemma WriteKeeps(d: Disk, files: seq<Handle>, o: Owners, fd: int, e: Disk, cc: seq<nat>, g: Handle, count: nat)
    requires Consistent(d, files, o) && CanWrite(files, fd)
    requires files[fd].slot in o.chains && Grown(d, o.chains[files[fd].slot], e, cc)
    requires WroteHandle(files[fd], g, cc, count) && files[fd].offset + count <= 508 * |cc|
    ensures Consistent(e, files[fd := g], Grow(o, files[fd].slot, cc))
    ensures OthersKept(d, files, o, e, files[fd := g], Grow(o, files[fd].slot, cc), files[fd].slot)
    ensures files[fd].slot < ROOT_SLOTS && InDataArea(cc)
         && Content(e, files[fd := g], Grow(o, files[fd].slot, cc), files[fd].slot) == Piece(Flat(e, cc), 0, g.size)
  {
    hide IsChain, UniqueNames, AllHandlesOk, EntriesOk, Owned, Accounted, LiveSlots, Used, Flat, Piece;
    var k := files[fd].slot;
    var p := Grow(o, k, cc);
    HandleIsOk(d, files, o, fd);
    GrowKeeps(d, o, k, e, cc);
    WriteKeepsHandles(d, files, o, fd, e, cc, g, count);
    HandleUpdate(files, fd, g, k);
    forall m: nat | m < ROOT_SLOTS && m != k && m in o.chains && InDataArea(o.chains[m])
      ensures InDataArea(p.chains[m]) && Content(e, files[fd := g], p, m) == Content(d, files, o, m)
    {
    }
  }

  /** What a write through the handle `fd` does: the file's bytes are overwritten at the handle's offset,
      the handle moves on, and every other file is as before. */
  ghost predicate WriteDone(d: Disk, files: seq<Handle>, o: Owners, fd: int, bytes: seq<byte>,
                            e: Disk, filesAfter: seq<Handle>, p: Owners)
    requires IsOpen(files, fd)
  {
    var f, k := files[fd], files[fd].slot;
    && k < ROOT_SLOTS && k in o.chains && InDataArea(o.chains[k]) && k in p.chains && InDataArea(p.chains[k])
    && f.offset <= |Content(d, files, o, k)|
    && Content(e, filesAfter, p, k) == Overwrite(Content(d, files, o, k), f.offset, bytes)
    && filesAfter == files[fd := f.(first := Head(p.chains[k]), offset := f.offset + |bytes|,
                                    size := SizeAfterWrite(f.size, f.offset, |bytes|))]
    && p == Grow(o, k, p.chains[k]) && o.chains[k] <= p.chains[k]
    && |p.chains[k]| == SectorsAfterWrite(|o.chains[k]|, f.offset, |bytes|)
    && (forall n :: n in p.chains[k] && n !in o.chains[k] ==> n !in o.own)
    && |FreeSet(e)| + |p.chains[k]| == |FreeSet(d)| + |o.chains[k]|
    && e.root == d.root
    && OthersKept(d, files, o, e, filesAfter, p, k)
  }

  lemma WriteWhole(d: Disk, files: seq<Handle>, o: Owners, fd: int, bytes: seq<byte>, e: Disk, cc: seq<nat>, g: Handle)
    requires Consistent(d, files, o) && CanWrite(files, fd)
    requires files[fd].slot in o.chains && Grown(d, o.chains[files[fd].slot], e, cc)
    requires WroteHandle(files[fd], g, cc, |bytes|) && InDataArea(o.chains[files[fd].slot]) && InDataArea(cc)
    requires Flat(e, cc) == ContentAfterWrite(Flat(d, o.chains[files[fd].slot]), files[fd].offset, bytes)
    ensures Consistent(e, files[fd := g], Grow(o, files[fd].slot, cc))
    ensures WriteDone(d, files, o, fd, bytes, e, files[fd := g], Grow(o, files[fd].slot, cc))
  {
    hide UniqueNames, AllHandlesOk, EntriesOk, IsChain, Flat, Piece, UsedSet, FreeSet, HandleOf, ContentAfterWrite;
    var k := files[fd].slot;
    HandleIsOk(d, files, o, fd);
    WriteKeeps(d, files, o, fd, e, cc, g, |bytes|);
    WriteIsOverwrite(Flat(d, o.chains[k]), files[fd].size, files[fd].offset, bytes);
    NewSectorsUnowned(d, o, k, e, cc);
    ContentLength(d, files, o, fd);
  }

  lemma ContentLength(d: Disk, files: seq<Handle>, o: Owners, fd: int)
    requires Consistent(d, files, o) && IsOpen(files, fd)
    ensures HandleOk(d, files[fd], o)
    ensures InDataArea(o.chains[files[fd].slot]) && |Content(d, files, o, files[fd].slot)| == files[fd].size
  {
    HandleIsOk(d, files, o, fd);
  }

  lemma NewSectorsUnowned(d: Disk, o: Owners, k: nat, e: Disk, cc: seq<nat>)
    requires ChainsOk(d, o) && k in o.chains && Grown(d, o.chains[k], e, cc)
    ensures forall n :: n in cc && n !in o.chains[k] ==> n !in o.own
  {
    forall n | n in cc && n !in o.chains[k]
      ensures n !in o.own
    {
      GrownElement(d, o.chains[k], e, cc, n);
      assert n !in UsedSet(d);
    }
  }

  /** What a write does that finds too few sectors: it takes all that are free, the file's chain holds the
      bytes that fit, and every other file is as before; but the superblock is overwritten, and offset and
      size count all bytes. */
  ghost predicate CutShort(d: Disk, files: seq<Handle>, o: Owners, fd: int, bytes: seq<byte>,
                           e: Disk, filesAfter: seq<Handle>, p: Owners)
    requires IsOpen(files, fd)
  {
    var f, k := files[fd], files[fd].slot;
    && k < ROOT_SLOTS && k in o.chains && InDataArea(o.chains[k]) && k in p.chains && InDataArea(p.chains[k])
    && p == Grow(o, k, p.chains[k]) && o.chains[k] <= p.chains[k]
    && 0 < |p.chains[k]| == |o.chains[k]| + |FreeSet(d)| < SectorsAfterWrite(|o.chains[k]|, f.offset, |bytes|)
    && Flat(e, p.chains[k]) == ContentWhenFull(Flat(d, o.chains[k]), |p.chains[k]|, f.offset, bytes)
    && filesAfter == files[fd := f.(first := Head(p.chains[k]), offset := f.offset + |bytes|,
                                    size := SizeAfterWrite(f.size, f.offset, |bytes|))]
    && Ruined(e) && e.root == d.root
    && ChainsOk(e, p) && OthersKept(d, files, o, e, filesAfter, p, k)
  }

  lemma WriteCutShort(d: Disk, files: seq<Handle>, o: Owners, fd: int, bytes: seq<byte>, e: Disk, cc: seq<nat>,
                      g: Handle)
    requires Consistent(d, files, o) && CanWrite(files, fd) && files[fd].slot in o.chains
    requires InDataArea(o.chains[files[fd].slot]) && InDataArea(cc)
    requires Walking(e, d, o.chains[files[fd].slot], cc, true) && WroteHandle(files[fd], g, cc, |bytes|)
    requires |cc| == |o.chains[files[fd].slot]| + |FreeSet(d)|
    requires !HasRoom(d, o.chains[files[fd].slot], files[fd].offset, |bytes|)
    requires Flat(e, cc) == ContentWhenFull(Flat(d, o.chains[files[fd].slot]), |cc|, files[fd].offset, bytes)
    ensures CutShort(d, files, o, fd, bytes, e, files[fd := g], Grow(o, files[fd].slot, cc))
  {
    hide IsChain, UniqueNames, AllHandlesOk, EntriesOk, Owned, Accounted, Used, Flat, Piece, ContentWhenFull;
    hide FreeSet, LiveSlots, ChainsFormed, HandleOf, UsedSet, SameSectors, ForeignKept;
    var k, p := files[fd].slot, Grow(o, files[fd].slot, cc);
    HandleIsOk(d, files, o, fd);
    GrowKeeps(d, o, k, BootOf(d, e), cc);
    BootAndFirst(BootOf(d, e), p, e, k);
    KeptThrough(d, BootOf(d, e), e, o, p, k);
    forall m: nat | m < ROOT_SLOTS && m != k && m in o.chains && InDataArea(o.chains[m])
      ensures p.chains[m] == o.chains[m] && Content(e, files[fd := g], p, m) == Content(d, files, o, m)
    {
      HandleUpdate(files, fd, g, m);
    }
  }

  /** Afterwards some ownership accounts for disk and handles exactly when nothing was to be written. */
  lemma WriteNeedsRoom(d: Disk, files: seq<Handle>, o: Owners, fd: int, bytes: seq<byte>,
                       e: Disk, filesAfter: seq<Handle>, p: Owners)
    requires Consistent(d, files, o) && CanWrite(files, fd)
    requires CutShort(d, files, o, fd, bytes, e, filesAfter, p)
    ensures (exists q :: Consistent(e, filesAfter, q)) <==> bytes == []
  {
    hide UniqueNames, EntriesOk, Owned, Accounted, Used, Flat, ContentWhenFull, OthersKept, FreeSet;
    var k := files[fd].slot;
    HandleIsOk(d, files, o, fd);
    if bytes == [] {
      WriteKeepsHandles(d, files, o, fd, e, p.chains[k], filesAfter[fd], 0);
      HandleUpdate(files, fd, filesAfter[fd], k);
      assert Consistent(e, filesAfter, p);
    } else {
      forall q | Consistent(e, filesAfter, q)
        ensures false
      {
        assert HandleOk(e, filesAfter[fd], q);
        ChainUnique(e, q.chains[k], p.chains[k]);
      }
    }
  }

  lemma SameSlotsKept(d: Disk, files: seq<Handle>, o: Owners, k: nat)
    requires Consistent(d, files, o)
    ensures OthersKept(d, files, o, d, files, o, k)
    ensures k < ROOT_SLOTS && Live(d.root[k]) ==> k in o.chains && InDataArea(o.chains[k])
  {
  }

  // ---------------------------------------------------- changing one root entry

  function WithRootEntry(d: Disk, k: nat, entry: Dirent): Disk
    requires k < ROOT_SLOTS
  {
    d.(root := d.root[k := entry])
  }

  /** Opening an existing file for creation sets the size in its entry to 0. */
  lemma TruncateKeeps(d: Disk, files: seq<Handle>, o: Owners, k: nat)
    requires Consistent(d, files, o) && k in o.chains && k < ROOT_SLOTS && HandleOf(files, k) < 0
    ensures var e := WithRootEntry(d, k, d.root[k].(size := 0));
            && Consistent(e, files, o) && OthersKept(d, files, o, e, files, o, k)
            && InDataArea(o.chains[k]) && Content(e, files, o, k) == []
  {
    hide IsChain, Owned, Accounted, Used, Flat, SameSectors, ForeignKept;
    var e := WithRootEntry(d, k, d.root[k].(size := 0));
    EntryKeeps(d, o, k, e, d.root[k].(size := 0));
    UpdateBinding(d.root, k, d.root[k].(size := 0));
    forall fd | IsOpen(files, fd) ensures HandleOk(e, files[fd], o) {
    }
    forall m: nat | m in o.chains && m < ROOT_SLOTS
      ensures EntryOk(e, files, o, m) && (m != k ==> e.root[m] == d.root[m])
    {
      assert EntryOk(d, files, o, m);
    }
    SameFlat(d, e, o);
  }

  /** Content is read from the data sectors only. */
  lemma SameFlat(d: Disk, e: Disk, o: Owners)
    requires d.data == e.data
    ensures forall m :: m in o.chains && InDataArea(o.chains[m]) ==>
              Flat(e, o.chains[m]) == Flat(d, o.chains[m]) && SameSectors(d, e, o.chains[m])
    ensures ForeignKept(d, o, e)
  {
  }

  lemma OpenKeeps(d: Disk, files: seq<Handle>, o: Owners, fd: int, k: nat, mode: Mode)
    requires Consistent(d, files, o) && k in o.chains && k < ROOT_SLOTS && HandleOf(files, k) < 0
    requires 0 <= fd < |files| && !files[fd].used
    ensures var gs := files[fd := Handle(true, k, 0, d.root[k].size, d.root[k].first, mode)];
            && Consistent(d, gs, o)
            && forall m: nat :: m < ROOT_SLOTS && m in o.chains && InDataArea(o.chains[m]) ==>
                 Content(d, gs, o, m) == Content(d, files, o, m)
  {
    hide IsChain, ChainsOk, UniqueNames, Used, Flat;
    var f := Handle(true, k, 0, d.root[k].size, d.root[k].first, mode);
    var gs := files[fd := f];
    assert EntryOk(d, files, o, k);
    HandleAdded(files, fd, f, k);
    forall g | IsOpen(gs, g) ensures HandleOk(d, gs[g], o) {
      assert g != fd ==> IsOpen(files, g);
    }
    forall m: nat | m in o.chains && m < ROOT_SLOTS
      ensures EntryOk(d, gs, o, m) && SizeOf(d, gs, m) == SizeOf(d, files, m)
    {
      assert EntryOk(d, files, o, m);
      HandleAdded(files, fd, f, m);
    }
  }

  lemma NoHandleOnFreeSlot(d: Disk, files: seq<Handle>, o: Owners, k: nat)
    requires Consistent(d, files, o) && k !in o.chains
    ensures HandleOf(files, k) < 0
  {
    var fd := HandleOf(files, k);
    if fd >= 0 {
      assert false;
    }
  }

  ghost function AddSlot(o: Owners, k: nat): Owners {
    o.(chains := o.chains[k := []])
  }

  /** A new entry: an empty file, nothing else changed. */
  lemma CreateKeeps(d: Disk, files: seq<Handle>, o: Owners, k: nat, entry: Dirent)
    requires Consistent(d, files, o) && k < ROOT_SLOTS && !Live(d.root[k])
    requires Live(entry) && entry.size == 0 && entry.first == 0 && NotBound(d.root, entry.name, ROOT_SLOTS)
    ensures var e, p := WithRootEntry(d, k, entry), AddSlot(o, k);
            && Consistent(e, files, p) && OthersKept(d, files, o, e, files, p, k)
            && k !in o.chains && HandleOf(files, k) < 0 && Content(e, files, p, k) == []
  {
    hide IsChain, Owned, Accounted, Used, Flat, SameSectors, ForeignKept;
    hide HandleOf, UsedSet, UniqueNames, ChainsFormed;
    var e, p := WithRootEntry(d, k, entry), AddSlot(o, k);
    NoHandleOnFreeSlot(d, files, o, k);
    AddKeeps(d, o, k, e, entry);
    NotBoundInMap(d.root, entry.name);
    InsertBinding(d.root, k, entry);
    forall fd | IsOpen(files, fd) ensures HandleOk(e, files[fd], p) {
      assert HandleOk(d, files[fd], o);
    }
    forall m: nat | m in p.chains && m < ROOT_SLOTS
      ensures EntryOk(e, files, p, m) && (m != k ==> e.root[m] == d.root[m])
    {
      if m != k {
        assert EntryOk(d, files, o, m);
      }
    }
    SameFlat(d, e, o);
  }

  lemma NotBoundInMap(es: seq<Dirent>, name: Name)
    requires NotBound(es, name, |es|)
    ensures name !in DirMap(es)
  {
    if name in DirMap(es) {
      var i := SlotOf(es, name);
    }
  }

  /** What close leaves in the root directory. */
  function ClosedDisk(d: Disk, f: Handle): Disk
    requires f.slot < ROOT_SLOTS
  {
    if f.mode.write || f.mode.create
    then WithRootEntry(d, f.slot, d.root[f.slot].(size := f.size, first := f.first))
    else d
  }

  /** Closing writes size and first sector back: every file, also the closed one, keeps its content. */
  lemma CloseKeeps(d: Disk, files: seq<Handle>, o: Owners, fd: int)
    requires Consistent(d, files, o) && IsOpen(files, fd)
    ensures files[fd].slot < ROOT_SLOTS && files[fd].slot in o.chains && InDataArea(o.chains[files[fd].slot])
    ensures var e, gs, k := ClosedDisk(d, files[fd]), files[fd := files[fd].(used := false)], files[fd].slot;
            && Consistent(e, gs, o) && OthersKept(d, files, o, e, gs, o, k)
            && Content(e, gs, o, k) == Content(d, files, o, k)
  {
    hide IsChain, Owned, Accounted, Used, Flat, SameSectors, ForeignKept;
    HandleIsOk(d, files, o, fd);
    var f, k := files[fd], files[fd].slot;
    var e, gs := ClosedDisk(d, f), files[fd := f.(used := false)];
    if f.mode.write || f.mode.create {
      EntryKeeps(d, o, k, e, d.root[k].(size := f.size, first := f.first));
      UpdateBinding(d.root, k, d.root[k].(size := f.size, first := f.first));
    }
    HandleClosed(files, fd, k);
    forall g | IsOpen(gs, g) ensures HandleOk(e, gs[g], o) {
      assert IsOpen(files, g) && g != fd;
    }
    forall m: nat | m in o.chains && m < ROOT_SLOTS
      ensures EntryOk(e, gs, o, m) && (m != k ==> e.root[m] == d.root[m])
      ensures SizeOf(e, gs, m) == SizeOf(d, files, m)
    {
      assert EntryOk(d, files, o, m);
      HandleClosed(files, fd, m);
    }
    SameFlat(d, e, o);
  }

  /** Removing a file: its sectors are free again, no other file has changed. */
  lemma RemoveKeeps(d: Disk, files: seq<Handle>, o: Owners, k: nat, e: Disk)
    requires Consistent(d, files, o) && k in o.chains && k < ROOT_SLOTS && HandleOf(files, k) < 0
    requires e.data == d.data && e.root == d.root[k := d.root[k].(name := [])]
    requires UsedSet(e) == UsedSet(d) - Elems(o.chains[k])
    ensures Consistent(e, files, Drop(o, k)) && OthersKept(d, files, o, e, files, Drop(o, k), k)
  {
    hide IsChain, Owned, Accounted, Used, Flat, SameSectors, ForeignKept;
    var p := Drop(o, k);
    DropKeeps(d, o, k, e, d.root[k].(name := []));
    RemoveBinding(d.root, k, d.root[k].(name := []));
    forall fd | IsOpen(files, fd) ensures HandleOk(e, files[fd], p) {
      assert HandleOk(d, files[fd], o);
      assert files[fd].slot != k;
    }
    forall m: nat | m in p.chains && m < ROOT_SLOTS
      ensures EntryOk(e, files, p, m) && e.root[m] == d.root[m]
    {
      assert EntryOk(d, files, o, m);
    }
    SameFlat(d, e, o);
  }

  /** The sectors `tt` are those of the file of slot `j` in the directory with the sectors `ss`. */
  ghost predicate InDirectory(d: Disk, o: Owners, ss: seq<nat>, j: nat, tt: seq<nat>)
    requires InDataArea(ss)
  {
    && j < Base(|ss|) && Live(Slots(d, ss)[j])
    && IsChain(d, tt) && Head(tt) == Slots(d, ss)[j].first && Elems(tt) <= o.others
  }

  /** Removing a directory leaves the sectors of the files in it in use, though no file of the root leads to
      them any more; they are foreign for good. */
  lemma DirectoryRemoved(d: Disk, files: seq<Handle>, o: Owners, k: nat, e: Disk, j: nat, tt: seq<nat>)
    requires Consistent(d, files, o) && k in o.chains && k < ROOT_SLOTS && HandleOf(files, k) < 0
    requires e.data == d.data && e.root == d.root[k := d.root[k].(name := [])]
    requires UsedSet(e) == UsedSet(d) - Elems(o.chains[k])
    requires InDataArea(o.chains[k]) && InDirectory(d, o, o.chains[k], j, tt)
    ensures IsChain(e, tt) && Elems(tt) <= UsedSet(e) && Elems(tt) <= Drop(o, k).others
    ensures forall m: nat, n: nat :: n in tt ==> !Holds(Drop(o, k), m, n)
  {
    hide Used, UniqueNames, AllHandlesOk, EntriesOk, Slots;
    ChainFrame(d, e, tt);
    forall n | n in tt
      ensures n in UsedSet(e) && n !in o.own
    {
      assert n in Elems(tt);
      assert n !in Elems(o.chains[k]) by {
        assert n in o.chains[k] ==> Holds(o, k, n);
      }
    }
    forall m: nat, n: nat | n in tt
      ensures !Holds(Drop(o, k), m, n)
    {
      assert Holds(Drop(o, k), m, n) ==> Holds(o, m, n);
    }
  }

  /** The sectors that removal frees: those of the chain, if the entry leads to it. */
  ghost function FreedSectors(d: Disk, o: Owners, k: nat): set<nat>
    requires k in o.chains && k < ROOT_SLOTS
  {
    if d.root[k].first == 0 then {} else Elems(o.chains[k])
  }

  lemma FreedWhenClosed(d: Disk, files: seq<Handle>, o: Owners, k: nat)
    requires Consistent(d, files, o) && k in o.chains && k < ROOT_SLOTS && HandleOf(files, k) < 0
    ensures FreedSectors(d, o, k) == Elems(o.chains[k])
  {
    assert EntryOk(d, files, o, k);
    HeadOf(d, o.chains[k]);
  }

  /** After a removal some ownership of sectors accounts for the disk and all handles exactly when the file
      was not open. */
  lemma RemoveNeedsClosed(d: Disk, files: seq<Handle>, o: Owners, k: nat, e: Disk)
    requires Consistent(d, files, o) && k in o.chains && k < ROOT_SLOTS
    requires e.data == d.data && e.root == d.root[k := d.root[k].(name := [])]
    requires UsedSet(e) == UsedSet(d) - FreedSectors(d, o, k)
    ensures (exists p :: Consistent(e, files, p)) <==> HandleOf(files, k) < 0
  {
    if HandleOf(files, k) < 0 {
      FreedWhenClosed(d, files, o, k);
      RemoveKeeps(d, files, o, k, e);
    } else {
      OpenSlotIsLive(e, files, k);
    }
  }

  lemma OpenSlotIsLive(d: Disk, files: seq<Handle>, k: nat)
    requires HandleOf(files, k) >= 0 && k < ROOT_SLOTS
    ensures forall p :: Consistent(d, files, p) ==> Live(d.root[k])
  {
    forall p | Consistent(d, files, p)
      ensures Live(d.root[k])
    {
      assert HandleOk(d, files[HandleOf(files, k)], p);
    }
  }

  /** The handle of a removed file keeps a sector that the bitmap calls free, so the next allocation may
      give it to another file; when the entry never got the first sector, all its sectors are lost instead. */
  lemma RemovedWhileOpen(d: Disk, files: seq<Handle>, o: Owners, fd: int, e: Disk)
    requires Consistent(d, files, o) && IsOpen(files, fd) && files[fd].slot in o.chains && files[fd].slot < ROOT_SLOTS
    requires UsedSet(e) == UsedSet(d) - FreedSectors(d, o, files[fd].slot) && files[fd].first != 0
    ensures d.root[files[fd].slot].first != 0 ==> files[fd].first !in UsedSet(e)
    ensures d.root[files[fd].slot].first == 0 ==> forall n :: n in o.chains[files[fd].slot] ==> n in UsedSet(e)
  {
    HandleIsOk(d, files, o, fd);
    ChainAllocated(d, o, files[fd].slot);
    HeadOf(d, o.chains[files[fd].slot]);
  }

  // ------------------------------------------------- create, write, close, remove

  /** `p` is `o` with a file in slot `k` besides. */
  ghost predicate Besides(o: Owners, p: Owners, k: nat) {
    p.others == o.others && k in p.chains && Drop(p, k).own.Keys == o.own.Keys
  }

  lemma BesidesAfterAdd(o: Owners, k: nat)
    requires k !in o.chains
    ensures Besides(o, AddSlot(o, k), k)
  {
  }

  /** However the file grows, dropping it leaves what the others own. */
  lemma BesidesAfterGrow(o: Owners, p: Owners, k: nat, cc: seq<nat>)
    requires Besides(o, p, k) && p.chains[k] <= cc && forall n :: n in cc && n !in p.chains[k] ==> n !in p.own
    ensures Besides(o, Grow(p, k, cc), k)
  {
    var q := Grow(p, k, cc);
    forall n | n in p.chains[k] ensures n in cc {
      PrefixContains(p.chains[k], cc, n);
    }
    assert Drop(q, k).own.Keys == Drop(p, k).own.Keys;
  }
}
