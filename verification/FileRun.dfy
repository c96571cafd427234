/** Any run of opens, reads, writes, closes and removals against a map from names to bytes. */
module FileRuns {
  import opened Bytes
  import opened Layout
  import opened Sets
  import opened Chains
  import opened Files
  import opened Directories
  import opened Dirents
  import opened DirectoryOps
  import opened Volumes
  import opened Ownership
  import opened Handles
  import opened FileSteps
  import opened InnoFileSystem
  import opened DirectoryMaking
  import Format

  // ------------------------------------------------------------ the simple file system

  /** An open file: its name, where the next read or write happens, and what it was opened for. */
  datatype OpenAt = OpenAt(name: Name, offset: nat, mode: Mode)

  /** A file's bytes, and how many sectors it occupies. */
  datatype File = File(bytes: seq<byte>, sectors: nat)

  /** Files by name, and the handles on them. */
  datatype Simple = Simple(files: map<Name, File>, handles: map<int, OpenAt>)

  /** What an operation did. An open that found no free handle has still created or emptied its file. */
  datatype Event =
    | Opened(name: Name, mode: Mode, fd: int)
    | ReadBytes(fd: int, count: nat, out: seq<byte>)
    | Wrote(fd: int, bytes: seq<byte>)
    | Closed(fd: int)
    | Removed(name: Name)
    | Nothing

  /** Whether the event can happen in the simple file system; a read gives exactly the bytes at its offset. */
  predicate Possible(a: Simple, ev: Event) {
    match ev
    case Opened(name, mode, fd) => (mode.create || name in a.files) && fd !in a.handles
    case ReadBytes(fd, count, out) =>
      && fd in a.handles && a.handles[fd].mode.read && a.handles[fd].name in a.files
      && var c := a.files[a.handles[fd].name].bytes;
         a.handles[fd].offset <= |c| && out == Piece(c, a.handles[fd].offset, Min(a.handles[fd].offset + count, |c|))
    case Wrote(fd, bytes) =>
      && fd in a.handles && a.handles[fd].mode.write && a.handles[fd].name in a.files
      && a.handles[fd].offset <= |a.files[a.handles[fd].name].bytes|
    case Closed(fd) => fd in a.handles
    case Removed(name) => name in a.files
    case Nothing => true
  }

  /** A file after an open that creates or truncates it: no bytes, but the sectors stay. */
  function Emptied(m: map<Name, File>, name: Name): File {
    File([], if name in m then m[name].sectors else 0)
  }

  function WrittenTo(f: File, offset: nat, bytes: seq<byte>): File
    requires offset <= |f.bytes|
  {
    File(Overwrite(f.bytes, offset, bytes), SectorsAfterWrite(f.sectors, offset, |bytes|))
  }

  function After(a: Simple, ev: Event): Simple
    requires Possible(a, ev)
  {
    match ev
    case Opened(name, mode, fd) =>
      Simple(if mode.create then a.files[name := Emptied(a.files, name)] else a.files,
             if fd < 0 then a.handles else a.handles[fd := OpenAt(name, 0, mode)])
    case ReadBytes(fd, _, out) =>
      var h := a.handles[fd];
      a.(handles := a.handles[fd := h.(offset := h.offset + |out|)])
    case Wrote(fd, bytes) =>
      var h := a.handles[fd];
      Simple(a.files[h.name := WrittenTo(a.files[h.name], h.offset, bytes)],
             a.handles[fd := h.(offset := h.offset + |bytes|)])
    case Closed(fd) => a.(handles := a.handles - {fd})
    case Removed(name) => a.(files := a.files - {name})
    case Nothing => a
  }

  /** The name whose file the event is about. */
  function Subject(a: Simple, ev: Event): set<Name>
    requires Possible(a, ev)
  {
    match ev
    case Opened(name, _, _) => {name}
    case Wrote(fd, _) => {a.handles[fd].name}
    case Closed(fd) => {a.handles[fd].name}
    case Removed(name) => {name}
    case _ => {}
  }

  // ------------------------------------------------------------ how the disk represents it

  ghost predicate Named(es: seq<Dirent>, n: Name) {
    exists k: nat :: Binds(es, n, k)
  }

  ghost function FileAt(d: Disk, files: seq<Handle>, o: Owners, k: nat): File
    requires k in o.chains && k < ROOT_SLOTS && InDataArea(o.chains[k])
  {
    File(Content(d, files, o, k), |o.chains[k]|)
  }

  ghost predicate HasBytes(d: Disk, files: seq<Handle>, o: Owners, m: map<Name, File>, k: nat)
    requires k in o.chains && k < ROOT_SLOTS && InDataArea(o.chains[k])
  {
    d.root[k].name in m && m[d.root[k].name] == FileAt(d, files, o, k)
  }

  /** The map holds exactly the names of the root directory, each with its file's bytes. */
  ghost predicate FilesAre(d: Disk, files: seq<Handle>, o: Owners, m: map<Name, File>) {
    && (forall k: nat :: k in o.chains && k < ROOT_SLOTS && InDataArea(o.chains[k]) ==> HasBytes(d, files, o, m, k))
    && forall n :: n in m ==> Named(d.root, n)
  }

  ghost predicate HandleIs(d: Disk, files: seq<Handle>, hs: map<int, OpenAt>, fd: int) {
    && IsOpen(files, fd) && fd in hs && files[fd].slot < ROOT_SLOTS
    && hs[fd] == OpenAt(d.root[files[fd].slot].name, files[fd].offset, files[fd].mode)
  }

  ghost predicate HandlesAre(d: Disk, files: seq<Handle>, hs: map<int, OpenAt>) {
    forall fd :: IsOpen(files, fd) || fd in hs ==> HandleIs(d, files, hs, fd)
  }

  ghost predicate Represents(fs: InnoFs, a: Simple)
    reads fs, fs.vol
  {
    Pictures(StateOf(fs), a)
  }

  /** All that the operations read and change. */
  datatype State = State(disk: Disk, files: seq<Handle>, owners: Owners)

  ghost function StateOf(fs: InnoFs): State
    reads fs, fs.vol
  {
    State(fs.vol.disk, fs.files, fs.owners)
  }

  ghost predicate Pictures(s: State, a: Simple) {
    && Consistent(s.disk, s.files, s.owners)
    && FilesAre(s.disk, s.files, s.owners, a.files) && HandlesAre(s.disk, s.files, a.handles)
  }

  /** Under all names but these the same entries, leading to the same sectors; foreign sectors are unchanged. */
  ghost predicate Elsewhere(s: State, t: State, names: set<Name>) {
    && t.owners.others == s.owners.others && ForeignKept(s.disk, s.owners, t.disk)
    && (forall k: nat :: k in t.owners.chains && k < ROOT_SLOTS && t.disk.root[k].name !in names ==>
          k in s.owners.chains && s.disk.root[k].name !in names)
    && (forall k: nat :: k in s.owners.chains && k < ROOT_SLOTS && InDataArea(s.owners.chains[k])
                         && s.disk.root[k].name !in names ==>
          && k in t.owners.chains && t.owners.chains[k] == s.owners.chains[k] && t.disk.root[k] == s.disk.root[k]
          && SameSectors(s.disk, t.disk, s.owners.chains[k]))
  }

  lemma OnlyThisFile(d: Disk, files: seq<Handle>, o: Owners, e: Disk, gs: seq<Handle>, p: Owners, k: nat,
                     names: set<Name>)
    requires Consistent(d, files, o)
    requires OthersKept(d, files, o, e, gs, p, k) && p.others == o.others && k < ROOT_SLOTS
    requires (k in o.chains ==> d.root[k].name in names) && (k in p.chains ==> e.root[k].name in names)
    ensures Elsewhere(State(d, files, o), State(e, gs, p), names)
  {
    hide Content, SameSectors, ForeignKept, IsChain, Owned, Accounted, LiveSlots, UniqueNames, EntriesOk;
  }

  lemma SlotBinds(d: Disk, files: seq<Handle>, o: Owners, k: nat)
    requires Consistent(d, files, o) && k in o.chains
    ensures k < ROOT_SLOTS && Binds(d.root, d.root[k].name, k) && InDataArea(o.chains[k])
  {
  }

  lemma BoundSlot(d: Disk, files: seq<Handle>, o: Owners, n: Name, k: nat)
    requires Consistent(d, files, o) && Binds(d.root, n, k)
    ensures k in o.chains && k < ROOT_SLOTS && InDataArea(o.chains[k]) && d.root[k].name == n
    ensures forall i: nat :: Binds(d.root, n, i) ==> i == k
  {
    BoundOnlyAt(d.root, n, k);
  }

  /** A file in another slot than `k` is the same before and after. */
  lemma KeptFile(d: Disk, files: seq<Handle>, o: Owners, e: Disk, gs: seq<Handle>, p: Owners, k: nat,
                 m: map<Name, File>, i: nat)
    requires Consistent(d, files, o) && Consistent(e, gs, p) && FilesAre(d, files, o, m)
    requires OthersKept(d, files, o, e, gs, p, k) && i != k && i in p.chains
    ensures i < ROOT_SLOTS && InDataArea(p.chains[i]) && i in o.chains && e.root[i] == d.root[i]
    ensures HasBytes(e, gs, p, m, i) && Binds(d.root, d.root[i].name, i) && Binds(e.root, e.root[i].name, i)
  {
    hide Content;
    SlotBinds(e, gs, p, i);
    SlotBinds(d, files, o, i);
    assert HasBytes(d, files, o, m, i);
  }

  lemma OnlyName(d: Disk, files: seq<Handle>, o: Owners, k: nat, i: nat)
    requires Consistent(d, files, o) && k < ROOT_SLOTS && i < ROOT_SLOTS && i != k
    requires Binds(d.root, d.root[k].name, k) && Binds(d.root, d.root[i].name, i)
    ensures d.root[k].name != d.root[i].name
  {
  }

  /** The file in slot `k` was created or changed, the others kept. */
  lemma FilesUpdated(d: Disk, files: seq<Handle>, o: Owners, e: Disk, gs: seq<Handle>, p: Owners, k: nat,
                     m: map<Name, File>)
    requires Consistent(d, files, o) && Consistent(e, gs, p) && FilesAre(d, files, o, m)
    requires OthersKept(d, files, o, e, gs, p, k) && k in p.chains && k < ROOT_SLOTS && InDataArea(p.chains[k])
    requires k in o.chains ==> e.root[k].name == d.root[k].name
    ensures FilesAre(e, gs, p, m[e.root[k].name := FileAt(e, gs, p, k)])
  {
    hide Content, Consistent, OthersKept, UniqueNames;
    var name := e.root[k].name;
    var next := m[name := FileAt(e, gs, p, k)];
    SlotBinds(e, gs, p, k);
    forall i: nat | i in p.chains && i < ROOT_SLOTS && InDataArea(p.chains[i])
      ensures HasBytes(e, gs, p, next, i)
    {
      if i != k {
        KeptFile(d, files, o, e, gs, p, k, m, i);
        OnlyName(e, gs, p, k, i);
      }
    }
    forall n | n in next
      ensures Named(e.root, n)
    {
      if n != name {
        StillNamed(d, files, o, e, gs, p, k, n);
      }
    }
  }

  lemma StillNamed(d: Disk, files: seq<Handle>, o: Owners, e: Disk, gs: seq<Handle>, p: Owners, k: nat, n: Name)
    requires Consistent(d, files, o) && Consistent(e, gs, p) && Named(d.root, n)
    requires OthersKept(d, files, o, e, gs, p, k) && k < ROOT_SLOTS
    requires k in o.chains ==> d.root[k].name != n || Binds(e.root, n, k)
    ensures Named(e.root, n)
  {
    var i: nat :| Binds(d.root, n, i);
    BoundSlot(d, files, o, n, i);
    if i != k {
      SlotBinds(e, gs, p, i);
      assert Binds(e.root, n, i);
    }
  }

  /** The file in slot `k` is gone, the others kept. */
  lemma FilesRemoved(d: Disk, files: seq<Handle>, o: Owners, e: Disk, gs: seq<Handle>, p: Owners, k: nat,
                     m: map<Name, File>)
    requires Consistent(d, files, o) && Consistent(e, gs, p) && FilesAre(d, files, o, m)
    requires OthersKept(d, files, o, e, gs, p, k) && k in o.chains && k !in p.chains && k < ROOT_SLOTS
    ensures FilesAre(e, gs, p, m - {d.root[k].name}) && d.root[k].name in m
  {
    hide Content, Consistent, OthersKept, UniqueNames;
    var name := d.root[k].name;
    SlotBinds(d, files, o, k);
    assert HasBytes(d, files, o, m, k);
    forall i: nat | i in p.chains && i < ROOT_SLOTS && InDataArea(p.chains[i])
      ensures HasBytes(e, gs, p, m - {name}, i)
    {
      KeptFile(d, files, o, e, gs, p, k, m, i);
      OnlyName(d, files, o, k, i);
    }
    forall n | n in m - {name}
      ensures Named(e.root, n)
    {
      StillNamed(d, files, o, e, gs, p, k, n);
    }
  }

  /** Names of open files outlive changes elsewhere. */
  lemma HandlesKept(d: Disk, files: seq<Handle>, e: Disk, hs: map<int, OpenAt>)
    requires HandlesAre(d, files, hs)
    requires forall fd :: IsOpen(files, fd) && files[fd].slot < ROOT_SLOTS ==>
              e.root[files[fd].slot].name == d.root[files[fd].slot].name
    ensures HandlesAre(e, files, hs)
  {
  }

  /** Handle `fd` was opened or moved. */
  lemma HandleChanged(d: Disk, files: seq<Handle>, hs: map<int, OpenAt>, fd: int, g: Handle)
    requires HandlesAre(d, files, hs) && 0 <= fd < |files| && g.used && g.slot < ROOT_SLOTS
    ensures HandlesAre(d, files[fd := g], hs[fd := OpenAt(d.root[g.slot].name, g.offset, g.mode)])
  {
    var gs, next := files[fd := g], hs[fd := OpenAt(d.root[g.slot].name, g.offset, g.mode)];
    forall x | IsOpen(gs, x) || x in next
      ensures HandleIs(d, gs, next, x)
    {
      assert x != fd ==> HandleIs(d, files, hs, x);
    }
  }

  lemma HandleGone(d: Disk, files: seq<Handle>, hs: map<int, OpenAt>, fd: int)
    requires HandlesAre(d, files, hs) && IsOpen(files, fd)
    ensures HandlesAre(d, files[fd := files[fd].(used := false)], hs - {fd})
  {
    var gs := files[fd := files[fd].(used := false)];
    forall x | IsOpen(gs, x) || x in hs - {fd}
      ensures HandleIs(d, gs, hs - {fd}, x)
    {
      assert HandleIs(d, files, hs, x);
    }
  }

  /** What a freshly formatted disk holds: two directories, of one sector and of none. */
  function Defaults(): Simple {
    Simple(map[ROOT_NAME := File([], 1), HOME_NAME := File([], 0)], map[])
  }

  lemma FreshRepresents(fs: InnoFs)
    requires fs.Valid() && Fresh(fs.vol.disk) && fs.owners == MKFS_OWNERS
    requires fs.files == seq(MAX_OPEN_FILES, _ => UNUSED)
    ensures Represents(fs, Defaults())
  {
    hide Consistent, Flat;
    var d, files, o := fs.vol.disk, fs.files, fs.owners;
    assert Binds(d.root, ROOT_NAME, 0) && Binds(d.root, HOME_NAME, 1);
    forall k: nat | k in o.chains && k < ROOT_SLOTS && InDataArea(o.chains[k])
      ensures HasBytes(d, files, o, Defaults().files, k)
    {
      assert HandleOf(files, k) < 0;
      assert Content(d, files, o, k) == [];
    }
  }

  // ------------------------------------------------------------ the operations

  /** The name's file is open. */
  ghost predicate Busy(s: State, name: Name) {
    exists k: nat :: Binds(s.disk.root, name, k) && HandleOf(s.files, k) >= 0
  }

  method IsBusy(fs: InnoFs, name: Name) returns (busy: bool)
    requires fs.Valid()
    ensures busy <==> Busy(StateOf(fs), name)
    ensures !busy ==> forall k: nat :: Binds(fs.vol.disk.root, name, k) ==> HandleOf(fs.files, k) < 0
  {
    hide Content;
    var found, slot := FindInRoot(fs.vol.disk, name);
    busy := found && HandleOf(fs.files, slot) >= 0;
    if found {
      BoundOnlyAt(fs.vol.disk.root, name, slot);
    }
  }

  /** The name is bound to no file, or to one the user may not touch. */
  ghost predicate Unremovable(s: State, name: Name, uid: nat) {
    || NotBound(s.disk.root, name, ROOT_SLOTS)
    || exists k: nat :: Binds(s.disk.root, name, k) && !MayAccess(s.disk.root[k], uid)
  }

  method DoRemove(fs: InnoFs, name: Name, uid: nat, ghost a: Simple) returns (result: int, ghost ev: Event)
    requires Represents(fs, a)
    requires forall k: nat :: Binds(fs.vol.disk.root, name, k) ==> HandleOf(fs.files, k) < 0
    modifies fs, fs.vol
    ensures Possible(a, ev) && Represents(fs, After(a, ev)) && (ev == Nothing || ev == Removed(name))
    ensures result == (if ev == Removed(name) then 0 else -1)
    ensures ev == Nothing <==> Unremovable(old(StateOf(fs)), name, uid)
    ensures Elsewhere(old(StateOf(fs)), StateOf(fs), Subject(a, ev))
    ensures fs.vol.disk.data[0] == old(fs.vol.disk).data[0]
  {
    hide Content, ChainsOk, AllHandlesOk, EntriesOk, OthersKept, FilesAre, HandlesAre, UsedSet, Elsewhere;
    ghost var d, o := fs.vol.disk, fs.owners;
    ghost var slot;
    result, slot := fs.Remove(name, uid);
    if result == 0 {
      ev := Removed(name);
      FilesRemoved(d, fs.files, o, fs.vol.disk, fs.files, fs.owners, slot, a.files);
      OnlyThisFile(d, fs.files, o, fs.vol.disk, fs.files, fs.owners, slot, {name});
      NoHandleMeans(fs.files, slot);
      HandlesKept(d, fs.files, fs.vol.disk, a.handles);
    } else {
      ev := Nothing;
      SameElsewhere(d, fs.files, fs.files, o, {});
    }
  }

  lemma NoHandleMeans(files: seq<Handle>, k: nat)
    requires HandleOf(files, k) < 0
    ensures forall fd :: IsOpen(files, fd) ==> files[fd].slot != k
  {
  }

  lemma NamesElsewhere(d: Disk, files: seq<Handle>, o: Owners, e: Disk, gs: seq<Handle>, p: Owners, k: nat)
    requires Consistent(d, files, o) && OthersKept(d, files, o, e, gs, p, k)
    requires HandleOf(files, k) < 0 || (k < ROOT_SLOTS && e.root[k].name == d.root[k].name)
    ensures forall fd :: IsOpen(files, fd) && files[fd].slot < ROOT_SLOTS ==>
              e.root[files[fd].slot].name == d.root[files[fd].slot].name
  {
    hide Content, UniqueNames, EntryOk;
    forall fd | IsOpen(files, fd) && files[fd].slot < ROOT_SLOTS
      ensures e.root[files[fd].slot].name == d.root[files[fd].slot].name
    {
      assert HandleOk(d, files[fd], o);
      if files[fd].slot == k {
        if HandleOf(files, k) < 0 { NoHandleMeans(files, k); }
      } else {
        assert InDataArea(o.chains[files[fd].slot]);
      }
    }
  }

  /** The file behind a handle is in the simple file system, under the name the handle has there. */
  lemma BehindHandle(d: Disk, files: seq<Handle>, o: Owners, a: Simple, fd: int)
    requires Consistent(d, files, o) && FilesAre(d, files, o, a.files) && HandlesAre(d, files, a.handles)
    requires IsOpen(files, fd)
    ensures var k := files[fd].slot;
            && k < ROOT_SLOTS && k in o.chains && InDataArea(o.chains[k]) && HandleOf(files, k) == fd
            && fd in a.handles && a.handles[fd] == OpenAt(d.root[k].name, files[fd].offset, files[fd].mode)
            && d.root[k].name in a.files && a.files[d.root[k].name] == FileAt(d, files, o, k)
            && files[fd].offset <= files[fd].size == |Content(d, files, o, k)|
  {
    hide UniqueNames, ChainsOk, AllHandlesOk, EntriesOk, Content;
    HandleIsOk(d, files, o, fd);
    ContentLength(d, files, o, fd);
    assert HandleIs(d, files, a.handles, fd) && HasBytes(d, files, o, a.files, files[fd].slot);
  }

  lemma NotOpen(d: Disk, files: seq<Handle>, hs: map<int, OpenAt>, fd: int)
    requires HandlesAre(d, files, hs) && !IsOpen(files, fd)
    ensures fd !in hs
  {
    assert fd in hs ==> HandleIs(d, files, hs, fd);
  }

  method DoClose(fs: InnoFs, fd: int, ghost a: Simple) returns (ghost ev: Event)
    requires Represents(fs, a)
    modifies fs, fs.vol
    ensures Possible(a, ev) && Represents(fs, After(a, ev))
    ensures ev == if IsOpen(old(fs.files), fd) then Closed(fd) else Nothing
    ensures Elsewhere(old(StateOf(fs)), StateOf(fs), Subject(a, ev))
    ensures fs.vol.disk.data[0] == old(fs.vol.disk).data[0]
  {
    hide Content, Consistent, OthersKept, FilesAre, HandlesAre, ClosedDisk, Elsewhere;
    ghost var d, files, o := fs.vol.disk, fs.files, fs.owners;
    ev := if IsOpen(files, fd) then Closed(fd) else Nothing;
    SameElsewhere(d, files, files, o, {});
    fs.Close(fd);
    if IsOpen(files, fd) {
      ghost var e, k := fs.vol.disk, files[fd].slot;
      BehindHandle(d, files, o, a, fd);
      ClosedName(d, files[fd]);
      FilesUpdated(d, files, o, e, fs.files, fs.owners, k, a.files);
      assert a.files[d.root[k].name := a.files[d.root[k].name]] == a.files;
      NamesElsewhere(d, files, o, e, fs.files, fs.owners, k);
      OnlyThisFile(d, files, o, e, fs.files, fs.owners, k, {d.root[k].name});
      HandlesKept(d, files, e, a.handles);
      HandleGone(e, files, a.handles, fd);
    }
  }

  lemma ClosedName(d: Disk, f: Handle)
    requires f.slot < ROOT_SLOTS
    ensures ClosedDisk(d, f).root[f.slot].name == d.root[f.slot].name && ClosedDisk(d, f).data == d.data
  {
  }

  method DoRead(fs: InnoFs, fd: int, count: nat, ghost a: Simple)
    returns (readBytes: int, out: seq<byte>, ghost ev: Event)
    requires Represents(fs, a)
    modifies fs`files
    ensures Possible(a, ev) && Represents(fs, After(a, ev))
    ensures ev == if IsOpen(old(fs.files), fd) && old(fs.files)[fd].mode.read then ReadBytes(fd, count, out)
                  else Nothing
    ensures if ev == Nothing then readBytes == -1 && out == [] else readBytes == |out|
    ensures Elsewhere(old(StateOf(fs)), StateOf(fs), Subject(a, ev))
  {
    hide Content, Consistent, FilesAre, HandlesAre, Piece, Elsewhere;
    ghost var d, files, o := fs.vol.disk, fs.files, fs.owners;
    ev := Nothing;
    readBytes, out := fs.ReadFile(fd, count);
    SameElsewhere(d, files, fs.files, o, {});
    if IsOpen(files, fd) && files[fd].mode.read {
      ev := ReadBytes(fd, count, out);
      BehindHandle(d, files, o, a, fd);
      SameContents(d, files, o, fs.files, a.files);
      HandleChanged(d, files, a.handles, fd, fs.files[fd]);
    }
  }

  lemma SameContents(d: Disk, files: seq<Handle>, o: Owners, gs: seq<Handle>, m: map<Name, File>)
    requires FilesAre(d, files, o, m)
    requires forall k: nat :: k in o.chains && k < ROOT_SLOTS && InDataArea(o.chains[k]) ==>
              Content(d, gs, o, k) == Content(d, files, o, k)
    ensures FilesAre(d, gs, o, m)
  {
    hide Content;
    forall k: nat | k in o.chains && k < ROOT_SLOTS && InDataArea(o.chains[k])
      ensures HasBytes(d, gs, o, m, k)
    {
      assert HasBytes(d, files, o, m, k);
    }
  }

  /** The file has no sector and the disk is full. */
  ghost predicate FullFor(s: State, fd: int)
    requires IsOpen(s.files, fd)
  {
    s.files[fd].first == 0 && FreeSet(s.disk) == {}
  }

  method DoWrite(fs: InnoFs, fd: int, bytes: seq<byte>, ghost a: Simple) returns (written: int, ghost ev: Event)
    requires Represents(fs, a)
    requires RoomFor(fs.vol.disk, fs.files, fs.owners, fd, |bytes|)
    modifies fs, fs.vol
    ensures Possible(a, ev) && Represents(fs, After(a, ev))
    ensures !CanWrite(old(fs.files), fd) ==> ev == Nothing && written == -1
    ensures CanWrite(old(fs.files), fd) && FullFor(old(StateOf(fs)), fd) ==> ev == Nothing && written == 0
    ensures CanWrite(old(fs.files), fd) && !FullFor(old(StateOf(fs)), fd) ==>
              ev == Wrote(fd, bytes) && written == |bytes|
    ensures Elsewhere(old(StateOf(fs)), StateOf(fs), Subject(a, ev))
    ensures fs.vol.disk.data[0] == old(fs.vol.disk).data[0]
  {
    hide Content, Consistent, FilesAre, HandlesAre, OthersKept, FreeSet, RoomFor, Overwrite, SizeAfterWrite, Elsewhere;
    ghost var d, files, o := fs.vol.disk, fs.files, fs.owners;
    ev := Nothing;
    SameElsewhere(d, files, files, o, {});
    written := fs.WriteFile(fd, bytes);
    if CanWrite(files, fd) && (files[fd].first != 0 || FreeSet(d) != {}) {
      ev := Wrote(fd, bytes);
      ghost var e, k := fs.vol.disk, files[fd].slot;
      BehindHandle(d, files, o, a, fd);
      FilesUpdated(d, files, o, e, fs.files, fs.owners, k, a.files);
      NamesElsewhere(d, files, o, e, fs.files, fs.owners, k);
      OnlyThisFile(d, files, o, e, fs.files, fs.owners, k, {d.root[k].name});
      HandlesKept(d, files, e, a.handles);
      HandleChanged(e, files, a.handles, fd, fs.files[fd]);
    }
  }

  method DoOpen(fs: InnoFs, name: Name, mode: Mode, uid: nat, ghost a: Simple) returns (fd: int, ghost ev: Event)
    requires Represents(fs, a) && ValidName(name)
    requires forall k: nat :: Binds(fs.vol.disk.root, name, k) ==> HandleOf(fs.files, k) < 0
    modifies fs, fs.vol
    ensures Possible(a, ev) && Represents(fs, After(a, ev))
    ensures ev == if Refused(old(fs.vol.disk), name, mode, uid) then Nothing else Opened(name, mode, fd)
    ensures fd == if ev == Nothing then -1 else FreeHandle(old(fs.files))
    ensures Elsewhere(old(StateOf(fs)), StateOf(fs), Subject(a, ev))
    ensures fs.vol.disk.data[0] == old(fs.vol.disk).data[0]
  {
    hide Content, Consistent, FilesAre, HandlesAre, OthersKept, Refused, FreeHandle, Elsewhere;
    ghost var d, files, o := fs.vol.disk, fs.files, fs.owners;
    ghost var slot;
    SameElsewhere(d, files, files, o, {});
    fd, slot := fs.Open(name, mode, uid);
    ev := Nothing;
    if slot != -1 {
      ghost var e, p, k: nat := fs.vol.disk, fs.owners, slot;
      ev := Opened(name, mode, fd);
      OpenedFiles(d, files, o, e, fs.files, p, k, name, mode, uid, a.files);
      NamesElsewhere(d, files, o, e, fs.files, p, k);
      OnlyThisFile(d, files, o, e, fs.files, p, k, {name});
      HandlesKept(d, files, e, a.handles);
      FreeIsUnused(files);
      NotOpen(d, files, a.handles, fd);
      if fd >= 0 {
        HandleChanged(e, files, a.handles, fd, fs.files[fd]);
      }
    }
  }

  lemma FreeIsUnused(files: seq<Handle>)
    ensures !IsOpen(files, FreeHandle(files)) && -1 <= FreeHandle(files) < |files|
  {
  }

  lemma OpenedFiles(d: Disk, files: seq<Handle>, o: Owners, e: Disk, gs: seq<Handle>, p: Owners, k: nat,
                    name: Name, mode: Mode, uid: nat, m: map<Name, File>)
    requires Consistent(d, files, o) && Consistent(e, gs, p) && FilesAre(d, files, o, m)
    requires OthersKept(d, files, o, e, gs, p, k) && k in p.chains && k < ROOT_SLOTS && InDataArea(p.chains[k])
    requires Binds(e.root, name, k) && !Refused(d, name, mode, uid)
    requires k in o.chains ==>
               && Binds(d.root, name, k) && o == p
               && Content(e, gs, p, k) == if mode.create then [] else Content(d, files, o, k)
    requires k !in o.chains ==>
               NotBound(d.root, name, ROOT_SLOTS) && p.chains[k] == [] && Content(e, gs, p, k) == []
    ensures mode.create || name in m
    ensures FilesAre(e, gs, p, if mode.create then m[name := Emptied(m, name)] else m)
    ensures k in o.chains ==> e.root[k].name == d.root[k].name
    ensures k !in o.chains ==> HandleOf(files, k) < 0
  {
    hide Content, Consistent, OthersKept, UniqueNames;
    FilesUpdated(d, files, o, e, gs, p, k, m);
    if k in o.chains {
      assert HasBytes(d, files, o, m, k);
      assert !mode.create ==> m[name := FileAt(e, gs, p, k)] == m;
    } else {
      NoHandleOnFreeSlot(d, files, o, k);
    }
  }

  // ------------------------------------------------------------ runs

  /** How many sectors are free. */
  method CountFree(d: Disk) returns (n: nat)
    ensures n == |FreeSet(d)|
  {
    n := 0;
    ghost var seen: set<nat> := {};
    for i := 0 to 8192
      invariant n == |seen| && forall x: nat :: x in seen <==> x < i && x in FreeSet(d)
    {
      if !Used(d, i) {
        seen := seen + {i};
        n := n + 1;
      }
    }
    assert seen == FreeSet(d);
  }

  /** How many sectors a chain has. */
  method ChainLength(d: Disk, first: nat, ghost ss: seq<nat>) returns (n: nat)
    requires IsChain(d, ss) && Head(ss) == first
    ensures n == |ss|
  {
    hide *;
    HeadOf(d, ss);
    n := 0;
    var current := first;
    while current != 0
      invariant n <= |ss| && current == if n < |ss| then ss[n] else 0
      decreases |ss| - n
    {
      ChainStep(d, ss, n);
      current := NextOf(d, current);
      n := n + 1;
    }
    if n < |ss| { ChainStep(d, ss, n); }
  }

  /** Whether a write to the handle has the sectors it needs. */
  method FindRoom(fs: InnoFs, fd: int, count: nat) returns (room: bool)
    requires fs.Valid() && CanWrite(fs.files, fd)
    ensures room <==> RoomFor(fs.vol.disk, fs.files, fs.owners, fd, count)
  {
    hide UniqueNames, EntriesOk, AllHandlesOk, FreeSet, SectorsAfterWrite, OneHandlePerFile;
    HandleIsOk(fs.vol.disk, fs.files, fs.owners, fd);
    ghost var ss := fs.owners.chains[fs.files[fd].slot];
    var n := ChainLength(fs.vol.disk, fs.files[fd].first, ss);
    var free := CountFree(fs.vol.disk);
    room := (n == 0 && free == 0) || SectorsAfterWrite(n, fs.files[fd].offset, count) - n <= free;
  }

  datatype Op =
    | OpenFile(name: Name, mode: Mode, uid: nat)
    | ReadFile(fd: int, count: nat)
    | WriteFile(fd: int, bytes: seq<byte>)
    | CloseFile(fd: int)
    | RemoveFile(name: Name, uid: nat)

  /** What an operation does and answers in a state. Nothing happens on a file that is busy or that the code
      refuses, on a handle not opened for it, and on a write without room. */
  ghost predicate Answers(s: State, op: Op, result: int, out: seq<byte>, ev: Event) {
    match op
    case OpenFile(name, mode, uid) =>
      if Busy(s, name) || Refused(s.disk, name, mode, uid) then ev == Nothing && result == -1
      else ev == Opened(name, mode, result) && result == FreeHandle(s.files)
    case ReadFile(fd, count) =>
      if IsOpen(s.files, fd) && s.files[fd].mode.read then ev == ReadBytes(fd, count, out) && result == |out|
      else ev == Nothing && result == -1 && out == []
    case WriteFile(fd, bytes) =>
      if !CanWrite(s.files, fd) || !RoomFor(s.disk, s.files, s.owners, fd, |bytes|) then ev == Nothing && result == -1
      else if FullFor(s, fd) then ev == Nothing && result == 0
      else ev == Wrote(fd, bytes) && result == |bytes|
    case CloseFile(fd) => ev == if IsOpen(s.files, fd) then Closed(fd) else Nothing
    case RemoveFile(name, uid) =>
      if Busy(s, name) || Unremovable(s, name, uid) then ev == Nothing && result == -1
      else ev == Removed(name) && result == 0
  }

  /** Performs an operation, unless it is one of those left out: a second handle on a file, the removal of an
      open file, a write that runs out of sectors. */
  method Perform(fs: InnoFs, op: Op, ghost a: Simple) returns (result: int, out: seq<byte>, ghost ev: Event)
    requires Represents(fs, a) && (op.OpenFile? ==> ValidName(op.name))
    modifies fs, fs.vol
    ensures Possible(a, ev) && Represents(fs, After(a, ev)) && Answers(old(StateOf(fs)), op, result, out, ev)
    ensures Elsewhere(old(StateOf(fs)), StateOf(fs), Subject(a, ev))
    ensures fs.vol.disk.data[0] == old(fs.vol.disk).data[0]
  {
    hide Represents, After, Possible, Consistent, RoomFor, Busy, Refused, Unremovable, FullFor, FreeHandle, Elsewhere;
    result, out, ev := -1, [], Nothing;
    NothingHappens(fs, a);
    match op {
      case OpenFile(name, mode, uid) =>
        var busy := IsBusy(fs, name);
        if !busy {
          result, ev := DoOpen(fs, name, mode, uid, a);
        }
      case ReadFile(fd, count) =>
        result, out, ev := DoRead(fs, fd, count, a);
      case WriteFile(fd, bytes) =>
        if CanWrite(fs.files, fd) {
          var room := FindRoom(fs, fd, |bytes|);
          if room {
            result, ev := DoWrite(fs, fd, bytes, a);
          }
        }
      case CloseFile(fd) =>
        ev := DoClose(fs, fd, a);
      case RemoveFile(name, uid) =>
        var busy := IsBusy(fs, name);
        if !busy {
          result, ev := DoRemove(fs, name, uid, a);
        }
    }
  }

  lemma NothingHappens(fs: InnoFs, a: Simple)
    requires Represents(fs, a)
    ensures fs.Valid() && Possible(a, Nothing) && After(a, Nothing) == a
    ensures Elsewhere(StateOf(fs), StateOf(fs), Subject(a, Nothing))
  {
    SameElsewhere(fs.vol.disk, fs.files, fs.files, fs.owners, {});
  }

  lemma SameElsewhere(d: Disk, files: seq<Handle>, gs: seq<Handle>, o: Owners, names: set<Name>)
    ensures Elsewhere(State(d, files, o), State(d, gs, o), names)
  {
  }

  /** One operation of a run: before and after it the state pictures the simple file system, which changes
      by the event, and the answer is the one for that state. */
  ghost predicate Happens(s: State, a: Simple, op: Op, result: int, out: seq<byte>, ev: Event, t: State, b: Simple) {
    && Pictures(s, a) && Answers(s, op, result, out, ev)
    && Possible(a, ev) && b == After(a, ev) && Pictures(t, b) && Elsewhere(s, t, Subject(a, ev))
  }

  /** States, simple file systems and events along a run. */
  datatype Course = Course(states: seq<State>, simple: seq<Simple>, events: seq<Event>)

  ghost predicate IsCourse(c: Course, ops: seq<Op>, results: seq<int>, outs: seq<seq<byte>>) {
    && |ops| == |results| == |outs| == |c.events|
    && |c.states| == |c.simple| == |ops| + 1
    && forall i {:trigger ops[i]} :: 0 <= i < |ops| ==>
         Happens(c.states[i], c.simple[i], ops[i], results[i], outs[i], c.events[i], c.states[i + 1], c.simple[i + 1])
  }

  /** The bitmap marks the reserved sectors, the foreign ones and those of the chains, and no others. */
  ghost predicate NothingLeaked(s: State, others: set<nat>) {
    && s.owners.others == others
    && |UsedSet(s.disk)| == DATA_START + |others| + ChainSectors(s.owners, ROOT_SLOTS)
  }

  /** No operation of a run loses a sector: in every state the used ones are those in use. */
  lemma {:induction false} NoSectorLost(c: Course, ops: seq<Op>, results: seq<int>, outs: seq<seq<byte>>, i: nat)
    requires IsCourse(c, ops, results, outs) && i <= |ops|
    requires Pictures(c.states[0], c.simple[0])
    ensures NothingLeaked(c.states[i], c.states[0].owners.others)
  {
    hide Answers, FilesAre, HandlesAre, EntriesOk, AllHandlesOk, UniqueNames, ChainsOk, After, Possible;
    if i == 0 {
      Conservation(c.states[0].disk, c.states[0].owners);
    } else {
      NoSectorLost(c, ops, results, outs, i - 1);
      assert Happens(c.states[i - 1], c.simple[i - 1], ops[i - 1], results[i - 1], outs[i - 1], c.events[i - 1],
                     c.states[i], c.simple[i]);
      Conservation(c.states[i].disk, c.states[i].owners);
    }
  }

  /** Every operation of a run does to the disk what its event does to the simple file system, and answers
      what the state before it demands; every read returns the simple file system's bytes, and no sector is lost. */
  method Run(fs: InnoFs, ops: seq<Op>, ghost a: Simple)
    returns (results: seq<int>, outs: seq<seq<byte>>, ghost c: Course)
    requires Represents(fs, a) && forall i :: 0 <= i < |ops| && ops[i].OpenFile? ==> ValidName(ops[i].name)
    modifies fs, fs.vol
    ensures IsCourse(c, ops, results, outs)
    ensures c.states[0] == old(StateOf(fs)) && c.simple[0] == a
    ensures c.states[|ops|] == StateOf(fs) && Represents(fs, c.simple[|ops|])
    ensures forall i :: 0 <= i <= |ops| ==> NothingLeaked(c.states[i], old(fs.owners).others)
    ensures fs.vol.disk.data[0] == old(fs.vol.disk).data[0]
  {
    results, outs, c := [], [], Course([StateOf(fs)], [a], []);
    hide After, Possible, Answers, Pictures, IsCourse, Elsewhere;
    NoCourse(c);
    for i := 0 to |ops|
      invariant |c.states| == |c.simple| == i + 1 && IsCourse(c, ops[..i], results, outs)
      invariant c.states[0] == old(StateOf(fs)) && c.simple[0] == a
      invariant c.states[i] == StateOf(fs) && Represents(fs, c.simple[i])
      invariant fs.vol.disk.data[0] == old(fs.vol.disk).data[0]
    {
      ghost var ev;
      ghost var s, m := StateOf(fs), c.simple[i];
      var result, out;
      result, out, ev := Perform(fs, ops[i], m);
      CourseGoesOn(c, ops[..i], results, outs, ops[i], result, out, ev, StateOf(fs));
      assert ops[..i] + [ops[i]] == ops[..i + 1];
      results, outs := results + [result], outs + [out];
      c := Course(c.states + [StateOf(fs)], c.simple + [After(m, ev)], c.events + [ev]);
    }
    assert ops[..|ops|] == ops;
    forall i | 0 <= i <= |ops| ensures NothingLeaked(c.states[i], old(fs.owners).others) {
      NoSectorLost(c, ops, results, outs, i);
    }
  }

  lemma NoCourse(c: Course)
    requires |c.states| == |c.simple| == 1 && c.events == []
    ensures IsCourse(c, [], [], [])
  {
  }

  lemma CourseGoesOn(c: Course, ops: seq<Op>, results: seq<int>, outs: seq<seq<byte>>,
                     op: Op, result: int, out: seq<byte>, ev: Event, t: State)
    requires IsCourse(c, ops, results, outs)
    requires var s, a := c.states[|ops|], c.simple[|ops|];
             && Pictures(s, a) && Answers(s, op, result, out, ev) && Possible(a, ev) && Pictures(t, After(a, ev))
             && Elsewhere(s, t, Subject(a, ev))
    ensures IsCourse(Course(c.states + [t], c.simple + [After(c.simple[|ops|], ev)], c.events + [ev]),
                     ops + [op], results + [result], outs + [out])
  {
    hide Answers, Pictures, Possible, After, Elsewhere;
  }

  /** Formatting and any run: it follows the simple file system from the default directories, every sector
      in use is reserved or in a file's chain, and the disk does not mount afterwards. */
  method FormatAndRun(v: Volume, ops: seq<Op>)
    returns (fs: InnoFs, results: seq<int>, outs: seq<seq<byte>>, ghost c: Course)
    requires forall i :: 0 <= i < |ops| && ops[i].OpenFile? ==> ValidName(ops[i].name)
    modifies v
    ensures fs.vol == v && IsCourse(c, ops, results, outs)
    ensures c.simple[0] == Defaults() && Represents(fs, c.simple[|ops|])
    ensures forall i :: 0 <= i <= |ops| ==> NothingLeaked(c.states[i], {})
    ensures !Format.Mounts(Format.Superblock(v.disk))
  {
    Mkfs(v);
    fs := new InnoFs(v, MKFS_OWNERS);
    FreshRepresents(fs);
    results, outs, c := Run(fs, ops, Defaults());
    Format.SmallWordUnmounts(v.disk);
  }

  /** So the next start formats the disk again: no file outlives a restart. */
  method RunAndRestart(v: Volume, ops: seq<Op>)
    requires forall i :: 0 <= i < |ops| && ops[i].OpenFile? ==> ValidName(ops[i].name)
    modifies v
    ensures Fresh(v.disk)
  {
    var fs, results, outs, c := FormatAndRun(v, ops);
    var formatted := Init(v);
  }
}
