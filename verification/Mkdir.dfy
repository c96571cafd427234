/** Making directories, and the whole of formatting, which makes three. */
module DirectoryMaking {
  import opened Bytes
  import opened Layout
  import opened Chains
  import opened Files
  import opened Directories
  import opened Dirents
  import opened DirectoryOps
  import opened Volumes
  import opened Ownership
  import opened Handles
  import opened FileSteps
  import opened InnoFileSystem
  import opened Format

  function DirectoryEntry(name: Name, owner: nat, flags: byte): Dirent {
    NewEntry(name, owner, TurnOn(flags, 0))
  }

  /** Slot `k` is a directory in which the user may make entries. */
  predicate OpenTo(d: Disk, k: nat, uid: nat) {
    k < ROOT_SLOTS && IsDirectory(d.root[k]) && MayAccess(d.root[k], uid)
  }

  /** The directory with these sectors has no entry of that name, and a slot or a sector for a new one. */
  ghost predicate CanAdd(d: Disk, ss: seq<nat>, name: Name)
    requires InDataArea(ss)
  {
    && NotBound(Slots(d, ss), name, Base(|ss|))
    && (FirstFree(Slots(d, ss)) < Base(|ss|) || FreeSet(d) != {})
  }

  /** `e` with the root directory of `d`. */
  function RootOf(d: Disk, e: Disk): Disk {
    e.(root := d.root)
  }

  function WithFirst(d: Disk, k: nat, first: nat): Disk
    requires k < ROOT_SLOTS
  {
    WithRootEntry(d, k, d.root[k].(first := first))
  }

  /** What making an entry in the directory of slot `k` leaves: its chain `ss` is now `cc` and holds the
      entry, and if it had no sector, both the superblock and its root entry got the number of the new one. */
  ghost predicate Made(d: Disk, ss: seq<nat>, k: nat, e: Disk, cc: seq<nat>, entry: Dirent)
    requires InDataArea(ss) && k < ROOT_SLOTS
  {
    && InDataArea(cc) && cc != [] && Slots(e, cc) == Inserted(Slots(d, ss), entry)
    && GrownDirectory(d, ss, RootOf(d, e), cc) && TakesLowest(d, ss, cc)
    && e.root == if ss == [] then WithFirst(d, k, cc[0]).root else d.root
  }

  // ------------------------------------------------------------ what it keeps

  lemma FirstKeepsNames(es: seq<Dirent>, k: nat, first: nat)
    requires UniqueNames(es) && k < |es|
    ensures UniqueNames(es[k := es[k].(first := first)])
  {
  }

  lemma MadeChains(d: Disk, o: Owners, k: nat, e: Disk, cc: seq<nat>, entry: Dirent)
    requires ChainsOk(d, o) && k in o.chains && k < ROOT_SLOTS && InDataArea(o.chains[k])
    requires Made(d, o.chains[k], k, e, cc, entry)
    ensures o.chains[k] <= cc && ChainsOk(e, Grow(o, k, cc))
    ensures forall m :: m in o.chains && m != k && InDataArea(o.chains[m]) ==>
              Flat(e, o.chains[m]) == Flat(d, o.chains[m]) && SameSectors(d, e, o.chains[m])
    ensures ForeignKept(d, o, e)
  {
    hide IsChain, Owned, Accounted, LiveSlots, UsedSet, FreeSet, Used, Flat, Slots, Inserted;
    hide SameSectors, ForeignKept;
    var ss, r := o.chains[k], RootOf(d, e);
    var f := if ss == [] then BootOf(d, r) else r;
    GrowKeeps(d, o, k, f, cc);
    BootAndFirst(f, Grow(o, k, cc), e, k);
    forall m | m in o.chains && m != k
      ensures Flat(e, o.chains[m]) == Flat(d, o.chains[m]) && SameSectors(f, e, o.chains[m])
    {
      assert Grow(o, k, cc).chains[m] == o.chains[m];
    }
    KeptThrough(d, f, e, o, Grow(o, k, cc), k);
  }

  /** Making an entry in a directory keeps the invariant and every other file, */
  lemma MadeKeeps(d: Disk, files: seq<Handle>, o: Owners, k: nat, e: Disk, cc: seq<nat>, entry: Dirent)
    requires Consistent(d, files, o) && k in o.chains && k < ROOT_SLOTS && HandleOf(files, k) < 0
    requires InDataArea(o.chains[k]) && Made(d, o.chains[k], k, e, cc, entry)
    ensures Consistent(e, files, Grow(o, k, cc))
    ensures OthersKept(d, files, o, e, files, Grow(o, k, cc), k)
  {
    hide ChainsOk, IsChain, Flat, Slots, Inserted, GrownDirectory, UniqueNames, SameSectors, ForeignKept;
    var p := Grow(o, k, cc);
    MadeChains(d, o, k, e, cc, entry);
    FirstKeepsNames(d.root, k, cc[0]);
    forall fd | IsOpen(files, fd) ensures HandleOk(e, files[fd], p) {
      assert HandleOk(d, files[fd], o) && files[fd].slot != k;
    }
    assert EntryOk(d, files, o, k);
    forall m: nat | m in p.chains && m < ROOT_SLOTS
      ensures EntryOk(e, files, p, m) && (m != k ==> e.root[m] == d.root[m])
    {
      if m != k {
        assert EntryOk(d, files, o, m);
      }
    }
  }

  /** but the disk still mounts afterwards exactly when the directory had a sector before. */
  lemma MadeKeepsMount(d: Disk, ss: seq<nat>, k: nat, e: Disk, cc: seq<nat>, entry: Dirent)
    requires InDataArea(ss) && k < ROOT_SLOTS && Made(d, ss, k, e, cc, entry) && Mounts(Superblock(d))
    ensures Mounts(Superblock(e)) <==> ss != []
  {
    hide Slots, Inserted, GrownDirectory;
    AdditionKeepsMount(d, ss, RootOf(d, e), cc);
  }

  // ------------------------------------------------------------ mkdir

  /** Makes a directory in the root. */
  method MakeInRoot(v: Volume, name: Name, owner: nat, flags: byte, ghost files: seq<Handle>, ghost o: Owners)
    returns (ok: bool, slot: nat)
    requires Consistent(v.disk, files, o) && ValidName(name)
    modifies v
    ensures ok <==> NotBound(old(v.disk).root, name, ROOT_SLOTS) && FirstFree(old(v.disk).root) < ROOT_SLOTS
    ensures !ok ==> v.disk == old(v.disk)
    ensures ok ==>
              && slot < ROOT_SLOTS
              && var e := v.disk.root[slot];
                 && e.name == name && e.owner == owner && e.size == 0 && e.first == 0
                 && (forall b: nat :: b < 8 ==> (On(e.flags, b) <==> b == 0 || On(flags, b)))
                 && forall u: nat ::
                      OpenTo(v.disk, slot, u) <==> u == 0 || (!On(flags, 1) && (On(flags, 2) ==> u == owner))
    ensures ok ==>
              && slot == FirstFree(old(v.disk).root)
              && v.disk == WithRootEntry(old(v.disk), slot, DirectoryEntry(name, owner, flags))
              && slot !in o.chains && Consistent(v.disk, files, AddSlot(o, slot))
              && OthersKept(old(v.disk), files, o, v.disk, files, AddSlot(o, slot), slot)
  {
    hide Consistent, OthersKept, On, TurnOn, FirstFree;
    ok, slot := AddToRoot(v, name, owner, TurnOn(flags, 0));
    EntryMade(name, owner, flags);
    if ok {
      CreateKeeps(old(v.disk), files, o, slot, DirectoryEntry(name, owner, flags));
    }
  }

  /** Makes a directory in the directory `parent` of the root. */
  method MakeInDirectory(v: Volume, parent: Name, name: Name, owner: nat, flags: byte,
                         ghost files: seq<Handle>, ghost o: Owners)
    returns (ok: bool, ghost k: nat, ghost cc: seq<nat>)
    requires Consistent(v.disk, files, o) && ValidName(name) && owner < 0x1_0000
    requires forall j: nat :: Binds(v.disk.root, parent, j) && IsDirectory(v.disk.root[j]) ==> HandleOf(files, j) < 0
    modifies v
    ensures ok ==> Binds(old(v.disk).root, parent, k)
    ensures Binds(old(v.disk).root, parent, k) ==> k in o.chains && InDataArea(o.chains[k])
    ensures ok <==>
              && Binds(old(v.disk).root, parent, k) && OpenTo(old(v.disk), k, owner)
              && CanAdd(old(v.disk), o.chains[k], name)
    ensures !Binds(old(v.disk).root, parent, k) ==> NotBound(old(v.disk).root, parent, ROOT_SLOTS)
    ensures !ok ==> v.disk == old(v.disk)
    ensures ok ==>
              && InDataArea(cc) && FirstFree(Slots(old(v.disk), o.chains[k])) < |Slots(v.disk, cc)|
              && var e := Slots(v.disk, cc)[FirstFree(Slots(old(v.disk), o.chains[k]))];
                 && e.name == name && e.owner == owner && e.size == 0 && e.first == 0
                 && (forall b: nat :: b < 8 ==> (On(e.flags, b) <==> b == 0 || On(flags, b)))
                 && forall u: nat :: MayAccess(e, u) <==> u == 0 || (!On(flags, 1) && (On(flags, 2) ==> u == owner))
    ensures ok ==>
              && Made(old(v.disk), o.chains[k], k, v.disk, cc, DirectoryEntry(name, owner, flags))
              && Consistent(v.disk, files, Grow(o, k, cc))
              && OthersKept(old(v.disk), files, o, v.disk, files, Grow(o, k, cc), k)
  {
    hide Consistent, OthersKept, GrownDirectory, Slots, Inserted, FirstFree;
    ghost var d := v.disk;
    var found, slot := FindInRoot(v.disk, parent);
    k, cc, ok := if found then slot else ROOT_SLOTS, [], false;
    if !found {
      return;
    }
    var entry := v.disk.root[slot];
    ParentChain(d, files, o, k);
    if !IsDirectory(entry) || !MayAccess(entry, owner) {
      return;
    }
    HeadOf(d, o.chains[k]);
    var sector, index;
    ghost var q;
    ok, sector, index, cc, q := AddToChain(v, entry.first, name, owner, TurnOn(flags, 0), o.chains[k]);
    if ok {
      MadeFrom(d, o.chains[k], v.disk, cc, k, DirectoryEntry(name, owner, flags), q, index);
      if entry.first == 0 {
        v.disk := WithFirst(v.disk, slot, sector);
      }
      MadeKeeps(d, files, o, k, v.disk, cc, DirectoryEntry(name, owner, flags));
      EntryMade(name, owner, flags);
      InsertedThere(Slots(d, o.chains[k]), DirectoryEntry(name, owner, flags));
    }
  }

  lemma InsertedThere(es: seq<Dirent>, e: Dirent)
    ensures FirstFree(es) < |Inserted(es, e)| && Inserted(es, e)[FirstFree(es)] == e
  {
  }

  /** The entry of a new directory, and who may use it. */
  lemma EntryMade(name: Name, owner: nat, flags: byte)
    ensures var e := DirectoryEntry(name, owner, flags);
            && (ValidName(name) ==> e.name == name) && e.owner == owner && e.size == 0 && e.first == 0
            && (forall b: nat :: b < 8 ==> (On(e.flags, b) <==> b == 0 || On(flags, b)))
            && IsDirectory(e)
            && forall u: nat :: MayAccess(e, u) <==> u == 0 || (!On(flags, 1) && (On(flags, 2) ==> u == owner))
  {
    hide On, TurnOn, TurnOff;
    forall b: nat | b < 8
      ensures On(TurnOn(flags, 0), b) <==> b == 0 || On(flags, b)
    {
      ByteBitUpdate(flags, 0, b);
    }
  }

  /** A directory made for a user with the owner-only flag: that user and root can make entries in it, nobody
      else can. */
  method MakePrivate(v: Volume, name: Name, owner: nat, inside: Name, other: nat,
                     ghost files: seq<Handle>, ghost o: Owners)
    returns (made: bool, filled: bool)
    requires Consistent(v.disk, files, o) && ValidName(name) && ValidName(inside) && other < 0x1_0000
    modifies v
    ensures made <==> NotBound(old(v.disk).root, name, ROOT_SLOTS) && FirstFree(old(v.disk).root) < ROOT_SLOTS
    ensures made && filled ==> other == 0 || other == owner
    ensures made && (other == 0 || other == owner) && FreeSet(old(v.disk)) != {} ==> filled
  {
    hide Consistent, OthersKept, On, Slots, FirstFree, OpenTo;
    ghost var d := v.disk;
    var slot;
    made, slot := MakeInRoot(v, name, owner, 4, files, o);
    filled := false;
    if made {
      OwnerOnlyFlag();
      ghost var e := v.disk;
      NewSlotAlone(d, files, o, slot, e, name);
      ghost var k, cc;
      filled, k, cc := MakeInDirectory(v, name, inside, other, 0, files, AddSlot(o, slot));
      NoSlots(e);
    }
  }

  lemma OwnerOnlyFlag()
    ensures !On(4, 1) && On(4, 2)
  {
  }

  lemma NewSlotAlone(d: Disk, files: seq<Handle>, o: Owners, k: nat, e: Disk, name: Name)
    requires Consistent(d, files, o) && k < ROOT_SLOTS && k !in o.chains && NotBound(d.root, name, ROOT_SLOTS)
    requires name != [] && e.root == d.root[k := e.root[k]] && e.root[k].name == name && e.bitmap == d.bitmap
    ensures forall j: nat :: Binds(e.root, name, j) <==> j == k
    ensures HandleOf(files, k) < 0 && FreeSet(e) == FreeSet(d)
  {
    NoHandleOnFreeSlot(d, files, o, k);
    BitmapFrame(d, e);
    forall j: nat | Binds(e.root, name, j)
      ensures j == k
    {
      assert j != k ==> Binds(d.root, name, j);
    }
  }

  lemma ParentChain(d: Disk, files: seq<Handle>, o: Owners, k: nat)
    requires Consistent(d, files, o) && k < ROOT_SLOTS && Live(d.root[k])
    ensures k in o.chains && InDataArea(o.chains[k]) && IsChain(d, o.chains[k]) && Reserved(d)
    ensures Elems(o.chains[k]) <= UsedSet(d)
    ensures HandleOf(files, k) < 0 ==> HasChain(d, d.root[k].first, o.chains[k])
  {
    ChainAllocated(d, o, k);
    assert EntryOk(d, files, o, k);
  }

  /** The new entry of a directory without sectors is in the first sector it gets. */
  lemma MadeFrom(d: Disk, ss: seq<nat>, e: Disk, cc: seq<nat>, k: nat, entry: Dirent, q: nat, index: nat)
    requires InDataArea(ss) && InDataArea(cc) && k < ROOT_SLOTS
    requires GrownDirectory(d, ss, e, cc) && TakesLowest(d, ss, cc)
    requires Slots(e, cc) == Inserted(Slots(d, ss), entry)
    requires q < |cc| && Base(q) + index == FirstFree(Slots(d, ss))
    ensures Made(d, ss, k, if ss == [] then WithFirst(e, k, cc[q]) else e, cc, entry)
  {
    hide IsChain, UsedSet, FreeSet, Inserted, Slots, Entries;
    assert e.root == d.root;
    assert RootOf(d, e) == e;
    if ss == [] {
      var f := WithFirst(e, k, cc[q]);
      assert RootOf(d, f) == e;
      SlotsFrame(e, f, cc);
      NoSlots(d);
    }
  }

  lemma NoSlots(d: Disk)
    ensures Slots(d, []) == [] && FirstFree(Slots(d, [])) == 0
  {
  }

  // ------------------------------------------------------------ formatting

  const ROOT_NAME: Name := [0x72, 0x6F, 0x6F, 0x74]
  const GLOBAL_NAME: Name := [0x67, 0x6C, 0x6F, 0x62, 0x61, 0x6C]
  const HOME_NAME: Name := [0x68, 0x6F, 0x6D, 0x65]

  /** The directory `root` has the first data sector, for its entry `global`; `home` has none. */
  const MKFS_OWNERS := Owners(map[0 := [19], 1 := []], map[19 := 0], {})

  /** A disk as formatting leaves it: the directories `root`, with the entry `global`, and `home`; the
      sectors in use are the reserved ones and the one of `root`, whose number stands in the superblock's
      first word. */
  ghost predicate Fresh(d: Disk) {
    && Consistent(d, seq(MAX_OPEN_FILES, _ => UNUSED), MKFS_OWNERS)
    && d.root[0] == Dirent(ROOT_NAME, 0, 19, 0, 3) && d.root[1] == Dirent(HOME_NAME, 0, 0, 0, 1)
    && FreeFrom(d, 2)
    && Slots(d, [19]) == [Dirent(GLOBAL_NAME, 0, 0, 0, 3), FREE_SLOT, FREE_SLOT, FREE_SLOT]
    && UsedBelow(d, 20) && d.data[0].next == 19
  }

  lemma DirectoryFlags()
    ensures TurnOn(2, 0) == 3 && TurnOn(0, 0) == 1 && On(3, 0) && On(1, 0)
  {
  }

  /** Only the sectors below `n` are in use. */
  ghost predicate UsedBelow(d: Disk, n: nat) {
    forall m: nat :: m in UsedSet(d) <==> m < n
  }

  /** Slot `k` and those behind it are free. */
  ghost predicate FreeFrom(d: Disk, k: nat) {
    forall i :: k <= i < ROOT_SLOTS ==> d.root[i] == FREE_SLOT
  }

  lemma FirstFreeFrom(d: Disk, k: nat)
    requires k < ROOT_SLOTS && FreeFrom(d, k) && forall i :: 0 <= i < k ==> Live(d.root[i])
    ensures FirstFree(d.root) == k
  {
    FirstFreeIs(d.root, k);
  }

  /** The directory `root` without a sector yet: its new entry goes into sector 19. */
  lemma FirstDirectory(d: Disk, e: Disk)
    requires FreeFrom(d, 0) && UsedBelow(d, DATA_START)
    requires e == WithRootEntry(d, 0, DirectoryEntry(ROOT_NAME, 0, 2))
    ensures e.root[0] == Dirent(ROOT_NAME, 0, 0, 0, 3) && FreeFrom(e, 1) && UsedBelow(e, DATA_START)
    ensures forall k: nat :: Binds(e.root, ROOT_NAME, k) <==> k == 0
    ensures OpenTo(e, 0, 0) && CanAdd(e, [], GLOBAL_NAME)
  {
    DirectoryFlags();
    BitmapFrame(d, e);
    NoSlots(e);
    assert 19 !in UsedSet(e);
    assert 19 in FreeSet(e);
  }

  lemma SecondDirectory(d: Disk, e: Disk, cc: seq<nat>)
    requires d.root[0] == Dirent(ROOT_NAME, 0, 0, 0, 3) && FreeFrom(d, 1) && UsedBelow(d, DATA_START)
    requires Made(d, [], 0, e, cc, DirectoryEntry(GLOBAL_NAME, 0, 2))
    ensures cc == [19] && UsedBelow(e, 20) && e.data[0].next == 19
    ensures e.root[0] == Dirent(ROOT_NAME, 0, 19, 0, 3) && FreeFrom(e, 1)
    ensures Slots(e, [19]) == [Dirent(GLOBAL_NAME, 0, 0, 0, 3), FREE_SLOT, FREE_SLOT, FREE_SLOT]
  {
    hide IsChain, Slots, OnlyChanged;
    DirectoryFlags();
    NoSlots(d);
    assert IsLowestFree(d, cc[0]) && 19 !in UsedSet(d);
    assert cc[0] in FreeSet(d) && cc[0] !in UsedSet(d);
    assert cc[0] == 19;
    assert Elems(cc) == {19};
    BitmapFrame(e, BootOf(d, RootOf(d, e)));
  }

  /** Formats the disk: regions first, then the directories `/root`, `/root/global` and `/home`. */
  method Mkfs(v: Volume)
    modifies v
    ensures Fresh(v.disk)
  {
    hide Consistent, OthersKept, Slots, Inserted, GrownDirectory, FirstFree, TurnOn, Used, Made, OpenTo, CanAdd;
    ghost var files := seq(MAX_OPEN_FILES, _ => UNUSED);
    FormatRegions(v);
    FormattedIsConsistent(v.disk);
    ghost var d := v.disk;
    FirstFreeFrom(d, 0);
    var ok, slot := MakeInRoot(v, ROOT_NAME, 0, 2, files, NO_OWNERS);
    FirstDirectory(d, v.disk);
    ghost var o, e := AddSlot(NO_OWNERS, 0), v.disk;
    ghost var k, cc;
    ok, k, cc := MakeInDirectory(v, ROOT_NAME, GLOBAL_NAME, 0, 2, files, o);
    SecondDirectory(e, v.disk, cc);
    e := v.disk;
    FirstFreeFrom(e, 1);
    ok, slot := MakeInRoot(v, HOME_NAME, 0, 0, files, Grow(o, k, cc));
    ThirdDirectory(e, v.disk);
    MkfsOwners();
  }

  lemma MkfsOwners()
    ensures AddSlot(Grow(AddSlot(NO_OWNERS, 0), 0, [19]), 1) == MKFS_OWNERS
  {
    var o := AddSlot(Grow(AddSlot(NO_OWNERS, 0), 0, [19]), 1);
    assert o.chains == MKFS_OWNERS.chains && o.own == MKFS_OWNERS.own;
  }

  lemma ThirdDirectory(d: Disk, e: Disk)
    requires e == WithRootEntry(d, 1, DirectoryEntry(HOME_NAME, 0, 0))
    ensures e.root[1] == Dirent(HOME_NAME, 0, 0, 0, 1) && Slots(e, [19]) == Slots(d, [19])
    ensures UsedSet(e) == UsedSet(d)
  {
    DirectoryFlags();
    SlotsFrame(d, e, [19]);
    BitmapFrame(d, e);
  }

  /** A freshly formatted disk does not mount. */
  lemma FreshUnmounted(d: Disk)
    requires Fresh(d)
    ensures !Mounts(Superblock(d))
  {
    SmallWordUnmounts(d);
  }
  /** What the kernel does at start: formats, unless the disk mounts. */
  method Init(v: Volume) returns (formatted: bool)
    modifies v
    ensures formatted <==> !Mounts(Superblock(old(v.disk)))
    ensures if formatted then Fresh(v.disk) else v.disk == old(v.disk)
  {
    formatted := Superblock(v.disk)[..12] != MAGIC;
    if formatted {
      Mkfs(v);
    }
  }
}
