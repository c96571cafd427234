/** Looking up, adding and listing directory entries on disk. */
module DirectoryOps {
  import opened Bytes
  import opened Layout
  import opened Chains
  import opened Directories
  import opened Dirents
  import opened Volumes

  /** What the name field keeps of a name. */
  function Cut(name: Name): Name {
    if |name| <= 115 then name else name[..115]
  }

  function NewEntry(name: Name, owner: nat, flags: byte): Dirent {
    Dirent(Cut(name), 0, 0, owner, flags)
  }

  /** The first free slot, or |es|. */
  function FirstFree(es: seq<Dirent>): (k: nat)
    ensures k <= |es| && (k < |es| ==> !Live(es[k]))
    ensures forall i :: 0 <= i < k ==> Live(es[i])
  {
    if es == [] then 0
    else if !Live(es[0]) then 0
    else 1 + FirstFree(es[1..])
  }

  lemma FirstFreeIs(es: seq<Dirent>, k: nat)
    requires k <= |es| && (k < |es| ==> !Live(es[k]))
    requires forall i :: 0 <= i < k ==> Live(es[i])
    ensures FirstFree(es) == k
  {
  }

  const MORE_SLOTS := [FREE_SLOT, FREE_SLOT, FREE_SLOT, FREE_SLOT]

  /** The slots with room for one more entry: a full directory gets four new ones. */
  function WithRoom(es: seq<Dirent>): (fs: seq<Dirent>)
    ensures FirstFree(es) < |fs|
  {
    if FirstFree(es) < |es| then es else es + MORE_SLOTS
  }

  function Inserted(es: seq<Dirent>, e: Dirent): seq<Dirent> {
    WithRoom(es)[FirstFree(es) := e]
  }

  /** Adding a name that is not present keeps names unique exactly when what is kept of it is not present
      either: the test for a present name compares the whole name. */
  lemma AddedUnique(es: seq<Dirent>, name: Name, owner: nat, flags: byte)
    requires UniqueNames(es) && name != [] && name !in DirMap(es)
    ensures UniqueNames(Inserted(es, NewEntry(name, owner, flags))) <==> Cut(name) !in DirMap(es)
  {
    var e := NewEntry(name, owner, flags);
    if e.name !in DirMap(es) {
      InsertedBinding(es, e);
    } else {
      var i := SlotOf(es, e.name);
      var k := FirstFree(es);
      assert Live(es[i]) && i != k;
      assert Inserted(es, e)[i] == es[i] && Inserted(es, e)[k] == e;
    }
  }

  /** Adding binds the new name and leaves every other lookup as it was, also when the directory grows. */
  lemma InsertedBinding(es: seq<Dirent>, e: Dirent)
    requires UniqueNames(es) && Live(e) && e.name !in DirMap(es)
    ensures UniqueNames(Inserted(es, e))
    ensures DirMap(Inserted(es, e)) == DirMap(es)[e.name := e]
  {
    var k := FirstFree(es);
    if k < |es| {
      InsertBinding(es, k, e);
    } else {
      AppendFreeSlots(es, MORE_SLOTS);
      InsertBinding(es + MORE_SLOTS, k, e);
    }
  }

  ghost predicate NotBound(es: seq<Dirent>, name: Name, n: nat) {
    forall k: nat :: k < n ==> !Binds(es, name, k)
  }

  // ------------------------------------------------------------------ the root

  lemma InDataOf(d: Disk, ss: seq<nat>)
    requires IsChain(d, ss)
    ensures InDataArea(ss)
  {
  }

  /** Finds the slot of `name` in the root directory. */
  method FindInRoot(d: Disk, name: Name) returns (found: bool, slot: nat)
    ensures found ==> Binds(d.root, name, slot) && NotBound(d.root, name, slot)
    ensures !found ==> NotBound(d.root, name, ROOT_SLOTS)
  {
    var s := 0;
    slot := 0;
    while s < ROOT_SECTORS
      invariant s <= ROOT_SECTORS
      invariant NotBound(d.root, name, 4 * s)
    {
      var j := 0;
      while j < 4
        invariant j <= 4
        invariant NotBound(d.root, name, 4 * s + j)
      {
        slot := 4 * s + j;
        var e := d.root[slot];
        if Live(e) && e.name == name {
          return true, slot;
        }
        j := j + 1;
      }
      s := s + 1;
    }
    found := false;
  }

  /** Adds a fresh entry to the root directory, in its first free slot. */
  method AddToRoot(v: Volume, name: Name, owner: nat, flags: byte) returns (ok: bool, slot: nat)
    modifies v
    ensures ok <==> NotBound(old(v.disk).root, name, ROOT_SLOTS) && FirstFree(old(v.disk).root) < ROOT_SLOTS
    ensures !ok ==> v.disk == old(v.disk)
    ensures ok ==>
              && slot == FirstFree(old(v.disk).root)
              && var kept := if |name| <= 115 then name else name[..115];
                 v.disk == old(v.disk).(root := old(v.disk).root[slot := Dirent(kept, 0, 0, owner, flags)])
  {
    var found;
    found, slot := FindInRoot(v.disk, name);
    if found {
      return false, slot;
    }
    var s := 0;
    while s < ROOT_SECTORS
      invariant s <= ROOT_SECTORS && v.disk == old(v.disk)
      invariant forall k: nat :: k < 4 * s ==> Live(v.disk.root[k])
    {
      var j := 0;
      while j < 4
        invariant j <= 4 && v.disk == old(v.disk)
        invariant forall k: nat :: k < 4 * s + j ==> Live(v.disk.root[k])
      {
        slot := 4 * s + j;
        if !Live(v.disk.root[slot]) {
          FirstFreeIs(v.disk.root, slot);
          v.disk := v.disk.(root := v.disk.root[slot := NewEntry(name, owner, flags)]);
          return true, slot;
        }
        j := j + 1;
      }
      s := s + 1;
    }
    FirstFreeIs(v.disk.root, ROOT_SLOTS);
    ok := false;
  }

  /** The entry that listing the root directory returns at `index`. */
  method ListRoot(d: Disk, index: int) returns (found: bool, slot: nat)
    ensures found ==> IsNth(d.root, index, slot)
    ensures found <==> 0 <= index < LiveCount(d.root)
  {
    var current, s := 0, 0;
    slot := 0;
    while s < ROOT_SECTORS
      invariant s <= ROOT_SECTORS
      invariant current == LiveCount(d.root[..4 * s]) && (0 <= index ==> current <= index)
    {
      var j := 0;
      while j < 4
        invariant j <= 4
        invariant current == LiveCount(d.root[..4 * s + j]) && (0 <= index ==> current <= index)
      {
        slot := 4 * s + j;
        assert d.root[..slot + 1][..slot] == d.root[..slot];
        if Live(d.root[slot]) {
          if current == index {
            ListingComplete(d.root, slot);
            return true, slot;
          }
          current := current + 1;
        }
        j := j + 1;
      }
      s := s + 1;
    }
    assert d.root[..ROOT_SLOTS] == d.root;
    found := false;
  }

  // ------------------------------------------------------- chained directories

  /** The first slot of the sector at position `q`. */
  function Base(q: nat): nat {
    4 * q
  }

  lemma NextBase(q: nat, k: nat)
    requires q < k
    ensures Base(q + 1) == Base(q) + 4 <= Base(k) && Base(0) == 0
  {
  }

  /** The four entries in a sector of a chained directory. */
  function EntriesAt(d: Disk, sector: nat): (es: seq<Dirent>)
    requires sector < DISK_SECTORS
    ensures |es| == 4
  {
    Entries(d.data[sector].data)
  }

  /** The slots of a chained directory, in the order of its sectors. */
  function Slots(d: Disk, ss: seq<nat>): (es: seq<Dirent>)
    requires InDataArea(ss)
    ensures |es| == Base(|ss|)
  {
    if ss == [] then [] else Slots(d, ss[..|ss| - 1]) + EntriesAt(d, ss[|ss| - 1])
  }

  lemma {:induction false} SlotAt(d: Disk, ss: seq<nat>, q: nat, j: nat)
    requires InDataArea(ss) && q < |ss| && j < 4
    ensures Slots(d, ss)[Base(q) + j] == EntriesAt(d, ss[q])[j]
  {
    if q < |ss| - 1 {
      SlotAt(d, ss[..|ss| - 1], q, j);
    }
  }

  lemma {:induction false} SlotsFrame(d: Disk, e: Disk, ss: seq<nat>)
    requires InDataArea(ss)
    requires forall i :: 0 <= i < |ss| ==> d.data[ss[i]].data == e.data[ss[i]].data
    ensures Slots(d, ss) == Slots(e, ss)
  {
    if ss != [] {
      SlotsFrame(d, e, ss[..|ss| - 1]);
    }
  }

  /** The loop over the four entries of a sector: the index of the entry `name`, or 4. */
  method FindInSector(es: seq<Dirent>, name: Name) returns (j: nat)
    requires |es| == 4
    ensures j <= 4 && NotBound(es, name, j)
    ensures j < 4 ==> Binds(es, name, j)
  {
    j := 0;
    while j < 4 && !(Live(es[j]) && es[j].name == name)
      invariant j <= 4 && NotBound(es, name, j)
    {
      j := j + 1;
    }
  }

  /** The same loop looking for a free entry. */
  method FreeInSector(es: seq<Dirent>) returns (j: nat)
    requires |es| == 4
    ensures j <= 4 && forall k :: 0 <= k < j ==> Live(es[k])
    ensures j < 4 ==> !Live(es[j])
  {
    j := 0;
    while j < 4 && Live(es[j])
      invariant j <= 4 && forall k :: 0 <= k < j ==> Live(es[k])
    {
      j := j + 1;
    }
  }

  /** The slots of one sector inside the slots of the directory. */
  lemma SectorSlots(d: Disk, ss: seq<nat>, q: nat)
    requires InDataArea(ss) && q < |ss|
    ensures Slots(d, ss)[Base(q)..Base(q) + 4] == EntriesAt(d, ss[q])
  {
    hide Entries, Slots;
    SlotAt(d, ss, q, 0);
    SlotAt(d, ss, q, 1);
    SlotAt(d, ss, q, 2);
    SlotAt(d, ss, q, 3);
  }

  lemma NotBoundFurther(es: seq<Dirent>, name: Name, n: nat, j: nat)
    requires n + 4 <= |es| && j <= 4
    requires NotBound(es, name, n) && NotBound(es[n..n + 4], name, j)
    ensures NotBound(es, name, n + j)
    ensures j < 4 && Binds(es[n..n + 4], name, j) ==> Binds(es, name, n + j)
  {
    var fs := es[n..n + 4];
    forall k: nat | k < n + j
      ensures !Binds(es, name, k)
    {
      if k >= n {
        assert es[k] == fs[k - n];
        assert !Binds(fs, name, k - n);
      }
    }
  }

  lemma LiveFurther(es: seq<Dirent>, n: nat, j: nat, fs: seq<Dirent>)
    requires n + 4 <= |es| && es[n..n + 4] == fs && j <= 4
    requires forall k :: 0 <= k < n ==> Live(es[k])
    requires forall k :: 0 <= k < j ==> Live(fs[k])
    ensures forall k :: 0 <= k < n + j ==> Live(es[k])
    ensures j < 4 ==> Live(es[n + j]) == Live(fs[j])
  {
    forall k | n <= k < n + j
      ensures Live(es[k])
    {
      assert es[k] == fs[k - n];
    }
    assert j < 4 ==> es[n + j] == fs[j];
  }

  /** Finds the entry of `name` in a chained directory: its sector and its index there. */
  method FindInChain(d: Disk, first: nat, name: Name, ghost ss: seq<nat>)
    returns (found: bool, sector: nat, index: nat, ghost q: nat)
    requires IsChain(d, ss) && Head(ss) == first
    ensures found ==>
              && q < |ss| && sector == ss[q] && index < 4
              && Binds(Slots(d, ss), name, Base(q) + index) && NotBound(Slots(d, ss), name, Base(q) + index)
    ensures !found ==> NotBound(Slots(d, ss), name, Base(|ss|))
  {
    hide *;
    InDataOf(d, ss);
    ghost var es := Slots(d, ss);
    HeadOf(d, ss);
    NextBase(0, 1);
    NoneBound(es, name);
    found, sector, index, q := false, first, 0, 0;
    while sector != 0
      invariant q <= |ss| && sector == if q < |ss| then ss[q] else 0
      invariant NotBound(es, name, Base(q))
      decreases |ss| - q
    {
      ChainStep(d, ss, q);
      NextBase(q, |ss|);
      index := FindInSector(EntriesAt(d, sector), name);
      SectorSlots(d, ss, q);
      NotBoundFurther(es, name, Base(q), index);
      if index < 4 {
        found := true;
        return;
      }
      sector := NextOf(d, sector);
      q := q + 1;
    }
  }

  /** Finds the first free entry of a chained directory, or its last sector. */
  method FindFreeInChain(d: Disk, first: nat, ghost ss: seq<nat>)
    returns (found: bool, sector: nat, index: nat, ghost q: nat)
    requires IsChain(d, ss) && Head(ss) == first
    ensures if ss == [] then !found && sector == 0 else q < |ss| && sector == ss[q]
    ensures found ==> index < 4 && Base(q) + index == FirstFree(Slots(d, ss))
    ensures !found ==> (ss != [] ==> q == |ss| - 1) && FirstFree(Slots(d, ss)) == Base(|ss|)
  {
    hide *;
    InDataOf(d, ss);
    ghost var es := Slots(d, ss);
    HeadOf(d, ss);
    found, sector, index, q := false, 0, 0, 0;
    var current := first;
    ghost var r := 0;
    NextBase(0, 1);
    while current != 0
      invariant r <= |ss| && current == if r < |ss| then ss[r] else 0
      invariant if r == 0 then q == 0 && sector == 0 else q == r - 1 && sector == ss[q]
      invariant Base(r) <= |es| && forall k :: 0 <= k < Base(r) ==> Live(es[k])
      decreases |ss| - r
    {
      ChainStep(d, ss, r);
      NextBase(r, |ss|);
      index := FreeInSector(EntriesAt(d, current));
      SectorSlots(d, ss, r);
      LiveFurther(es, Base(r), index, EntriesAt(d, current));
      sector, q := current, r;
      if index < 4 {
        FirstFreeIs(es, Base(r) + index);
        found := true;
        return;
      }
      current := NextOf(d, current);
      r := r + 1;
    }
    FirstFreeIs(es, Base(|ss|));
  }

  lemma NoneBound(es: seq<Dirent>, name: Name)
    ensures NotBound(es, name, 0)
  {
  }

  /** Storing an entry in one sector of the chain changes one slot of the directory. */
  lemma {:induction false} SlotsWrite(d: Disk, ss: seq<nat>, q: nat, j: nat, e: Dirent)
    requires InDataArea(ss) && Distinct(ss) && q < |ss| && j < 4 && ValidDirent(e)
    ensures Slots(WithData(d, ss[q], 127 * j, Encode(e)), ss) == Slots(d, ss)[Base(q) + j := e]
  {
    hide Entries, Encode;
    var f, last := WithData(d, ss[q], 127 * j, Encode(e)), |ss| - 1;
    if q < last {
      SlotsWrite(d, ss[..last], q, j, e);
    } else {
      EntryUpdate(d.data[ss[q]].data, j, e);
      SlotsFrame(d, f, ss[..last]);
    }
  }

  lemma StoreEntry(d: Disk, ss: seq<nat>, e: Disk, cc: seq<nat>, q: nat, j: nat, entry: Dirent)
    requires InDataArea(cc) && Grown(d, ss, e, cc) && q < |cc| && j < 4 && ValidDirent(entry)
    ensures Grown(d, ss, WithData(e, cc[q], 127 * j, Encode(entry)), cc)
    ensures Slots(WithData(e, cc[q], 127 * j, Encode(entry)), cc) == Slots(e, cc)[Base(q) + j := entry]
  {
    hide Encode, Slots, WithData;
    GrownWrite(d, ss, e, cc, q, 127 * j, Encode(entry));
    ChainAcyclic(e, cc);
    SlotsWrite(e, cc, q, j, entry);
  }

  /** A sector linked behind a directory's last one brings four free slots. */
  lemma NewSlots(d: Disk, e: Disk, ss: seq<nat>, new_: nat)
    requires InDataArea(ss) && ss != [] && new_ !in ss && Linked(d, e, ss[|ss| - 1], new_)
    ensures Slots(e, ss + [new_]) == Slots(d, ss) + MORE_SLOTS
  {
    hide Entries;
    var tt := ss + [new_];
    assert tt[..|ss|] == ss;
    ZeroEntries(e.data[new_].data);
    forall i | 0 <= i < |ss|
      ensures d.data[ss[i]].data == e.data[ss[i]].data
    {
      assert ss[i] in ss;
    }
    SlotsFrame(d, e, ss);
  }

  /** What an addition to the directory `ss` leaves: the chain has grown, and for a directory that had no
      sector the number of its first one is now the superblock's first word. */
  ghost predicate GrownDirectory(d: Disk, ss: seq<nat>, e: Disk, cc: seq<nat>) {
    if ss == [] then cc != [] && e.data[0].next == cc[0] && Grown(d, ss, BootOf(d, e), cc) else Grown(d, ss, e, cc)
  }

  /** The directory `cc` is `ss`, or has the lowest free sector besides. */
  ghost predicate TakesLowest(d: Disk, ss: seq<nat>, cc: seq<nat>) {
    cc == ss || (|cc| == |ss| + 1 && ss <= cc && IsLowestFree(d, cc[|ss|]))
  }

  lemma StartedGrown(d: Disk, e: Disk, new_: nat)
    requires Reserved(d) && new_ in FreeSet(d) && StartedBehindBoot(d, e, new_)
    requires UsedSet(e) == UsedSet(d) + {new_} && FreeSet(e) == FreeSet(d) - {new_}
    ensures InDataArea([new_]) && GrownDirectory(d, [], e, [new_])
    ensures Slots(e, [new_]) == Slots(d, []) + MORE_SLOTS
  {
    BitmapFrame(e, BootOf(d, e));
    assert BootOf(d, e).data == d.data[new_ := e.data[new_]];
    hide UsedSet, FreeSet, IsChain, OnlyChanged, Entries;
    GrownFromEmpty(d, BootOf(d, e), new_);
    StartedSlots(d, e, new_);
  }

  lemma StartedSlots(d: Disk, e: Disk, new_: nat)
    requires DATA_START <= new_ < MANAGED && IsZeroSector(e.data[new_])
    ensures Slots(e, [new_]) == Slots(d, []) + MORE_SLOTS
  {
    hide Entries;
    ZeroEntries(e.data[new_].data);
    assert [new_][..0] == [];
  }

  /** Makes sure there is a free entry and finds it; fails when the directory and the disk are full. */
  method FreeEntry(v: Volume, first: nat, ghost ss: seq<nat>)
    returns (ok: bool, sector: nat, index: nat, ghost cc: seq<nat>, ghost q: nat)
    requires HasChain(v.disk, first, ss)
    modifies v
    ensures ok <==> FirstFree(Slots(old(v.disk), ss)) < Base(|ss|) || FreeSet(old(v.disk)) != {}
    ensures !ok ==> v.disk == old(v.disk)
    ensures ok ==>
              && InDataArea(cc) && GrownDirectory(old(v.disk), ss, v.disk, cc) && TakesLowest(old(v.disk), ss, cc)
              && Slots(v.disk, cc) == WithRoom(Slots(old(v.disk), ss))
              && q < |cc| && sector == cc[q] && index < 4
              && Base(q) + index == FirstFree(Slots(old(v.disk), ss))
  {
    ghost var d := v.disk;
    GrownNothing(d, ss);
    hide Entries, Slots, IsChain, FirstFree, UsedSet, OnlyChanged, StartedBehindBoot;
    cc := ss;
    ok, sector, index, q := FindFreeInChain(v.disk, first, ss);
    if ok {
      return;
    }
    if ss != [] {
      GrownNext(d, ss, d, ss, |ss| - 1);
    }
    sector := v.LinkNew(sector);
    if sector == 0 {
      return;
    }
    if ss != [] {
      LinkedNew(d, ss, v.disk, sector);
    } else {
      StartedGrown(d, v.disk, sector);
    }
    ok, cc, q, index := true, ss + [sector], |ss|, 0;
  }

  /** Adds a fresh entry to a chained directory. */
  method AddToChain(v: Volume, first: nat, name: Name, owner: nat, flags: byte, ghost ss: seq<nat>)
    returns (ok: bool, sector: nat, index: nat, ghost cc: seq<nat>, ghost q: nat)
    requires HasChain(v.disk, first, ss) && ValidDirent(NewEntry(name, owner, flags))
    modifies v
    ensures ok <==> && NotBound(Slots(old(v.disk), ss), name, Base(|ss|))
                    && (FirstFree(Slots(old(v.disk), ss)) < Base(|ss|) || FreeSet(old(v.disk)) != {})
    ensures !ok ==> v.disk == old(v.disk)
    ensures ok ==>
              && InDataArea(cc) && GrownDirectory(old(v.disk), ss, v.disk, cc) && TakesLowest(old(v.disk), ss, cc)
              && Slots(v.disk, cc) == Inserted(Slots(old(v.disk), ss), NewEntry(name, owner, flags))
              && q < |cc| && sector == cc[q] && index < 4
              && Base(q) + index == FirstFree(Slots(old(v.disk), ss))
              && var kept := if |name| <= 115 then name else name[..115];
                 EntriesAt(v.disk, sector)[index] == Dirent(kept, 0, 0, owner, flags)
  {
    hide Entries, Slots, IsChain, Encode, FirstFree, GrownDirectory, NotBound, WithRoom, NewEntry, TakesLowest;
    ghost var d := v.disk;
    var e := NewEntry(name, owner, flags);
    var found;
    cc := ss;
    found, sector, index, q := FindInChain(v.disk, first, name, ss);
    if found {
      BoundSomewhere(Slots(d, ss), name, Base(q) + index);
      ok := false;
      return;
    }
    ok, sector, index, cc, q := FreeEntry(v, first, ss);
    if ok {
      StoreInDirectory(d, ss, v.disk, cc, q, index, e);
      v.disk := WithData(v.disk, sector, 127 * index, Encode(e));
      StoredThere(v.disk, cc, q, index, Slots(d, ss), e);
      NewEntryIs(name, owner, flags);
    }
  }

  lemma NewEntryIs(name: Name, owner: nat, flags: byte)
    ensures NewEntry(name, owner, flags) == Dirent(if |name| <= 115 then name else name[..115], 0, 0, owner, flags)
  {
  }

  lemma StoredThere(d: Disk, cc: seq<nat>, q: nat, index: nat, es: seq<Dirent>, e: Dirent)
    requires InDataArea(cc) && q < |cc| && index < 4 && Base(q) + index == FirstFree(es)
    requires Slots(d, cc) == Inserted(es, e)
    ensures EntriesAt(d, cc[q])[index] == e
  {
    hide Slots, Entries, FirstFree;
    SlotAt(d, cc, q, index);
  }

  lemma BoundSomewhere(es: seq<Dirent>, name: Name, k: nat)
    requires Binds(es, name, k)
    ensures !NotBound(es, name, |es|)
  {
  }

  lemma StoreInDirectory(d: Disk, ss: seq<nat>, e: Disk, cc: seq<nat>, q: nat, j: nat, entry: Dirent)
    requires InDataArea(cc) && GrownDirectory(d, ss, e, cc) && q < |cc| && j < 4 && ValidDirent(entry)
    ensures GrownDirectory(d, ss, WithData(e, cc[q], 127 * j, Encode(entry)), cc)
    ensures Slots(WithData(e, cc[q], 127 * j, Encode(entry)), cc) == Slots(e, cc)[Base(q) + j := entry]
  {
    hide Slots, Entries, Encode, IsChain, UsedSet, OnlyChanged;
    if ss == [] {
      StoreEntry(d, ss, BootOf(d, e), cc, q, j, entry);
      var f := WithData(e, cc[q], 127 * j, Encode(entry));
      assert BootOf(d, f) == WithData(BootOf(d, e), cc[q], 127 * j, Encode(entry));
      SameButBoot(d, e, cc);
      SameButBoot(d, f, cc);
    } else {
      StoreEntry(d, ss, e, cc, q, j, entry);
    }
  }

  lemma SameButBoot(d: Disk, e: Disk, cc: seq<nat>)
    requires InDataArea(cc)
    ensures Slots(BootOf(d, e), cc) == Slots(e, cc)
  {
    SlotsFrame(BootOf(d, e), e, cc);
  }

  lemma LinkedNew(d: Disk, ss: seq<nat>, e: Disk, new_: nat)
    requires Grown(d, ss, d, ss) && InDataArea(ss) && ss != []
    requires new_ in FreeSet(d) && Linked(d, e, ss[|ss| - 1], new_)
    requires UsedSet(e) == UsedSet(d) + {new_} && FreeSet(e) == FreeSet(d) - {new_}
    ensures Grown(d, ss, e, ss + [new_])
    ensures Slots(e, ss + [new_]) == Slots(d, ss) + MORE_SLOTS
  {
    hide Slots, UsedSet, FreeSet, OnlyChanged, IsChain, Linked;
    GrownByOne(d, ss, d, ss, e, new_);
    NewSlots(d, e, ss, new_);
  }

  /** The listing loop over the four entries of a sector, `before` live entries having been passed. */
  method ListInSector(es: seq<Dirent>, index: int, before: nat) returns (found: bool, j: nat, current: nat)
    requires |es| == 4 && (0 <= index ==> before <= index)
    ensures found ==> j < 4 && Live(es[j]) && before + LiveCount(es[..j]) == index
    ensures !found ==> current == before + LiveCount(es) && (0 <= index ==> current <= index)
  {
    found, j, current := false, 0, before;
    while j < 4
      invariant j <= 4 && current == before + LiveCount(es[..j]) && (0 <= index ==> current <= index)
    {
      assert es[..j + 1][..j] == es[..j];
      if Live(es[j]) {
        if current == index {
          found := true;
          return;
        }
        current := current + 1;
      }
      j := j + 1;
    }
    assert es[..4] == es;
  }

  /** Where the listing of a chained directory finds its entry number `index`. */
  lemma NthInSector(es: seq<Dirent>, n: nat, fs: seq<Dirent>, j: nat, index: int)
    requires n + 4 <= |es| && es[n..n + 4] == fs && j < 4 && Live(fs[j])
    requires LiveCount(es[..n]) + LiveCount(fs[..j]) == index
    ensures IsNth(es, index, n + j)
  {
    assert es[..n + j] == es[..n] + fs[..j];
    LiveCountSum(es[..n], fs[..j]);
    assert es[n + j] == fs[j];
  }

  lemma CountThroughSector(es: seq<Dirent>, n: nat, fs: seq<Dirent>)
    requires n + 4 <= |es| && es[n..n + 4] == fs
    ensures LiveCount(es[..n + 4]) == LiveCount(es[..n]) + LiveCount(fs)
  {
    assert es[..n + 4] == es[..n] + fs;
    LiveCountSum(es[..n], fs);
  }

  /** The number of live slots before the sector at position `q`. */
  function LiveBefore(d: Disk, ss: seq<nat>, q: nat): nat
    requires InDataArea(ss) && q <= |ss|
  {
    LiveCount(Slots(d, ss)[..Base(q)])
  }

  lemma ListStep(d: Disk, ss: seq<nat>, q: nat, j: nat, index: int)
    requires InDataArea(ss) && q < |ss| && j < 4 && Live(EntriesAt(d, ss[q])[j])
    requires LiveBefore(d, ss, q) + LiveCount(EntriesAt(d, ss[q])[..j]) == index
    ensures IsNth(Slots(d, ss), index, Base(q) + j) && Slots(d, ss)[Base(q) + j] == EntriesAt(d, ss[q])[j]
    ensures 0 <= index < LiveCount(Slots(d, ss))
  {
    hide EntriesAt, Slots, LiveCount, IsNth;
    SectorSlots(d, ss, q);
    NthInSector(Slots(d, ss), Base(q), EntriesAt(d, ss[q]), j, index);
    SlotAt(d, ss, q, j);
    ListedIndex(Slots(d, ss), Base(q) + j, index);
  }

  lemma ListSkip(d: Disk, ss: seq<nat>, q: nat)
    requires InDataArea(ss) && q < |ss|
    ensures LiveBefore(d, ss, q + 1) == LiveBefore(d, ss, q) + LiveCount(EntriesAt(d, ss[q]))
  {
    hide EntriesAt, Slots, LiveCount;
    SectorSlots(d, ss, q);
    CountThroughSector(Slots(d, ss), Base(q), EntriesAt(d, ss[q]));
  }

  lemma ListEnds(d: Disk, ss: seq<nat>)
    requires InDataArea(ss)
    ensures LiveBefore(d, ss, 0) == 0 && LiveBefore(d, ss, |ss|) == LiveCount(Slots(d, ss))
  {
    assert Slots(d, ss)[..Base(|ss|)] == Slots(d, ss);
  }

  /** The entry that listing a chained directory returns at `index`. */
  method ListChain(d: Disk, first: nat, index: int, ghost ss: seq<nat>)
    returns (found: bool, entry: Dirent, ghost slot: nat)
    requires InDataArea(ss) && IsChain(d, ss) && Head(ss) == first
    ensures found ==> IsNth(Slots(d, ss), index, slot) && entry == Slots(d, ss)[slot]
    ensures found <==> 0 <= index < LiveCount(Slots(d, ss))
  {
    hide *;
    ghost var q := 0;
    var sector, current, j := first, 0, 0;
    found, entry, slot := false, FREE_SLOT, 0;
    ListEnds(d, ss);
    HeadOf(d, ss);
    while sector != 0
      invariant q <= |ss| && sector == if q < |ss| then ss[q] else 0
      invariant current == LiveBefore(d, ss, q) && (0 <= index ==> current <= index)
      decreases |ss| - q
    {
      ChainStep(d, ss, q);
      found, j, current := ListInSector(EntriesAt(d, sector), index, current);
      if found {
        ListStep(d, ss, q, j, index);
        slot := Base(q) + j;
        entry := EntriesAt(d, sector)[j];
        return;
      }
      ListSkip(d, ss, q);
      sector := NextOf(d, sector);
      q := q + 1;
    }
  }

  lemma ListedIndex(es: seq<Dirent>, i: nat, index: int)
    requires IsNth(es, index, i)
    ensures 0 <= index < LiveCount(es)
  {
    ListingComplete(es, i);
  }
}
