/** The invariant that ties the open-file table to the root directory and to the chains. */
module Handles {
  import opened Bytes
  import opened Layout
  import opened Chains
  import opened Files
  import opened Directories
  import opened Volumes
  import opened Ownership

  const MAX_OPEN_FILES := 16

  const UNUSED := Handle(false, 0, 0, 0, 0, Mode(false, false, false))

  predicate IsOpen(files: seq<Handle>, fd: int) {
    0 <= fd < |files| && files[fd].used
  }

  predicate CanWrite(files: seq<Handle>, fd: int) {
    IsOpen(files, fd) && files[fd].mode.write
  }

  /** The handle open on slot `k`, or -1. */
  function HandleOf(files: seq<Handle>, k: nat): (fd: int)
    ensures -1 <= fd < |files|
    ensures fd >= 0 ==> IsOpen(files, fd) && files[fd].slot == k
    ensures fd < 0 ==> forall g :: IsOpen(files, g) ==> files[g].slot != k
  {
    if files == [] then -1
    else
      var last := |files| - 1;
      if files[last].used && files[last].slot == k then last
      else
        var fd := HandleOf(files[..last], k);
        assert forall g :: IsOpen(files, g) && g != last ==> IsOpen(files[..last], g) && files[..last][g] == files[g];
        fd
  }

  /** The lowest unused handle, or -1. */
  function FreeHandle(files: seq<Handle>): (fd: int)
    ensures -1 <= fd < |files|
    ensures fd >= 0 ==> !files[fd].used && forall g :: 0 <= g < fd ==> files[g].used
    ensures fd < 0 ==> forall g :: 0 <= g < |files| ==> files[g].used
  {
    FreeHandleFrom(files, 0)
  }

  function FreeHandleFrom(files: seq<Handle>, i: nat): (fd: int)
    requires i <= |files| && forall g :: 0 <= g < i ==> files[g].used
    ensures -1 <= fd < |files|
    ensures fd >= 0 ==> !files[fd].used && forall g :: 0 <= g < fd ==> files[g].used
    ensures fd < 0 ==> forall g :: 0 <= g < |files| ==> files[g].used
    decreases |files| - i
  {
    if i == |files| then -1
    else if !files[i].used then i
    else FreeHandleFrom(files, i + 1)
  }

  /** An open handle agrees with the chain of its slot; without write permission also with the entry. */
  ghost predicate HandleOk(d: Disk, f: Handle, o: Owners) {
    && f.slot in o.chains && f.slot < ROOT_SLOTS
    && f.first == Head(o.chains[f.slot])
    && f.offset <= f.size <= 508 * |o.chains[f.slot]|
    && (!f.mode.write && !f.mode.create ==> d.root[f.slot].first == f.first && d.root[f.slot].size == f.size)
  }

  ghost predicate AllHandlesOk(d: Disk, files: seq<Handle>, o: Owners) {
    forall fd :: IsOpen(files, fd) ==> HandleOk(d, files[fd], o)
  }

  ghost predicate OneHandlePerFile(files: seq<Handle>) {
    forall f, g :: IsOpen(files, f) && IsOpen(files, g) && f != g ==> files[f].slot != files[g].slot
  }

  ghost predicate EntryOk(d: Disk, files: seq<Handle>, o: Owners, k: nat)
    requires k in o.chains && k < ROOT_SLOTS
  {
    && d.root[k].size <= 508 * |o.chains[k]|
    && (d.root[k].first == Head(o.chains[k]) || (d.root[k].first == 0 && HandleOf(files, k) >= 0))
  }

  ghost predicate EntriesOk(d: Disk, files: seq<Handle>, o: Owners) {
    forall k: nat :: k in o.chains && k < ROOT_SLOTS ==> EntryOk(d, files, o, k)
  }

  ghost predicate Consistent(d: Disk, files: seq<Handle>, o: Owners) {
    && ChainsOk(d, o) && UniqueNames(d.root)
    && |files| == MAX_OPEN_FILES && OneHandlePerFile(files)
    && AllHandlesOk(d, files, o) && EntriesOk(d, files, o)
  }

  // ------------------------------------------------------------- what a user sees

  ghost function SizeOf(d: Disk, files: seq<Handle>, k: nat): nat
    requires k < ROOT_SLOTS
  {
    if HandleOf(files, k) >= 0 then files[HandleOf(files, k)].size else d.root[k].size
  }

  /** The bytes of the file in slot `k`. */
  ghost function Content(d: Disk, files: seq<Handle>, o: Owners, k: nat): seq<byte>
    requires k in o.chains && k < ROOT_SLOTS && InDataArea(o.chains[k])
  {
    Piece(Flat(d, o.chains[k]), 0, SizeOf(d, files, k))
  }

  /** Every file but the one in slot `k` has the same name, owner, flags, content and sectors in both states,
      and neither its sectors nor the foreign ones have changed. */
  ghost predicate OthersKept(d: Disk, files: seq<Handle>, o: Owners, e: Disk, filesAfter: seq<Handle>, p: Owners,
                             k: nat) {
    && ForeignKept(d, o, e)
    && forall m: nat :: m < ROOT_SLOTS && m != k ==>
         && (m in o.chains <==> m in p.chains)
         && (m in o.chains && InDataArea(o.chains[m]) ==>
               && p.chains[m] == o.chains[m] && InDataArea(p.chains[m]) && SameSectors(d, e, o.chains[m])
               && Content(e, filesAfter, p, m) == Content(d, files, o, m) && e.root[m] == d.root[m])
  }

  lemma HandleOfUnique(files: seq<Handle>, fd: int)
    requires IsOpen(files, fd) && OneHandlePerFile(files)
    ensures HandleOf(files, files[fd].slot) == fd
  {
  }

  /** Updating a handle without moving it to another slot. */
  lemma HandleUpdate(files: seq<Handle>, fd: int, f: Handle, k: nat)
    requires IsOpen(files, fd) && OneHandlePerFile(files) && f.used && f.slot == files[fd].slot
    ensures OneHandlePerFile(files[fd := f])
    ensures HandleOf(files[fd := f], k) == HandleOf(files, k)
  {
    var gs := files[fd := f];
    assert forall g :: IsOpen(gs, g) <==> IsOpen(files, g);
    assert forall g :: IsOpen(gs, g) ==> gs[g].slot == files[g].slot;
    var a, b := HandleOf(files, k), HandleOf(gs, k);
    if a >= 0 {
      assert IsOpen(gs, a) && gs[a].slot == k;
    }
    if b >= 0 {
      assert IsOpen(files, b) && files[b].slot == k;
    }
  }

  /** A handle opened on a slot that had none. */
  lemma HandleAdded(files: seq<Handle>, fd: int, f: Handle, k: nat)
    requires 0 <= fd < |files| && !files[fd].used && OneHandlePerFile(files)
    requires f.used && HandleOf(files, f.slot) < 0
    ensures OneHandlePerFile(files[fd := f])
    ensures HandleOf(files[fd := f], k) == if k == f.slot then fd else HandleOf(files, k)
  {
    var gs := files[fd := f];
    assert forall g :: IsOpen(gs, g) <==> g == fd || IsOpen(files, g);
    assert forall g :: IsOpen(files, g) ==> gs[g] == files[g];
    var a, b := HandleOf(files, k), HandleOf(gs, k);
    if a >= 0 {
      assert IsOpen(gs, a) && gs[a].slot == k;
    }
    assert IsOpen(gs, fd);
    if b >= 0 && b != fd {
      assert IsOpen(files, b) && files[b].slot == k;
    }
  }

  lemma HandleClosed(files: seq<Handle>, fd: int, k: nat)
    requires IsOpen(files, fd) && OneHandlePerFile(files)
    ensures OneHandlePerFile(files[fd := files[fd].(used := false)])
    ensures HandleOf(files[fd := files[fd].(used := false)], k)
         == if k == files[fd].slot then -1 else HandleOf(files, k)
  {
    var gs := files[fd := files[fd].(used := false)];
    assert forall g :: IsOpen(gs, g) <==> g != fd && IsOpen(files, g);
    assert forall g :: IsOpen(gs, g) ==> gs[g] == files[g];
    var a, b := HandleOf(files, k), HandleOf(gs, k);
    if a >= 0 && a != fd {
      assert IsOpen(gs, a) && gs[a].slot == k;
    }
    if b >= 0 {
      assert IsOpen(files, b) && files[b].slot == k;
    }
  }
}
