/** The life of a file: created, written in any number of pieces, closed, read back, removed. */
module FileLife {
  import opened Bytes
  import opened Layout
  import opened Chains
  import opened Files
  import opened Directories
  import opened Dirents
  import opened DirectoryOps
  import opened Volumes
  import opened Ownership
  import opened Handles
  import opened FileSteps
  import opened InnoFileSystem

  lemma {:induction false} ConcatSnoc(chunks: seq<seq<byte>>, i: nat)
    requires i < |chunks|
    ensures Concat(chunks[..i + 1]) == Concat(chunks[..i]) + chunks[i]
  {
    if i == 0 {
      assert chunks[..1] == [chunks[0]];
    } else {
      ConcatSnoc(chunks[1..], i - 1);
      assert chunks[..i + 1][1..] == chunks[1..][..i] && chunks[..i][1..] == chunks[1..][..i - 1];
    }
  }

  /** One open file and what has been written to it so far. */
  ghost predicate Writing(fs: InnoFs, fd: int, k: nat, soFar: seq<byte>)
    reads fs, fs.vol
  {
    && fs.Valid() && CanWrite(fs.files, fd) && fs.files[fd].slot == k
    && k < ROOT_SLOTS && k in fs.owners.chains && InDataArea(fs.owners.chains[k])
    && Content(fs.vol.disk, fs.files, fs.owners, k) == soFar && fs.files[fd].offset == |soFar|
  }

  /** The sectors a file has after these writes. */
  function Sectors(chunks: seq<seq<byte>>): nat {
    if chunks == [] then 0
    else
      var front := chunks[..|chunks| - 1];
      SectorsAfterWrite(Sectors(front), |Concat(front)|, |chunks[|chunks| - 1]|)
  }

  lemma {:induction false} SectorsPrefix(chunks: seq<seq<byte>>, i: nat)
    requires i <= |chunks|
    ensures Sectors(chunks[..i]) <= Sectors(chunks)
    decreases |chunks|
  {
    if i == |chunks| {
      assert chunks[..i] == chunks;
    } else {
      var front := chunks[..|chunks| - 1];
      assert front[..i] == chunks[..i];
      SectorsPrefix(front, i);
    }
  }

  lemma SectorsNext(chunks: seq<seq<byte>>, i: nat)
    requires i < |chunks|
    ensures Sectors(chunks[..i + 1]) == SectorsAfterWrite(Sectors(chunks[..i]), |Concat(chunks[..i])|, |chunks[i]|)
  {
    assert chunks[..i + 1][..i] == chunks[..i];
  }

  /** Non-empty pieces need no more sectors than their bytes fill. */
  lemma {:induction false} SectorsForPieces(chunks: seq<seq<byte>>)
    requires chunks != [] && forall i :: 0 <= i < |chunks| ==> chunks[i] != []
    ensures Sectors(chunks) == SectorsFor(|Concat(chunks)|)
  {
    var front, n := chunks[..|chunks| - 1], |chunks| - 1;
    ConcatSnoc(chunks, n);
    assert chunks[..n + 1] == chunks;
    if front != [] {
      SectorsForPieces(front);
    }
  }

  lemma AppendRoom(fs: InnoFs, fd: int, k: nat, soFar: seq<byte>, n: nat)
    requires Writing(fs, fd, k, soFar)
    requires SectorsAfterWrite(|fs.owners.chains[k]|, |soFar|, n) <= |FreeSet(fs.vol.disk)| + |fs.owners.chains[k]|
    ensures RoomFor(fs.vol.disk, fs.files, fs.owners, fd, n)
    ensures fs.files[fd].first != 0 || FreeSet(fs.vol.disk) != {}
  {
    hide ChainsOk, UniqueNames, EntriesOk, OneHandlePerFile, Used, SectorsFor;
    HandleIsOk(fs.vol.disk, fs.files, fs.owners, fd);
    ChainAllocated(fs.vol.disk, fs.owners, k);
    HeadOf(fs.vol.disk, fs.owners.chains[k]);
  }

  lemma Appended(c: seq<byte>, piece: seq<byte>)
    ensures Overwrite(c, |c|, piece) == c + piece
  {
  }

  /** Appends one piece. */
  method WriteOne(fs: InnoFs, fd: int, piece: seq<byte>, ghost k: nat, ghost soFar: seq<byte>, ghost o: Owners)
    requires Writing(fs, fd, k, soFar) && Besides(o, fs.owners, k)
    requires SectorsAfterWrite(|fs.owners.chains[k]|, |soFar|, |piece|)
               <= |FreeSet(fs.vol.disk)| + |fs.owners.chains[k]|
    modifies fs, fs.vol
    ensures Writing(fs, fd, k, soFar + piece) && Besides(o, fs.owners, k)
    ensures |fs.owners.chains[k]| == SectorsAfterWrite(old(|fs.owners.chains[k]|), |soFar|, |piece|)
    ensures |FreeSet(fs.vol.disk)| + |fs.owners.chains[k]| == old(|FreeSet(fs.vol.disk)| + |fs.owners.chains[k]|)
    ensures fs.vol.disk.root == old(fs.vol.disk).root
    ensures fs.files == old(fs.files)[fd := fs.files[fd]]
  {
    hide Consistent, Content, FreeSet, SectorsAfterWrite, Overwrite, Besides, Grow, OthersKept, RoomFor;
    AppendRoom(fs, fd, k, soFar, |piece|);
    ghost var p := fs.owners;
    var written := fs.WriteFile(fd, piece);
    Appended(soFar, piece);
    BesidesAfterGrow(o, p, k, fs.owners.chains[k]);
  }

  /** Appends all pieces. */
  method WriteAll(fs: InnoFs, fd: int, chunks: seq<seq<byte>>, ghost k: nat, ghost o: Owners)
    requires Writing(fs, fd, k, []) && Besides(o, fs.owners, k) && fs.owners.chains[k] == []
    requires |FreeSet(fs.vol.disk)| >= Sectors(chunks)
    modifies fs, fs.vol
    ensures Writing(fs, fd, k, Concat(chunks)) && Besides(o, fs.owners, k)
    ensures fs.vol.disk.root == old(fs.vol.disk).root
    ensures fs.files == old(fs.files)[fd := fs.files[fd]]
  {
    hide Writing, FreeSet, Concat, Drop, Sectors, Besides, SectorsAfterWrite;
    var i := 0;
    ghost var room := |FreeSet(fs.vol.disk)|;
    NothingYet(chunks);
    InChains(fs, fd, k, []);
    while i < |chunks|
      invariant i <= |chunks| && Writing(fs, fd, k, Concat(chunks[..i])) && Besides(o, fs.owners, k)
      invariant k in fs.owners.chains && fd < |fs.files| && 0 <= fd
      invariant |fs.owners.chains[k]| == Sectors(chunks[..i]) && |FreeSet(fs.vol.disk)| + |fs.owners.chains[k]| == room
      invariant fs.vol.disk.root == old(fs.vol.disk).root
      invariant fs.files == old(fs.files)[fd := fs.files[fd]]
    {
      ConcatSnoc(chunks, i);
      SectorsNext(chunks, i);
      SectorsPrefix(chunks, i + 1);
      WriteOne(fs, fd, chunks[i], k, Concat(chunks[..i]), o);
      InChains(fs, fd, k, Concat(chunks[..i]) + chunks[i]);
      i := i + 1;
    }
    assert chunks[..i] == chunks;
  }

  lemma NothingYet(chunks: seq<seq<byte>>)
    ensures Concat(chunks[..0]) == [] && Sectors(chunks[..0]) == 0
  {
  }

  lemma InChains(fs: InnoFs, fd: int, k: nat, soFar: seq<byte>)
    requires Writing(fs, fd, k, soFar)
    ensures k in fs.owners.chains && 0 <= fd < |fs.files|
  {
  }

  /** The state in which a file of that many sectors can be created and read back. */
  ghost predicate ReadyFor(fs: InnoFs, name: Name, sectors: nat)
    reads fs, fs.vol
  {
    && fs.Valid() && ValidName(name) && NotBound(fs.vol.disk.root, name, ROOT_SLOTS)
    && FirstFree(fs.vol.disk.root) < ROOT_SLOTS && FreeHandle(fs.files) >= 0
    && |FreeSet(fs.vol.disk)| >= sectors
  }

  /** A closed file in slot `k` with the given bytes, beside what was there before. */
  ghost predicate Stored(fs: InnoFs, name: Name, uid: nat, k: nat, bytes: seq<byte>, o: Owners)
    reads fs, fs.vol
  {
    && fs.Valid() && ValidName(name) && k < ROOT_SLOTS && Binds(fs.vol.disk.root, name, k)
    && k in fs.owners.chains && InDataArea(fs.owners.chains[k])
    && HandleOf(fs.files, k) < 0 && FreeHandle(fs.files) >= 0 && Besides(o, fs.owners, k)
    && MayAccess(fs.vol.disk.root[k], uid) && !IsDirectory(fs.vol.disk.root[k])
    && Content(fs.vol.disk, fs.files, fs.owners, k) == bytes
  }

  lemma NoFlags(e: Dirent, uid: nat)
    requires e.flags == 0
    ensures MayAccess(e, uid) && !IsDirectory(e)
  {
  }

  /** Creates a file and opens it for writing. */
  method CreateForWriting(fs: InnoFs, name: Name, uid: nat, ghost sectors: nat) returns (fd: int, ghost k: nat)
    requires ReadyFor(fs, name, sectors)
    modifies fs, fs.vol
    ensures Writing(fs, fd, k, []) && Besides(old(fs.owners), fs.owners, k) && fs.owners.chains[k] == []
    ensures |FreeSet(fs.vol.disk)| >= sectors
    ensures fs.vol.disk.root[k] == Dirent(name, 0, 0, uid, 0) && fs.files[fd].mode.create
  {
    hide Consistent, Content, OthersKept, FirstFree, UniqueNames, FreeHandle;
    ghost var slot;
    fd, slot := fs.Open(name, Mode(false, true, true), uid);
    k := slot;
    BesidesAfterAdd(old(fs.owners), k);
    BitmapFrame(old(fs.vol.disk), fs.vol.disk);
  }

  /** Closing the file that is being written. */
  method CloseWritten(fs: InnoFs, fd: int, name: Name, uid: nat, ghost k: nat, ghost bytes: seq<byte>, ghost o: Owners)
    requires Writing(fs, fd, k, bytes) && Besides(o, fs.owners, k)
    requires fs.vol.disk.root[k] == Dirent(name, 0, 0, uid, 0) && ValidName(name)
    modifies fs, fs.vol
    ensures Stored(fs, name, uid, k, bytes, o)
  {
    hide Content, ChainsOk, UniqueNames, AllHandlesOk, EntriesOk, OthersKept, Besides;
    HandleClosed(fs.files, fd, k);
    fs.Close(fd);
    NoFlags(fs.vol.disk.root[k], uid);
    assert !fs.files[fd].used;
  }

  /** Creates a file, writes it in pieces and closes it. */
  method Store(fs: InnoFs, name: Name, uid: nat, chunks: seq<seq<byte>>) returns (ghost k: nat)
    requires ReadyFor(fs, name, Sectors(chunks))
    modifies fs, fs.vol
    ensures Stored(fs, name, uid, k, Concat(chunks), old(fs.owners))
  {
    hide Consistent, Content, Sectors, Concat, Besides, FreeSet;
    ghost var o := fs.owners;
    var fd;
    fd, k := CreateForWriting(fs, name, uid, Sectors(chunks));
    WriteAll(fs, fd, chunks, k, o);
    CloseWritten(fs, fd, name, uid, k, Concat(chunks), o);
  }

  lemma WholePiece(c: seq<byte>)
    ensures Piece(c, 0, |c|) == c
  {
  }

  /** Opens a stored file, reads it whole and closes it. */
  method Fetch(fs: InnoFs, name: Name, uid: nat, size: nat, ghost k: nat, ghost bytes: seq<byte>, ghost o: Owners)
    returns (out: seq<byte>)
    requires Stored(fs, name, uid, k, bytes, o) && size == |bytes|
    modifies fs, fs.vol
    ensures out == bytes
    ensures Stored(fs, name, uid, k, bytes, o)
  {
    hide Content, ChainsOk, AllHandlesOk, EntriesOk, OthersKept, Besides;
    ghost var files := fs.files;
    BoundOnlyAt(fs.vol.disk.root, name, k);
    RefusedWhenFound(fs.vol.disk, name, Mode(true, false, false), uid, k);
    var fd, slot := fs.Open(name, Mode(true, false, false), uid);
    assert slot == k;
    ContentLength(fs.vol.disk, fs.files, fs.owners, fd);
    var n;
    n, out := fs.ReadFile(fd, size);
    WholePiece(bytes);
    HandleClosed(fs.files, fd, k);
    fs.Close(fd);
    assert !fs.files[fd].used;
  }

  /** Storing, fetching and removing a file: the bytes come back as written, in whatever pieces, and
      the bitmap is afterwards exactly what it was before. */
  method StoreFetchRemove(fs: InnoFs, name: Name, uid: nat, chunks: seq<seq<byte>>) returns (out: seq<byte>)
    requires ReadyFor(fs, name, Sectors(chunks))
    modifies fs, fs.vol
    ensures fs.Valid()
    ensures out == Concat(chunks)
    ensures fs.vol.disk.bitmap == old(fs.vol.disk).bitmap
  {
    hide Content, UniqueNames, AllHandlesOk, EntriesOk, OthersKept, Concat, Owned, Accounted, UsedSet, FreeSet;
    ghost var o, d := fs.owners, fs.vol.disk;
    ghost var k := Store(fs, name, uid, chunks);
    out := Fetch(fs, name, uid, |Concat(chunks)|, k, Concat(chunks), o);
    BoundOnlyAt(fs.vol.disk.root, name, k);
    var result, slot := fs.Remove(name, uid);
    assert slot == k;
    SameOwnersSameBitmap(d, o, fs.vol.disk, fs.owners);
  }

  /** A file with one byte, opened and then removed: its handle is still open, on a sector that is free. */
  method RemoveOpenFile(fs: InnoFs, name: Name, uid: nat) returns (fd: int)
    requires ReadyFor(fs, name, 1)
    modifies fs, fs.vol
    ensures IsOpen(fs.files, fd) && fs.files[fd].first != 0 && fs.files[fd].first !in UsedSet(fs.vol.disk)
    ensures forall p :: !Consistent(fs.vol.disk, fs.files, p)
  {
    hide Content, ChainsOk, UniqueNames, AllHandlesOk, EntriesOk, OthersKept, Concat, UsedSet, FreeSet, ReadyFor;
    hide Stored;
    hide Consistent;
    ghost var o := fs.owners;
    OneByte();
    ghost var k := Store(fs, name, uid, [[7]]);
    fd := OpenStored(fs, name, uid, k, [7], o);
    ghost var d, p := fs.vol.disk, fs.owners;
    var result, slot := fs.Remove(name, uid);
    assert result == 0 && slot == k;
    RemovedWhileOpen(d, fs.files, p, fd, fs.vol.disk);
  }

  lemma OneByte()
    ensures Concat([[7]]) == [7] && Sectors([[7]]) == 1
  {
    assert [[7]][1..] == [] && [[7]][..0] == [];
  }

  /** Opens a stored, non-empty file for reading and writing. */
  method OpenStored(fs: InnoFs, name: Name, uid: nat, ghost k: nat, ghost bytes: seq<byte>, ghost o: Owners)
    returns (fd: int)
    requires Stored(fs, name, uid, k, bytes, o) && bytes != []
    modifies fs, fs.vol
    ensures fs.Valid() && IsOpen(fs.files, fd) && fs.files[fd].slot == k && fs.files[fd].first != 0
    ensures k < ROOT_SLOTS && k in fs.owners.chains && HandleOf(fs.files, k) == fd
    ensures fs.vol.disk.root[k].first == fs.files[fd].first && MayAccess(fs.vol.disk.root[k], uid)
    ensures forall m: nat :: Binds(fs.vol.disk.root, name, m) <==> m == k
    ensures !NotBound(fs.vol.disk.root, name, ROOT_SLOTS)
  {
    hide Content, ChainsOk, AllHandlesOk, EntriesOk, OthersKept, Besides;
    BoundOnlyAt(fs.vol.disk.root, name, k);
    RefusedWhenFound(fs.vol.disk, name, Mode(true, true, false), uid, k);
    ghost var slot;
    fd, slot := fs.Open(name, Mode(true, true, false), uid);
    assert slot == k;
    ContentLength(fs.vol.disk, fs.files, fs.owners, fd);
    HandleIsOk(fs.vol.disk, fs.files, fs.owners, fd);
    ChainAllocated(fs.vol.disk, fs.owners, k);
    HeadOf(fs.vol.disk, fs.owners.chains[k]);
    BoundOnlyAt(fs.vol.disk.root, name, k);
  }
}
