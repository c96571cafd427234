# InnovatiOS in Dafny

InnovatiOS is a small x86_64 kernel. This project models the parts of it that carry real invariants and
proves what they are for.

**InnoFS, the file system.** A bitmap hands out sectors; a file is a chain of sectors with 508 bytes each;
directories are slots, in a fixed root region or in a chain of sectors. The disk is modelled by its regions
(bitmap sectors as bytes, root slots, data sectors with a link and a payload). Reading and writing a chain
are loops over sectors, proved to be a slice and an overwrite of one byte sequence. The invariant
`Handles.Consistent` says that the chains of all root files are acyclic, lie in the data area, do not meet,
and are marked together with the reserved sectors as exactly the used part of the bitmap; every operation
keeps it. `FileRuns.FormatAndRun` puts this together: from a disk as formatting leaves it, over any run of
opens, reads, writes, closes and removals, the disk represents a plain map from names to bytes and numbers of
sectors, each answer is the one the state demands, and in every state each used sector is reserved or in a
file's chain. What does not last is the disk itself: making the default directories overwrites the superblock,
so the next start formats again (`FileRuns.RunAndRestart`). Paths are looked up at any depth, and where a path
leads does not change under operations on other names (`LookupRuns.UntouchedFound`).

**Memory.** The page allocator refines a set of free pages, with a search hint whose soundness is an
invariant. The page-table graph refines a map from 36-bit page numbers to words, over any run in which pages
are also taken, written and returned by others. The heap's block list tiles its arena, and over any run each
client finds its own words in its own block. In all three, every answer of a run is the one the state before
it demands: a mapping fails only when the free pages do not suffice, a request only when nothing fits. Pages
leave the free set only into page tables and into the hands of those who asked for them.

**Algorithms.** The integer line loop plots the rounded points of the ideal line; the two-row edit distance
is the least number of single-character edits; the in-place path resolver computes a functional normal form
under which changing directory composes.

**Step systems.** Threads on a serial port interleave one memory or port access at a time; the console grid
is a window on an unlimited terminal, which shows a text as its paragraphs, wrapped at the screen's width; the timer switch lets each task see the registers it would see alone.

Each object the kernel updates in place is a class (`Volume`, `InnoFs`, `Pmm`, `Vmm`, `Heap`, `Vfs`,
`Console`, `Port`, `Scheduler`), and each of its loops is a loop here. Ghost parameters name the chain, path
or position a loop is at.

## Where code and documentation differ

The model follows the code.

- innovatios_fs.md:18 gives directory entries 128 bytes; the packed struct has 127, and four of them fill the
  508 payload bytes of a data sector (kernel/src/fs/innofs.c:21-32).
- innovatios_fs.md:11 gives a numeric magic; the code compares the text "InnoFS Alpha"
  (kernel/src/fs/innofs.c:7, kernel/src/fs/innofs.c:288).
- The superblock claims 65536 sectors, but two bitmap sectors manage 8192 (kernel/src/fs/innofs.c:301-303).

## Where the code does not keep a property

Each has a proof of when it does: exactly, where an "exactly" stands below.

- Truncation, close and removal count the entries of a chained directory from byte 0 of the sector, lookup
  counts them from byte 4. A close leaves the right entry exactly when size and first sector coincide, the
  first sector is the old one, and a name of 112 bytes or more happens to end in the bytes of the size
  (`ChainedEntries.CloseRight`; `ChainedEntries.CloseRenames` is a sector where a close renames the file).
  Truncation works exactly on an empty file with a name of at most 112 bytes (`ChainedEntries.TruncateRight`).
  Removal never works (`ChainedEntries.RemoveNeverWorks`): it clears a byte of the link or of the entry before
  (`ChainedEntries.RemoveMisplaced`). Handle-level results therefore hold for any chain, and metadata results
  are stated for root files.
- Removing an open file leaves a handle on sectors that are free, or loses them. Some ownership of sectors
  accounts for disk and handles afterwards exactly when the file was not open
  (`FileSteps.RemoveNeedsClosed`); `FileLife.RemoveOpenFile` is an instance.
- A write does not check the allocations that extend a chain. On a disk without room for it, the chain takes
  all free sectors and holds the bytes that fit, other files keep theirs, the rest zeroes and overwrites
  sector 0, and the full count is returned (`FileSteps.CutShort`, in `InnoFileSystem.InnoFs.WriteFile`). The
  disk still mounts exactly when there was room (`Format.WriteKeepsMount`); without room, some ownership of
  sectors accounts for disk and handles exactly when no byte was to be written (`FileSteps.WriteNeedsRoom`).
- Adding the first entry to a directory without a sector rewrites the first word of sector 0. After an
  addition the disk still mounts exactly when the directory had a sector (`Format.AdditionKeepsMount`,
  `DirectoryMaking.MadeKeepsMount`). Formatting itself makes `/root/global` in a directory without a sector, so
  no disk that it formats ever mounts (`DirectoryMaking.FreshUnmounted`): every start formats again, and no
  file outlives a restart (`FileRuns.RunAndRestart`).
- The number of a directory's first sector is written back like the metadata above. For a directory that is
  itself in a chained directory it lands in the size, and lookup still finds no first sector, so the next
  addition to that directory overwrites sector 0 again. The entry comes out right exactly when the number was
  size and first sector before (`ChainedEntries.ParentRight`).
- Adding a name cuts it to 115 bytes, but the test for a present name compares the whole name. Names stay
  unique exactly when the cut name is not present either (`DirectoryOps.AddedUnique`).
- Removing a directory frees its own sectors only. Those of the files in it stay in use, and nothing leads to
  them (`FileSteps.DirectoryRemoved`).
- A request to the page allocator that gets page 0 is answered with address 0, which means failure: the page
  is lost (`PhysicalPageRuns.ZeroPageLost`). The answer 0 means that nothing was taken exactly when page 0 is
  not the lowest free page, or not the start of a free run of the requested length
  (`PhysicalPageRuns.ZeroMeansNothing`); so it does along every run in which page 0 is not free at the start
  and never given back (`PhysicalPageRuns.ZeroMeansNothingAlong`).
- A line-status interrupt adds to a serial port's overrun counter outside the lock. Among interrupt handlers
  the counter is exact under every schedule if and only if nobody reports an overrun, or one thread does and
  either no other thread receives bytes, or those that can arrive before its last report are at most 255, all
  of which the ring takes (`SerialOverruns.ExactIff`). The condition suffices for any threads
  (`SerialOverruns.OverrunsExact`); when it fails, a schedule loses an addition (`SerialOverruns.Lost`).
- The address mask of the page tables keeps bits 52 to 63, so a no-execute flag shows up in translated
  addresses: `VirtualMemory.MappedTranslation` gives the condition, `VirtualMemory.NoExecuteLeaks` an instance.
- Rounding a heap request up to eight bytes wraps around for the last seven sizes: `KernelHeap.AlignHolds`.
- Past 32 components the path resolver drops a component but not the `..` behind it:
  `Paths.DotDotCancels`, and `Paths.LimitMatters` for whole paths.
- The line loop overflows 32 bits for some lines: `Lines.ExactlyFits` gives the condition on the two sides,
  with their greatest common divisor. 715827883 is the longest side that is safe whatever the other is
  (`Lines.SafeLength`).

## Model

| member | source | states |
|---|---|---|
| Bytes.ByteBitUpdate | kernel/src/fs/innofs.c:66-67 | setting or clearing one bit of a byte is seen at that bit only |
| Bytes.FullByte | kernel/src/fs/innofs.c:64 | a byte is 0xFF exactly when all its bits are set, so the search skips only full bytes |
| Bytes.Le32RoundTrip | kernel/src/fs/innofs.c:21-27 | a 32-bit field written into a buffer is read back |
| Layout.BitmapPosition | kernel/src/fs/innofs.c:69 | the allocator's sector number decodes to the sector, byte and bit it came from |
| Layout.BitmapUpdate | kernel/src/fs/innofs.c:67-90 | writing one bitmap byte changes the state of one sector only |
| Layout.BitmapDetermined | kernel/src/fs/innofs.c:59-93 | equal sets of used sectors mean equal bitmap bytes |
| Volumes.Volume.BitmapAllocSector | kernel/src/fs/innofs.c:59-79 | takes the lowest free sector and nothing else; 0 and no change exactly on a full disk |
| Volumes.Volume.BitmapFreeSector | kernel/src/fs/innofs.c:81-93 | frees that sector only; reserved sectors are never freed |
| Chains.ChainAcyclic | kernel/src/fs/innofs.c:29-32 | a finite chain of links never visits a sector twice |
| Chains.ChainUnique | kernel/src/fs/innofs.c:486-500 | the first sector determines the whole chain |
| Chains.ChainCapacity | kernel/src/fs/innofs.c:301-308 | a chain has at most 8192 sectors, and its bytes fit 32 bits |
| Chains.DataWrite | kernel/src/fs/innofs.c:508-509 | writing into one sector of a chain is an overwrite of the chain's bytes and keeps it a chain |
| Chains.ExtendLinks | kernel/src/fs/innofs.c:492-496 | linking a fresh zeroed sector behind the last one gives a chain one longer |
| Chains.ExtendContent | kernel/src/fs/innofs.c:492-496 | its bytes are the old ones followed by 508 zeros |
| Chains.GrownByOne | kernel/src/fs/innofs.c:518-523 | growing stays inside what was free, and used sectors grow by the new one |
| Chains.GrownWrite | kernel/src/fs/innofs.c:502-509 | a data write after growing keeps all that growing promised |
| Volumes.Volume.LinkNew | kernel/src/fs/innofs.c:262-269 | links the lowest free sector, zeroed, or changes nothing on a full disk; behind sector 0 the link goes into the superblock |
| Volumes.Volume.Extend | kernel/src/fs/innofs.c:491-496 | the same without the check: on a full disk it zeroes sector 0 |
| Volumes.Volume.FollowOrExtend | kernel/src/fs/innofs.c:490-499 | the next sector of the chain, extended with zeros when there is none; lost exactly at the chain's end on a full disk, the chain and all other sectors unchanged |
| Volumes.Volume.StartChain | kernel/src/fs/innofs.c:479-484 | the first sector of an empty file, zeroed; nothing on a full disk |
| Volumes.Volume.SkipExtending | kernel/src/fs/innofs.c:486-500 | reaches sector n, the bytes grown by zeros only as far as needed; lost exactly without enough free sectors, all of which the chain then has |
| Volumes.Volume.WriteSector | kernel/src/fs/innofs.c:503-509 | one sector's share of a write is an overwrite at the position |
| Volumes.Volume.WriteLoop | kernel/src/fs/innofs.c:502-528 | all rounds together overwrite the bytes at the offset, growing the chain exactly as far as needed; lost exactly without enough free sectors, the bytes that fit being in the chain |
| Volumes.Volume.WriteChain | kernel/src/fs/innofs.c:479-531 | with room, the chain's bytes become the old ones, padded with zeros, overwritten at the offset; without, the chain takes all free sectors and holds the bytes that fit, and the superblock is overwritten; other sectors keep their data |
| Volumes.RoomLeft | kernel/src/fs/innofs.c:487-520 | a write has room exactly when both its loops find enough free sectors |
| Volumes.Volume.FreeChain | kernel/src/fs/innofs.c:555-562 | frees exactly the sectors of the chain |
| Volumes.WriteMeaning | kernel/src/fs/innofs.c:479-528 | first sector, skipping and writing add up to one overwrite of the zero-padded bytes |
| Volumes.FullMeaning | kernel/src/fs/innofs.c:486-528 | a write that runs out of sectors while skipping or writing leaves the padded bytes, overwritten as far as they go |
| Files.TwoWrites | kernel/src/fs/innofs.c:502-516 | two writes in a row are one write of both |
| Files.ChunkedWrite | kernel/src/fs/innofs.c:470-531 | any split of a write into non-empty pieces gives the same bytes, offset and size |
| Files.TwoReads | kernel/src/fs/innofs.c:449-465 | two reads in a row are one read of both lengths |
| Files.ChunkedRead | kernel/src/fs/innofs.c:433-468 | any split of a read gives the same bytes |
| Files.ReadAfterWrite | kernel/src/fs/innofs.c:433-531 | reading where something was written gives it back, and the bytes around it are unchanged |
| Files.WriteIsOverwrite | kernel/src/fs/innofs.c:508-515 | cut at the size, a chain write is a plain overwrite of the file's bytes |
| InnoFileSystem.SkipSectors | kernel/src/fs/innofs.c:443-447 | follows n links, 0 past the end |
| InnoFileSystem.ReadChain | kernel/src/fs/innofs.c:449-467 | the loop returns exactly the bytes from the offset to the smaller of count, size and chain end |
| Directories.LookupIsMap | kernel/src/fs/innofs.c:146-182 | a slot bound to a name is that name's entry in the map |
| Directories.SlotOf | kernel/src/fs/innofs.c:146-182 | every name of the map is bound in some slot |
| Directories.InsertBinding | kernel/src/fs/innofs.c:224-234 | filling a free slot adds one binding and keeps names unique |
| Directories.AppendFreeSlots | kernel/src/fs/innofs.c:262-270 | growing a directory by free slots changes no lookup |
| Directories.RemoveBinding | kernel/src/fs/innofs.c:565-568 | clearing a slot removes exactly its name |
| Directories.UpdateBinding | kernel/src/fs/innofs.c:537-543 | rewriting an entry under its name changes that binding only |
| Directories.ListingInOrder | kernel/src/fs/innofs.c:582-600 | larger indices list later slots, equal indices the same slot |
| Directories.ListingComplete | kernel/src/fs/innofs.c:582-600 | every live slot is listed under some index |
| Directories.ListingTotal | kernel/src/fs/innofs.c:582-600 | every index below the number of live slots lists one |
| Directories.BindingsCounted | kernel/src/fs/innofs.c:196-217 | with unique names, the map has as many names as there are live slots |
| Dirents.DirentRoundTrip | kernel/src/fs/innofs.c:21-27 | an encoded entry decodes to itself, names of up to 115 bytes included |
| Dirents.DirentFrame | kernel/src/fs/innofs.c:21-27 | an entry depends on its own 127 bytes only |
| Dirents.EntryUpdate | kernel/src/fs/innofs.c:246-252 | storing entry j of a sector changes entry j only |
| Dirents.ZeroEntries | kernel/src/fs/innofs.c:269-277 | a zeroed sector is four free slots |
| ChainedEntries.CloseMisplaced | kernel/src/fs/innofs.c:538-542 | a close leaves first sector, size and name tail in the wrong fields of a chained entry, and all other entries alone |
| ChainedEntries.CloseRight | kernel/src/fs/innofs.c:533-546 | the whole entry comes out right if and only if size == first sector == old first sector and the name survives |
| ChainedEntries.CloseRenames | kernel/src/fs/innofs.c:538-542 | a sector where size and first sector come out right and the name does not |
| ChainedEntries.TruncateMisplaced | kernel/src/fs/innofs.c:353-357 | truncation keeps the size of a chained entry and cuts its name to 112 bytes |
| ChainedEntries.TruncateRight | kernel/src/fs/innofs.c:351-358 | it works if and only if the file was empty and its name has at most 112 bytes |
| ChainedEntries.RemoveMisplaced | kernel/src/fs/innofs.c:565-568 | removal leaves its chained entry as it was, and clears the low byte of the link or the high byte of the first sector of the entry before |
| ChainedEntries.RemoveNeverWorks | kernel/src/fs/innofs.c:548-571 | the name is found after a removal as before |
| ChainedEntries.ParentMisplaced | kernel/src/fs/innofs.c:386-391 | the write-back of a directory's first sector puts its number into the size of a chained entry, and leaves the first sector and all other entries alone |
| ChainedEntries.ParentRight | kernel/src/fs/innofs.c:423-428 | the entry comes out right if and only if the number was its size and first sector before; an entry without a first sector keeps having none |
| DirectoryOps.FindInRoot | kernel/src/fs/innofs.c:147-162 | the slot the name is bound to, or that it is bound in none |
| DirectoryOps.AddToRoot | kernel/src/fs/innofs.c:196-237 | fails exactly on a present name or a full root; else the first free slot, and nothing else, holds the name cut to 115 bytes, the owner and the flags asked for, size 0 and no first sector |
| DirectoryOps.ListRoot | kernel/src/fs/innofs.c:584-601 | the index-th live slot, exactly when there is one |
| DirectoryOps.InsertedBinding | kernel/src/fs/innofs.c:238-281 | the entry added, in a free slot or in a new sector, is one new binding with all others as before |
| DirectoryOps.AddedUnique | kernel/src/fs/innofs.c:198-226 | after adding a name that is not present names are unique if and only if the cut name was not present either |
| DirectoryOps.FindInChain | kernel/src/fs/innofs.c:163-182 | the same as in the root, along a chain |
| DirectoryOps.FindFreeInChain | kernel/src/fs/innofs.c:239-260 | the first free slot of a chain, or its last sector |
| DirectoryOps.FreeEntry | kernel/src/fs/innofs.c:239-270 | makes room when there is none, in the lowest free sector, failing exactly on a full disk; the first sector of an empty directory goes into the superblock |
| DirectoryOps.AddToChain | kernel/src/fs/innofs.c:205-281 | fails exactly on a present name or when neither slot nor sector is free; else such an entry is in the first free slot |
| DirectoryOps.ListChain | kernel/src/fs/innofs.c:602-626 | the index-th live entry along the chain, exactly when there is one |
| DirectoryOps.SlotsWrite | kernel/src/fs/innofs.c:252 | storing an entry in a sector of the chain changes one slot of the directory |
| PathLookup.TakePiece | kernel/src/fs/innofs.c:136-141 | the piece up to the next slash, of 115 characters at most, and the rest of the path behind it |
| PathLookup.PiecesAreComponents | kernel/src/fs/innofs.c:135-141 | a path is cut into its components if and only if none is longer than 115 characters |
| PathLookup.TrailingSlash | kernel/src/fs/innofs.c:135-141 | a slash at the end makes no difference |
| PathLookup.SplitPath | kernel/src/fs/innofs.c:102-116 | a path is cut at its last slash, which must exist |
| PathLookup.SplitOfJoined | kernel/src/fs/innofs.c:102-116 | of a path of components the last is split off, and the parent is the path of the others |
| PathLookup.LookupOne | kernel/src/fs/innofs.c:146-182 | looking up one name gives the first entry of that name, if there is one |
| PathLookup.LookupJoin | kernel/src/fs/innofs.c:135-185 | looking up a path is looking up its front, and then the rest in the directory found there |
| PathLookup.FindDirent | kernel/src/fs/innofs.c:118-188 | at any depth, the entry that looking up the pieces one after the other gives, and where it is stored; fails exactly on a path that is not absolute or a piece that is absent; the root itself is a directory that starts at sector 3 |
| PathLookup.EmptyPieceAbsent | kernel/src/fs/innofs.c:146-182 | a path with two slashes in a row leads nowhere |
| PathLookup.LookupFrame | kernel/src/fs/innofs.c:118-188 | looking up reads the sectors of the directories on the way only |
| Ownership.OwnedDisjoint | kernel/src/fs/innofs.c:59-79 | chains of different files do not meet |
| Ownership.GrowKeeps | kernel/src/fs/innofs.c:470-531 | growing one chain keeps the invariant and every other file's bytes |
| Ownership.AddKeeps | kernel/src/fs/innofs.c:220-237 | a new entry owns no sector |
| Ownership.EntryKeeps | kernel/src/fs/innofs.c:537-543 | writing an entry back keeps the ownership of sectors |
| Ownership.DropKeeps | kernel/src/fs/innofs.c:555-570 | removal gives back exactly the file's sectors |
| Ownership.Conservation | kernel/src/fs/innofs.c:59-93 | used bits = 19 reserved + foreign sectors + the lengths of all chains of the root directory |
| Ownership.SameOwnersSameBitmap | kernel/src/fs/innofs.c:59-93 | equal owned sectors mean equal bitmaps |
| Handles.HandleOfUnique | kernel/src/fs/innofs.c:34-43 | with one handle per file, a file's handle is found from its slot |
| Handles.FreeHandle | kernel/src/fs/innofs.c:49-57 | the lowest unused handle, -1 exactly when all are used |
| FileSteps.ReadKeeps | kernel/src/fs/innofs.c:449-465 | moving a read offset keeps the invariant and all contents |
| FileSteps.WriteWhole | kernel/src/fs/innofs.c:470-531 | a write keeps the invariant, overwrites one file, and keeps every other |
| FileSteps.WriteCutShort | kernel/src/fs/innofs.c:470-531 | a write without room: what handle, chain and superblock hold, and that other files are kept |
| FileSteps.WriteNeedsRoom | kernel/src/fs/innofs.c:470-531 | afterwards some ownership accounts for disk and handles if and only if no byte was to be written |
| FileSteps.TruncateKeeps | kernel/src/fs/innofs.c:351-358 | truncation empties one file, keeps the others and the invariant |
| FileSteps.CreateKeeps | kernel/src/fs/innofs.c:385-401 | creation adds an empty file, keeps the others and the invariant |
| FileSteps.OpenKeeps | kernel/src/fs/innofs.c:360-368 | opening changes no content |
| FileSteps.CloseKeeps | kernel/src/fs/innofs.c:533-546 | closing writes the metadata back so that the file keeps its bytes without the handle |
| FileSteps.RemoveKeeps | kernel/src/fs/innofs.c:555-570 | removing a closed file keeps the invariant and every other file |
| FileSteps.RemoveNeedsClosed | kernel/src/fs/innofs.c:548-571 | after a removal some ownership accounts for disk and handles if and only if the file was not open |
| FileSteps.RemovedWhileOpen | kernel/src/fs/innofs.c:555-568 | the handle of a removed file keeps a sector that is free, or its sectors are lost |
| FileSteps.DirectoryRemoved | kernel/src/fs/innofs.c:548-571 | after removing a directory the sectors of the files in it stay in use, and no chain of the root directory has them |
| InnoFileSystem.InnoFs.Read | kernel/src/fs/innofs.c:433-468 | for any well-formed chain: the bytes, their number, and the handle moved by it |
| InnoFileSystem.InnoFs.Write | kernel/src/fs/innofs.c:470-531 | for any well-formed chain: the bytes overwritten, and handle offset, size and first sector; without room the bytes that fit, the superblock overwritten and the full count returned |
| InnoFileSystem.InnoFs.ReadFile | kernel/src/fs/innofs.c:433-468 | on root files: the slice of the content at the offset; no content changes |
| InnoFileSystem.InnoFs.WriteFile | kernel/src/fs/innofs.c:470-531 | on root files: with room, content overwritten at the offset, others kept, sectors accounted for; without, the bytes that fit, others kept, and the invariant lost exactly when there were bytes to write |
| InnoFileSystem.InnoFs.AllocFd | kernel/src/fs/innofs.c:49-57 | the lowest unused handle |
| InnoFileSystem.InnoFs.FindOrCreate | kernel/src/fs/innofs.c:340-391 | refused exactly for a directory, an entry that is for root or its owner only, or without an entry to create; a created file is empty and belongs to its creator; truncation changes the size only |
| InnoFileSystem.RefusedMeans | kernel/src/fs/innofs.c:95-100 | refusal in terms of the flags, the owner and the user |
| InnoFileSystem.InnoFs.Open | kernel/src/fs/innofs.c:340-405 | the same with the handle; without a free handle the file is still created or truncated |
| InnoFileSystem.InnoFs.Close | kernel/src/fs/innofs.c:533-546 | only the handle and, if it could write or create, size and first sector of its entry change; contents and invariant are kept |
| InnoFileSystem.InnoFs.Remove | kernel/src/fs/innofs.c:548-571 | fails exactly on an absent name or one that is for root or another owner only; else the entry is free and so are the sectors it led to; the invariant survives exactly when the file was not open |
| FileLife.Store | kernel/src/fs/innofs.c:340-546 | a file created, written in any pieces and closed holds their concatenation |
| FileLife.Fetch | kernel/src/fs/innofs.c:340-468 | opening and reading a stored file gives its bytes |
| FileLife.SectorsForPieces | kernel/src/fs/innofs.c:487-520 | non-empty pieces need exactly the sectors their bytes fill |
| FileLife.StoreFetchRemove | kernel/src/fs/innofs.c:340-571 | with exactly the sectors the pieces need, the bytes come back as written, and removal restores the bitmap bit for bit |
| FileLife.RemoveOpenFile | kernel/src/fs/innofs.c:548-571 | an open file removed: its handle is on a free sector, and no ownership accounts for it |
| FileRuns.KeptFile | kernel/src/fs/innofs.c:340-571 | an operation on one file leaves the name and bytes of any other |
| FileRuns.FilesUpdated | kernel/src/fs/innofs.c:340-546 | an operation on one file updates the map at its name only |
| FileRuns.FilesRemoved | kernel/src/fs/innofs.c:548-571 | removal takes one name out of the map |
| FileRuns.OnlyThisFile | kernel/src/fs/innofs.c:340-571 | an operation on one file leaves every other entry, its sectors and all foreign sectors as they were |
| FileRuns.Perform | kernel/src/fs/innofs.c:340-571 | one operation on disk and on the map agree in effect; nothing happens exactly on a refusal, a busy file, or a write without room; foreign sectors stay the same |
| FileRuns.Run | kernel/src/fs/innofs.c:340-571 | along any run every state represents the map the same events make, every answer is the one its state demands, every read returned the map's bytes, and the used sectors are 19, the foreign ones of the start and those of the chains |
| FileRuns.NoSectorLost | kernel/src/fs/innofs.c:59-93 | in every state of a run, used bits = 19 reserved + the foreign sectors of the start + the lengths of all chains |
| FileRuns.FreshRepresents | kernel/src/fs/innofs.c:329-332 | a freshly formatted disk represents the two default directories, of one sector and of none |
| FileRuns.FormatAndRun | kernel/src/fs/innofs.c:298-571 | all this from a freshly formatted disk on, without foreign sectors; afterwards the disk does not mount |
| FileRuns.RunAndRestart | kernel/src/fs/innofs.c:286-571 | after any run and a restart the disk is as freshly formatted |
| LookupRuns.LookupKept | kernel/src/fs/innofs.c:118-571 | one operation does not change where a path of any depth under another name leads |
| LookupRuns.UntouchedFound | kernel/src/fs/innofs.c:118-571 | over any run, a path whose first component no event is about leads to the same entry in every state |
| LookupRuns.GlobalFound | kernel/src/fs/innofs.c:330-331 | on a freshly formatted disk the path /root/global leads to the directory made there |
| Format.FormatRegions | kernel/src/fs/innofs.c:298-325 | the first part of formatting writes a mountable superblock, marks exactly the 19 reserved sectors and frees all root slots |
| Format.SuperblockFields | kernel/src/fs/innofs.c:298-308 | the superblock records the sizes and places of the regions that all operations go by |
| Format.FormattedIsConsistent | kernel/src/fs/innofs.c:298-325 | the disk then satisfies the invariant |
| Format.AddToEmptyDirectoryUnmounts | kernel/src/fs/innofs.c:240-267 | a first entry in an empty directory leaves the disk mountable iff the new sector number spells the magic |
| Format.AllocatedSectorUnmounts | kernel/src/fs/innofs.c:262-267 | which no allocated sector number does |
| Format.WriteKeepsMount | kernel/src/fs/innofs.c:479-531 | after a write a mountable disk still mounts if and only if the write had room |
| Format.AdditionKeepsMount | kernel/src/fs/innofs.c:239-281 | after an addition it still mounts if and only if the directory had a sector |
| DirectoryMaking.MadeKeeps | kernel/src/fs/innofs.c:421-430 | an entry made in a directory of the root keeps the invariant and every other file |
| DirectoryMaking.MadeKeepsMount | kernel/src/fs/innofs.c:239-281 | and the disk still mounts if and only if the directory had a sector |
| DirectoryMaking.MakeInRoot | kernel/src/fs/innofs.c:408-431 | fails exactly on a present name or a full root; else one empty directory more, with the owner and flags asked for, open to exactly the users these admit; invariant and other files kept |
| DirectoryMaking.MakeInDirectory | kernel/src/fs/innofs.c:408-431 | fails exactly without such a directory that is open to the user, on a present name, or when neither slot nor sector is free; else such an entry is in the directory's first free slot, a first sector is recorded in the root entry and the superblock, invariant and other files kept |
| DirectoryMaking.EntryMade | kernel/src/fs/innofs.c:95-100 | who may use a new directory: root, and others as far as the flags and the owner allow |
| DirectoryMaking.MakePrivate | userspace/src/user.c:108-113 | in a directory made for a user with the owner-only flag, that user and root can make entries, and nobody else |
| DirectoryMaking.Mkfs | kernel/src/fs/innofs.c:298-338 | formatting as a whole leaves a consistent disk with the directories root and home, the entry global in the one sector of root, 20 used sectors, and that sector's number in the superblock |
| DirectoryMaking.FreshUnmounted | kernel/src/fs/innofs.c:286-338 | such a disk does not mount |
| DirectoryMaking.Init | kernel/src/fs/innofs.c:286-296 | starting formats exactly the disks that do not mount, and leaves the others alone |
| PhysicalPages.PageSet | kernel/src/mm/pmm.c:12-14 | changing one bit changes the free set by that page |
| PhysicalPages.Pmm.Init | kernel/src/mm/pmm.c:16-73 | free pages are the usable regions less the bitmap's own pages, counted; the bitmap has a bit for every page and no byte more than that needs, and takes a page for every 32768; fails exactly when no usable region holds it, or the first that does starts at 0 |
| PhysicalPages.UsableMeans | kernel/src/mm/pmm.c:50-60 | usable pages are those that lie whole in a usable region |
| PhysicalPages.HostFound | kernel/src/mm/pmm.c:29-41 | the bitmap goes into the first usable region with a bit for every page |
| PhysicalPages.ReservedCount | kernel/src/mm/pmm.c:61-69 | the bitmap costs one usable page for every 32768 pages of memory, rounded up |
| PhysicalPages.Pmm.AllocPage | kernel/src/mm/pmm.c:75-93 | the first free page from the hint, else the first from 0; 0 exactly when none is free or page 0 is the one taken; a sound hint stays sound |
| PhysicalPages.Pmm.HintedPickIsLowest | kernel/src/mm/pmm.c:75-93 | with a sound hint the page taken is the lowest free one, so the wrap-around search never succeeds |
| PhysicalPages.Pmm.AllocPages | kernel/src/mm/pmm.c:95-112 | the lowest run of free pages; fails exactly when there is none |
| PhysicalPages.SkipBlocked | kernel/src/mm/pmm.c:99-109 | a taken page blocks every run start the search skips |
| PhysicalPages.RunCount | kernel/src/mm/pmm.c:104-105 | taking a run lowers the count by its length |
| PhysicalPages.Pmm.FreePage | kernel/src/mm/pmm.c:114-122 | frees that page, ignores pages outside memory, keeps counter and hint right |
| PhysicalPages.Pmm.FreePages | kernel/src/mm/pmm.c:124-129 | frees exactly the pages of the range that are in memory |
| PhysicalPages.Pmm.AllocThenFree | kernel/src/mm/pmm.c:95-129 | freeing a run just allocated restores the free set and the counter |
| PhysicalPageRuns.Perform | kernel/src/mm/pmm.c:75-129 | each request gets the lowest free page or run, or nothing and the answer 0 when there is none, and each return frees exactly its pages |
| PhysicalPageRuns.ZeroMeansNothing | kernel/src/mm/pmm.c:75-112 | for a request, 0 is answered exactly when nothing is taken, if and only if page 0 is not the lowest free page, or no run of that length starts at it |
| PhysicalPageRuns.ZeroMeansNothingAlong | kernel/src/mm/pmm.c:75-129 | so at every request of a run in which page 0 is not free at the start and never given back |
| PhysicalPageRuns.ZeroPageLost | kernel/src/mm/pmm.c:75-93 | with page 0 free the next request takes it and is answered 0 |
| PhysicalPageRuns.Run | kernel/src/mm/pmm.c:75-129 | so over any sequence of single and multiple requests and returns, the counter being the number of free pages |
| PhysicalPageRuns.InitAndRun | kernel/src/mm/pmm.c:16-129 | so from the memory map on |
| PageTables.OrSplit | kernel/src/mm/vmm.c:29 | or-ing flags below an aligned address keeps both apart |
| PageTables.OrPage | kernel/src/mm/vmm.c:63-96 | masking recovers the page of the address combined with the flags' high bits |
| PageTables.PathIsPageNumber | kernel/src/mm/vmm.c:9-12 | the four indices are the digits of the 36-bit page number |
| PageTables.SamePath | kernel/src/mm/vmm.c:9-12 | two addresses share all indices exactly when they share the page number |
| PageTables.ReachIgnores | kernel/src/mm/vmm.c:26-27 | rewriting a page that is no table is invisible to the walk |
| PageTables.ReachElsewhere | kernel/src/mm/vmm.c:29 | writing one word matters only to walks through it |
| VirtualMemory.LinkKeeps | kernel/src/mm/vmm.c:22-30 | linking a zeroed page that is no table keeps the graph a tree and every translation |
| VirtualMemory.LeafKeeps | kernel/src/mm/vmm.c:63-79 | writing a last-level word changes one page only and no table |
| VirtualMemory.Vmm.CreateTable | kernel/src/mm/vmm.c:22-30 | the new table was free, is zeroed and linked as present, writable and open to user mode, and is the one page taken; or nothing changed and no page is free |
| VirtualMemory.LinkIsNew | kernel/src/mm/vmm.c:29 | linking a table writes its page and these three flags, and no other link |
| VirtualMemory.LinksStayOpen | kernel/src/mm/vmm.c:29 | where user mode can reach all tables, it can reach those that mapping adds |
| VirtualMemory.Vmm.GetOrCreateTable | kernel/src/mm/vmm.c:21-32 | the table below an index, created if missing |
| VirtualMemory.Vmm.GetTableOrNull | kernel/src/mm/vmm.c:34-37 | the table below an index if there is one |
| VirtualMemory.Vmm.WalkCreating | kernel/src/mm/vmm.c:54-61 | the last-level table; it fails exactly when more tables are missing than pages free, and then changes no translation |
| VirtualMemory.Vmm.Map | kernel/src/mm/vmm.c:53-67 | success binds exactly one page, failure none, and failure comes exactly when more tables are missing than pages free; the pages that leave the free set are exactly the new tables; pages of others keep their words |
| VirtualMemory.Vmm.Unmap | kernel/src/mm/vmm.c:69-81 | clears exactly one page, tables stay |
| VirtualMemory.Vmm.Translate | kernel/src/mm/vmm.c:83-97 | frame and offset of the page's word, 0 when absent |
| VirtualMemory.MappedTranslation | kernel/src/mm/vmm.c:63-96 | a mapped page translates to its frame and offset iff the flags add no high bits |
| VirtualMemory.NoExecuteLeaks | kernel/src/mm/vmm.c:7-96 | an address for which the no-execute bit appears in the translation |
| VirtualMemory.UnmappedTranslation | kernel/src/mm/vmm.c:94 | without the present flag there is no translation |
| VirtualMemoryRuns.Perform | kernel/src/mm/vmm.c:21-97 | one operation, when it fails, and what becomes of the free pages |
| VirtualMemoryRuns.Run | kernel/src/mm/vmm.c:21-97 | over any run, with others taking pages and runs of pages, writing and returning them, tables stay a tree apart from their pages, each page's word is what its last successful operation left, held pages keep their words, every answer is the one its state demands, and free pages go only into tables and to those who asked |
| VirtualMemoryRuns.NoPageLost | kernel/src/mm/vmm.c:21-97 | every page that was free at the start is free, held or a table in every state of the run |
| HeapBlocks.InOrder | kernel/src/mm/heap.c:36-51 | later blocks lie behind earlier ones |
| HeapBlocks.ArenaCovered | kernel/src/mm/heap.c:16-26 | headers and payloads add up to the arena |
| HeapBlocks.FirstFit | kernel/src/mm/heap.c:35-51 | the first free block that is large enough |
| HeapBlocks.SplicedTiling | kernel/src/mm/heap.c:38-47 | replacing neighbouring blocks by blocks over the same words keeps the tiling |
| HeapBlocks.FreedAfterTaken | kernel/src/mm/heap.c:31-68 | free after alloc restores the list if the block was split, else at most merges the block behind |
| HeapBlocks.TakenCosts | kernel/src/mm/heap.c:37-49 | a request of n words gets a block of at most n + 3; it costs n + 3 free words when the block had at least n + 4, else the block; all other blocks stay |
| HeapBlocks.FreedGains | kernel/src/mm/heap.c:57-68 | freeing gains the block's words, and a header when the block behind is free |
| KernelHeap.AlignHolds | kernel/src/mm/heap.c:12 | rounding holds the request iff it is at most 2^64 - 8 |
| KernelHeap.TakenTiling | kernel/src/mm/heap.c:38-48 | the header writes of an allocation describe the new block list |
| KernelHeap.FreedTiling | kernel/src/mm/heap.c:60-67 | the header writes of a free describe the new block list, and change nothing but that header |
| KernelHeap.NeighboursTouch | kernel/src/mm/heap.c:63-64 | the adjacency test always holds |
| KernelHeap.Separate | kernel/src/mm/heap.c:31-55 | held pieces are aligned, large enough, apart from each other and their headers, and hold their words |
| KernelHeap.KeptTaken | kernel/src/mm/heap.c:31-55 | an allocation adds one piece and keeps all others' words |
| KernelHeap.KeptFreed | kernel/src/mm/heap.c:57-68 | a free removes one piece and keeps all others' words |
| KernelHeap.KeptStored | kernel/src/mm/heap.c:49 | a client's write reaches no header and no other piece |
| KernelHeap.Heap.constructor | kernel/src/mm/heap.c:23-26 | one free block over the whole arena |
| KernelHeap.Heap.Kmalloc | kernel/src/mm/heap.c:31-55 | null exactly for size 0 or when every free block is too small; else the first that is large enough, handed out with at most three words to spare, the rest staying free but for a header |
| KernelHeap.Heap.Kfree | kernel/src/mm/heap.c:57-68 | the block is free and merged with a free successor, and the free words grow by exactly its own, and a header when merged |
| HeapRuns.Run | kernel/src/mm/heap.c:16-68 | over any run the blocks tile the arena, each held piece has its owner's last words in a block with at most three words to spare, and each operation does to the block list, and to the number of free words, what the list before it demands: null only when nothing fits |
| HeapRuns.HeapInit | kernel/src/mm/heap.c:16-29 | the arena is the lowest run of free pages; there is no heap exactly without such a run, or when it starts at page 0 |
| Lines.NearIsRounded | userspace/programs/cube3d.c:114-129 | the loop's error bound says that both coordinates are the rounded ideal ones |
| Lines.Round | userspace/programs/cube3d.c:125-127 | one round keeps the error bound |
| Lines.OffOccurs | userspace/programs/cube3d.c:121-128 | every multiple of the sides' divisor within the error bound occurs in some round |
| Lines.ExactlyFits | userspace/programs/cube3d.c:115-127 | no value overflows 32 bits if and only if the two sides meet a condition with their greatest common divisor |
| Lines.SafeLength | userspace/programs/cube3d.c:115-127 | all lines with longer side up to m meet it iff m <= 715827883 |
| Lines.StraightLines | userspace/programs/cube3d.c:115-127 | diagonals of any length meet it, lines along an axis up to half the range |
| Lines.WithinHalf | userspace/programs/cube3d.c:113-129 | every point is within half a pixel of the ideal line; the ends are exact |
| Lines.Ends | userspace/programs/cube3d.c:123 | the stop test succeeds exactly after the longer side's length of rounds |
| Lines.Step | userspace/programs/cube3d.c:125-127 | the two branches lead from one rounded point to the next, without overflow |
| Lines.Plot | userspace/programs/cube3d.c:108-111 | a pixel on the screen is set, one off it ignored |
| Lines.DrawLine | userspace/programs/cube3d.c:114-129 | on every line that meets the condition: sets exactly the on-screen points of the line, with max(dx, dy) + 1 plots, without overflow |
| EditDistances.Symmetric | userspace/src/shell.c:364-385 | the distance is symmetric |
| EditDistances.ZeroOnlyOnEqual | userspace/src/shell.c:364-385 | it is 0 exactly on equal words |
| EditDistances.Triangle | userspace/src/shell.c:364-385 | the triangle inequality |
| EditDistances.ScriptEdits | userspace/src/shell.c:373-383 | as many edits as the distance suffice |
| EditDistances.NoFewerEdits | userspace/src/shell.c:373-383 | fewer do not |
| EditDistances.LeastEdits | userspace/src/shell.c:364-385 | the distance is the least number of insertions, deletions and substitutions |
| EditDistances.FillRow | userspace/src/shell.c:373-381 | a row from the row before |
| EditDistances.EditDistance | userspace/src/shell.c:364-385 | for words of fewer than 16 characters the least number of edits: some edits of that number lead from one word to the other, and no fewer do; else 99 |
| EditDistances.NearestEdits | userspace/src/shell.c:1485-1488 | the command of the least shown distance is the one fewest edits away |
| EditDistances.SuggestCommand | userspace/src/shell.c:1480-1493 | suggests exactly when the word is no command and some command is at most two edits away; then the first of those that the fewest edits lead to |
| Paths.SplitAt | kernel/src/fs/vfs.c:31-40 | a slash separates components |
| Paths.SplitJoin | kernel/src/fs/vfs.c:52-60 | splitting a joined path gives its components back |
| Paths.StackedClean | kernel/src/fs/vfs.c:42-48 | at most 32 components remain, none of them empty, `.` or `..` |
| Paths.ResolvedIsNormal | kernel/src/fs/vfs.c:15-61 | whatever is resolved is absolute and normal |
| Paths.NormalIsFixed | kernel/src/fs/vfs.c:15-61 | a normal path resolves to itself, so resolving is idempotent |
| Paths.ChangeThenResolve | kernel/src/fs/vfs.c:103-112 | going to a and resolving the relative b is resolving a/b, also past 32 components |
| Paths.DotDotCancels | kernel/src/fs/vfs.c:44-47 | a component followed by `..` cancels exactly below 32 components |
| Paths.DotStays | kernel/src/fs/vfs.c:42-43 | a component `.` makes no difference |
| Paths.LimitMatters | kernel/src/fs/vfs.c:27-48 | the stack of 32 agrees with an unlimited one all along a path if and only if no prefix is deeper than 32 |
| Paths.NeverAboveRoot | kernel/src/fs/vfs.c:44-45 | leading `..` change nothing |
| Paths.ResolvedShort | kernel/src/fs/vfs.c:52-60 | the result is no longer than the text, so it fits its buffer |
| VirtualFiles.CopyString | kernel/src/lib/lib.c:53-58 | copies and pads with NULs; cuts 256 characters or more, without a NUL |
| VirtualFiles.AppendString | kernel/src/lib/lib.c:60-71 | appends behind the NUL |
| VirtualFiles.SameString | kernel/src/lib/lib.c:34-37 | string equality |
| VirtualFiles.CutWord | kernel/src/fs/vfs.c:35-40 | the word becomes a string of its own in the buffer, the text behind it is untouched |
| VirtualFiles.PushWord | kernel/src/fs/vfs.c:42-48 | the stack of starts follows the stack of components |
| VirtualFiles.Tokenise | kernel/src/fs/vfs.c:28-49 | after cutting in place, the starts point at exactly the remaining components |
| VirtualFiles.WritePath | kernel/src/fs/vfs.c:52-60 | joins them into the result |
| VirtualFiles.Vfs.ResolvePath | kernel/src/fs/vfs.c:15-61 | the in-place resolver computes the functional one |
| VirtualFiles.Vfs.SetCwd | kernel/src/fs/vfs.c:103-112 | the working directory is the resolved path, and stays normal |
| VirtualFiles.NoTrailingSlash | kernel/src/fs/vfs.c:108-110 | the trailing-slash branch is never needed |
| Terminals.PlainText | kernel/src/drivers/console.c:142-158 | plain text fills the lines: character c + cols * r is at row r, column c, and the rest is blank |
| Terminals.BackspaceErases | kernel/src/drivers/console.c:126-134 | a backspace takes a shown character back and leaves a blank |
| Terminals.TabStop | kernel/src/drivers/console.c:136-140 | a tab that fits goes to the next multiple of four |
| TextLayouts.TextShown | kernel/src/drivers/console.c:115-166 | any text without backspaces: the lines are its newline-separated paragraphs, each wrapped at the width of the screen, tabs as blanks up to the next multiple of four, each character and blank in its colours |
| TextLayouts.WrapNext | kernel/src/drivers/console.c:142-158 | one more character goes behind the last row, or begins a new one when that is full |
| TextLayouts.Newline | kernel/src/drivers/console.c:116-124 | a newline adds one blank line, leaves all others alone, and puts the cursor in column 0 |
| TextLayouts.TabWraps | kernel/src/drivers/console.c:136-140 | a tab that does not fit goes on with the rest of its blanks on the next line |
| TextLayouts.BackspaceAtStart | kernel/src/drivers/console.c:126-127 | at the start of a line a backspace does nothing |
| Consoles.StreamShown | kernel/src/drivers/console.c:97-166 | after any stream the terminal shows, in this layout and these colours, what was typed since the last clearing |
| Consoles.Console.constructor | kernel/src/drivers/console.c:81-95 | rows and columns within 67 and 240, all blank |
| Consoles.Console.CellsClear | kernel/src/drivers/console.c:44-52 | every cell of the grid is blank |
| Consoles.Console.ScrollUp | kernel/src/drivers/console.c:67-78 | every row moves up by one, the last is blank |
| Consoles.Console.LineFeed | kernel/src/drivers/console.c:116-124 | a new line on the terminal, scrolling on the last row, in the colours of the clearing or the present ones |
| Consoles.Console.Putc | kernel/src/drivers/console.c:115-159 | the grid remains the window on the terminal that got the same character |
| Consoles.Console.ClearAll | kernel/src/drivers/console.c:107-113 | the terminal starts afresh |
| Consoles.Console.Run | kernel/src/drivers/console.c:97-166 | after any stream the grid is the last rows of the unlimited terminal, cursor and colours included; without backspaces that shows what was typed since the last clearing, laid out in paragraphs |
| SerialSteps.StepTx | kernel/src/drivers/serial.c:191-320 | each access inside the lock keeps accepted = wire + in flight + ring, the counter, and the enable bit's relation to the ring |
| SerialSteps.StepRx | kernel/src/drivers/serial.c:226-309 | each access keeps arrivals = dropped + delivered + ring, and the counter of received bytes |
| SerialSteps.StepOrder | kernel/src/drivers/serial.c:191-320 | each access keeps what every thread has sent, read from the port and reported the done part of its program, in order |
| SerialSteps.StepExclusive | kernel/src/drivers/serial.c:75-94 | the lock admits one thread |
| SerialSteps.StepKeeps | kernel/src/drivers/serial.c:75-320 | every access of every thread keeps the invariant |
| SerialSteps.StepsKeep | kernel/src/drivers/serial.c:75-320 | so does every interleaving from an opened port |
| SerialSteps.AtRelease | kernel/src/drivers/serial.c:191-320 | with the lock free: accepted = wire + ring, interrupt enabled iff the ring holds bytes, kept arrivals = delivered + ring, both byte counters exact modulo 2^32 |
| SerialSteps.InOrder | kernel/src/drivers/serial.c:191-320 | always: one thread inside, the wire a prefix of the accepted, each thread's bytes sent and bytes read a prefix of its program's, and all of them once it is done |
| SerialWork.SendWork | kernel/src/drivers/serial.c:191-205 | sending into a ring with room, undisturbed: the byte waits behind all others, is counted, and the transmit interrupt is on |
| SerialWork.SendWaits | kernel/src/drivers/serial.c:198-202 | into a ring with 255 bytes nothing is sent |
| SerialWork.ReceiveWork | kernel/src/drivers/serial.c:232-239 | taking a byte delivers the oldest one, if there is one |
| SerialWork.TransmitWork | kernel/src/drivers/serial.c:310-321 | a transmit interrupt moves the 16 oldest bytes, or all when there are fewer, to the wire in order, and turns itself off exactly when none is left |
| SerialWork.ArrivalWork | kernel/src/drivers/serial.c:303-308 | a receive interrupt queues its byte behind all others or drops it when 255 wait, and counts either |
| SerialWork.ReceiveStaysOn | kernel/src/drivers/serial.c:203-319 | switching the transmit interrupt never switches the receive interrupts off, under any schedule |
| SerialOverruns.OverrunsExact | kernel/src/drivers/serial.c:285-309 | if nobody reports an overrun, or one thread does and no other can drop a byte meanwhile, every byte read is queued and counted or counted as an overrun, beside the reported ones, under every schedule |
| SerialOverruns.LedgerStep | kernel/src/drivers/serial.c:295-307 | each access keeps the counter right unless a thread adds to it between another's read and write for a report |
| SerialOverruns.FewArrivals | kernel/src/drivers/serial.c:100-106 | while a thread adds a report and the load up to its last one is at most 255, no byte has been dropped |
| SerialOverruns.UntilCounted | kernel/src/drivers/serial.c:285-320 | handlers with a report or too many bytes left get, running one at a time, to a state with exactly one more counted |
| SerialOverruns.Lost | kernel/src/drivers/serial.c:295-307 | otherwise a schedule of handlers loses an addition |
| SerialOverruns.ExactIff | kernel/src/drivers/serial.c:285-309 | for interrupt handlers the counter is exact under every schedule if and only if that condition holds |
| SerialPorts.Ring.Push | kernel/src/drivers/serial.c:100-106 | appends unless 255 bytes wait |
| SerialPorts.Ring.Pop | kernel/src/drivers/serial.c:108-113 | takes the oldest byte |
| SerialPorts.Port.constructor | kernel/src/drivers/serial.c:130-180 | an opened port has empty rings and the transmit interrupt off |
| SerialPorts.Port.StepThread | kernel/src/drivers/serial.c:191-326 | one access of one thread is one step of the step system |
| SerialPorts.Port.Run | kernel/src/drivers/serial.c:191-326 | any schedule on the ring buffers follows the step system and its invariant |
| RoundRobin.NothingLost | kernel/src/proc/scheduler.c:196-205 | every instruction of every time slice is in the trace of some task |
| RoundRobin.Scheduler.OnTimer | kernel/src/proc/scheduler.c:175-205 | the interrupted frame is kept for its task, the next task's frame is loaded; nothing with fewer than two tasks or before the start |
| RoundRobin.Scheduler.Start | kernel/src/proc/scheduler.c:275-283 | the first task's prepared frame is entered |
| RoundRobin.Tick | kernel/src/proc/scheduler.c:196-205 | across an interrupt every task keeps its registers |
| RoundRobin.SliceKeeps | kernel/src/proc/scheduler.c:196-205 | one more slice keeps every task in step with itself running alone |
| RoundRobin.Run | kernel/src/proc/scheduler.c:175-283 | the running index is the number of ticks modulo the number of tasks, and every task's register trace is its trace alone |

## Left out

- Volumes.Volume.WriteChain: without room it does not say which bytes of the superblock are overwritten, beyond its first word.
- InnoFileSystem.InnoFs.Open: covers files in the root directory, one handle per file, and names of 1 to 115 bytes; paths below the root are looked up at any depth (PathLookup.FindDirent), but not opened.
- InnoFileSystem.InnoFs.Remove: what later operations do with the handle of a removed open file is not followed.
- InnoFileSystem.InnoFs.Write: offsets and sizes are unbounded; a chain holds less than 2^32 bytes (Chains.ChainCapacity), so the 32-bit fields do not wrap.
- FileRuns.Run: does not make a second handle on a file, the removal of an open file, and writes that lack sectors; after the last two the invariant is gone.
- DirectoryMaking.MakeInDirectory: covers directories of the root; for deeper ones the parent's entry is damaged, see ChainedEntries.ParentRight.
- Metadata of files in subdirectories: the write-back addresses the wrong bytes, see ChainedEntries; their sectors appear in the invariant as foreign sectors, which operations on root files leave alone and which stay foreign when their directory is removed.
- The disk is modelled by regions with typed sectors, sector 0 as the code for data sectors sees it; raw sector numbers of bitmap and root region, the ATA driver and failing allocations of sector buffers are not part of this model.
- PhysicalPages.Pmm.Init: requires page-aligned, disjoint regions, which the source takes for granted; physical addresses are unbounded.
- VirtualMemory.Vmm.constructor: requires an initial page-table graph that is a tree of allocated pages, with page 0 never free, and no huge pages.
- VirtualMemory.Vmm.Map: `invlpg` and the translation cache are not modelled.
- KernelHeap.Heap.Kfree: requires a live pointer or null, as its callers guarantee; the padding bytes of a header are not modelled, and memory is in words of eight bytes.
- Lines.DrawLine: requires the exact condition of Lines.ExactlyFits; colours are numbers and the framebuffer an array.
- VirtualFiles.Vfs.ResolvePath: requires the text to fit its 256-byte buffer; beyond that the source reads and writes past the buffer's end.
- Consoles.Console.constructor: requires a framebuffer of at least one character cell; pixels, redrawing and moving the cursor by hand are left out.
- SerialPorts.Port.StepThread: covers an open port in interrupt mode; polled mode, closing, reopening and the parity, framing and break counters (added to like the overruns) are left out, and so is liveness, since the interrupt dispatcher never calls the handler.
- RoundRobin.Run: a task is a function of its registers; its memory, the logging, the animation and the assembly that enters a frame are left out.
- Access flags are modelled only as far as opening and removing need them; users, passwords, keyboard, shell commands, the remaining programs, boot and hardware set-up are left out.
