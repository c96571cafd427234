/** Formatting: the state every run starts from, and what formatting does to the superblock. */
module Format {
  import opened Bytes
  import opened Layout
  import opened Chains
  import opened Files
  import opened Directories
  import opened Dirents
  import opened DirectoryOps
  import opened Volumes
  import opened Ownership
  import opened Handles
  import opened Sets
  import opened ChainedEntries

  /** The superblock's magic: "InnoFS Alpha". */
  const MAGIC: seq<byte> := [0x49, 0x6E, 0x6E, 0x6F, 0x46, 0x53, 0x20, 0x41, 0x6C, 0x70, 0x68, 0x61]

  predicate Mounts(superblock: RawSector) {
    superblock[..12] == MAGIC
  }

  /** Sector 0 as a raw sector. */
  function Superblock(d: Disk): RawSector {
    EncodeLe32(d.data[0].next) + d.data[0].data
  }

  /** The superblock of a formatted disk: magic, sizes and places of the regions, padding. */
  function NewSuperblock(): RawSector {
    MAGIC + [0, 0, 0, 0] + EncodeLe32(65536) + EncodeLe32(1) + EncodeLe32(2) + EncodeLe32(3) + EncodeLe32(16)
         + EncodeLe32(19)
    + seq(472, _ => 0)
  }

  /** The superblock records the sizes and places that all operations go by. */
  lemma SuperblockFields()
    ensures var s := NewSuperblock();
            && s[..12] == MAGIC && Le32(s, 16) == DISK_SECTORS
            && Le32(s, 20) == 1 && Le32(s, 24) == BITMAP_SECTORS && Le32(s, 20) + Le32(s, 24) == Le32(s, 28)
            && Le32(s, 32) == ROOT_SECTORS && Le32(s, 28) + Le32(s, 32) == Le32(s, 36) == DATA_START
  {
    hide Le32, EncodeLe32;
    var s := NewSuperblock();
    assert s[16..20] == EncodeLe32(65536) && s[20..24] == EncodeLe32(1) && s[24..28] == EncodeLe32(2);
    assert s[28..32] == EncodeLe32(3) && s[32..36] == EncodeLe32(16) && s[36..40] == EncodeLe32(19);
    Le32At(s, 16, 65536);
    Le32At(s, 20, 1);
    Le32At(s, 24, 2);
    Le32At(s, 28, 3);
    Le32At(s, 32, 16);
    Le32At(s, 36, 19);
  }

  /** Writes the superblock, clears the bitmap, marks the reserved sectors, and frees every root slot. */
  method FormatRegions(v: Volume)
    modifies v
    ensures Superblock(v.disk) == NewSuperblock() && Mounts(Superblock(v.disk))
    ensures v.disk.data == old(v.disk).data[0 := v.disk.data[0]] && v.disk.root == seq(ROOT_SLOTS, _ => FREE_SLOT)
    ensures forall n: nat :: n < MANAGED ==> (Used(v.disk, n) <==> n < DATA_START)
  {
    var raw := NewSuperblock();
    EncodeDecode(raw, 0);
    v.disk := v.disk.(data := v.disk.data[0 := DataSector(Le32(raw, 0), raw[4..])]);
    assert Superblock(v.disk) == raw && raw[..12] == MAGIC;
    ghost var data := v.disk.data;
    var zero: RawSector := seq(SECTOR_SIZE, _ => 0);
    v.disk := v.disk.(bitmap := [zero, zero]);
    assert forall n: nat :: n < MANAGED ==> !Used(v.disk, n) by {
      forall n: nat | n < MANAGED ensures !Used(v.disk, n) {
        NoBit(n % 8);
      }
    }
    var i := 0;
    while i < DATA_START
      invariant i <= DATA_START && v.disk.data == data
      invariant forall n: nat :: n < MANAGED ==> (Used(v.disk, n) <==> n < i)
    {
      assert i / 4096 == 0 && i % 4096 / 8 == i / 8;
      var b := TurnOn(v.disk.bitmap[0][i / 8], i % 8);
      BitmapUpdate(v.disk, i, b, true);
      v.disk := WithBitmapByte(v.disk, 0, i / 8, b);
      i := i + 1;
    }
    ghost var d := v.disk;
    v.disk := v.disk.(root := seq(ROOT_SLOTS, _ => FREE_SLOT));
    assert forall n: nat :: n < MANAGED ==> Used(v.disk, n) == Used(d, n);
  }

  lemma {:induction false} NoBit(k: nat)
    ensures !Bit(0, k)
  {
    if k > 0 {
      NoBit(k - 1);
    }
  }

  const NO_OWNERS := Owners(map[], map[], {})

  /** A formatted disk with no open files satisfies the invariant: the start of every run. */
  lemma FormattedIsConsistent(d: Disk)
    requires d.root == seq(ROOT_SLOTS, _ => FREE_SLOT)
    requires forall n: nat :: n < MANAGED ==> (Used(d, n) <==> n < DATA_START)
    ensures Consistent(d, seq(MAX_OPEN_FILES, _ => UNUSED), NO_OWNERS)
  {
    hide Used;
  }

  /** Adding to a directory that has no sector yet links the new sector behind sector 0, so the
      superblock's first word is overwritten; it still mounts only if that word spells the magic. */
  lemma AddToEmptyDirectoryUnmounts(superblock: RawSector, new_: nat)
    requires new_ < U32
    ensures Mounts(PutLe32(superblock, 0, new_)) <==> superblock[4..12] == MAGIC[4..12] && new_ == 0x6F6E_6E49
  {
    var s := PutLe32(superblock, 0, new_);
    assert s[..12][..4] == s[0..4] == EncodeLe32(new_);
    assert s[..12][4..] == s[4..12] == superblock[4..12];
    assert s[..12] == s[..12][..4] + s[..12][4..];
    assert MAGIC == MAGIC[..4] + MAGIC[4..12];
    WordDigits(new_);
    var e, m := EncodeLe32(new_), MAGIC[..4];
    assert m == [0x49, 0x6E, 0x6E, 0x6F];
    if e == m {
      assert e[0] == 0x49 && e[1] == 0x6E && e[2] == 0x6E && e[3] == 0x6F;
    }
  }

  /** No sector the allocator hands out spells the magic: such an addition always unmounts the disk. */
  lemma AllocatedSectorUnmounts(superblock: RawSector, new_: nat)
    requires new_ < MANAGED
    ensures !Mounts(PutLe32(superblock, 0, new_))
  {
    AddToEmptyDirectoryUnmounts(superblock, new_);
  }

  /** A superblock whose first word is a sector number of the data area, or 0, does not mount. */
  lemma SmallWordUnmounts(d: Disk)
    requires d.data[0].next < MANAGED
    ensures !Mounts(Superblock(d))
  {
    var s := Superblock(d);
    assert PutLe32(s, 0, d.data[0].next) == s by {
      assert s[..4] == EncodeLe32(d.data[0].next) && s == s[..4] + s[4..];
    }
    AllocatedSectorUnmounts(s, d.data[0].next);
  }

  /** After a write a mountable disk still mounts exactly when the write had room. */
  lemma WriteKeepsMount(d: Disk, ss: seq<nat>, e: Disk, cc: seq<nat>, offset: nat, count: nat)
    requires Mounts(Superblock(d))
    requires if HasRoom(d, ss, offset, count) then e == d || Grown(d, ss, e, cc) else Ruined(e)
    ensures Mounts(Superblock(e)) <==> HasRoom(d, ss, offset, count)
  {
    hide FreeSet, UsedSet, HasRoom, IsChain;
    if HasRoom(d, ss, offset, count) {
      if e != d {
        assert 0 !in cc;
      }
    } else {
      SmallWordUnmounts(e);
    }
  }

  /** After an addition to a directory it still mounts exactly when the directory had a sector before. */
  lemma AdditionKeepsMount(d: Disk, ss: seq<nat>, e: Disk, cc: seq<nat>)
    requires Mounts(Superblock(d)) && GrownDirectory(d, ss, e, cc)
    ensures Mounts(Superblock(e)) <==> ss != []
  {
    hide FreeSet, UsedSet, IsChain;
    if ss != [] {
      assert 0 !in cc;
    } else {
      assert cc[0] < MANAGED;
      SmallWordUnmounts(e);
    }
  }
}
