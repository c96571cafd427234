/** What InnoFS keeps on disk: the sector bitmap, the root directory slots, and linked data sectors. */
module Layout {
  import opened Bytes

  const SECTOR_SIZE := 512

  // The superblock that mkfs builds.
  const DISK_SECTORS := 65536
  const BITMAP_SECTORS := 2
  const ROOT_SECTORS := 16
  const DATA_START := 19

  const ROOT_SLOTS := 64

  /** Sectors the two bitmap sectors can describe; the rest of the disk is out of reach. */
  const MANAGED := 8192

  type RawSector = s: seq<byte> | |s| == SECTOR_SIZE witness seq(SECTOR_SIZE, _ => 0 as byte)

  /** The content of a linked sector: 512 bytes less the four that hold the link. */
  type Payload = s: seq<byte> | |s| == 508 witness seq(508, _ => 0 as byte)

  /** A data sector. `next` is the number of the next sector of the chain; 0 ends the chain. */
  datatype DataSector = DataSector(next: nat, data: Payload)

  /** A directory slot. The name is the C string in the name field; an empty name marks a free slot. */
  datatype Dirent = Dirent(name: seq<byte>, size: nat, first: nat, owner: nat, flags: byte)

  /** The disk by region: sectors 1 and 2, the slots of sectors 3 to 18, and all sectors as the code for
      data sectors sees them. Of those, element 0 is the superblock, and 1 to 18 are not in use. */
  datatype DiskRegions = Disk(bitmap: seq<RawSector>, root: seq<Dirent>, data: seq<DataSector>)

  predicate ValidDisk(d: DiskRegions) {
    |d.bitmap| == BITMAP_SECTORS && |d.root| == ROOT_SLOTS && |d.data| == DISK_SECTORS
  }

  const FREE_SLOT := Dirent([], 0, 0, 0, 0)

  function ZeroDisk(): DiskRegions {
    Disk(seq(BITMAP_SECTORS, _ => seq(SECTOR_SIZE, _ => 0 as byte)),
         seq(ROOT_SLOTS, _ => FREE_SLOT),
         seq(DISK_SECTORS, _ => DataSector(0, seq(508, _ => 0 as byte))))
  }

  type Disk = d: DiskRegions | ValidDisk(d) witness ZeroDisk()

  // ---------------------------------------------------------------- the bitmap

  /** The allocation bit of sector `n`. */
  predicate Used(d: Disk, n: nat)
    requires n < MANAGED
  {
    On(d.bitmap[n / 4096][n % 4096 / 8], n % 8)
  }

  ghost function UsedSet(d: Disk): set<nat> {
    set n: nat | n < MANAGED && Used(d, n)
  }

  ghost function FreeSet(d: Disk): set<nat> {
    set n: nat | n < MANAGED && !Used(d, n)
  }

  /** Superblock, bitmap and root directory are never handed out. */
  ghost predicate Reserved(d: Disk) {
    forall n: nat :: n < DATA_START ==> Used(d, n)
  }

  /** `d` with one byte of one bitmap sector replaced. */
  function WithBitmapByte(d: Disk, i: nat, at: nat, b: byte): (e: Disk)
    requires i < BITMAP_SECTORS && at < SECTOR_SIZE
    ensures e.root == d.root && e.data == d.data
  {
    d.(bitmap := d.bitmap[i := d.bitmap[i][at := b]])
  }

  /** The number allocation computes from a position is the one freeing decodes to that position. */
  lemma BitmapPosition(i: nat, at: nat, bit: nat)
    requires i < BITMAP_SECTORS && at < SECTOR_SIZE && bit < 8
    ensures var n := i * 4096 + at * 8 + bit;
            n < MANAGED && n / 4096 == i && n % 4096 / 8 == at && n % 8 == bit
  {
  }

  lemma PositionUnique(m: nat, n: nat)
    requires m / 4096 == n / 4096 && m % 4096 / 8 == n % 4096 / 8
    ensures m % 8 == n % 8 ==> m == n
  {
    assert m == m / 4096 * 4096 + m % 4096 / 8 * 8 + m % 8;
    assert n == n / 4096 * 4096 + n % 4096 / 8 * 8 + n % 8;
  }

  /** Flipping the bit of `n` flips that sector's allocation state and no other. */
  lemma BitmapUpdate(d: Disk, n: nat, b: byte, v: bool)
    requires n < MANAGED
    requires var before := d.bitmap[n / 4096][n % 4096 / 8];
             b == if v then TurnOn(before, n % 8) else TurnOff(before, n % 8)
    ensures forall m: nat :: m < MANAGED ==>
              Used(WithBitmapByte(d, n / 4096, n % 4096 / 8, b), m) == if m == n then v else Used(d, m)
  {
    var e := WithBitmapByte(d, n / 4096, n % 4096 / 8, b);
    var before := d.bitmap[n / 4096][n % 4096 / 8];
    forall m: nat | m < MANAGED
      ensures Used(e, m) == if m == n then v else Used(d, m)
    {
      if m / 4096 == n / 4096 && m % 4096 / 8 == n % 4096 / 8 {
        ByteBitUpdate(before, n % 8, m % 8);
        PositionUnique(m, n);
      }
    }
  }

  lemma BitmapSectorDetermined(d: Disk, e: Disk, i: nat)
    requires UsedSet(d) == UsedSet(e) && i < BITMAP_SECTORS
    ensures d.bitmap[i] == e.bitmap[i]
  {
    var s, t := d.bitmap[i], e.bitmap[i];
    forall at: nat | at < SECTOR_SIZE
      ensures s[at] == t[at]
    {
      forall k: nat | k < 8
        ensures On(s[at], k) == On(t[at], k)
      {
        BitmapPosition(i, at, k);
        var n := i * 4096 + at * 8 + k;
        assert n in UsedSet(d) <==> n in UsedSet(e);
      }
      ByteExtensional(s[at], t[at]);
    }
  }

  /** Two disks with the same allocated sectors have the same bitmap, byte for byte. */
  lemma BitmapDetermined(d: Disk, e: Disk)
    requires UsedSet(d) == UsedSet(e)
    ensures d.bitmap == e.bitmap
  {
    BitmapSectorDetermined(d, e, 0);
    BitmapSectorDetermined(d, e, 1);
  }
}
