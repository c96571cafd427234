/** Chains of linked data sectors, and the byte sequence a chain stands for. */
module Chains {
  import opened Bytes
  import opened Layout
  import opened Sets

  /** The link field of a data sector. */
  function NextOf(d: Disk, n: nat): nat
    requires n < DISK_SECTORS
  {
    d.data[n].next
  }

  function Head(ss: seq<nat>): nat {
    if ss == [] then 0 else ss[0]
  }

  /** What the link field of the sector at position `i` has to hold. */
  function LinkAfter(ss: seq<nat>, i: nat): nat {
    if i + 1 < |ss| then ss[i + 1] else 0
  }

  predicate InDataArea(ss: seq<nat>) {
    forall i :: 0 <= i < |ss| ==> DATA_START <= ss[i] < MANAGED
  }

  /** `ss` are the sectors met when following links from `Head(ss)` until a link is 0. */
  ghost predicate IsChain(d: Disk, ss: seq<nat>) {
    && InDataArea(ss)
    && forall i {:trigger d.data[ss[i]]} :: 0 <= i < |ss| ==> d.data[ss[i]].next == LinkAfter(ss, i)
  }

  predicate Distinct(ss: seq<nat>) {
    forall i, j :: 0 <= i < j < |ss| ==> ss[i] != ss[j]
  }

  ghost function Elems(ss: seq<nat>): set<nat> {
    set x | x in ss
  }

  /** A sector that occurs twice would have two different links: a chain has no cycle. */
  lemma {:induction false} NoRepeat(d: Disk, ss: seq<nat>, i: nat, j: nat)
    requires IsChain(d, ss) && i < j < |ss|
    ensures ss[i] != ss[j]
    decreases |ss| - j
  {
    if ss[i] == ss[j] {
      var next := d.data[ss[i]].next;
      assert next == ss[i + 1];
      if j + 1 < |ss| {
        assert next == ss[j + 1];
        NoRepeat(d, ss, i + 1, j + 1);
      }
    }
  }

  lemma ChainAcyclic(d: Disk, ss: seq<nat>)
    requires IsChain(d, ss)
    ensures Distinct(ss)
  {
    forall i, j | 0 <= i < j < |ss|
      ensures ss[i] != ss[j]
    {
      NoRepeat(d, ss, i, j);
    }
  }

  lemma HeadOf(d: Disk, ss: seq<nat>)
    requires IsChain(d, ss)
    ensures InDataArea(ss) && Head(ss) == if 0 < |ss| then ss[0] else 0
    ensures forall i :: 0 <= i < |ss| ==> ss[i] != 0
  {
  }

  lemma ChainStep(d: Disk, ss: seq<nat>, i: nat)
    requires IsChain(d, ss) && i < |ss|
    ensures InDataArea(ss) && 0 < DATA_START <= ss[i] < MANAGED < DISK_SECTORS
    ensures NextOf(d, ss[i]) == if i + 1 < |ss| then ss[i + 1] else 0
  {
  }

  lemma {:induction false} ChainPrefixUnique(d: Disk, ss: seq<nat>, tt: seq<nat>, i: nat)
    requires IsChain(d, ss) && IsChain(d, tt) && Head(ss) == Head(tt)
    requires i < |ss|
    ensures i < |tt| && ss[i] == tt[i]
  {
    if i > 0 {
      ChainPrefixUnique(d, ss, tt, i - 1);
      assert d.data[ss[i - 1]].next == ss[i];
      if i < |tt| {
        assert d.data[tt[i - 1]].next == tt[i];
      }
    }
  }

  lemma ChainNoLonger(d: Disk, ss: seq<nat>, tt: seq<nat>)
    requires IsChain(d, ss) && IsChain(d, tt) && Head(ss) == Head(tt)
    ensures ss <= tt
  {
    forall i: nat | i < |ss| ensures i < |tt| && ss[i] == tt[i] {
      ChainPrefixUnique(d, ss, tt, i);
    }
    if ss != [] {
      ChainPrefixUnique(d, ss, tt, |ss| - 1);
    }
  }

  /** A first sector and a disk determine the whole chain. */
  lemma ChainUnique(d: Disk, ss: seq<nat>, tt: seq<nat>)
    requires IsChain(d, ss) && IsChain(d, tt) && Head(ss) == Head(tt)
    ensures ss == tt
  {
    ChainNoLonger(d, ss, tt);
    ChainNoLonger(d, tt, ss);
  }

  lemma {:induction false} DistinctElems(ss: seq<nat>)
    requires Distinct(ss)
    ensures |Elems(ss)| == |ss|
  {
    if ss != [] {
      var last := |ss| - 1;
      DistinctElems(ss[..last]);
      assert Elems(ss) == Elems(ss[..last]) + {ss[last]};
    }
  }

  /** File offsets stay below 2^32: the u32 arithmetic on them never wraps. */
  lemma ChainCapacity(d: Disk, ss: seq<nat>)
    requires IsChain(d, ss)
    ensures |ss| <= MANAGED && 508 * |ss| < U32
  {
    ChainAcyclic(d, ss);
    DistinctElems(ss);
    SubsetSize(Elems(ss), Range(MANAGED));
  }

  // -------------------------------------------------------------- content

  /** The bytes of a chain, end to end. */
  function Flat(d: Disk, ss: seq<nat>): (c: seq<byte>)
    requires InDataArea(ss)
    ensures |c| == 508 * |ss|
  {
    seq(508 * |ss|, i requires 0 <= i < 508 * |ss| => d.data[ss[i / 508]].data[i % 508])
  }

  function Zeros(n: nat): (z: seq<byte>)
    ensures |z| == n && forall i :: 0 <= i < n ==> z[i] == 0
  {
    seq(n, _ => 0)
  }

  /** A sector after memset to zero. */
  predicate IsZeroSector(s: DataSector) {
    s.next == 0 && forall i :: 0 <= i < 508 ==> s.data[i] == 0
  }

  /** `d` with content bytes of one data sector replaced. */
  function WithData(d: Disk, n: nat, at: nat, bytes: seq<byte>): Disk
    requires n < DISK_SECTORS && at + |bytes| <= 508
  {
    d.(data := d.data[n := d.data[n].(data := Splice(d.data[n].data, at, bytes))])
  }

  /** Overwriting bytes inside one sector of a chain overwrites the same bytes of its content. */
  lemma DataWrite(d: Disk, ss: seq<nat>, q: nat, at: nat, bytes: seq<byte>)
    requires IsChain(d, ss) && q < |ss| && at + |bytes| <= 508
    ensures IsChain(WithData(d, ss[q], at, bytes), ss)
    ensures Flat(WithData(d, ss[q], at, bytes), ss) == Splice(Flat(d, ss), 508 * q + at, bytes)
  {
    ChainAcyclic(d, ss);
    var e := WithData(d, ss[q], at, bytes);
    var c, want := Flat(e, ss), Splice(Flat(d, ss), 508 * q + at, bytes);
    forall i | 0 <= i < |c|
      ensures c[i] == want[i]
    {
      assert i == 508 * (i / 508) + i % 508;
    }
  }

  /** `e` is `d` with a zeroed, newly allocated sector linked behind the sector `last`. */
  ghost predicate Linked(d: Disk, e: Disk, last: nat, new_: nat) {
    && DATA_START <= last < MANAGED && DATA_START <= new_ < MANAGED
    && e.root == d.root
    && IsZeroSector(e.data[new_])
    && e.data == d.data[last := d.data[last].(next := new_)][new_ := e.data[new_]]
  }

  /** Linking a new sector behind the last one keeps a chain a chain, */
  lemma ExtendLinks(d: Disk, e: Disk, ss: seq<nat>, new_: nat)
    requires IsChain(d, ss) && ss != [] && new_ !in ss
    requires Linked(d, e, ss[|ss| - 1], new_)
    ensures IsChain(e, ss + [new_])
  {
    ChainAcyclic(d, ss);
    var tt, last := ss + [new_], |ss| - 1;
    forall i | 0 <= i < |tt|
      ensures e.data[tt[i]].next == LinkAfter(tt, i)
    {
      if i < last {
        assert ss[i] in ss;
        assert d.data[ss[i]].next == ss[i + 1];
      }
    }
  }

  /** and appends zero bytes to its content. */
  lemma ExtendContent(d: Disk, e: Disk, ss: seq<nat>, new_: nat)
    requires InDataArea(ss) && ss != [] && new_ !in ss
    requires Linked(d, e, ss[|ss| - 1], new_)
    ensures Flat(e, ss + [new_]) == Flat(d, ss) + Zeros(508)
  {
    var tt := ss + [new_];
    var c, want := Flat(e, tt), Flat(d, ss) + Zeros(508);
    forall i | 0 <= i < |c|
      ensures c[i] == want[i]
    {
      var q := i / 508;
      if q < |ss| {
        assert ss[q] in ss && e.data[tt[q]].data == d.data[ss[q]].data;
      }
    }
  }

  /** A chain is read from its own sectors only. */
  lemma ChainFrame(d: Disk, e: Disk, ss: seq<nat>)
    requires IsChain(d, ss)
    requires forall i :: 0 <= i < |ss| ==> d.data[ss[i]] == e.data[ss[i]]
    ensures IsChain(e, ss) && Flat(e, ss) == Flat(d, ss)
  {
  }

  // ------------------------------------------------------------ growing a chain

  /** `e` is `d` except for the data sectors in `ss` and for the bitmap. */
  ghost predicate OnlyChanged(d: Disk, e: Disk, ss: seq<nat>) {
    e.root == d.root && forall n: nat :: n < DISK_SECTORS && n !in ss ==> e.data[n] == d.data[n]
  }

  /** The chain `ss` of disk `d` has become the chain `cc` of disk `e`; only its own sectors,
      sectors that were free, and the bitmap have changed. */
  ghost predicate Grown(d: Disk, ss: seq<nat>, e: Disk, cc: seq<nat>) {
    && Reserved(d) && Elems(ss) <= UsedSet(d)
    && ss <= cc && InDataArea(cc) && IsChain(e, cc)
    && (forall i :: |ss| <= i < |cc| ==> cc[i] in FreeSet(d))
    && UsedSet(e) == UsedSet(d) + Elems(cc)
    && |FreeSet(e)| + |cc| == |FreeSet(d)| + |ss|
    && OnlyChanged(d, e, cc)
  }

  /** `e` with the superblock as it is in `d`. */
  function BootOf(d: Disk, e: Disk): Disk {
    e.(data := e.data[0 := d.data[0]])
  }

  /** The superblock is no part of a chain, and of no interest to the bitmap. */
  lemma BootFrame(d: Disk, e: Disk, cc: seq<nat>)
    requires InDataArea(cc)
    ensures Flat(BootOf(d, e), cc) == Flat(e, cc)
    ensures UsedSet(BootOf(d, e)) == UsedSet(e) && FreeSet(BootOf(d, e)) == FreeSet(e)
  {
    BitmapFrame(e, BootOf(d, e));
  }

  /** The superblock is no part of a chain. */
  lemma GrownKeepsBoot(d: Disk, ss: seq<nat>, e: Disk, cc: seq<nat>)
    requires Grown(d, ss, e, cc)
    ensures e.data[0] == d.data[0]
  {
    assert 0 !in cc;
  }

  lemma GrownElement(d: Disk, ss: seq<nat>, e: Disk, cc: seq<nat>, n: nat)
    requires Grown(d, ss, e, cc) && n in cc
    ensures n in ss || n in FreeSet(d)
  {
    var i :| 0 <= i < |cc| && cc[i] == n;
    if i < |ss| {
      assert cc[i] == ss[i];
    }
  }

  lemma GrownSets(d: Disk, ss: seq<nat>, e: Disk, cc: seq<nat>, f: Disk, new_: nat)
    requires Grown(d, ss, e, cc) && new_ in FreeSet(e)
    requires UsedSet(f) == UsedSet(e) + {new_} && FreeSet(f) == FreeSet(e) - {new_}
    ensures new_ !in cc && new_ in FreeSet(d)
    ensures UsedSet(f) == UsedSet(d) + Elems(cc + [new_])
    ensures |FreeSet(f)| + |cc + [new_]| == |FreeSet(d)| + |ss|
  {
    assert new_ in cc ==> new_ in Elems(cc);
    assert new_ !in UsedSet(e);
    assert Elems(cc + [new_]) == Elems(cc) + {new_};
  }

  lemma GrownByOne(d: Disk, ss: seq<nat>, e: Disk, cc: seq<nat>, f: Disk, new_: nat)
    requires Grown(d, ss, e, cc) && cc != []
    requires new_ in FreeSet(e) && Linked(e, f, cc[|cc| - 1], new_)
    requires UsedSet(f) == UsedSet(e) + {new_} && FreeSet(f) == FreeSet(e) - {new_}
    ensures new_ !in cc
    ensures Grown(d, ss, f, cc + [new_])
    ensures Flat(f, cc + [new_]) == Flat(e, cc) + Zeros(508)
  {
    hide Used, Flat, Distinct;
    GrownSets(d, ss, e, cc, f, new_);
    ExtendLinks(e, f, cc, new_);
    ExtendContent(e, f, cc, new_);
    var tt := cc + [new_];
    forall n: nat | n < DISK_SECTORS && n !in tt
      ensures f.data[n] == d.data[n]
    {
      assert cc[|cc| - 1] in tt && new_ in tt;
      assert n !in cc;
    }
  }

  /** The first sector of an empty chain. */
  lemma GrownFromEmpty(d: Disk, e: Disk, new_: nat)
    requires Reserved(d) && new_ in FreeSet(d)
    requires UsedSet(e) == UsedSet(d) + {new_} && FreeSet(e) == FreeSet(d) - {new_}
    requires IsZeroSector(e.data[new_]) && e.root == d.root && e.data == d.data[new_ := e.data[new_]]
    ensures Grown(d, [], e, [new_])
    ensures Flat(e, [new_]) == Flat(d, []) + Zeros(508)
  {
    assert Elems([new_]) == {new_} && Elems([]) == {};
    assert new_ >= DATA_START;
  }

  lemma GrownNext(d: Disk, ss: seq<nat>, e: Disk, cc: seq<nat>, i: nat)
    requires Grown(d, ss, e, cc) && i < |cc|
    ensures Reserved(e) && DATA_START <= cc[i] < MANAGED && cc[i] in UsedSet(e)
    ensures e.data[cc[i]].next == if i + 1 < |cc| then cc[i + 1] else 0
  {
    assert cc[i] in Elems(cc);
    forall m: nat | m < DATA_START
      ensures Used(e, m)
    {
      assert m in UsedSet(d);
      assert m in UsedSet(e);
    }
  }

  /** The bitmap sectors alone decide which sectors are used. */
  lemma BitmapFrame(d: Disk, e: Disk)
    requires d.bitmap == e.bitmap
    ensures UsedSet(d) == UsedSet(e) && FreeSet(d) == FreeSet(e)
  {
    assert forall n: nat :: n < MANAGED ==> Used(d, n) == Used(e, n);
  }

  /** Writing content of a grown chain: still grown, same allocation. */
  lemma GrownWrite(d: Disk, ss: seq<nat>, e: Disk, cc: seq<nat>, q: nat, at: nat, bytes: seq<byte>)
    requires Grown(d, ss, e, cc) && q < |cc| && at + |bytes| <= 508
    ensures Grown(d, ss, WithData(e, cc[q], at, bytes), cc)
    ensures FreeSet(WithData(e, cc[q], at, bytes)) == FreeSet(e)
    ensures Flat(WithData(e, cc[q], at, bytes), cc) == Splice(Flat(e, cc), 508 * q + at, bytes)
  {
    DataWrite(e, cc, q, at, bytes);
    BitmapFrame(e, WithData(e, cc[q], at, bytes));
    assert cc[q] in cc;
  }

  // ---------------------------------------------------- byte sequences under writes

  lemma SpliceGrow(c: seq<byte>, z: seq<byte>, at: nat, bytes: seq<byte>)
    requires at + |bytes| <= |c|
    ensures Splice(c, at, bytes) + z == Splice(c + z, at, bytes)
  {
  }

  lemma SpliceAppend(c: seq<byte>, at: nat, a: seq<byte>, b: seq<byte>)
    requires at + |a| + |b| <= |c|
    ensures Splice(Splice(c, at, a), at + |a|, b) == Splice(c, at, a + b)
  {
  }

  lemma ZerosSum(m: nat, n: nat)
    ensures Zeros(m) + Zeros(n) == Zeros(m + n)
  {
  }
}
