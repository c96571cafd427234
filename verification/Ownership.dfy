/** Who owns which sector: the invariant of every run over the files of the root directory. */
module Ownership {
  import opened Bytes
  import opened Layout
  import opened Sets
  import opened Chains
  import opened Files
  import opened Directories
  import opened Volumes

  /** The chain of every live root slot, the slot that owns a sector, and the sectors that belong to
      the contents of subdirectories, which the operations on root files never touch. */
  datatype Owners = Owners(chains: map<nat, seq<nat>>, own: map<nat, nat>, others: set<nat>)

  ghost predicate LiveSlots(d: Disk, o: Owners) {
    forall k: nat :: k in o.chains <==> k < ROOT_SLOTS && Live(d.root[k])
  }

  ghost predicate ChainsFormed(d: Disk, o: Owners) {
    forall k :: k in o.chains ==> InDataArea(o.chains[k]) && IsChain(d, o.chains[k])
  }

  /** Sector `n` is in the chain of slot `k`. */
  predicate Holds(o: Owners, k: nat, n: nat) {
    k in o.chains && n in o.chains[k]
  }

  /** Each sector of a chain is owned by that chain's slot, so no two chains meet. */
  ghost predicate Owned(o: Owners) {
    && (forall k: nat, n: nat :: Holds(o, k, n) ==> n in o.own && o.own[n] == k)
    && (forall n: nat :: n in o.own ==> Holds(o, o.own[n], n))
  }

  /** The bitmap marks exactly the reserved, the foreign and the owned sectors. */
  ghost predicate Accounted(d: Disk, o: Owners) {
    && (forall n: nat :: n in UsedSet(d) <==> n < DATA_START || n in o.others || n in o.own)
    && (forall n: nat :: n in o.others ==> DATA_START <= n && n !in o.own)
    && (forall n: nat :: n in o.own ==> DATA_START <= n)
  }

  ghost predicate ChainsOk(d: Disk, o: Owners) {
    LiveSlots(d, o) && ChainsFormed(d, o) && Owned(o) && Accounted(d, o)
  }

  ghost function Grow(o: Owners, k: nat, cc: seq<nat>): Owners {
    o.(chains := o.chains[k := cc], own := o.own + map n | n in cc :: k)
  }

  ghost predicate SameSectors(d: Disk, e: Disk, ss: seq<nat>)
    requires InDataArea(ss)
  {
    forall i :: 0 <= i < |ss| ==> e.data[ss[i]] == d.data[ss[i]]
  }

  /** The foreign sectors hold what they held. */
  ghost predicate ForeignKept(d: Disk, o: Owners, e: Disk) {
    forall n: nat :: n in o.others && n < MANAGED ==> e.data[n] == d.data[n]
  }

  lemma OwnedDisjoint(o: Owners, k: nat, m: nat, n: nat)
    requires Owned(o) && k != m && Holds(o, k, n)
    ensures !Holds(o, m, n)
  {
  }

  lemma ChainAllocated(d: Disk, o: Owners, k: nat)
    requires ChainsOk(d, o) && k in o.chains
    ensures InDataArea(o.chains[k]) && IsChain(d, o.chains[k]) && Reserved(d) && Elems(o.chains[k]) <= UsedSet(d)
  {
    forall n | n in o.chains[k] ensures n in UsedSet(d) {
      assert Holds(o, k, n);
    }
    forall n: nat | n < DATA_START ensures Used(d, n) {
      assert n in UsedSet(d);
    }
  }

  /** The sectors of a grown chain belong to no other chain. */
  lemma GrownApart(d: Disk, o: Owners, k: nat, e: Disk, cc: seq<nat>, m: nat, n: nat)
    requires ChainsOk(d, o) && k in o.chains && m in o.chains && k != m
    requires Grown(d, o.chains[k], e, cc) && n in o.chains[m]
    ensures n !in cc
  {
    hide Used, IsChain, OnlyChanged;
    assert Holds(o, m, n) && n in UsedSet(d);
    OwnedDisjoint(o, m, k, n);
    if n in cc {
      GrownElement(d, o.chains[k], e, cc, n);
    }
  }

  lemma GrownOthersFormed(d: Disk, o: Owners, k: nat, e: Disk, cc: seq<nat>, m: nat)
    requires ChainsOk(d, o) && k in o.chains && m in o.chains && k != m
    requires Grown(d, o.chains[k], e, cc)
    ensures InDataArea(o.chains[m]) && IsChain(e, o.chains[m]) && Flat(e, o.chains[m]) == Flat(d, o.chains[m])
    ensures SameSectors(d, e, o.chains[m])
  {
    forall i | 0 <= i < |o.chains[m]|
      ensures d.data[o.chains[m][i]] == e.data[o.chains[m][i]]
    {
      GrownApart(d, o, k, e, cc, m, o.chains[m][i]);
    }
    ChainFrame(d, e, o.chains[m]);
  }

  lemma GrownOwned(d: Disk, o: Owners, k: nat, e: Disk, cc: seq<nat>)
    requires ChainsOk(d, o) && k in o.chains && Grown(d, o.chains[k], e, cc)
    ensures Owned(Grow(o, k, cc))
  {
    hide Used, IsChain, OnlyChanged, UsedSet;
    var p := Grow(o, k, cc);
    forall m: nat, n: nat | Holds(p, m, n)
      ensures n in p.own && p.own[n] == m
    {
      if m != k {
        assert Holds(o, m, n);
        GrownApart(d, o, k, e, cc, m, n);
      }
    }
    forall n: nat | n in p.own
      ensures Holds(p, p.own[n], n)
    {
      if n !in cc {
        assert Holds(o, o.own[n], n);
        if n in o.chains[k] {
          PrefixContains(o.chains[k], cc, n);
        }
      }
    }
  }

  lemma PrefixContains(ss: seq<nat>, cc: seq<nat>, n: nat)
    requires ss <= cc && n in ss
    ensures n in cc
  {
    var i :| 0 <= i < |ss| && ss[i] == n;
    assert cc[i] == n;
  }

  lemma GrownAccounted(d: Disk, o: Owners, k: nat, e: Disk, cc: seq<nat>)
    requires ChainsOk(d, o) && k in o.chains && Grown(d, o.chains[k], e, cc)
    ensures Accounted(e, Grow(o, k, cc))
  {
    hide Used;
    var p := Grow(o, k, cc);
    assert p.own.Keys == o.own.Keys + Elems(cc);
    forall n | n in cc
      ensures n !in o.others && n >= DATA_START
    {
      GrownElement(d, o.chains[k], e, cc, n);
      if n in o.chains[k] {
        assert Holds(o, k, n);
      }
    }
  }

  /** A grown chain has no foreign sector. */
  lemma ForeignApart(d: Disk, o: Owners, k: nat, e: Disk, cc: seq<nat>, n: nat)
    requires ChainsOk(d, o) && k in o.chains && Grown(d, o.chains[k], e, cc) && n in o.others
    ensures n !in cc
  {
    hide Used, IsChain, OnlyChanged;
    assert n in UsedSet(d) && !Holds(o, k, n);
    if n in cc {
      GrownElement(d, o.chains[k], e, cc, n);
      assert false;
    }
  }

  /** A write keeps the chain invariant and leaves every other file's content alone. */
  lemma GrowKeeps(d: Disk, o: Owners, k: nat, e: Disk, cc: seq<nat>)
    requires ChainsOk(d, o) && k in o.chains && Grown(d, o.chains[k], e, cc)
    ensures ChainsOk(e, Grow(o, k, cc))
    ensures forall m :: m in o.chains && m != k ==>
              Flat(e, o.chains[m]) == Flat(d, o.chains[m]) && SameSectors(d, e, o.chains[m])
    ensures ForeignKept(d, o, e)
  {
    GrownOwned(d, o, k, e, cc);
    GrownAccounted(d, o, k, e, cc);
    forall m | m in o.chains && m != k
      ensures IsChain(e, o.chains[m]) && Flat(e, o.chains[m]) == Flat(d, o.chains[m])
      ensures SameSectors(d, e, o.chains[m])
    {
      GrownOthersFormed(d, o, k, e, cc, m);
    }
    forall n: nat | n in o.others && n < MANAGED
      ensures e.data[n] == d.data[n]
    {
      ForeignApart(d, o, k, e, cc, n);
    }
  }

  // ------------------------------------------------------------ adding and removing slots

  /** A disk that differs in the superblock and in the first sector of one root entry only. */
  lemma BootAndFirst(d: Disk, o: Owners, e: Disk, k: nat)
    requires ChainsOk(d, o) && k < ROOT_SLOTS && e.bitmap == d.bitmap
    requires e.root == d.root[k := d.root[k].(first := e.root[k].first)]
    requires forall n: nat :: DATA_START <= n < MANAGED ==> e.data[n] == d.data[n]
    ensures ChainsOk(e, o)
    ensures forall m :: m in o.chains && InDataArea(o.chains[m]) ==>
              Flat(e, o.chains[m]) == Flat(d, o.chains[m]) && SameSectors(d, e, o.chains[m])
    ensures ForeignKept(d, o, e)
  {
    hide Used;
    BitmapFrame(d, e);
    forall m | m in o.chains
      ensures IsChain(e, o.chains[m]) && Flat(e, o.chains[m]) == Flat(d, o.chains[m])
    {
      ChainFrame(d, e, o.chains[m]);
    }
  }

  /** A new root entry has no sectors yet. */
  lemma AddKeeps(d: Disk, o: Owners, k: nat, e: Disk, entry: Dirent)
    requires ChainsOk(d, o) && k < ROOT_SLOTS && !Live(d.root[k]) && Live(entry)
    requires e == d.(root := d.root[k := entry])
    ensures ChainsOk(e, o.(chains := o.chains[k := []]))
  {
    BitmapFrame(d, e);
    var p := o.(chains := o.chains[k := []]);
    assert k !in o.chains;
    forall m: nat, n: nat ensures Holds(p, m, n) == Holds(o, m, n) {
    }
  }

  /** Changing an entry but not its name. */
  lemma EntryKeeps(d: Disk, o: Owners, k: nat, e: Disk, entry: Dirent)
    requires ChainsOk(d, o) && k in o.chains && entry.name == d.root[k].name
    requires e == d.(root := d.root[k := entry])
    ensures ChainsOk(e, o)
  {
    BitmapFrame(d, e);
  }

  ghost function Drop(o: Owners, k: nat): Owners
    requires k in o.chains
  {
    o.(chains := o.chains - {k}, own := o.own - Elems(o.chains[k]))
  }

  /** Removing a file gives back exactly its sectors. */
  lemma DropKeeps(d: Disk, o: Owners, k: nat, e: Disk, entry: Dirent)
    requires ChainsOk(d, o) && k in o.chains && !Live(entry)
    requires e.data == d.data && e.root == d.root[k := entry] && UsedSet(e) == UsedSet(d) - Elems(o.chains[k])
    ensures ChainsOk(e, Drop(o, k))
  {
    hide Used;
    var p := Drop(o, k);
    forall m | m in p.chains ensures IsChain(e, p.chains[m]) {
      ChainFrame(d, e, o.chains[m]);
    }
    forall m: nat, n: nat | Holds(p, m, n)
      ensures n in p.own && p.own[n] == m
    {
      assert Holds(o, m, n);
      OwnedDisjoint(o, m, k, n);
    }
    forall n: nat | n in p.own
      ensures Holds(p, p.own[n], n)
    {
      assert Holds(o, o.own[n], n);
    }
    forall n: nat
      ensures n in UsedSet(e) <==> n < DATA_START || n in o.others || n in p.own
    {
      if n in o.chains[k] {
        assert Holds(o, k, n);
      }
    }
  }

  /** What two changes in a row keep. */
  lemma KeptThrough(d: Disk, f: Disk, e: Disk, o: Owners, p: Owners, k: nat)
    requires ForeignKept(d, o, f) && ForeignKept(f, p, e) && p.others == o.others
    requires forall m :: m in o.chains && m != k ==> m in p.chains && p.chains[m] == o.chains[m]
    requires forall m :: m in o.chains && m != k && InDataArea(o.chains[m]) ==>
               SameSectors(d, f, o.chains[m]) && SameSectors(f, e, o.chains[m])
    ensures ForeignKept(d, o, e)
    ensures forall m :: m in o.chains && m != k && InDataArea(o.chains[m]) ==> SameSectors(d, e, o.chains[m])
  {
  }

  // ------------------------------------------------------------------ conservation

  /** Sectors in the chains of the slots below `n`. */
  ghost function ChainSectors(o: Owners, n: nat): nat {
    if n == 0 then 0
    else ChainSectors(o, n - 1) + if n - 1 in o.chains then |o.chains[n - 1]| else 0
  }

  ghost function OwnedBelow(o: Owners, n: nat): set<nat> {
    set x | x in o.own && o.own[x] < n
  }

  lemma OwnedStep(o: Owners, n: nat)
    requires Owned(o)
    ensures OwnedBelow(o, n + 1) == OwnedBelow(o, n) + if n in o.chains then Elems(o.chains[n]) else {}
    ensures n in o.chains ==> OwnedBelow(o, n) !! Elems(o.chains[n])
  {
    if n in o.chains {
      OwnedByOne(o, n);
    } else {
      assert forall x: nat :: x in o.own ==> Holds(o, o.own[x], x);
    }
  }

  lemma {:induction false} OwnedCount(d: Disk, o: Owners, n: nat)
    requires ChainsOk(d, o)
    ensures |OwnedBelow(o, n)| == ChainSectors(o, n)
  {
    hide Used, IsChain, OwnedBelow;
    if n == 0 {
      OwnedByNone(o);
    } else {
      OwnedCount(d, o, n - 1);
      OwnedStep(o, n - 1);
      if n - 1 in o.chains {
        ChainAcyclic(d, o.chains[n - 1]);
        DistinctElems(o.chains[n - 1]);
      }
    }
  }

  lemma OwnedByNone(o: Owners)
    ensures OwnedBelow(o, 0) == {}
  {
  }

  lemma OwnedByOne(o: Owners, k: nat)
    requires Owned(o) && k in o.chains
    ensures forall x: nat :: x in o.own && o.own[x] == k <==> x in Elems(o.chains[k])
  {
    forall x: nat
      ensures x in o.own && o.own[x] == k <==> x in Elems(o.chains[k])
    {
      if x in o.own && o.own[x] == k {
        assert Holds(o, o.own[x], x);
      } else if x in o.chains[k] {
        assert Holds(o, k, x);
      }
    }
  }

  /** Every used sector is reserved, foreign, or in exactly one chain of the root directory. */
  lemma Conservation(d: Disk, o: Owners)
    requires ChainsOk(d, o)
    ensures |UsedSet(d)| == DATA_START + |o.others| + ChainSectors(o, ROOT_SLOTS)
  {
    OwnedCount(d, o, ROOT_SLOTS);
    assert OwnedBelow(o, ROOT_SLOTS) == o.own.Keys by {
      assert forall n: nat :: n in o.own ==> Holds(o, o.own[n], n);
    }
    CountParts(UsedSet(d), DATA_START, o.others, o.own.Keys);
  }

  lemma CountParts(u: set<nat>, n: nat, a: set<nat>, b: set<nat>)
    requires forall x: nat :: x in u <==> x < n || x in a || x in b
    requires forall x: nat :: x in a ==> n <= x && x !in b
    requires forall x: nat :: x in b ==> n <= x
    ensures |u| == n + |a| + |b|
  {
    assert u == Range(n) + a + b;
  }

  /** The owners determine the bitmap, byte for byte. */
  lemma SameOwnersSameBitmap(d: Disk, o: Owners, e: Disk, p: Owners)
    requires ChainsOk(d, o) && ChainsOk(e, p) && o.own.Keys == p.own.Keys && o.others == p.others
    ensures d.bitmap == e.bitmap
  {
    assert UsedSet(d) == UsedSet(e);
    BitmapDetermined(d, e);
  }
}
