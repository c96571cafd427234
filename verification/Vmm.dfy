/** Mapping, unmapping and translating virtual pages, with tables taken from the page allocator. */
module VirtualMemory {
  import opened Bytes
  import opened PageTables
  import opened PhysicalPages

  /** Present, writable, user: the flags of a new table. */
  const TABLE_FLAGS := 7

  function ZeroFrame(): Frame {
    seq(512, _ => 0)
  }

  /** Linking a zeroed page that was no table as a new table below `q` keeps the graph a tree, reaches
      nothing new but that page, and changes no page-table word. */
  ghost predicate TableAdded(ram: Ram, root: nat, q: Path, i: nat, ram': Ram, n: nat) {
    && Tree(ram', root)
    && (forall p: Path :: |p| <= 3 ==> Reach(ram', root, p) == if p == q + [i] then n else Reach(ram, root, p))
    && (forall p: Path :: |p| == 4 ==> Pte(ram', root, p) == Pte(ram, root, p))
  }

  lemma {:induction false} ReachBelowMissing(ram: Ram, root: nat, q: Path, p: Path)
    requires q <= p && Reach(ram, root, q) < 0
    ensures Reach(ram, root, p) < 0
  {
    if p != q {
      ReachBelowMissing(ram, root, q, p[..|p| - 1]);
    }
  }

  /** Zeroing a page that is no table. */
  lemma ZeroKeeps(ram: Ram, root: nat, n: nat, f: Frame)
    requires Tree(ram, root) && NoTable(ram, root, n) && n < |ram|
    ensures Tree(ram[n := f], root)
    ensures forall p: Path :: |p| <= 3 ==> Reach(ram[n := f], root, p) == Reach(ram, root, p)
    ensures forall p: Path :: |p| == 4 ==> Pte(ram[n := f], root, p) == Pte(ram, root, p)
  {
    var ram' := ram[n := f];
    forall p: Path | |p| <= 3
      ensures Reach(ram', root, p) == Reach(ram, root, p)
    {
      ReachIgnores(ram, root, n, f, p);
    }
    forall p: Path | |p| == 4
      ensures Pte(ram', root, p) == Pte(ram, root, p)
    {
      assert IsTable(ram, root, p[..3]) ==> Reach(ram, root, p[..3]) != n;
    }
  }

  lemma LinkReach(ram: Ram, root: nat, q: Path, i: nat, n: nat, w: nat, p: Path)
    requires Tree(ram, root) && IsTable(ram, root, q) && |q| <= 2 && i < 512 && |p| <= 3
    requires !Present(WordAt(ram, Reach(ram, root, q), i))
    requires NoTable(ram, root, n) && n < |ram| && ram[n] == ZeroFrame()
    requires Present(w) && FrameOf(w) == n
    ensures Reach(ram, root, q) < |ram|
    ensures Reach(SetWord(ram, Reach(ram, root, q), i, w), root, p) == if p == q + [i] then n else Reach(ram, root, p)
  {
    var t, c := Reach(ram, root, q), q + [i];
    var ram' := SetWord(ram, t, i, w);
    assert c[..|c| - 1] == q;
    ReachElsewhere(ram, root, q, i, w, q);
    assert Reach(ram', root, c) == n;
    if c <= p {
      if p != c {
        ReachBelowMissing(ram, root, c, p);
        assert p[..|c|] == c;
        assert ram'[n] == ram[n];
        NothingBelow(ram', root, c, n, p);
      }
    } else {
      ReachElsewhere(ram, root, q, i, w, p);
    }
  }

  /** A zeroed table leads nowhere. */
  lemma {:induction false} NothingBelow(ram: Ram, root: nat, c: Path, n: nat, p: Path)
    requires n < |ram| && ram[n] == ZeroFrame() && Reach(ram, root, c) == n && c < p
    ensures Reach(ram, root, p) < 0
  {
    var p' := p[..|p| - 1];
    if p' == c {
    } else {
      NothingBelow(ram, root, c, n, p');
    }
  }

  lemma LinkKeeps(ram: Ram, root: nat, q: Path, i: nat, n: nat, w: nat)
    requires Tree(ram, root) && IsTable(ram, root, q) && |q| <= 2 && i < 512
    requires !Present(WordAt(ram, Reach(ram, root, q), i))
    requires NoTable(ram, root, n) && n < |ram| && ram[n] == ZeroFrame()
    requires Present(w) && FrameOf(w) == n
    ensures Reach(ram, root, q) < |ram|
    ensures TableAdded(ram, root, q, i, SetWord(ram, Reach(ram, root, q), i, w), n)
  {
    var t := Reach(ram, root, q);
    var ram' := SetWord(ram, t, i, w);
    forall p: Path | |p| <= 3
      ensures Reach(ram', root, p) == if p == q + [i] then n else Reach(ram, root, p)
    {
      LinkReach(ram, root, q, i, n, w, p);
    }
    forall p | IsTable(ram', root, p)
      ensures Reach(ram', root, p) < |ram'|
    {
      assert p != q + [i] ==> IsTable(ram, root, p);
    }
    forall p, r | IsTable(ram', root, p) && IsTable(ram', root, r) && Reach(ram', root, p) == Reach(ram', root, r)
      ensures p == r
    {
      assert p != q + [i] ==> IsTable(ram, root, p);
      assert r != q + [i] ==> IsTable(ram, root, r);
    }
    forall p: Path | |p| == 4
      ensures Pte(ram', root, p) == Pte(ram, root, p)
    {
      LinkPte(ram, root, q, i, n, w, p);
    }
  }

  lemma LinkPte(ram: Ram, root: nat, q: Path, i: nat, n: nat, w: nat, p: Path)
    requires Tree(ram, root) && IsTable(ram, root, q) && |q| <= 2 && i < 512 && |p| == 4
    requires !Present(WordAt(ram, Reach(ram, root, q), i))
    requires NoTable(ram, root, n) && n < |ram| && ram[n] == ZeroFrame()
    requires Present(w) && FrameOf(w) == n
    ensures Reach(ram, root, q) < |ram|
    ensures Pte(SetWord(ram, Reach(ram, root, q), i, w), root, p) == Pte(ram, root, p)
  {
    var p3 := p[..3];
    LinkReach(ram, root, q, i, n, w, p3);
    if p3 == q + [i] {
      assert p3[..2] == q;
      assert Reach(ram, root, p3) < 0;
      assert Reach(ram, root, q) != n;
    } else if Reach(ram, root, p3) >= 0 {
      assert IsTable(ram, root, p3);
      assert Reach(ram, root, p3) == Reach(ram, root, q) ==> p3 == q;
    }
  }

  /** Writing a word of a last-level table changes that one page-table word. */
  lemma LeafKeeps(ram: Ram, root: nat, q: Path, i: nat, w: nat)
    requires Tree(ram, root) && IsTable(ram, root, q) && |q| == 3 && i < 512
    ensures Reach(ram, root, q) < |ram|
    ensures var ram' := SetWord(ram, Reach(ram, root, q), i, w);
            && Tree(ram', root)
            && (forall p: Path :: |p| <= 3 ==> Reach(ram', root, p) == Reach(ram, root, p))
            && (forall p: Path :: |p| == 4 ==> Pte(ram', root, p) == if p == q + [i] then w else Pte(ram, root, p))
  {
    var t := Reach(ram, root, q);
    var ram' := SetWord(ram, t, i, w);
    forall p: Path | |p| <= 3
      ensures Reach(ram', root, p) == Reach(ram, root, p)
    {
      ReachElsewhere(ram, root, q, i, w, p);
    }
    forall p | IsTable(ram', root, p)
      ensures IsTable(ram, root, p)
    {
    }
    forall p: Path | |p| == 4
      ensures Pte(ram', root, p) == if p == q + [i] then w else Pte(ram, root, p)
    {
      assert p == p[..3] + [p[3]];
      if Reach(ram, root, p[..3]) == t {
        assert IsTable(ram, root, p[..3]);
        assert p[..3] == q;
      }
    }
  }

  /** No table is a free page; page 0, whose address means failure, is never free. */
  ghost predicate TablesTaken(ram: Ram, root: nat, free: set<nat>) {
    (forall p :: IsTable(ram, root, p) ==> Reach(ram, root, p) !in free) && 0 !in free
  }

  /** Every table of `ram'` was a table of `ram`, at the same place, or lies in one of the pages `fresh_`. */
  ghost predicate TablesFrom(ram: Ram, ram': Ram, root: nat, fresh_: set<nat>) {
    forall p :: IsTable(ram', root, p) ==> Reach(ram', root, p) == Reach(ram, root, p) || Reach(ram', root, p) in fresh_
  }

  lemma NewTableFrom(ram: Ram, zeroed: Ram, root: nat, q: Path, i: nat, ram': Ram, n: nat, fresh_: set<nat>)
    requires forall p: Path :: |p| <= 3 ==> Reach(zeroed, root, p) == Reach(ram, root, p)
    requires TableAdded(zeroed, root, q, i, ram', n) && n in fresh_
    ensures TablesFrom(ram, ram', root, fresh_)
  {
  }

  lemma TablesFromTrans(a: Ram, b: Ram, c: Ram, root: nat, f: set<nat>, g: set<nat>, h: set<nat>)
    requires TablesFrom(a, b, root, f) && TablesFrom(b, c, root, g) && f <= h && g <= h
    ensures TablesFrom(a, c, root, h)
  {
    forall p | IsTable(c, root, p)
      ensures Reach(c, root, p) == Reach(a, root, p) || Reach(c, root, p) in h
    {
      if Reach(c, root, p) == Reach(b, root, p) {
        assert IsTable(b, root, p);
      }
    }
  }

  lemma SameTablesFrom(a: Ram, b: Ram, c: Ram, root: nat, f: set<nat>)
    requires TablesFrom(a, b, root, f) && forall p: Path :: |p| <= 3 ==> Reach(c, root, p) == Reach(b, root, p)
    ensures TablesFrom(a, c, root, f)
  {
    forall p | IsTable(c, root, p)
      ensures Reach(c, root, p) == Reach(a, root, p) || Reach(c, root, p) in f
    {
      assert IsTable(b, root, p);
    }
  }

  /** Page `n` is a table. */
  ghost predicate IsTablePage(ram: Ram, root: nat, n: nat) {
    exists p: Path :: IsTable(ram, root, p) && Reach(ram, root, p) == n
  }

  /** All tables of `ram` are tables of `ram'` at the same places, and so are the pages `taken`, somewhere. */
  ghost predicate TablesGrow(ram: Ram, ram': Ram, root: nat, taken: set<nat>) {
    && (forall p :: IsTable(ram, root, p) ==> Reach(ram', root, p) == Reach(ram, root, p))
    && forall n :: n in taken ==> IsTablePage(ram', root, n)
  }

  lemma TablesGrowTrans(a: Ram, b: Ram, c: Ram, root: nat, s: set<nat>, t: set<nat>, u: set<nat>)
    requires TablesGrow(a, b, root, s) && TablesGrow(b, c, root, t) && u == s + t
    ensures TablesGrow(a, c, root, u)
  {
    forall p | IsTable(a, root, p)
      ensures Reach(c, root, p) == Reach(a, root, p)
    {
      assert IsTable(b, root, p);
    }
    forall n | n in u
      ensures IsTablePage(c, root, n)
    {
      if n in s {
        var p: Path :| IsTable(b, root, p) && Reach(b, root, p) == n;
        assert IsTable(c, root, p);
      }
    }
  }

  lemma TablesGrowSame(a: Ram, b: Ram, root: nat)
    requires forall p: Path :: |p| <= 3 ==> Reach(b, root, p) == Reach(a, root, p)
    ensures TablesGrow(a, b, root, {})
  {
  }

  lemma TablesGrowByOne(a: Ram, b: Ram, root: nat, q: Path, n: nat)
    requires |q| <= 3 && Reach(a, root, q) < 0
    requires forall p: Path :: |p| <= 3 ==> Reach(b, root, p) == if p == q then n else Reach(a, root, p)
    ensures TablesGrow(a, b, root, {n})
  {
    assert IsTable(b, root, q);
  }

  /** The word that links the table at `p` to the one above it; 0 when that is missing. */
  function LinkOf(ram: Ram, root: nat, p: Path): nat
    requires p != []
  {
    var last := |p| - 1;
    if Reach(ram, root, p[..last]) >= 0 then WordAt(ram, Reach(ram, root, p[..last]), p[last]) else 0
  }

  /** The link words of new tables: page and the flags present, writable and user. All others stay. */
  ghost predicate LinksNew(ram: Ram, ram': Ram, root: nat) {
    forall p: Path :: 1 <= |p| <= 3 ==>
      LinkOf(ram', root, p) == if Reach(ram, root, p) < 0 <= Reach(ram', root, p) then 4096 * Reach(ram', root, p) + 7
                               else LinkOf(ram, root, p)
  }

  lemma LinksNewSame(a: Ram, b: Ram, root: nat)
    requires a == b
    ensures LinksNew(a, b, root)
  {
  }

  lemma LinksNewTrans(a: Ram, b: Ram, c: Ram, root: nat, s: set<nat>, t: set<nat>)
    requires LinksNew(a, b, root) && LinksNew(b, c, root) && TablesGrow(a, b, root, s) && TablesGrow(b, c, root, t)
    ensures LinksNew(a, c, root)
  {
    forall p: Path | 1 <= |p| <= 3
      ensures LinkOf(c, root, p) == if Reach(a, root, p) < 0 <= Reach(c, root, p) then 4096 * Reach(c, root, p) + 7
                                    else LinkOf(a, root, p)
    {
      assert Reach(a, root, p) >= 0 ==> IsTable(a, root, p);
      assert Reach(b, root, p) >= 0 ==> IsTable(b, root, p);
    }
  }

  lemma LinkAfterZero(ram: Ram, root: nat, n: nat, p: Path)
    requires NoTable(ram, root, n) && n < |ram| && 1 <= |p| <= 3
    ensures LinkOf(ram[n := ZeroFrame()], root, p) == LinkOf(ram, root, p)
    ensures Reach(ram[n := ZeroFrame()], root, p) == Reach(ram, root, p)
  {
    hide Reach;
    var f := p[..|p| - 1];
    ReachIgnores(ram, root, n, ZeroFrame(), p);
    ReachIgnores(ram, root, n, ZeroFrame(), f);
    assert IsTable(ram, root, f) ==> Reach(ram, root, f) != n;
  }

  lemma LinkAfterLink(ram: Ram, root: nat, q: Path, i: nat, n: nat, w: nat, p: Path)
    requires Tree(ram, root) && IsTable(ram, root, q) && |q| <= 2 && i < 512 && 1 <= |p| <= 3
    requires !Present(WordAt(ram, Reach(ram, root, q), i)) && n < |ram| && ram[n] == ZeroFrame()
    requires NoTable(ram, root, n) && Present(w) && FrameOf(w) == n
    ensures Reach(ram, root, q) < |ram|
    ensures var r := SetWord(ram, Reach(ram, root, q), i, w);
            && LinkOf(r, root, p) == (if p == q + [i] then w else LinkOf(ram, root, p))
            && Reach(r, root, p) == if p == q + [i] then n else Reach(ram, root, p)
  {
    hide Reach, Present, FrameOf, SetWord, WordAt, LinkOf, Tree;
    InMemory(ram, root, q);
    var f, x, t := p[..|p| - 1], p[|p| - 1], Reach(ram, root, q);
    assert p == f + [x] && (q + [i])[..|q|] == q;
    LinkReach(ram, root, q, i, n, w, f);
    LinkReach(ram, root, q, i, n, w, p);
    LinkFrom(ram, root, p);
    LinkFrom(SetWord(ram, t, i, w), root, p);
    NothingThere(ram, root, q, i);
    if Reach(ram, root, f) >= 0 {
      InMemory(ram, root, f);
      WordAfter(ram, t, i, w, Reach(ram, root, f), x);
      OnePath(ram, root, f, q);
    } else if f == q + [i] {
      OnlyOther(ram, root, q, n);
      WordAfter(ram, t, i, w, n, x);
      ZeroWord(ram, n, x);
    }
  }

  lemma LinkFrom(ram: Ram, root: nat, p: Path)
    requires p != []
    ensures var f := p[..|p| - 1];
            LinkOf(ram, root, p) == if Reach(ram, root, f) >= 0 then WordAt(ram, Reach(ram, root, f), p[|p| - 1]) else 0
  {
  }

  lemma WordAfter(ram: Ram, t: nat, i: nat, w: nat, a: nat, x: nat)
    requires t < |ram| && i < 512
    ensures WordAt(SetWord(ram, t, i, w), a, x) == if a == t && x == i then w else WordAt(ram, a, x)
  {
  }

  lemma ZeroWord(ram: Ram, n: nat, x: nat)
    requires n < |ram| && ram[n] == ZeroFrame()
    ensures WordAt(ram, n, x) == 0
  {
  }

  lemma OnePath(ram: Ram, root: nat, p: Path, q: Path)
    requires Tree(ram, root) && IsTable(ram, root, p) && IsTable(ram, root, q)
    ensures Reach(ram, root, p) == Reach(ram, root, q) <==> p == q
  {
  }

  /** Linking a zeroed page changes one link word. */
  lemma LinkIsNew(ram: Ram, root: nat, q: Path, i: nat, n: nat, w: nat)
    requires Tree(ram, root) && IsTable(ram, root, q) && |q| <= 2 && i < 512
    requires !Present(WordAt(ram, Reach(ram, root, q), i))
    requires NoTable(ram, root, n) && n < |ram| && w == 4096 * n + 7
    ensures Reach(ram, root, q) < |ram|
    ensures LinksNew(ram, SetWord(ram[n := ZeroFrame()], Reach(ram, root, q), i, w), root)
  {
    hide Reach, LinkOf, Tree, SetWord;
    var z, t := ram[n := ZeroFrame()], Reach(ram, root, q);
    InMemory(ram, root, q);
    ZeroKeeps(ram, root, n, ZeroFrame());
    OnlyOther(ram, root, q, n);
    assert IsTable(z, root, q) && WordAt(z, Reach(z, root, q), i) == WordAt(ram, Reach(ram, root, q), i);
    SameNoTable(ram, z, root, n);
    NothingThere(ram, root, q, i);
    forall p: Path | 1 <= |p| <= 3
      ensures LinkOf(SetWord(z, t, i, w), root, p)
           == if Reach(ram, root, p) < 0 <= Reach(SetWord(z, t, i, w), root, p)
              then 4096 * Reach(SetWord(z, t, i, w), root, p) + 7 else LinkOf(ram, root, p)
    {
      LinkAfterZero(ram, root, n, p);
      LinkAfterLink(z, root, q, i, n, w, p);
    }
  }

  /** Writing into a last-level table changes no link. */
  lemma LeafIsNoLink(ram: Ram, root: nat, q: Path, i: nat, w: nat)
    requires Tree(ram, root) && IsTable(ram, root, q) && |q| == 3 && i < 512
    ensures Reach(ram, root, q) < |ram|
    ensures LinksNew(ram, SetWord(ram, Reach(ram, root, q), i, w), root)
  {
    hide Reach, Pte;
    InMemory(ram, root, q);
    var r := SetWord(ram, Reach(ram, root, q), i, w);
    LeafKeeps(ram, root, q, i, w);
    forall p: Path | 1 <= |p| <= 3
      ensures LinkOf(r, root, p) == LinkOf(ram, root, p)
    {
      var f := p[..|p| - 1];
      if Reach(ram, root, f) >= 0 {
        assert IsTable(ram, root, f);
        assert f != q;
      }
    }
  }

  /** All tables are linked as present, writable and open to user mode. */
  ghost predicate LinksOpen(ram: Ram, root: nat) {
    forall p: Path :: 1 <= |p| <= 3 && Reach(ram, root, p) >= 0 ==> LinkOf(ram, root, p) % 8 == 7
  }

  /** Where user mode can reach all tables it can reach all later ones. */
  lemma LinksStayOpen(ram: Ram, ram': Ram, root: nat, taken: set<nat>)
    requires LinksOpen(ram, root) && LinksNew(ram, ram', root) && TablesGrow(ram, ram', root, taken)
    ensures LinksOpen(ram', root)
  {
    hide Reach, LinkOf;
    forall p: Path | 1 <= |p| <= 3 && Reach(ram', root, p) >= 0
      ensures LinkOf(ram', root, p) % 8 == 7
    {
      if Reach(ram, root, p) >= 0 {
        assert IsTable(ram, root, p);
      } else {
        OpenWord(Reach(ram', root, p));
      }
    }
  }

  lemma OpenWord(n: nat)
    ensures (4096 * n + 7) % 8 == 7
  {
  }

  lemma KeepOpen(ram: Ram, ram': Ram, root: nat, taken: set<nat>)
    requires LinksNew(ram, ram', root) && TablesGrow(ram, ram', root, taken)
    ensures LinksOpen(ram, root) ==> LinksOpen(ram', root)
  {
    hide *;
    if LinksOpen(ram, root) {
      LinksStayOpen(ram, ram', root, taken);
    }
  }

  /** Pages that are neither tables nor free keep their words. */
  ghost predicate OthersUntouched(ram: Ram, ram': Ram, root: nat, free: set<nat>) {
    |ram'| == |ram| && forall n: nat :: n < |ram| && NoTable(ram, root, n) && n !in free ==> ram'[n] == ram[n]
  }

  lemma UntouchedTrans(a: Ram, b: Ram, c: Ram, root: nat, free: set<nat>, left: set<nat>)
    requires OthersUntouched(a, b, root, free) && OthersUntouched(b, c, root, left)
    requires TablesFrom(a, b, root, free - left) && left <= free
    ensures OthersUntouched(a, c, root, free)
  {
    forall n: nat | n < |a| && NoTable(a, root, n) && n !in free
      ensures c[n] == a[n]
    {
      forall p | IsTable(b, root, p)
        ensures Reach(b, root, p) != n
      {
        assert Reach(b, root, p) == Reach(a, root, p) ==> IsTable(a, root, p);
      }
      assert NoTable(b, root, n);
    }
  }

  lemma UntouchedByLink(ram: Ram, root: nat, free: set<nat>, q: Path, i: nat, n: nat, f: Frame, w: nat)
    requires Tree(ram, root) && IsTable(ram, root, q) && i < 512 && n < |ram| && n in free
    ensures Reach(ram, root, q) < |ram|
    ensures OthersUntouched(ram, SetWord(ram[n := f], Reach(ram, root, q), i, w), root, free)
  {
  }

  lemma UntouchedByLeaf(ram: Ram, root: nat, free: set<nat>, q: Path, i: nat, w: nat)
    requires Tree(ram, root) && IsTable(ram, root, q) && i < 512
    ensures Reach(ram, root, q) < |ram|
    ensures OthersUntouched(ram, SetWord(ram, Reach(ram, root, q), i, w), root, free)
  {
  }

  lemma UntouchedSame(ram: Ram, root: nat, free: set<nat>)
    ensures OthersUntouched(ram, ram, root, free)
    ensures forall f: set<nat> :: TablesFrom(ram, ram, root, f)
  {
  }

  lemma FreePageIsNoTable(ram: Ram, root: nat, free: set<nat>, n: nat)
    requires TablesTaken(ram, root, free) && n in free
    ensures NoTable(ram, root, n)
  {
  }

  lemma TakenAfterLink(ram: Ram, root: nat, free: set<nat>, q: Path, i: nat, ram': Ram, n: nat)
    requires TablesTaken(ram, root, free) && TableAdded(ram, root, q, i, ram', n)
    ensures TablesTaken(ram', root, free - {n})
  {
    forall p | IsTable(ram', root, p)
      ensures Reach(ram', root, p) !in free - {n}
    {
      assert p != q + [i] ==> IsTable(ram, root, p);
    }
  }

  /** How many of the three tables below the root are missing on the way to a page. */
  function Missing(ram: Ram, root: nat, p: Path): nat
    requires |p| == 4
  {
    Lack(ram, root, p[..1]) + Lack(ram, root, p[..2]) + Lack(ram, root, p[..3])
  }

  function Lack(ram: Ram, root: nat, q: Path): nat
    requires |q| <= 3
  {
    if Reach(ram, root, q) < 0 then 1 else 0
  }

  lemma TableHere(ram: Ram, root: nat, q: Path, t: nat, i: nat)
    requires |q| <= 3 && Reach(ram, root, q) == t < |ram| && i < 512
    ensures IsTable(ram, root, q) && WordAt(ram, Reach(ram, root, q), i) == ram[t][i]
  {
  }

  lemma NothingThere(ram: Ram, root: nat, q: Path, i: nat)
    requires |q| <= 2 && IsTable(ram, root, q) && !Present(WordAt(ram, Reach(ram, root, q), i))
    ensures Reach(ram, root, q + [i]) < 0
  {
    assert (q + [i])[..|q|] == q;
  }

  lemma FlagsWord(phys: nat, n: nat)
    requires phys == 4096 * n
    ensures Present(Or(phys, TABLE_FLAGS)) && FrameOf(Or(phys, TABLE_FLAGS)) == n
    ensures Or(phys, TABLE_FLAGS) == 4096 * n + 7
  {
    hide Or;
    OrPage(phys, TABLE_FLAGS);
    Division(4096 * n + 7, 4096, n, 7);
  }

  /** Zeroing a page that is no table, and linking it. */
  lemma LinkZeroed(ram: Ram, root: nat, q: Path, i: nat, n: nat, w: nat)
    requires Tree(ram, root) && IsTable(ram, root, q) && |q| <= 2 && i < 512
    requires !Present(WordAt(ram, Reach(ram, root, q), i))
    requires NoTable(ram, root, n) && n < |ram| && Present(w) && FrameOf(w) == n
    ensures var z := ram[n := ZeroFrame()];
            && Reach(ram, root, q) < |ram| && Tree(z, root)
            && (forall p: Path :: |p| <= 3 ==> Reach(z, root, p) == Reach(ram, root, p))
            && (forall p: Path :: |p| == 4 ==> Pte(z, root, p) == Pte(ram, root, p))
            && TableAdded(z, root, q, i, SetWord(z, Reach(ram, root, q), i, w), n)
  {
    hide Tree, Pte, Present, FrameOf, TableAdded;
    InMemory(ram, root, q);
    ZeroKeeps(ram, root, n, ZeroFrame());
    OnlyOther(ram, root, q, n);
    var z := ram[n := ZeroFrame()];
    assert IsTable(z, root, q) && WordAt(z, Reach(z, root, q), i) == WordAt(ram, Reach(ram, root, q), i);
    SameNoTable(ram, z, root, n);
    LinkKeeps(z, root, q, i, n, w);
  }

  lemma SameNoTable(ram: Ram, z: Ram, root: nat, n: nat)
    requires NoTable(ram, root, n) && forall p: Path :: |p| <= 3 ==> Reach(z, root, p) == Reach(ram, root, p)
    ensures NoTable(z, root, n)
  {
    forall p | IsTable(z, root, p)
      ensures Reach(z, root, p) != n
    {
      assert IsTable(ram, root, p);
    }
  }

  class Vmm {
    const pmm: Pmm
    var ram: Ram
    var root: nat

    /** The tables form a tree inside memory, and the allocator holds all of them. */
    ghost predicate Valid()
      reads this, pmm, pmm.bitmap
    {
      && pmm.Valid() && pmm.totalPages <= |ram|
      && Tree(ram, root) && TablesTaken(ram, root, pmm.Free())
    }

    /** Adopts an existing address space. */
    constructor (p: Pmm, contents: Ram, space: nat)
      requires p.Valid() && p.totalPages <= |contents|
      requires Tree(contents, space) && TablesTaken(contents, space, p.Free())
      ensures Valid() && pmm == p && ram == contents && root == space
    {
      pmm, ram, root := p, contents, space;
    }

    /** Takes a page, zeroes it, and links it as the table below entry `i` of the table at `q`. */
    method CreateTable(t: nat, i: nat, ghost q: Path) returns (ok: bool)
      requires Valid() && |q| <= 2 && Reach(ram, root, q) == t < |ram| && i < 512 && !Present(ram[t][i])
      modifies this`ram, pmm`freePages, pmm`scanHint, pmm.bitmap
      ensures Valid()
      ensures ok <==> old(pmm.Free()) != {}
      ensures !ok ==> ram == old(ram) && pmm.Free() == {}
      ensures ok ==> |ram| == |old(ram)| && Present(ram[t][i]) && Reach(ram, root, q) == t
      ensures ok ==> exists n: nat :: n in old(pmm.Free()) && ram[t][i] == 4096 * n + 7
      ensures LinksNew(old(ram), ram, root)
      ensures ok ==> |pmm.Free()| + 1 == |old(pmm.Free())|
      ensures forall p: Path :: |p| <= 3 && p != q + [i] ==> Reach(ram, root, p) == Reach(old(ram), root, p)
      ensures OthersUntouched(old(ram), ram, root, old(pmm.Free()))
      ensures TablesFrom(old(ram), ram, root, old(pmm.Free()) - pmm.Free())
      ensures TablesGrow(old(ram), ram, root, old(pmm.Free()) - pmm.Free())
      ensures forall p: Path :: |p| == 4 ==> Pte(ram, root, p) == Pte(old(ram), root, p)
      ensures pmm.Free() <= old(pmm.Free())
      ensures old(pmm.HintSound()) ==> pmm.HintSound()
    {
      hide Tree, Pte, FreeIn, Or, NoTable, TablesTaken, Picked, OthersUntouched, TablesFrom, FrameOf, Present;
      hide IsTable, Reach, TablesGrow, LinksNew;
      LinksNewSame(ram, ram, root);
      UntouchedSame(ram, root, pmm.Free());
      TablesGrowSame(ram, ram, root);
      TableHere(ram, root, q, t, i);
      assert 0 !in pmm.Free() by {
        ZeroTaken(ram, root, pmm.Free());
      }
      ghost var free := pmm.Free();
      pmm.FreeBelow();
      var phys := pmm.AllocPage();
      if phys == 0 {
        assert old(pmm.Free()) - pmm.Free() == {};
        return false;
      }
      var n := phys / 4096;
      TakenPicked(free, old(pmm.scanHint), n);
      FreePageIsNoTable(ram, root, free, n);
      UntouchedByLink(ram, root, free, q, i, n, ZeroFrame(), Or(phys, TABLE_FLAGS));
      FlagsWord(phys, n);
      LinkZeroed(ram, root, q, i, n, Or(phys, TABLE_FLAGS));
      LinkIsNew(ram, root, q, i, n, Or(phys, TABLE_FLAGS));
      ghost var before := ram;
      ram := ram[n := ZeroFrame()];
      SameTables(before, ram, root, n, free);
      OnlyOther(before, root, q, n);
      ghost var zeroed := ram;
      ram := SetWord(ram, t, i, Or(phys, TABLE_FLAGS));
      assert old(pmm.Free()) - pmm.Free() == {n};
      NothingThere(before, root, q, i);
      TablesGrowByOne(before, ram, root, q + [i], n);
      TakenAfterLink(zeroed, root, free, q, i, ram, n);
      NewTableFrom(before, zeroed, root, q, i, ram, n, free - pmm.Free());
      ok := true;
    }

    /** The table below entry `i` of the table at `q`, created when missing; -1 without memory. */
    method GetOrCreateTable(t: nat, i: nat, ghost q: Path) returns (next: int)
      requires Valid() && |q| <= 2 && Reach(ram, root, q) == t && i < 512
      modifies this`ram, pmm`freePages, pmm`scanHint, pmm.bitmap
      ensures Valid()
      ensures next == -1 <==> Reach(old(ram), root, q + [i]) < 0 && old(pmm.Free()) == {}
      ensures next == -1 ==> ram == old(ram) && pmm.Free() == {}
      ensures next != -1 ==> next >= 0 && Reach(ram, root, q + [i]) == next
      ensures next != -1 ==>
                |pmm.Free()| + (if Reach(old(ram), root, q + [i]) < 0 then 1 else 0) == |old(pmm.Free())|
      ensures forall p: Path :: |p| <= 3 && p != q + [i] ==> Reach(ram, root, p) == Reach(old(ram), root, p)
      ensures OthersUntouched(old(ram), ram, root, old(pmm.Free()))
      ensures TablesFrom(old(ram), ram, root, old(pmm.Free()) - pmm.Free())
      ensures TablesGrow(old(ram), ram, root, old(pmm.Free()) - pmm.Free()) && LinksNew(old(ram), ram, root)
      ensures forall p: Path :: |p| == 4 ==> Pte(ram, root, p) == Pte(old(ram), root, p)
      ensures pmm.Free() <= old(pmm.Free())
      ensures old(pmm.HintSound()) ==> pmm.HintSound()
    {
      hide Tree, Pte, FreeIn, OthersUntouched, TablesFrom, TablesGrow, LinksNew, FrameOf, Present, TablesTaken;
      hide Reach, IsTable;
      LinksNewSame(ram, ram, root);
      UntouchedSame(ram, root, pmm.Free());
      TablesGrowSame(ram, ram, root);
      TableInMemory(ram, root, q, t);
      ReachNext(ram, root, q, t, i);
      if !Present(ram[t][i]) {
        var ok := CreateTable(t, i, q);
        if !ok {
          return -1;
        }
        ReachNext(ram, root, q, t, i);
      } else {
        assert old(pmm.Free()) - pmm.Free() == {};
      }
      next := FrameOf(ram[t][i]);
    }

    /** The table below entry `i` of the table `t`, or -1. */
    method GetTableOrNull(t: nat, i: nat, ghost q: Path) returns (next: int)
      requires Tree(ram, root) && |q| <= 2 && Reach(ram, root, q) == t && i < 512
      ensures next == Reach(ram, root, q + [i])
    {
      assert IsTable(ram, root, q);
      assert (q + [i])[..|q|] == q;
      if !Present(ram[t][i]) {
        return -1;
      }
      next := FrameOf(ram[t][i]);
    }

    /** Walks to the last-level table, creating tables; -1 without memory. */
    method WalkCreating(vaddr: nat) returns (pt: int)
      requires Valid()
      modifies this`ram, pmm`freePages, pmm`scanHint, pmm.bitmap
      ensures Valid()
      ensures pt == -1 <==> Missing(old(ram), root, PathOf(vaddr)) > |old(pmm.Free())|
      ensures pt == -1 ==> pmm.Free() == {}
      ensures pt != -1 ==> pt >= 0 && Reach(ram, root, PathOf(vaddr)[..3]) == pt
      ensures pt != -1 ==> |pmm.Free()| + Missing(old(ram), root, PathOf(vaddr)) == |old(pmm.Free())|
      ensures TablesFrom(old(ram), ram, root, old(pmm.Free()) - pmm.Free())
      ensures TablesGrow(old(ram), ram, root, old(pmm.Free()) - pmm.Free()) && LinksNew(old(ram), ram, root)
      ensures forall p: Path :: |p| == 4 ==> Pte(ram, root, p) == Pte(old(ram), root, p)
      ensures pmm.Free() <= old(pmm.Free())
      ensures OthersUntouched(old(ram), ram, root, old(pmm.Free()))
      ensures old(pmm.HintSound()) ==> pmm.HintSound()
    {
      hide Tree, TablesTaken, Reach, Pte, FreeIn, TablesFrom, PathOf, OthersUntouched, TablesGrow, LinksNew;
      RootReached(ram, root);
      ghost var ram0, free0 := ram, pmm.Free();
      var idx := PathOf(vaddr);
      Prefixes(idx);
      var pdpt := GetOrCreateTable(root, idx[0], []);
      if pdpt == -1 {
        return -1;
      }
      ghost var ram1, free1 := ram, pmm.Free();
      var pd := GetOrCreateTable(pdpt, idx[1], [] + [idx[0]]);
      LinksNewTrans(ram0, ram1, ram, root, free0 - free1, free1 - pmm.Free());
      TablesGrowTrans(ram0, ram1, ram, root, free0 - free1, free1 - pmm.Free(), free0 - pmm.Free());
      TablesFromTrans(ram0, ram1, ram, root, free0 - free1, free1 - pmm.Free(), free0 - pmm.Free());
      UntouchedTrans(ram0, ram1, ram, root, free0, free1);
      if pd == -1 {
        return -1;
      }
      ghost var ram2, free2 := ram, pmm.Free();
      pt := GetOrCreateTable(pd, idx[2], [] + [idx[0]] + [idx[1]]);
      LinksNewTrans(ram0, ram2, ram, root, free0 - free2, free2 - pmm.Free());
      TablesGrowTrans(ram0, ram2, ram, root, free0 - free2, free2 - pmm.Free(), free0 - pmm.Free());
      TablesFromTrans(ram0, ram2, ram, root, free0 - free2, free2 - pmm.Free(), free0 - pmm.Free());
      UntouchedTrans(ram0, ram2, ram, root, free0, free2);
      assert idx[..3] == [] + [idx[0]] + [idx[1]] + [idx[2]];
    }

    lemma Prefixes(p: Path)
      requires |p| == 4
      ensures p[..1] == [] + [p[0]] && p[..2] == [] + [p[0]] + [p[1]] && p[..3] == [] + [p[0]] + [p[1]] + [p[2]]
    {
    }

    /** Maps the page of `vaddr` to the frame of `paddr`; -1 when a table could not be created. */
    method Map(vaddr: nat, paddr: nat, flags: nat) returns (result: int)
      requires Valid()
      modifies this`ram, pmm`freePages, pmm`scanHint, pmm.bitmap
      ensures Valid()
      ensures result == 0 || result == -1
      ensures result == -1 <==> Missing(old(ram), root, PathOf(vaddr)) > |old(pmm.Free())|
      ensures result == -1 ==> pmm.Free() == {}
      ensures result == 0 ==> |pmm.Free()| + Missing(old(ram), root, PathOf(vaddr)) == |old(pmm.Free())|
      ensures forall p: Path :: |p| == 4 ==>
                Pte(ram, root, p) == if result == 0 && p == PathOf(vaddr) then Or(BaseOf(paddr), flags)
                                     else Pte(old(ram), root, p)
      ensures TablesFrom(old(ram), ram, root, old(pmm.Free()) - pmm.Free())
      ensures TablesGrow(old(ram), ram, root, old(pmm.Free()) - pmm.Free()) && LinksNew(old(ram), ram, root)
      ensures LinksOpen(old(ram), root) ==> LinksOpen(ram, root)
      ensures pmm.Free() <= old(pmm.Free())
      ensures OthersUntouched(old(ram), ram, root, old(pmm.Free()))
      ensures old(pmm.HintSound()) ==> pmm.HintSound()
    {
      hide Tree, Pte, FreeIn, OthersUntouched, TablesGrow, LinksNew, LinksOpen;
      ghost var ram0 := ram;
      var pt := WalkCreating(vaddr);
      KeepOpen(ram0, ram, root, old(pmm.Free()) - pmm.Free());
      if pt == -1 {
        return -1;
      }
      var idx := PathOf(vaddr);
      assert idx == idx[..3] + [idx[3]];
      assert IsTable(ram, root, idx[..3]);
      LeafKeeps(ram, root, idx[..3], idx[3], Or(BaseOf(paddr), flags));
      UntouchedByLeaf(ram, root, pmm.Free(), idx[..3], idx[3], Or(BaseOf(paddr), flags));
      ghost var before := ram;
      ram := SetWord(ram, pt, idx[3], Or(BaseOf(paddr), flags));
      TakenUnchanged(before, ram, root, pmm.Free());
      TablesGrowSame(before, ram, root);
      LeafIsNoLink(before, root, idx[..3], idx[3], Or(BaseOf(paddr), flags));
      LinksNewTrans(ram0, before, ram, root, old(pmm.Free()) - pmm.Free(), {});
      TablesGrowTrans(ram0, before, ram, root, old(pmm.Free()) - pmm.Free(), {}, old(pmm.Free()) - pmm.Free());
      SameTablesFrom(ram0, before, ram, root, old(pmm.Free()) - pmm.Free());
      UntouchedTrans(ram0, before, ram, root, old(pmm.Free()), pmm.Free());
      KeepOpen(ram0, ram, root, old(pmm.Free()) - pmm.Free());
      result := 0;
    }

    /** Walks to the last-level table without creating any; -1 when one is missing. */
    method Walk(vaddr: nat) returns (pt: int)
      requires Tree(ram, root)
      ensures pt == Reach(ram, root, PathOf(vaddr)[..3])
    {
      var idx := PathOf(vaddr);
      RootReached(ram, root);
      assert idx[..3] == [] + [idx[0]] + [idx[1]] + [idx[2]];
      hide *;
      var pdpt := GetTableOrNull(root, idx[0], []);
      if pdpt == -1 {
        ReachBelowMissing(ram, root, [] + [idx[0]], idx[..3]);
        StillMissing(ram, root, idx[..3]);
        return -1;
      }
      AtLeastMissing(ram, root, [] + [idx[0]]);
      var pd := GetTableOrNull(pdpt, idx[1], [] + [idx[0]]);
      if pd == -1 {
        ReachBelowMissing(ram, root, [] + [idx[0]] + [idx[1]], idx[..3]);
        StillMissing(ram, root, idx[..3]);
        return -1;
      }
      AtLeastMissing(ram, root, [] + [idx[0]] + [idx[1]]);
      pt := GetTableOrNull(pd, idx[2], [] + [idx[0]] + [idx[1]]);
    }

    /** Removes the mapping of the page of `vaddr`. */
    method Unmap(vaddr: nat)
      requires Valid()
      modifies this`ram
      ensures Valid()
      ensures forall p: Path :: |p| == 4 ==>
                Pte(ram, root, p) == if p == PathOf(vaddr) then 0 else Pte(old(ram), root, p)
      ensures forall p: Path :: |p| <= 3 ==> Reach(ram, root, p) == Reach(old(ram), root, p)
      ensures OthersUntouched(old(ram), ram, root, pmm.Free())
    {
      hide Tree, FreeIn, OthersUntouched;
      UntouchedSame(ram, root, pmm.Free());
      var pt := Walk(vaddr);
      if pt == -1 {
        return;
      }
      var idx := PathOf(vaddr);
      AtLeastMissing(ram, root, idx[..3]);
      assert idx == idx[..3] + [idx[3]];
      assert IsTable(ram, root, idx[..3]);
      LeafKeeps(ram, root, idx[..3], idx[3], 0);
      UntouchedByLeaf(ram, root, pmm.Free(), idx[..3], idx[3], 0);
      ghost var before := ram;
      ram := SetWord(ram, pt, idx[3], 0);
      TakenUnchanged(before, ram, root, pmm.Free());
    }

    /** The physical address of `vaddr`, or 0. */
    method Translate(vaddr: nat) returns (paddr: nat)
      requires Tree(ram, root)
      ensures paddr == Translation(Pte(ram, root, PathOf(vaddr)), vaddr)
    {
      var pt := Walk(vaddr);
      if pt == -1 {
        return 0;
      }
      var idx := PathOf(vaddr);
      AtLeastMissing(ram, root, idx[..3]);
      assert IsTable(ram, root, idx[..3]);
      var pte := ram[pt][idx[3]];
      if !Present(pte) {
        return 0;
      }
      BaseAligned(pte);
      OrPage(BaseOf(pte), vaddr % 4096);
      paddr := Or(BaseOf(pte), vaddr % 4096);
    }
  }

  /** The address a page-table word gives for `vaddr`: frame and offset side by side, 0 if not present. */
  function Translation(pte: nat, vaddr: nat): nat {
    if Present(pte) then BaseOf(pte) + vaddr % 4096 else 0
  }

  /** After a mapping with the present flag, translation gives the page of `paddr` and the offset of `vaddr`
      exactly when the flags have no bit above the low twelve that the address lacks. */
  lemma MappedTranslation(paddr: nat, flags: nat, vaddr: nat)
    requires Present(flags)
    ensures Translation(Or(BaseOf(paddr), flags), vaddr) == 4096 * Or(paddr / 4096, flags / 4096) + vaddr % 4096
    ensures Translation(Or(BaseOf(paddr), flags), vaddr) == BaseOf(paddr) + vaddr % 4096
            <==> Or(paddr / 4096, flags / 4096) == paddr / 4096
    ensures flags < 4096 ==> Translation(Or(BaseOf(paddr), flags), vaddr) == BaseOf(paddr) + vaddr % 4096
  {
    hide Or, Present;
    BaseAligned(paddr);
    OrPage(BaseOf(paddr), flags);
    OrPresent(BaseOf(paddr), flags);
    OrZero(paddr / 4096);
  }

  /** The no-execute flag is bit 63, which the address mask keeps: it leaks into the translation. */
  lemma NoExecuteLeaks(vaddr: nat)
    ensures Translation(Or(BaseOf(0x1000), 0x8000_0000_0000_0001), vaddr) == 0x8000_0000_0000_1000 + vaddr % 4096
  {
    MappedTranslation(0x1000, 0x8000_0000_0000_0001, vaddr);
    OrSymmetric(1, 0x8_0000_0000_0000);
    BaseAligned(0x8_0000_0000_0000);
    OrPage(0x8_0000_0000_0000, 1);
  }

  lemma {:induction false} OrSymmetric(a: nat, b: nat)
    ensures Or(a, b) == Or(b, a)
  {
    if a != 0 && b != 0 {
      OrSymmetric(a / 2, b / 2);
    }
  }

  /** A word without the present flag translates to nothing. */
  lemma UnmappedTranslation(paddr: nat, flags: nat, vaddr: nat)
    requires !Present(flags)
    ensures Translation(Or(BaseOf(paddr), flags), vaddr) == 0
  {
    BaseAligned(paddr);
    OrPresent(BaseOf(paddr), flags);
  }

  lemma ZeroTaken(ram: Ram, root: nat, free: set<nat>)
    requires TablesTaken(ram, root, free)
    ensures 0 !in free
  {
  }

  lemma TakenPicked(free: set<nat>, hint: nat, n: nat)
    requires Picked(free, hint, n)
    ensures n in free
  {
  }

  lemma OnlyOther(ram: Ram, root: nat, q: Path, n: nat)
    requires NoTable(ram, root, n) && IsTable(ram, root, q)
    ensures Reach(ram, root, q) != n
  {
  }

  lemma BaseAligned(w: nat)
    ensures BaseOf(w) % 4096 == 0
  {
  }

  lemma InMemory(ram: Ram, root: nat, q: Path)
    requires Tree(ram, root) && IsTable(ram, root, q)
    ensures Reach(ram, root, q) < |ram|
  {
  }

  lemma RootReached(ram: Ram, root: nat)
    ensures Reach(ram, root, []) == root
  {
  }

  lemma TableInMemory(ram: Ram, root: nat, q: Path, t: nat)
    requires Tree(ram, root) && |q| <= 3 && Reach(ram, root, q) == t
    ensures t < |ram|
  {
    assert IsTable(ram, root, q);
  }

  lemma ReachNext(ram: Ram, root: nat, q: Path, t: nat, i: nat)
    requires Reach(ram, root, q) == t < |ram| && i < 512
    ensures Reach(ram, root, q + [i]) == if Present(ram[t][i]) then FrameOf(ram[t][i]) else -1
  {
    assert (q + [i])[..|q|] == q;
  }

  lemma AtLeastMissing(ram: Ram, root: nat, p: Path)
    ensures Reach(ram, root, p) >= -1
  {
  }

  lemma StillMissing(ram: Ram, root: nat, p: Path)
    requires Reach(ram, root, p) < 0
    ensures Reach(ram, root, p) == -1
  {
  }

  lemma SameTables(ram: Ram, ram': Ram, root: nat, n: nat, free: set<nat>)
    requires forall p: Path :: |p| <= 3 ==> Reach(ram', root, p) == Reach(ram, root, p)
    requires TablesTaken(ram, root, free) && NoTable(ram, root, n)
    ensures TablesTaken(ram', root, free) && NoTable(ram', root, n)
  {
    forall p | IsTable(ram', root, p) ensures IsTable(ram, root, p) {
    }
  }

  lemma TakenUnchanged(ram: Ram, ram': Ram, root: nat, free: set<nat>)
    requires forall p: Path :: |p| <= 3 ==> Reach(ram', root, p) == Reach(ram, root, p)
    requires TablesTaken(ram, root, free)
    ensures TablesTaken(ram', root, free)
  {
    forall p | IsTable(ram', root, p) ensures IsTable(ram, root, p) {
    }
  }
}
