/** Finding a path: from the root through directories, one piece of the path at a time. */
module PathLookup {
  import opened Bytes
  import opened Layout
  import opened Chains
  import opened Directories
  import opened Dirents
  import opened DirectoryOps
  import opened Volumes

  const SLASH: byte := 0x2F

  // ------------------------------------------------------------ cutting a path into pieces

  /** The length of the next piece: up to a slash, and 115 characters at most. */
  function PieceLength(p: seq<byte>, limit: nat): (n: nat)
    ensures n <= |p| && n <= limit
    ensures forall i :: 0 <= i < n ==> p[i] != SLASH
    ensures n < |p| && n < limit ==> p[n] == SLASH
  {
    if p == [] || p[0] == SLASH || limit == 0 then 0 else 1 + PieceLength(p[1..], limit - 1)
  }

  /** What follows a piece of that length, without the slash that ends it. */
  function Behind(p: seq<byte>, n: nat): seq<byte>
    requires n <= |p|
  {
    if n < |p| && p[n] == SLASH then p[n + 1..] else p[n..]
  }

  /** The pieces of a path behind its first slash. */
  function Pieces(p: seq<byte>): seq<Name>
    decreases |p|
  {
    if p == [] then []
    else
      var n := PieceLength(p, 115);
      [p[..n]] + Pieces(Behind(p, n))
  }

  predicate Component(c: Name) {
    c != [] && SLASH !in c
  }

  /** The absolute path with these components. */
  function Joined(cs: seq<Name>): seq<byte> {
    if cs == [] then [] else [SLASH] + cs[0] + Joined(cs[1..])
  }

  lemma {:induction false} PieceOfComponent(c: Name, rest: seq<byte>, limit: nat)
    requires SLASH !in c && |c| <= limit && (rest == [] || rest[0] == SLASH)
    ensures PieceLength(c + rest, limit) == |c|
  {
    if c == [] {
      assert c + rest == rest;
    } else {
      assert (c + rest)[1..] == c[1..] + rest;
      PieceOfComponent(c[1..], rest, limit - 1);
    }
  }

  lemma {:induction false} PiecesShort(p: seq<byte>)
    ensures forall i :: 0 <= i < |Pieces(p)| ==> |Pieces(p)[i]| <= 115
    decreases |p|
  {
    if p != [] {
      PiecesShort(Behind(p, PieceLength(p, 115)));
    }
  }

  lemma {:induction false} PiecesOfShort(cs: seq<Name>)
    requires cs != [] && forall i :: 0 <= i < |cs| ==> Component(cs[i]) && |cs[i]| <= 115
    ensures Pieces(Joined(cs)[1..]) == cs
  {
    var c, rest := cs[0], Joined(cs[1..]);
    assert Joined(cs)[1..] == c + rest;
    PieceOfComponent(c, rest, 115);
    assert (c + rest)[..|c|] == c;
    if |cs| > 1 {
      PiecesOfShort(cs[1..]);
      assert (c + rest)[|c| + 1..] == rest[1..];
    } else {
      assert (c + rest)[|c|..] == [];
    }
    assert cs == [c] + cs[1..];
  }

  /** A path is cut into its components if and only if none is longer than 115 characters. */
  lemma PiecesAreComponents(cs: seq<Name>)
    requires cs != [] && forall i :: 0 <= i < |cs| ==> Component(cs[i])
    ensures Pieces(Joined(cs)[1..]) == cs <==> forall i :: 0 <= i < |cs| ==> |cs[i]| <= 115
  {
    if forall i :: 0 <= i < |cs| ==> |cs[i]| <= 115 {
      PiecesOfShort(cs);
    } else {
      PiecesShort(Joined(cs)[1..]);
    }
  }

  lemma {:induction false} PieceBeforeSlash(p: seq<byte>, limit: nat)
    ensures PieceLength(p + [SLASH], limit) == PieceLength(p, limit)
  {
    if p != [] && p[0] != SLASH && limit > 0 {
      assert (p + [SLASH])[1..] == p[1..] + [SLASH];
      PieceBeforeSlash(p[1..], limit - 1);
    }
  }

  /** A slash at the end makes no difference. */
  lemma {:induction false} TrailingSlash(p: seq<byte>)
    requires p != [] && p[|p| - 1] != SLASH
    ensures Pieces(p + [SLASH]) == Pieces(p)
    decreases |p|
  {
    var n := PieceLength(p, 115);
    PieceBeforeSlash(p, 115);
    assert (p + [SLASH])[..n] == p[..n];
    if n < |p| {
      assert Behind(p + [SLASH], n) == Behind(p, n) + [SLASH];
      TrailingSlash(Behind(p, n));
    } else {
      assert Behind(p + [SLASH], n) == [] && Behind(p, n) == [];
    }
  }

  // ------------------------------------------------------------ the parent of a path

  predicate LastSlash(path: seq<byte>, at: nat) {
    at < |path| && path[at] == SLASH && forall i :: at < i < |path| ==> path[i] != SLASH
  }

  /** Cuts a path at its last slash. */
  method SplitPath(path: seq<byte>) returns (ok: bool, parent: seq<byte>, name: Name)
    ensures ok <==> SLASH in path
    ensures ok ==>
              exists at: nat :: LastSlash(path, at)
                && parent == (if at == 0 then [SLASH] else path[..at]) && name == path[at + 1..]
  {
    var last := -1;
    var i := 0;
    while i < |path|
      invariant i <= |path| && -1 <= last < i
      invariant last >= 0 ==> path[last] == SLASH
      invariant forall j :: last < j < i ==> path[j] != SLASH
    {
      if path[i] == SLASH {
        last := i;
      }
      i := i + 1;
    }
    ok, parent, name := last != -1, [], [];
    if ok {
      assert LastSlash(path, last);
      parent, name := if last == 0 then [SLASH] else path[..last], path[last + 1..];
    }
  }

  lemma {:induction false} JoinedFront(cs: seq<Name>)
    requires cs != []
    ensures Joined(cs) == Joined(cs[..|cs| - 1]) + [SLASH] + cs[|cs| - 1]
  {
    if |cs| > 1 {
      JoinedFront(cs[1..]);
      assert cs[1..][..|cs| - 2] == cs[..|cs| - 1][1..];
    }
  }

  /** Of a path of components the last is split off, and the parent is the path of the others. */
  lemma SplitOfJoined(cs: seq<Name>, at: nat)
    requires cs != [] && (forall i :: 0 <= i < |cs| ==> Component(cs[i])) && LastSlash(Joined(cs), at)
    ensures Joined(cs)[at + 1..] == cs[|cs| - 1] && Joined(cs)[..at] == Joined(cs[..|cs| - 1])
    ensures at == 0 <==> |cs| == 1
  {
    hide Joined;
    JoinedFront(cs);
    JoinedStart(cs[..|cs| - 1]);
    assert Component(cs[|cs| - 1]);
    CutAt(Joined(cs[..|cs| - 1]), cs[|cs| - 1], at);
  }

  lemma JoinedStart(cs: seq<Name>)
    ensures Joined(cs) == [] <==> cs == []
  {
  }

  lemma CutAt(front: seq<byte>, last: Name, at: nat)
    requires SLASH !in last && LastSlash(front + [SLASH] + last, at)
    ensures var path := front + [SLASH] + last; at == |front| && path[..at] == front && path[at + 1..] == last
  {
    var path := front + [SLASH] + last;
    assert path[|front|] == SLASH;
    assert path[|front| + 1..] == last;
  }

  // ------------------------------------------------------------ the walk

  /** The first slot with that name, or |es|. */
  function FirstBound(es: seq<Dirent>, name: Name): (k: nat)
    ensures k <= |es| && NotBound(es, name, k) && (k < |es| ==> Binds(es, name, k))
  {
    if es == [] then 0
    else
      var last := |es| - 1;
      var k := FirstBound(es[..last], name);
      assert forall i: nat :: i < last ==> Binds(es, name, i) == Binds(es[..last], name, i);
      if k < last || Binds(es, name, last) then k else |es|
  }

  lemma FirstBoundIs(es: seq<Dirent>, name: Name, k: nat)
    requires NotBound(es, name, k) && k <= |es| && (k < |es| ==> Binds(es, name, k))
    ensures FirstBound(es, name) == k
  {
    var j := FirstBound(es, name);
    assert j < |es| ==> Binds(es, name, j);
    assert k < |es| ==> Binds(es, name, k);
  }

  ghost predicate IsDir(d: Disk, first: nat, ss: seq<nat>) {
    InDataArea(ss) && IsChain(d, ss) && Head(ss) == first
  }

  /** The sectors of the directory that starts at `first`, if it is one. */
  ghost function DirAt(d: Disk, first: nat): (ss: seq<nat>)
    ensures (exists tt :: IsDir(d, first, tt)) ==> IsDir(d, first, ss)
  {
    if tt :| IsDir(d, first, tt) then tt else []
  }

  lemma DirUnique(d: Disk, first: nat, ss: seq<nat>)
    requires IsDir(d, first, ss)
    ensures DirAt(d, first) == ss
  {
    ChainUnique(d, ss, DirAt(d, first));
  }

  /** Every entry that the walk goes through leads to a chain of sectors, all of them in `region`. */
  ghost predicate WalksIn(d: Disk, es: seq<Dirent>, ps: seq<Name>, region: set<nat>)
    decreases |ps|
  {
    |ps| > 1 ==>
      var k := FirstBound(es, ps[0]);
      k < |es| ==>
        var ss := DirAt(d, es[k].first);
        IsDir(d, es[k].first, ss) && Elems(ss) <= region && WalksIn(d, Slots(d, ss), ps[1..], region)
  }

  datatype Found = Absent | Present(entry: Dirent)

  /** Looking up the pieces one after the other, from the directory with the slots `es`. */
  ghost function Lookup(d: Disk, es: seq<Dirent>, ps: seq<Name>, region: set<nat>): Found
    requires ps != [] && WalksIn(d, es, ps, region)
    decreases |ps|
  {
    var k := FirstBound(es, ps[0]);
    if k == |es| then Absent
    else if |ps| == 1 then Present(es[k])
    else Lookup(d, Slots(d, DirAt(d, es[k].first)), ps[1..], region)
  }

  /** The walk reads the sectors of its region only. */
  lemma {:induction false} LookupFrame(d: Disk, e: Disk, es: seq<Dirent>, ps: seq<Name>, region: set<nat>)
    requires ps != [] && WalksIn(d, es, ps, region)
    requires forall n: nat :: n in region && n < MANAGED ==> e.data[n] == d.data[n]
    ensures WalksIn(e, es, ps, region) && Lookup(e, es, ps, region) == Lookup(d, es, ps, region)
    decreases |ps|
  {
    var k := FirstBound(es, ps[0]);
    if |ps| > 1 && k < |es| {
      var ss := DirAt(d, es[k].first);
      forall i | 0 <= i < |ss|
        ensures d.data[ss[i]] == e.data[ss[i]]
      {
        assert ss[i] in Elems(ss);
      }
      ChainFrame(d, e, ss);
      DirUnique(e, es[k].first, ss);
      SlotsFrame(d, e, ss);
      LookupFrame(d, e, Slots(d, ss), ps[1..], region);
    }
  }

  /** Two directories with the same entry under the first piece, or both without one. */
  lemma SameFirst(d: Disk, es: seq<Dirent>, fs: seq<Dirent>, ps: seq<Name>, region: set<nat>)
    requires ps != [] && WalksIn(d, es, ps, region)
    requires var i, j := FirstBound(es, ps[0]), FirstBound(fs, ps[0]);
             if i < |es| then j < |fs| && fs[j] == es[i] else j == |fs|
    ensures WalksIn(d, fs, ps, region) && Lookup(d, fs, ps, region) == Lookup(d, es, ps, region)
  {
  }

  /** Looking up one name gives the first entry of that name, if there is one. */
  lemma LookupOne(d: Disk, es: seq<Dirent>, name: Name, region: set<nat>, k: nat)
    ensures NotBound(es, name, |es|) ==> Lookup(d, es, [name], region) == Absent
    ensures Binds(es, name, k) && NotBound(es, name, k) ==> Lookup(d, es, [name], region) == Present(es[k])
  {
    if NotBound(es, name, |es|) {
      FirstBoundIs(es, name, |es|);
    }
    if Binds(es, name, k) && NotBound(es, name, k) {
      FirstBoundIs(es, name, k);
    }
  }

  /** Looking up a path is looking up its front, and then the rest in the directory found there. */
  lemma {:induction false} LookupJoin(d: Disk, es: seq<Dirent>, a: seq<Name>, b: seq<Name>, region: set<nat>)
    requires a != [] && b != [] && WalksIn(d, es, a + b, region)
    ensures WalksIn(d, es, a, region)
    ensures match Lookup(d, es, a, region)
            case Absent => Lookup(d, es, a + b, region) == Absent
            case Present(e) =>
              && IsDir(d, e.first, DirAt(d, e.first)) && WalksIn(d, Slots(d, DirAt(d, e.first)), b, region)
              && Lookup(d, es, a + b, region) == Lookup(d, Slots(d, DirAt(d, e.first)), b, region)
    decreases |a|
  {
    hide Slots, IsChain, FirstBound;
    var k := FirstBound(es, a[0]);
    assert (a + b)[0] == a[0] && (a + b)[1..] == a[1..] + b;
    FirstBoundInside(es, a[0]);
    if k < |es| && |a| > 1 {
      LookupJoin(d, Slots(d, DirAt(d, es[k].first)), a[1..], b, region);
    } else {
      assert |a| == 1 ==> a[1..] + b == b;
    }
  }

  lemma FirstBoundInside(es: seq<Dirent>, name: Name)
    ensures FirstBound(es, name) <= |es|
  {
  }

  /** An empty piece, from two slashes in a row, is never found. */
  lemma {:induction false} EmptyPieceAbsent(d: Disk, es: seq<Dirent>, ps: seq<Name>, i: nat, region: set<nat>)
    requires i < |ps| && ps[i] == [] && WalksIn(d, es, ps, region)
    ensures Lookup(d, es, ps, region) == Absent
    decreases |ps|
  {
    var k := FirstBound(es, ps[0]);
    if i > 0 && k < |es| {
      EmptyPieceAbsent(d, Slots(d, DirAt(d, es[k].first)), ps[1..], i - 1, region);
    }
  }

  // ------------------------------------------------------------ find_dirent

  /** What looking up the root itself gives. */
  const ROOT_ENTRY := Dirent([], 0, 3, 0, 1)

  predicate Absolute(path: seq<byte>) {
    path != [] && path[0] == SLASH
  }

  /** Entry number `index` of a sector of the root directory or of a chained one. */
  function StoredAt(d: Disk, sector: nat, index: nat): Dirent
    requires 3 <= sector < DISK_SECTORS && index < 4
  {
    if sector < DATA_START then d.root[4 * (sector - 3) + index] else EntriesAt(d, sector)[index]
  }

  /** The loop that takes the next piece off the path. */
  method TakePiece(path: seq<byte>, at: nat) returns (token: Name, next: nat)
    requires at < |path|
    ensures at < next <= |path| && Pieces(path[at..]) == [token] + Pieces(path[next..])
  {
    var i := 0;
    ghost var n := PieceLength(path[at..], 115);
    while at + i < |path| && path[at + i] != SLASH && i < 115
      invariant i <= n
    {
      assert path[at..][i] == path[at + i];
      i := i + 1;
    }
    token := path[at..at + i];
    assert path[at..][..i] == token;
    next := at + i;
    if next < |path| && path[next] == SLASH {
      next := next + 1;
    }
    assert Behind(path[at..], i) == path[next..];
  }

  /** Looks one piece up, in the root or in the directory that starts at `first`. */
  method FindHere(d: Disk, inRoot: bool, first: nat, token: Name, ghost es: seq<Dirent>, ghost ss: seq<nat>)
    returns (here: bool, entry: Dirent, sector: nat, index: nat)
    requires if inRoot then es == d.root else IsDir(d, first, ss) && es == Slots(d, ss)
    ensures here <==> FirstBound(es, token) < |es|
    ensures here ==>
              && entry == es[FirstBound(es, token)]
              && 3 <= sector < MANAGED && index < 4 && StoredAt(d, sector, index) == entry
  {
    hide IsChain, Slots, Entries, FirstBound;
    entry, sector, index := ROOT_ENTRY, 0, 0;
    if inRoot {
      var slot;
      here, slot := FindInRoot(d, token);
      FirstBoundIs(es, token, if here then slot else |es|);
      if here {
        entry, sector, index := d.root[slot], 3 + slot / 4, slot % 4;
      }
    } else {
      ghost var q;
      here, sector, index, q := FindInChain(d, first, token, ss);
      FirstBoundIs(es, token, if here then Base(q) + index else |es|);
      if here {
        SlotAt(d, ss, q, index);
        entry := EntriesAt(d, sector)[index];
      }
    }
  }

  lemma LookupNext(d: Disk, es: seq<Dirent>, token: Name, rest: seq<Name>, region: set<nat>)
    requires WalksIn(d, es, [token] + rest, region)
    ensures var k, all := FirstBound(es, token), Lookup(d, es, [token] + rest, region);
            && (k == |es| ==> all == Absent)
            && (k < |es| && rest == [] ==> all == Present(es[k]))
            && (k < |es| && rest != [] ==>
                  && IsDir(d, es[k].first, DirAt(d, es[k].first))
                  && WalksIn(d, Slots(d, DirAt(d, es[k].first)), rest, region)
                  && Lookup(d, Slots(d, DirAt(d, es[k].first)), rest, region) == all)
  {
    hide IsDir, Slots, FirstBound;
    assert ([token] + rest)[1..] == rest;
  }

  lemma SomePieces(p: seq<byte>)
    ensures Pieces(p) == [] <==> p == []
  {
  }

  /** Finds the entry a path leads to, and where it is stored. */
  method FindDirent(d: Disk, path: seq<byte>, ghost region: set<nat>)
    returns (found: bool, entry: Dirent, atRoot: bool, sector: nat, index: nat)
    requires Absolute(path) ==> WalksIn(d, d.root, Pieces(path[1..]), region)
    ensures atRoot <==> path == [SLASH]
    ensures atRoot ==> found && entry.first == 3 && On(entry.flags, 0) && entry == Dirent([], 0, 3, 0, 1)
    ensures !Absolute(path) ==> !found
    ensures Absolute(path) && !atRoot ==>
              && Pieces(path[1..]) != []
              && Lookup(d, d.root, Pieces(path[1..]), region) == if found then Present(entry) else Absent
    ensures found && !atRoot ==> 3 <= sector < MANAGED && index < 4 && StoredAt(d, sector, index) == entry
  {
    hide WalksIn, Lookup, Pieces, Slots, IsChain, FirstBound, StoredAt;
    found, entry, atRoot, sector, index := false, ROOT_ENTRY, false, 0, 0;
    if path == [] || path[0] != SLASH {
      return;
    }
    if path == [SLASH] {
      return true, ROOT_ENTRY, true, 0, 0;
    }
    SomePieces(path[1..]);
    var at, inRoot := 1, true;
    ghost var es: seq<Dirent>, ss: seq<nat>, all := d.root, [], Lookup(d, d.root, Pieces(path[1..]), region);
    while at < |path|
      invariant 1 <= at <= |path|
      invariant at < |path| ==>
                  && Pieces(path[at..]) != [] && WalksIn(d, es, Pieces(path[at..]), region)
                  && Lookup(d, es, Pieces(path[at..]), region) == all
                  && if inRoot then es == d.root else IsDir(d, entry.first, ss) && es == Slots(d, ss)
      invariant at == |path| ==>
                  all == Present(entry) && 3 <= sector < MANAGED && index < 4 && StoredAt(d, sector, index) == entry
    {
      var token, here;
      token, at := TakePiece(path, at);
      SomePieces(path[at..]);
      LookupNext(d, es, token, Pieces(path[at..]), region);
      here, entry, sector, index := FindHere(d, inRoot, entry.first, token, es, ss);
      if !here {
        return false, ROOT_ENTRY, false, 0, 0;
      }
      inRoot, ss := false, DirAt(d, entry.first);
      es := if at < |path| then Slots(d, ss) else [];
    }
    found := true;
  }
}
