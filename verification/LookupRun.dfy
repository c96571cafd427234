/** What a run over the files of the root leaves findable: every path, of any depth, under another name. */
module LookupRuns {
  import opened Bytes
  import opened Layout
  import opened Chains
  import opened Directories
  import opened DirectoryOps
  import opened Ownership
  import opened Handles
  import opened PathLookup
  import opened InnoFileSystem
  import opened FileRuns
  import opened DirectoryMaking

  /** The sectors of the file or directory under that name, and those of the contents of directories. */
  ghost function Tree(s: State, name: Name): set<nat> {
    s.owners.others
    + set n | n in s.owners.own && s.owners.own[n] < ROOT_SLOTS && s.disk.root[s.owners.own[n]].name == name
  }

  /** Looking up this path stays in its tree. */
  ghost predicate Walks(s: State, ps: seq<Name>) {
    ps != [] && WalksIn(s.disk, s.disk.root, ps, Tree(s, ps[0]))
  }

  ghost function Finds(s: State, ps: seq<Name>): Found
    requires Walks(s, ps)
  {
    Lookup(s.disk, s.disk.root, ps, Tree(s, ps[0]))
  }

  lemma TreeInto(s: State, t: State, names: set<Name>, name: Name, n: nat)
    requires Consistent(s.disk, s.files, s.owners) && Consistent(t.disk, t.files, t.owners)
    requires Elsewhere(s, t, names) && name !in names && n in Tree(s, name)
    ensures n in Tree(t, name) && (n < MANAGED ==> t.disk.data[n] == s.disk.data[n])
  {
    hide UniqueNames, AllHandlesOk, EntriesOk, Accounted;
    if n !in s.owners.others {
      var k := s.owners.own[n];
      var ss := s.owners.chains[k];
      assert Ownership.Holds(s.owners, k, n);
      assert Ownership.Holds(t.owners, k, n);
      var i :| 0 <= i < |ss| && ss[i] == n;
      assert t.disk.data[ss[i]] == s.disk.data[ss[i]];
    }
  }

  lemma TreeBack(s: State, t: State, names: set<Name>, name: Name, n: nat)
    requires Consistent(s.disk, s.files, s.owners) && Consistent(t.disk, t.files, t.owners)
    requires Elsewhere(s, t, names) && name !in names && n in Tree(t, name)
    ensures n in Tree(s, name)
  {
    hide UniqueNames, AllHandlesOk, EntriesOk, Accounted;
    if n !in t.owners.others {
      var k := t.owners.own[n];
      assert Ownership.Holds(t.owners, k, n);
      assert k in s.owners.chains;
      KeptName(s, t, names, k);
      assert Ownership.Holds(s.owners, k, n);
    }
  }

  /** A slot with another name had that name before. */
  lemma KeptName(s: State, t: State, names: set<Name>, k: nat)
    requires Consistent(s.disk, s.files, s.owners) && Consistent(t.disk, t.files, t.owners)
    requires Elsewhere(s, t, names) && k in t.owners.chains && t.disk.root[k].name !in names && k < ROOT_SLOTS
    ensures k in s.owners.chains && InDataArea(s.owners.chains[k]) && t.disk.root[k] == s.disk.root[k]
    ensures t.owners.chains[k] == s.owners.chains[k]
  {
  }

  lemma SameTree(s: State, t: State, names: set<Name>, name: Name)
    requires Consistent(s.disk, s.files, s.owners) && Consistent(t.disk, t.files, t.owners)
    requires Elsewhere(s, t, names) && name !in names
    ensures Tree(t, name) == Tree(s, name)
    ensures forall n: nat :: n in Tree(s, name) && n < MANAGED ==> t.disk.data[n] == s.disk.data[n]
  {
    hide Consistent, Elsewhere, Tree;
    forall n: nat
      ensures n in Tree(s, name) ==> n in Tree(t, name) && (n < MANAGED ==> t.disk.data[n] == s.disk.data[n])
      ensures n in Tree(t, name) ==> n in Tree(s, name)
    {
      if n in Tree(s, name) {
        TreeInto(s, t, names, name, n);
      } else if n in Tree(t, name) {
        TreeBack(s, t, names, name, n);
      }
    }
  }

  lemma BoundAlike(s: State, t: State, names: set<Name>, name: Name, k: nat)
    requires Consistent(s.disk, s.files, s.owners) && Consistent(t.disk, t.files, t.owners)
    requires Elsewhere(s, t, names) && name !in names
    ensures Binds(s.disk.root, name, k) <==> Binds(t.disk.root, name, k)
    ensures Binds(s.disk.root, name, k) ==> t.disk.root[k] == s.disk.root[k]
  {
    hide AllHandlesOk, EntriesOk, Accounted, Owned, IsChain, UniqueNames;
    if Binds(s.disk.root, name, k) {
      assert k in s.owners.chains && InDataArea(s.owners.chains[k]);
    } else if Binds(t.disk.root, name, k) {
      KeptName(s, t, names, k);
    }
  }

  /** The root has the same entry of that name, or none as before. */
  lemma SameRootEntry(s: State, t: State, names: set<Name>, name: Name)
    requires Consistent(s.disk, s.files, s.owners) && Consistent(t.disk, t.files, t.owners)
    requires Elsewhere(s, t, names) && name !in names
    ensures var i := FirstBound(s.disk.root, name);
            FirstBound(t.disk.root, name) == i && (i < |s.disk.root| ==> t.disk.root[i] == s.disk.root[i])
  {
    hide Consistent, Elsewhere, Binds;
    forall k: nat
      ensures Binds(s.disk.root, name, k) <==> Binds(t.disk.root, name, k)
      ensures Binds(s.disk.root, name, k) ==> k < ROOT_SLOTS && t.disk.root[k] == s.disk.root[k]
    {
      BoundAlike(s, t, names, name, k);
      BoundInside(s.disk.root, name, k);
    }
    FirstBoundIs(t.disk.root, name, FirstBound(s.disk.root, name));
  }

  lemma BoundInside(es: seq<Dirent>, name: Name, k: nat)
    ensures Binds(es, name, k) ==> k < |es|
  {
  }

  /** One operation does not change where a path under another name leads. */
  lemma LookupKept(s: State, t: State, names: set<Name>, ps: seq<Name>)
    requires Consistent(s.disk, s.files, s.owners) && Consistent(t.disk, t.files, t.owners)
    requires Elsewhere(s, t, names) && Walks(s, ps) && ps[0] !in names
    ensures Walks(t, ps) && Finds(t, ps) == Finds(s, ps)
  {
    hide Consistent, Elsewhere, Tree, WalksIn, Lookup, FirstBound;
    SameTree(s, t, names, ps[0]);
    SameRootEntry(s, t, names, ps[0]);
    LookupFrame(s.disk, t.disk, s.disk.root, ps, Tree(s, ps[0]));
    SameFirst(t.disk, s.disk.root, t.disk.root, ps, Tree(s, ps[0]));
  }

  /** Over any run, a path whose first component no event is about leads to the same entry in every state. */
  lemma {:induction false} UntouchedFound(c: Course, ops: seq<Op>, results: seq<int>, outs: seq<seq<byte>>,
                                          ps: seq<Name>, i: nat)
    requires IsCourse(c, ops, results, outs) && i <= |ops| && Walks(c.states[0], ps)
    requires forall j {:trigger c.events[j]} :: 0 <= j < |ops| ==>
               Possible(c.simple[j], c.events[j]) && ps[0] !in Subject(c.simple[j], c.events[j])
    ensures Walks(c.states[i], ps) && Finds(c.states[i], ps) == Finds(c.states[0], ps)
  {
    hide Walks, Finds, Elsewhere, Answers, Consistent, FilesAre, HandlesAre, After, Subject, Possible;
    if i > 0 {
      UntouchedFound(c, ops, results, outs, ps, i - 1);
      var op := ops[i - 1];
      LookupKept(c.states[i - 1], c.states[i], Subject(c.simple[i - 1], c.events[i - 1]), ps);
    }
  }

  /** On a freshly formatted disk `/root/global` leads to the directory that formatting made there. */
  lemma GlobalFound(s: State)
    requires Fresh(s.disk) && s.owners == MKFS_OWNERS
    ensures Walks(s, [ROOT_NAME, GLOBAL_NAME])
    ensures Finds(s, [ROOT_NAME, GLOBAL_NAME]) == Present(Dirent(GLOBAL_NAME, 0, 0, 0, 3))
  {
    hide Fresh, Tree, FirstBound, IsChain, Slots, WalksIn, Lookup, Walks, Finds;
    var d, region := s.disk, Tree(s, ROOT_NAME);
    FreshParts(s);
    LookupTwice(d, d.root, Slots(d, [19]), ROOT_NAME, GLOBAL_NAME, [19], region);
    Begun(s, [ROOT_NAME, GLOBAL_NAME], Present(Dirent(GLOBAL_NAME, 0, 0, 0, 3)));
  }

  lemma FreshParts(s: State)
    requires Fresh(s.disk) && s.owners == MKFS_OWNERS
    ensures FirstBound(s.disk.root, ROOT_NAME) == 0 && s.disk.root[0].first == 19
    ensures IsDir(s.disk, 19, [19]) && Elems([19]) <= Tree(s, ROOT_NAME)
    ensures var es := Slots(s.disk, [19]);
            |es| == 4 && FirstBound(es, GLOBAL_NAME) == 0 && es[0] == Dirent(GLOBAL_NAME, 0, 0, 0, 3)
  {
    hide FirstBound, AllHandlesOk, EntriesOk, UniqueNames, Slots, Owned, Accounted;
    FirstBoundIs(s.disk.root, ROOT_NAME, 0);
    FirstBoundIs(Slots(s.disk, [19]), GLOBAL_NAME, 0);
    assert 0 in s.owners.chains && IsChain(s.disk, [19]);
  }

  /** Two pieces: an entry that leads to the directory `fs`, and an entry there. */
  lemma LookupTwice(d: Disk, es: seq<Dirent>, fs: seq<Dirent>, a: Name, b: Name, ss: seq<nat>, region: set<nat>)
    requires var k := FirstBound(es, a); k < |es| && IsDir(d, es[k].first, ss) && Elems(ss) <= region
    requires fs == Slots(d, ss) && FirstBound(fs, b) < |fs|
    ensures WalksIn(d, es, [a, b], region) && Lookup(d, es, [a, b], region) == Present(fs[FirstBound(fs, b)])
  {
    hide FirstBound, IsChain, Slots;
    DirUnique(d, es[FirstBound(es, a)].first, ss);
    assert [a, b][1..] == [b];
  }

  lemma Begun(s: State, ps: seq<Name>, found: Found)
    requires ps != [] && WalksIn(s.disk, s.disk.root, ps, Tree(s, ps[0]))
    requires Lookup(s.disk, s.disk.root, ps, Tree(s, ps[0])) == found
    ensures Walks(s, ps) && Finds(s, ps) == found
  {
  }
}
