/** A directory is a sequence of slots; its live slots form a finite map from names to entries. */
module Directories {
  import opened Bytes
  import opened Layout

  type Name = seq<byte>

  predicate Live(e: Dirent) {
    e.name != []
  }

  predicate Binds(es: seq<Dirent>, name: Name, i: nat) {
    i < |es| && Live(es[i]) && es[i].name == name
  }

  predicate UniqueNames(es: seq<Dirent>) {
    forall i, j :: 0 <= i < j < |es| && Live(es[i]) && Live(es[j]) ==> es[i].name != es[j].name
  }

  ghost function DirMap(es: seq<Dirent>): map<Name, Dirent> {
    if es == [] then map[]
    else
      var e, m := es[|es| - 1], DirMap(es[..|es| - 1]);
      if Live(e) then m[e.name := e] else m
  }

  /** Looking a name up in the slots is looking it up in the map. */
  lemma {:induction false} LookupIsMap(es: seq<Dirent>, name: Name, i: nat)
    requires UniqueNames(es) && Binds(es, name, i)
    ensures name in DirMap(es) && DirMap(es)[name] == es[i]
  {
    var last := |es| - 1;
    if i < last {
      LookupIsMap(es[..last], name, i);
      assert Live(es[last]) ==> es[i].name != es[last].name;
    }
  }

  /** Every binding of the map is in some slot. */
  lemma {:induction false} SlotOf(es: seq<Dirent>, name: Name) returns (i: nat)
    requires name in DirMap(es)
    ensures Binds(es, name, i)
  {
    var last := |es| - 1;
    if Binds(es, name, last) {
      i := last;
    } else {
      i := SlotOf(es[..last], name);
    }
  }

  /** Filling a free slot with an unused name adds exactly one binding. */
  lemma InsertBinding(es: seq<Dirent>, i: nat, e: Dirent)
    requires UniqueNames(es) && i < |es| && !Live(es[i])
    requires Live(e) && e.name !in DirMap(es)
    ensures UniqueNames(es[i := e])
    ensures DirMap(es[i := e]) == DirMap(es)[e.name := e]
  {
    var fs := es[i := e];
    forall j: nat | j < |es| && Live(es[j])
      ensures es[j].name != e.name
    {
      LookupIsMap(es, es[j].name, j);
    }
    var m, want := DirMap(fs), DirMap(es)[e.name := e];
    forall n | n in want
      ensures n in m && m[n] == want[n]
    {
      if n == e.name {
        LookupIsMap(fs, n, i);
      } else {
        var j := SlotOf(es, n);
        LookupIsMap(es, n, j);
        LookupIsMap(fs, n, j);
      }
    }
    forall n | n in m
      ensures n in want
    {
      var j := SlotOf(fs, n);
      if j != i {
        LookupIsMap(es, n, j);
      }
    }
  }

  /** Slots appended empty bind nothing. */
  lemma {:induction false} AppendFreeSlots(es: seq<Dirent>, fs: seq<Dirent>)
    requires UniqueNames(es) && forall i :: 0 <= i < |fs| ==> !Live(fs[i])
    ensures UniqueNames(es + fs) && DirMap(es + fs) == DirMap(es)
  {
    if fs == [] {
      assert es + fs == es;
    } else {
      var last := |fs| - 1;
      AppendFreeSlots(es, fs[..last]);
      assert (es + fs)[..|es + fs| - 1] == es + fs[..last];
    }
  }

  /** Clearing a live slot removes exactly its binding. */
  lemma RemoveBinding(es: seq<Dirent>, i: nat, e: Dirent)
    requires UniqueNames(es) && i < |es| && Live(es[i]) && !Live(e)
    ensures UniqueNames(es[i := e])
    ensures DirMap(es[i := e]) == DirMap(es) - {es[i].name}
  {
    var fs := es[i := e];
    var m, want := DirMap(fs), DirMap(es) - {es[i].name};
    forall n | n in want
      ensures n in m && m[n] == want[n]
    {
      var j := SlotOf(es, n);
      LookupIsMap(es, n, j);
      LookupIsMap(fs, n, j);
    }
    forall n | n in m
      ensures n in want
    {
      var j := SlotOf(fs, n);
      LookupIsMap(es, n, j);
      assert Binds(es, n, j);
    }
  }

  /** Changing the data of an entry rebinds its name and nothing else. */
  lemma UpdateBinding(es: seq<Dirent>, i: nat, e: Dirent)
    requires UniqueNames(es) && i < |es| && Live(es[i]) && e.name == es[i].name
    ensures UniqueNames(es[i := e])
    ensures DirMap(es[i := e]) == DirMap(es)[e.name := e]
  {
    RemoveBinding(es, i, FREE_SLOT);
    var gs := es[i := FREE_SLOT];
    InsertBinding(gs, i, e);
    assert gs[i := e] == es[i := e];
    assert (DirMap(es) - {e.name})[e.name := e] == DirMap(es)[e.name := e];
  }

  // -------------------------------------------------------------- listing

  function LiveCount(es: seq<Dirent>): nat {
    if es == [] then 0
    else LiveCount(es[..|es| - 1]) + if Live(es[|es| - 1]) then 1 else 0
  }

  lemma {:induction false} LiveCountSum(es: seq<Dirent>, fs: seq<Dirent>)
    ensures LiveCount(es + fs) == LiveCount(es) + LiveCount(fs)
  {
    if fs == [] {
      assert es + fs == es;
    } else {
      assert (es + fs)[..|es + fs| - 1] == es + fs[..|fs| - 1];
      LiveCountSum(es, fs[..|fs| - 1]);
    }
  }

  /** Slot `i` is what listing the directory returns at `index`. */
  predicate IsNth(es: seq<Dirent>, index: int, i: nat) {
    i < |es| && Live(es[i]) && LiveCount(es[..i]) == index
  }

  lemma {:induction false} LiveCountMonotone(es: seq<Dirent>, i: nat, j: nat)
    requires i <= j <= |es|
    ensures LiveCount(es[..i]) <= LiveCount(es[..j])
    ensures i < j && Live(es[i]) ==> LiveCount(es[..i]) < LiveCount(es[..j])
  {
    if i < j {
      assert es[..j][..j - 1] == es[..j - 1];
      LiveCountMonotone(es, i, j - 1);
    }
  }

  /** Listing 0, 1, 2, ... visits live slots in slot order, so no slot twice. */
  lemma ListingInOrder(es: seq<Dirent>, m: int, n: int, i: nat, j: nat)
    requires IsNth(es, m, i) && IsNth(es, n, j)
    ensures m < n <==> i < j
    ensures m == n <==> i == j
  {
    if i <= j {
      LiveCountMonotone(es, i, j);
    } else {
      LiveCountMonotone(es, j, i);
    }
  }

  /** Every live slot is listed, at an index below the number of live slots. */
  lemma ListingComplete(es: seq<Dirent>, i: nat)
    requires i < |es| && Live(es[i])
    ensures IsNth(es, LiveCount(es[..i]), i) && LiveCount(es[..i]) < LiveCount(es)
  {
    LiveCountMonotone(es, i, |es|);
    assert es[..|es|] == es;
  }

  /** Every index below the number of live slots lists one. */
  lemma {:induction false} ListingTotal(es: seq<Dirent>, n: nat) returns (i: nat)
    requires n < LiveCount(es)
    ensures IsNth(es, n, i)
  {
    var last := |es| - 1;
    if n < LiveCount(es[..last]) {
      i := ListingTotal(es[..last], n);
      assert es[..last][..i] == es[..i];
    } else {
      i := last;
    }
  }

  /** There are as many live slots as there are bindings. */
  lemma {:induction false} BindingsCounted(es: seq<Dirent>)
    requires UniqueNames(es)
    ensures |DirMap(es)| == LiveCount(es)
  {
    if es != [] {
      var last := |es| - 1;
      var fs, e := es[..last], es[last];
      BindingsCounted(fs);
      if Live(e) && e.name in DirMap(fs) {
        var i := SlotOf(fs, e.name);
        assert false;
      }
    }
  }
}
