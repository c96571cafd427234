/** The kernel heap: first fit with splitting over one arena, and a ledger of what its clients hold. */
module KernelHeap {
  import opened HeapBlocks

  /** Rounding a request up to a multiple of eight, in 64 bits. */
  function Align8(size: nat): nat {
    (size + 7) % 0x1_0000_0000_0000_0000 / 8 * 8
  }

  /** The rounded request holds the request exactly when rounding does not wrap around. */
  lemma AlignHolds(size: nat)
    requires size < 0x1_0000_0000_0000_0000
    ensures Align8(size) >= size <==> size <= 0xFFFF_FFFF_FFFF_FFF8
    ensures Align8(size) % 8 == 0 && Align8(size) < size + 8
  {
    if size + 7 >= 0x1_0000_0000_0000_0000 {
      assert (size + 7) % 0x1_0000_0000_0000_0000 == size + 7 - 0x1_0000_0000_0000_0000;
    }
  }

  /** The words a request takes. */
  function WordsFor(size: nat): nat {
    Align8(size) / 8
  }

  lemma AlignedWords(size: nat)
    ensures Align8(size) % 8 == 0 && Align8(size) == 8 * WordsFor(size)
  {
  }

  /** The address a client gets for a block. */
  function Pointer(base: nat, b: Block): nat {
    base + 8 * b.start + 24
  }

  ghost predicate IsAt(bs: seq<Block>, base: nat, k: nat, p: nat) {
    k < |bs| && !bs[k].free && Pointer(base, bs[k]) == p
  }

  /** `p` was handed out and not yet given back. */
  ghost predicate Live(bs: seq<Block>, base: nat, p: nat) {
    exists k: nat :: IsAt(bs, base, k, p)
  }

  lemma LiveBlock(bs: seq<Block>, base: nat, k: nat, p: nat)
    requires IsAt(bs, base, k, p)
    ensures k < |bs| && !bs[k].free
  {
  }

  lemma LiveOnce(mem: seq<nat>, base: nat, bs: seq<Block>, i: nat, k: nat, p: nat)
    requires Tiling(mem, base, bs) && IsAt(bs, base, i, p) && IsAt(bs, base, k, p)
    ensures i == k
  {
    if i != k {
      Disjoint(mem, base, bs, i, k);
    }
  }

  // ------------------------------------------------------------ the header writes

  /** Memory after taking `n` words from block `k`: the headers of the block and of the rest. */
  ghost function TakenMem(mem: seq<nat>, base: nat, bs: seq<Block>, k: nat, n: nat): (r: seq<nat>)
    requires Tiling(mem, base, bs) && k < |bs| && bs[k].words >= n
    ensures |r| == |mem|
  {
    var s := bs[k].start;
    assert BlockOk(mem, base, bs, k);
    if Splits(bs[k], n) then
      var t := s + 3 + n;
      var rest := mem[t := 8 * (bs[k].words - n - 3)][t + 1 := 1][t + 2 := mem[s + 2]];
      rest[s + 2 := base + 8 * t][s := 8 * n][s + 1 := 0]
    else mem[s + 1 := 0]
  }

  lemma TakenCells(mem: seq<nat>, base: nat, bs: seq<Block>, k: nat, n: nat)
    requires Tiling(mem, base, bs) && k < |bs| && bs[k].words >= n
    ensures var s, t, now := bs[k].start, bs[k].start + 3 + n, TakenMem(mem, base, bs, k, n);
            && End(bs[k]) <= |mem| && now[s + 1] == 0
            && now[s] == (if Splits(bs[k], n) then 8 * n else mem[s])
            && now[s + 2] == (if Splits(bs[k], n) then base + 8 * t else mem[s + 2])
            && (Splits(bs[k], n) ==> now[t] == 8 * (bs[k].words - n - 3) && now[t + 1] == 1 && now[t + 2] == mem[s + 2])
    ensures forall w :: 0 <= w < |mem| && !(bs[k].start <= w < End(bs[k])) ==>
              TakenMem(mem, base, bs, k, n)[w] == mem[w]
  {
    assert BlockOk(mem, base, bs, k);
    hide Tiling;
  }

  /** The header of the block handed out. */
  lemma TakenFirst(mem: seq<nat>, base: nat, bs: seq<Block>, k: nat, n: nat)
    requires Tiling(mem, base, bs) && k < |bs| && bs[k].words >= n
    ensures BlockOk(TakenMem(mem, base, bs, k, n), base, Taken(bs, k, n), k)
  {
    hide TakenMem, Spliced, Tiling;
    var mid := Cut(bs[k], n);
    TakenCells(mem, base, bs, k, n);
    TiledAt(mem, base, bs, k);
    SplicedAt(bs, k, mid, k + 1, k);
    if k + 1 < |Taken(bs, k, n)| { SplicedAt(bs, k, mid, k + 1, k + 1); }
  }

  /** The header of the rest, if there is one. */
  lemma TakenRest(mem: seq<nat>, base: nat, bs: seq<Block>, k: nat, n: nat)
    requires Tiling(mem, base, bs) && k < |bs| && bs[k].words >= n && |Cut(bs[k], n)| == 2
    ensures BlockOk(TakenMem(mem, base, bs, k, n), base, Taken(bs, k, n), k + 1)
  {
    hide TakenMem, Spliced, Tiling;
    var mid := Cut(bs[k], n);
    TakenCells(mem, base, bs, k, n);
    TiledAt(mem, base, bs, k);
    SplicedAt(bs, k, mid, k + 1, k + 1);
    if k + 2 < |Taken(bs, k, n)| { SplicedAt(bs, k, mid, k + 1, k + 2); }
  }

  lemma TiledAt(mem: seq<nat>, base: nat, bs: seq<Block>, k: nat)
    requires Tiling(mem, base, bs) && k < |bs|
    ensures BlockOk(mem, base, bs, k)
  {
  }

  lemma TakenTiling(mem: seq<nat>, base: nat, bs: seq<Block>, k: nat, n: nat)
    requires Tiling(mem, base, bs) && k < |bs| && bs[k].words >= n
    ensures Tiling(TakenMem(mem, base, bs, k, n), base, Taken(bs, k, n))
  {
    hide Tiling, BlockOk, TakenMem, Spliced, Splits;
    TakenCells(mem, base, bs, k, n);
    TakenFirst(mem, base, bs, k, n);
    var mid := Cut(bs[k], n);
    if |mid| == 2 {
      TakenRest(mem, base, bs, k, n);
    }
    SplicedTiling(mem, TakenMem(mem, base, bs, k, n), base, bs, k, mid, k + 1);
  }

  /** Memory after freeing block `k`. */
  ghost function FreedMem(mem: seq<nat>, base: nat, bs: seq<Block>, k: nat): (r: seq<nat>)
    requires Tiling(mem, base, bs) && k < |bs|
    ensures |r| == |mem|
  {
    var s := bs[k].start;
    assert BlockOk(mem, base, bs, k);
    if Merges(bs, k) then
      assert BlockOk(mem, base, bs, k + 1);
      mem[s + 1 := 1][s := mem[s] + 24 + mem[bs[k + 1].start]][s + 2 := mem[bs[k + 1].start + 2]]
    else mem[s + 1 := 1]
  }

  lemma FreedTiling(mem: seq<nat>, base: nat, bs: seq<Block>, k: nat)
    requires Tiling(mem, base, bs) && k < |bs|
    ensures Tiling(FreedMem(mem, base, bs, k), base, Freed(bs, k))
    ensures forall w :: 0 <= w < |mem| && !(bs[k].start <= w < bs[k].start + 3) ==>
              FreedMem(mem, base, bs, k)[w] == mem[w]
  {
    assert BlockOk(mem, base, bs, k);
    assert k + 1 < |bs| ==> BlockOk(mem, base, bs, k + 1);
    var now := FreedMem(mem, base, bs, k);
    var j := if Merges(bs, k) then k + 2 else k + 1;
    var mid := [FreedBlock(bs, k)];
    var r := Spliced(bs, k, mid, j);
    SplicedAt(bs, k, mid, j, k);
    if k + 1 < |r| { SplicedAt(bs, k, mid, j, k + 1); }
    hide Spliced, Tiling;
    assert BlockOk(now, base, r, k);
    SplicedTiling(mem, now, base, bs, k, mid, j);
  }

  /** What freeing the block at `p` finds in memory, and the words it changes. */
  lemma FreedReads(mem: seq<nat>, base: nat, bs: seq<Block>, k: nat, p: nat)
    requires Tiling(mem, base, bs) && IsAt(bs, base, k, p)
    ensures base + 24 <= p && k < |bs|
    ensures var b := (p - 24 - base) / 8;
            && b == bs[k].start && b + 2 < |mem|
            && (mem[b + 2] == 0 ==> FreedMem(mem, base, bs, k) == mem[b + 1 := 1])
            && (mem[b + 2] != 0 ==>
                  var m := (mem[b + 2] - base) / 8;
                  && base <= mem[b + 2] && b + 2 < m && m + 2 < |mem| && mem[b + 2] == p + mem[b]
                  && FreedMem(mem, base, bs, k)
                     == if mem[m + 1] == 0 then mem[b + 1 := 1]
                          else mem[b + 1 := 1][b := mem[b] + (24 + mem[m])][b + 2 := mem[m + 2]])
  {
    assert BlockOk(mem, base, bs, k) && (k + 1 < |bs| ==> BlockOk(mem, base, bs, k + 1));
  }

  /** The address test before merging never fails: the next header is where this block ends. */
  lemma NeighboursTouch(mem: seq<nat>, base: nat, bs: seq<Block>, k: nat)
    requires Tiling(mem, base, bs) && k < |bs| && bs[k].start + 2 < |mem| && mem[bs[k].start + 2] != 0
    ensures mem[bs[k].start + 2] == base + 8 * bs[k].start + 24 + mem[bs[k].start]
  {
    assert BlockOk(mem, base, bs, k);
  }

  // ------------------------------------------------------------ what the clients hold

  /** A held piece: the bytes asked for, and the words its owner wrote. */
  datatype Piece = Piece(size: nat, words: seq<nat>)

  /** Block `k` is large enough for the piece, by three words at most, and holds its words. */
  ghost predicate Holds(mem: seq<nat>, bs: seq<Block>, k: nat, piece: Piece) {
    && k < |bs| && End(bs[k]) <= |mem|
    && |piece.words| == WordsFor(piece.size) <= bs[k].words <= |piece.words| + 3
    && forall i :: 0 <= i < |piece.words| ==> mem[bs[k].start + 3 + i] == piece.words[i]
  }

  /** The ledger lists exactly the live pointers, each with the words that memory holds for it. */
  ghost predicate Kept(mem: seq<nat>, base: nat, bs: seq<Block>, ledger: map<nat, Piece>) {
    && (forall p :: p in ledger ==> Live(bs, base, p))
    && forall k: nat, p: nat :: IsAt(bs, base, k, p) ==> p in ledger && Holds(mem, bs, k, ledger[p])
  }

  /** What a ledger in step with memory means to the clients. */
  lemma Separate(mem: seq<nat>, base: nat, bs: seq<Block>, ledger: map<nat, Piece>, p: nat, q: nat)
    requires Tiling(mem, base, bs) && Kept(mem, base, bs, ledger) && p in ledger && q in ledger && p != q
    requires base % 8 == 0
    ensures p % 8 == 0 && base + 24 <= p && p + 8 * |ledger[p].words| <= base + 8 * |mem|
    ensures p + 8 * |ledger[p].words| + 24 <= q || q + 8 * |ledger[q].words| + 24 <= p
    ensures ledger[p].size <= 0xFFFF_FFFF_FFFF_FFF8 ==> 8 * |ledger[p].words| >= ledger[p].size
    ensures forall i :: 0 <= i < |ledger[p].words| ==>
              mem[(p - base) / 8 + i] == ledger[p].words[i]
  {
    assert Live(bs, base, p) && Live(bs, base, q);
    var i: nat :| IsAt(bs, base, i, p);
    var j: nat :| IsAt(bs, base, j, q);
    assert Holds(mem, bs, i, ledger[p]) && Holds(mem, bs, j, ledger[q]);
    Disjoint(mem, base, bs, i, j);
    assert (p - base) / 8 == bs[i].start + 3;
    if ledger[p].size <= 0xFFFF_FFFF_FFFF_FFF8 {
      AlignHolds(ledger[p].size);
    }
  }

  /** Where the blocks of a spliced list come from, and where the old ones go. */
  lemma SplicedLive(base: nat, bs: seq<Block>, k: nat, mid: seq<Block>, j: nat, p: nat)
    requires k < j <= |bs|
    ensures Live(mid, base, p) ==> Live(Spliced(bs, k, mid, j), base, p)
    ensures forall o: nat :: IsAt(bs, base, o, p) && !(k <= o < j) ==> Live(Spliced(bs, k, mid, j), base, p)
  {
    var r := Spliced(bs, k, mid, j);
    if Live(mid, base, p) {
      var i: nat :| IsAt(mid, base, i, p);
      SplicedAt(bs, k, mid, j, k + i);
      assert IsAt(r, base, k + i, p);
    }
    forall o: nat | IsAt(bs, base, o, p) && !(k <= o < j)
      ensures Live(r, base, p)
    {
      var i := if o < k then o else o - j + |mid| + k;
      SplicedAt(bs, k, mid, j, i);
      assert IsAt(r, base, i, p);
    }
  }

  /** Replacing blocks `k` up to `j` keeps the pieces in all other blocks. */
  lemma KeptSpliced(mem: seq<nat>, now: seq<nat>, base: nat, bs: seq<Block>, k: nat, mid: seq<Block>, j: nat,
                    ledger: map<nat, Piece>, next: map<nat, Piece>)
    requires Tiling(mem, base, bs) && Kept(mem, base, bs, ledger) && k < j <= |bs| && |now| == |mem|
    requires forall w :: 0 <= w < |mem| && !(bs[k].start <= w < End(bs[j - 1])) ==> now[w] == mem[w]
    requires forall i: nat, p: nat :: IsAt(bs, base, i, p) && !(k <= i < j) ==> p in next && next[p] == ledger[p]
    requires forall i: nat, p: nat :: IsAt(mid, base, i, p) ==> p in next && Holds(now, mid, i, next[p])
    requires forall p :: p in next ==>
               Live(mid, base, p) || (p in ledger && forall i: nat :: IsAt(bs, base, i, p) ==> !(k <= i < j))
    ensures Kept(now, base, Spliced(bs, k, mid, j), next)
  {
    var r := Spliced(bs, k, mid, j);
    forall i: nat, p: nat | IsAt(r, base, i, p)
      ensures p in next && Holds(now, r, i, next[p])
    {
      hide Tiling, Kept, Live, Spliced, Holds;
      SplicedAt(bs, k, mid, j, i);
      if k <= i < k + |mid| {
        assert IsAt(mid, base, i - k, p);
        SameHolds(now, mid, i - k, r, i, next[p]);
      } else {
        var o := if i < k then i else i - k - |mid| + j;
        assert IsAt(bs, base, o, p) && !(k <= o < j);
        KeptBlock(mem, now, base, bs, k, j, o, p, ledger);
        SameHolds(now, bs, o, r, i, next[p]);
      }
    }
    forall p | p in next
      ensures Live(r, base, p)
    {
      hide Tiling, Spliced, Holds;
      SplicedLive(base, bs, k, mid, j, p);
    }
    hide Tiling, Spliced, Holds, IsAt, Live;
  }

  lemma SameHolds(mem: seq<nat>, bs: seq<Block>, k: nat, r: seq<Block>, i: nat, piece: Piece)
    requires Holds(mem, bs, k, piece) && i < |r| && r[i] == bs[k]
    ensures Holds(mem, r, i, piece)
  {
  }

  lemma KeptBlock(mem: seq<nat>, now: seq<nat>, base: nat, bs: seq<Block>, k: nat, j: nat, o: nat, p: nat,
                  ledger: map<nat, Piece>)
    requires Tiling(mem, base, bs) && Kept(mem, base, bs, ledger) && k < j <= |bs| && |now| == |mem|
    requires forall w :: 0 <= w < |mem| && !(bs[k].start <= w < End(bs[j - 1])) ==> now[w] == mem[w]
    requires IsAt(bs, base, o, p) && !(k <= o < j)
    ensures p in ledger && Holds(now, bs, o, ledger[p])
  {
    assert Holds(mem, bs, o, ledger[p]);
    if o < k {
      InOrder(mem, base, bs, o, k);
    } else {
      InOrder(mem, base, bs, j - 1, o);
    }
  }

  /** The ledger after block `k` was taken for a request of `size` bytes. */
  lemma KeptTaken(mem: seq<nat>, base: nat, bs: seq<Block>, k: nat, ledger: map<nat, Piece>, size: nat, words: seq<nat>)
    requires Tiling(mem, base, bs) && Kept(mem, base, bs, ledger) && k < |bs| && Fits(bs[k], WordsFor(size))
    requires |words| == WordsFor(size)
    requires bs[k].start + 3 + |words| <= |mem|
    requires forall i :: 0 <= i < |words| ==>
              words[i] == TakenMem(mem, base, bs, k, WordsFor(size))[bs[k].start + 3 + i]
    ensures Kept(TakenMem(mem, base, bs, k, WordsFor(size)), base, Taken(bs, k, WordsFor(size)),
                 ledger[Pointer(base, bs[k]) := Piece(size, words)])
  {
    var n := WordsFor(size);
    var p, mid := Pointer(base, bs[k]), Cut(bs[k], n);
    TakenCells(mem, base, bs, k, n);
    var now := TakenMem(mem, base, bs, k, n);
    hide TakenMem;
    var next := ledger[p := Piece(size, words)];
    assert IsAt(mid, base, 0, p);
    forall i: nat, q: nat | IsAt(bs, base, i, q)
      ensures q != p
    {
      Disjoint(mem, base, bs, i, k);
    }
    KeptSpliced(mem, now, base, bs, k, mid, k + 1, ledger, next);
  }

  /** The ledger after block `k` was given back. */
  lemma KeptFreed(mem: seq<nat>, base: nat, bs: seq<Block>, k: nat, ledger: map<nat, Piece>, p: nat)
    requires Tiling(mem, base, bs) && Kept(mem, base, bs, ledger) && IsAt(bs, base, k, p)
    ensures Kept(FreedMem(mem, base, bs, k), base, Freed(bs, k), ledger - {p})
  {
    var j := if Merges(bs, k) then k + 2 else k + 1;
    FreedTiling(mem, base, bs, k);
    var now := FreedMem(mem, base, bs, k);
    hide FreedMem;
    assert BlockOk(mem, base, bs, k) && (Merges(bs, k) ==> BlockOk(mem, base, bs, k + 1));
    forall i: nat | IsAt(bs, base, i, p)
      ensures i == k
    {
      LiveOnce(mem, base, bs, i, k, p);
    }
    KeptIs(mem, base, bs, ledger);
    hide Tiling, Kept, Live;
    KeptSpliced(mem, now, base, bs, k, [FreedBlock(bs, k)], j, ledger, ledger - {p});
  }

  lemma KeptIs(mem: seq<nat>, base: nat, bs: seq<Block>, ledger: map<nat, Piece>)
    requires Kept(mem, base, bs, ledger)
    ensures forall k: nat, p: nat :: IsAt(bs, base, k, p) ==> p in ledger
  {
  }

  /** Writing inside a piece leaves the headers and every other piece alone. */
  lemma KeptStored(mem: seq<nat>, base: nat, bs: seq<Block>, k: nat, ledger: map<nat, Piece>, p: nat, at: nat, v: nat)
    requires Tiling(mem, base, bs) && Kept(mem, base, bs, ledger) && IsAt(bs, base, k, p) && p in ledger
    requires at < |ledger[p].words| && bs[k].start + 3 + at < |mem|
    ensures Tiling(mem[bs[k].start + 3 + at := v], base, bs)
    ensures Kept(mem[bs[k].start + 3 + at := v], base, bs,
                 ledger[p := Piece(ledger[p].size, ledger[p].words[at := v])])
  {
    var now := mem[bs[k].start + 3 + at := v];
    assert Holds(mem, bs, k, ledger[p]) && BlockOk(mem, base, bs, k);
    forall i: nat | i < |bs|
      ensures BlockOk(now, base, bs, i)
    {
      assert BlockOk(mem, base, bs, i);
      if i != k { Disjoint(mem, base, bs, i, k); }
    }
    var next := ledger[p := Piece(ledger[p].size, ledger[p].words[at := v])];
    forall i: nat, q: nat | IsAt(bs, base, i, q)
      ensures q in next && Holds(now, bs, i, next[q])
    {
      assert Holds(mem, bs, i, ledger[q]);
      if i != k {
        Disjoint(mem, base, bs, i, k);
      }
    }
  }

  // ------------------------------------------------------------ the heap

  class Heap {
    const base: nat
    const words: array<nat>
    var head: nat
    ghost var blocks: seq<Block>

    ghost predicate Valid()
      reads this, words
    {
      && head == base && 0 < base && base % 8 == 0 && base + 8 * words.Length < 0x1_0000_0000_0000_0000
      && Tiling(words[..], base, blocks)
    }

    /** One free block over all the pages the page allocator reserved at `at`. */
    constructor (at: nat, pages: nat)
      requires 0 < at && at % 8 == 0 && 0 < pages && at + 4096 * pages < 0x1_0000_0000_0000_0000
      ensures Valid() && fresh(words) && base == at && 8 * words.Length == 4096 * pages
      ensures blocks == [Block(0, words.Length - 3, true)] && Kept(words[..], base, blocks, map[])
    {
      base := at;
      head := at;
      words := new nat[512 * pages](i => 0);
      blocks := [Block(0, 512 * pages - 3, true)];
      new;
      words[0] := 4096 * pages - 24;
      words[1] := 1;
      words[2] := 0;
      assert BlockOk(words[..], base, blocks, 0);
    }

    /** The header writes of a block taken from its start at word `c`. */
    method Take(c: nat, aligned: nat, ghost k: nat) returns (p: nat)
      requires Valid() && k < |blocks| && blocks[k].start == c && aligned % 8 == 0 && Fits(blocks[k], aligned / 8)
      modifies this`blocks, words
      ensures Valid() && p == Pointer(base, old(blocks)[k]) && blocks == Taken(old(blocks), k, aligned / 8)
      ensures words[..] == TakenMem(old(words[..]), base, old(blocks), k, aligned / 8)
    {
      hide Taken, Tiling;
      TiledAt(words[..], base, blocks, k);
      TakenTiling(words[..], base, blocks, k, aligned / 8);
      if words[c] >= aligned + 24 + 8 {
        var rest := c + 3 + aligned / 8;
        words[rest] := words[c] - aligned - 24;
        words[rest + 1] := 1;
        words[rest + 2] := words[c + 2];
        words[c + 2] := base + 8 * rest;
        words[c] := aligned;
      }
      words[c + 1] := 0;
      blocks := Taken(blocks, k, aligned / 8);
      p := base + 8 * c + 24;
    }

    /** First fit: null exactly when no free block is large enough (or nothing was asked for). */
    method Kmalloc(size: nat) returns (p: nat)
      requires Valid() && size < 0x1_0000_0000_0000_0000
      modifies this`blocks, words
      ensures Valid()
      ensures p == 0 <==>
                || size == 0
                || forall k: nat :: k < |old(blocks)| && old(blocks)[k].free ==> old(blocks)[k].words < WordsFor(size)
      ensures p == 0 ==> blocks == old(blocks) && words[..] == old(words[..])
      ensures p != 0 ==>
                var k, n := FirstFit(old(blocks), WordsFor(size)), WordsFor(size);
                && k < |old(blocks)| && p == base + 8 * old(blocks)[k].start + 24
                && Handed(old(blocks), k, n, blocks)
                && blocks == Taken(old(blocks), k, n)
                && words[..] == TakenMem(old(words[..]), base, old(blocks), k, n)
    {
      AlignedWords(size);
      hide TakenMem, Taken, Align8, WordsFor;
      if size == 0 {
        return 0;
      }
      var aligned := Align8(size);
      ghost var mem := words[..];
      var cur := head;
      ghost var k: nat := 0;
      while cur != 0
        invariant k <= |blocks| && cur == if k < |blocks| then base + 8 * blocks[k].start else 0
        invariant forall i: nat :: i < k ==> !Fits(blocks[i], WordsFor(size))
        decreases |blocks| - k
      {
        assert BlockOk(mem, base, blocks, k);
        var c := (cur - base) / 8;
        if words[c + 1] != 0 && words[c] >= aligned {
          FirstFitIs(blocks, WordsFor(size), k);
          TakenHanded(blocks, k, WordsFor(size));
          p := Take(c, aligned, k);
          return;
        }
        cur := words[c + 2];
        k := k + 1;
      }
      p := 0;
    }

    /** Freeing a live pointer marks its block free and merges a free successor into it. */
    method Kfree(p: nat)
      requires Valid() && (p == 0 || Live(blocks, base, p))
      modifies this`blocks, words
      ensures Valid()
      ensures p == 0 ==> blocks == old(blocks) && words[..] == old(words[..])
      ensures forall k: nat :: IsAt(old(blocks), base, k, p) && p != 0 ==>
                && blocks == Freed(old(blocks), k) && words[..] == FreedMem(old(words[..]), base, old(blocks), k)
                && GivenBack(old(blocks), k, blocks)
    {
      hide Tiling, BlockOk, FreedMem, Freed, GivenBack, IsAt;
      if p == 0 {
        return;
      }
      ghost var mem, was := words[..], blocks;
      ghost var k: nat :| IsAt(blocks, base, k, p);
      forall i: nat | IsAt(was, base, i, p) ensures i == k { LiveOnce(mem, base, was, i, k, p); }
      LiveBlock(was, base, k, p);
      FreedTiling(mem, base, was, k);
      FreedReads(mem, base, was, k, p);
      FreedGivenBack(was, k);
      var b := (p - 24 - base) / 8;
      words[b + 1] := 1;
      var next := words[b + 2];
      if next != 0 {
        var m := (next - base) / 8;
        if words[m + 1] != 0 && next == p - 24 + 24 + words[b] {
          words[b] := words[b] + (24 + words[m]);
          words[b + 2] := words[m + 2];
        }
      }
      assert words[..] == FreedMem(mem, base, was, k);
      blocks := Freed(blocks, k);
    }

    /** A client writes word `at` of the piece at `p`. */
    method Store(p: nat, at: nat, v: nat, ghost k: nat)
      requires Valid() && IsAt(blocks, base, k, p) && at < blocks[k].words
      modifies words
      ensures blocks[k].start + 3 + at < words.Length
      ensures words[..] == old(words[..])[blocks[k].start + 3 + at := v]
    {
      assert BlockOk(words[..], base, blocks, k);
      words[(p - base) / 8 + at] := v;
    }
  }
}
