/** Any run of requests, frees and client writes on the heap. */
module HeapRuns {
  import opened HeapBlocks
  import opened KernelHeap
  import opened PhysicalPages

  datatype Op =
    | Alloc(size: nat)
    | Free(p: nat)
    | Store(p: nat, at: nat, v: nat)

  /** What a request got: an address, and the words found there. */
  datatype Got = Got(p: nat, words: seq<nat>)

  /** What the clients hold after a run, from the answers alone: a piece has the words it was handed out
      with, overwritten by its own stores, until it is freed. */
  function Replay(ops: seq<Op>, got: seq<Got>): map<nat, Piece>
    requires |ops| == |got|
  {
    if ops == [] then map[]
    else
      var last := |ops| - 1;
      After(Replay(ops[..last], got[..last]), ops[last], got[last])
  }

  /** One operation. Frees and stores of addresses that are not held, or beyond a piece, are not made. */
  function After(held: map<nat, Piece>, op: Op, g: Got): map<nat, Piece> {
    match op
    case Alloc(size) => if g.p == 0 then held else held[g.p := Piece(size, g.words)]
    case Free(p) => held - {p}
    case Store(p, at, v) =>
      if p in held && at < |held[p].words| then held[p := Piece(held[p].size, held[p].words[at := v])] else held
  }

  /** What an operation does to the block list, and the address a request gets: none exactly when no free
      block is large enough (or nothing was asked for), else the first that fits, with three words to spare at
      most. */
  ghost predicate Does(base: nat, bs: seq<Block>, op: Op, p: nat, after: seq<Block>) {
    match op
    case Alloc(size) =>
      var n := WordsFor(size);
      if size == 0 || forall k: nat :: k < |bs| && bs[k].free ==> bs[k].words < n then p == 0 && after == bs
      else exists k: nat :: Handed(bs, k, n, after) && p == base + 8 * bs[k].start + 24
                            && after == Taken(bs, k, n)
    case Free(q) =>
      if Live(bs, base, q) then
        exists k: nat :: IsAt(bs, base, k, q) && GivenBack(bs, k, after) && after == Freed(bs, k)
      else after == bs
    case Store(_, _, _) => after == bs
  }

  method DoAlloc(heap: Heap, size: nat, ghost held: map<nat, Piece>) returns (g: Got)
    requires heap.Valid() && Kept(heap.words[..], heap.base, heap.blocks, held) && size < 0x1_0000_0000_0000_0000
    modifies heap`blocks, heap.words
    ensures heap.Valid() && Kept(heap.words[..], heap.base, heap.blocks, After(held, Alloc(size), g))
    ensures g.p != 0 ==> g.p !in held
    ensures Does(heap.base, old(heap.blocks), Alloc(size), g.p, heap.blocks)
  {
    hide Tiling, Kept, TakenMem, Taken, FirstFit, Align8, Handed;
    ghost var mem, bs := heap.words[..], heap.blocks;
    var p := heap.Kmalloc(size);
    if p == 0 {
      return Got(0, []);
    }
    ghost var k, n := FirstFit(bs, WordsFor(size)), WordsFor(size);
    assert k < |bs| && Fits(bs[k], n);
    Fresh(mem, heap.base, bs, k, held);
    TiledAt(mem, heap.base, bs, k);
    AlignedWords(size);
    var s := (p - heap.base) / 8;
    g := Got(p, heap.words[s..s + Align8(size) / 8]);
    KeptTaken(mem, heap.base, bs, k, held, size, g.words);
  }

  lemma Fresh(mem: seq<nat>, base: nat, bs: seq<Block>, k: nat, held: map<nat, Piece>)
    requires Tiling(mem, base, bs) && Kept(mem, base, bs, held) && k < |bs| && bs[k].free
    ensures Pointer(base, bs[k]) !in held
  {
    if Live(bs, base, Pointer(base, bs[k])) {
      var i: nat :| IsAt(bs, base, i, Pointer(base, bs[k]));
      Disjoint(mem, base, bs, i, k);
    }
  }

  method DoFree(heap: Heap, p: nat, held: map<nat, Piece>)
    requires heap.Valid() && Kept(heap.words[..], heap.base, heap.blocks, held)
    modifies heap`blocks, heap.words
    ensures heap.Valid() && Kept(heap.words[..], heap.base, heap.blocks, held - {p})
    ensures Does(heap.base, old(heap.blocks), Free(p), 0, heap.blocks)
  {
    ghost var mem, bs := heap.words[..], heap.blocks;
    if p in held {
      ghost var k: nat :| IsAt(bs, heap.base, k, p);
      KeptFreed(mem, heap.base, bs, k, held, p);
      heap.Kfree(p);
    } else {
      assert held - {p} == held;
      OnlyHeldLive(mem, heap.base, bs, held, p);
    }
  }

  lemma OnlyHeldLive(mem: seq<nat>, base: nat, bs: seq<Block>, held: map<nat, Piece>, p: nat)
    requires Kept(mem, base, bs, held)
    ensures Live(bs, base, p) <==> p in held
  {
    if Live(bs, base, p) {
      var k: nat :| IsAt(bs, base, k, p);
    }
  }

  method DoStore(heap: Heap, p: nat, at: nat, v: nat, held: map<nat, Piece>)
    requires heap.Valid() && Kept(heap.words[..], heap.base, heap.blocks, held)
    modifies heap.words
    ensures heap.Valid() && Kept(heap.words[..], heap.base, heap.blocks, After(held, Store(p, at, v), Got(0, [])))
  {
    ghost var mem, bs := heap.words[..], heap.blocks;
    if p in held && at < |held[p].words| {
      ghost var k: nat :| IsAt(bs, heap.base, k, p);
      assert Holds(mem, bs, k, held[p]);
      KeptStored(mem, heap.base, bs, k, held, p, at, v);
      heap.Store(p, at, v, k);
    }
  }

  ghost predicate IsCourse(lists: seq<seq<Block>>, base: nat, ops: seq<Op>, got: seq<Got>) {
    && |got| == |ops| && |lists| == |ops| + 1
    && forall i {:trigger ops[i]} :: 0 <= i < |ops| ==> Does(base, lists[i], ops[i], got[i].p, lists[i + 1])
  }

  lemma CourseGoesOn(lists: seq<seq<Block>>, base: nat, ops: seq<Op>, got: seq<Got>, op: Op, g: Got, after: seq<Block>)
    requires IsCourse(lists, base, ops, got) && Does(base, lists[|ops|], op, g.p, after)
    ensures IsCourse(lists + [after], base, ops + [op], got + [g])
  {
    hide Does;
  }

  /** Over any run the blocks tile the arena, every held piece still has its owner's words, and each
      operation does to the block list what the list before it demands. */
  method Run(heap: Heap, ops: seq<Op>) returns (got: seq<Got>, held: map<nat, Piece>, ghost lists: seq<seq<Block>>)
    requires heap.Valid() && Kept(heap.words[..], heap.base, heap.blocks, map[])
    requires forall i :: 0 <= i < |ops| && ops[i].Alloc? ==> ops[i].size < 0x1_0000_0000_0000_0000
    modifies heap`blocks, heap.words
    ensures heap.Valid() && |got| == |ops| && held == Replay(ops, got)
    ensures Kept(heap.words[..], heap.base, heap.blocks, held)
    ensures Total(heap.blocks) == heap.words.Length
    ensures IsCourse(lists, heap.base, ops, got)
    ensures lists[0] == old(heap.blocks) && lists[|ops|] == heap.blocks
  {
    hide Tiling, Kept, Does;
    got, held, lists := [], map[], [heap.blocks];
    for i := 0 to |ops|
      invariant |got| == i && held == Replay(ops[..i], got)
      invariant heap.Valid() && Kept(heap.words[..], heap.base, heap.blocks, held)
      invariant IsCourse(lists, heap.base, ops[..i], got)
      invariant lists[0] == old(heap.blocks) && lists[i] == heap.blocks
    {
      var g := Got(0, []);
      match ops[i] {
        case Alloc(size) => g := DoAlloc(heap, size, held);
        case Free(p) => DoFree(heap, p, held);
        case Store(p, at, v) => DoStore(heap, p, at, v, held);
      }
      StoreDoes(heap.base, lists[i], ops[i], g.p);
      held := After(held, ops[i], g);
      CourseGoesOn(lists, heap.base, ops[..i], got, ops[i], g, heap.blocks);
      assert ops[..i + 1][..i] == ops[..i] && (got + [g])[..i] == got && ops[..i] + [ops[i]] == ops[..i + 1];
      got, lists := got + [g], lists + [heap.blocks];
    }
    assert ops[..|ops|] == ops;
    ArenaCovered(heap.words[..], heap.base, heap.blocks);
  }

  lemma StoreDoes(base: nat, bs: seq<Block>, op: Op, p: nat)
    ensures op.Store? ==> Does(base, bs, op, p, bs)
  {
  }

  /** The kernel's start-up: the arena is the lowest run of free pages. There is no heap without such a run,
      nor when the run starts at page 0, whose address means failure. */
  method HeapInit(pmm: Pmm, hhdm: nat, pages: nat) returns (ok: bool, heap: Heap?)
    requires pmm.Valid() && 0 < pages
    requires hhdm % 8 == 0 && hhdm + 4096 * pmm.totalPages < 0x1_0000_0000_0000_0000
    modifies pmm`freePages, pmm.bitmap
    ensures pmm.Valid()
    ensures ok <==> (exists s: nat :: IsRun(old(pmm.Free()), s, pages)) && !IsRun(old(pmm.Free()), 0, pages)
    ensures !ok ==> pmm.Free() == if IsRun(old(pmm.Free()), 0, pages) then old(pmm.Free()) - Pages(0, pages)
                                  else old(pmm.Free())
    ensures ok ==>
              && heap != null && fresh(heap) && heap.Valid() && Kept(heap.words[..], heap.base, heap.blocks, map[])
              && 8 * heap.words.Length == 4096 * pages && heap.base >= hhdm
              && heap.blocks == [Block(0, heap.words.Length - 3, true)]
              && exists s: nat :: heap.base == hhdm + 4096 * s && IsRun(old(pmm.Free()), s, pages)
                                  && pmm.Free() == old(pmm.Free()) - Pages(s, pages)
  {
    hide FreeIn, Pages, Tiling, Kept, IsRun;
    heap := null;
    ghost var start;
    var phys;
    phys, start := pmm.AllocPages(pages);
    ok := phys != 0;
    if ok {
      heap := new Heap(phys + hhdm, pages);
    }
  }
}
