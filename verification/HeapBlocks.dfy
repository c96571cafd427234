/** The heap's block list as a tiling of the arena, in words of eight bytes. */
module HeapBlocks {

  /** A block: where its three-word header starts, how many payload words follow, whether it is free. */
  datatype Block = Block(start: nat, words: nat, free: bool)

  /** One word past the block. */
  function End(b: Block): nat {
    b.start + 3 + b.words
  }

  /** Where the block after position `k` starts; the end of the arena after the last one. */
  function NextStart(bs: seq<Block>, k: nat, size: nat): nat {
    if k + 1 < |bs| then bs[k + 1].start else size
  }

  /** The header of block `k` in memory says what the list says, and the block ends where the next begins. */
  ghost predicate BlockOk(mem: seq<nat>, base: nat, bs: seq<Block>, k: nat) {
    && k < |bs|
    && End(bs[k]) == NextStart(bs, k, |mem|) <= |mem|
    && mem[bs[k].start] == 8 * bs[k].words
    && mem[bs[k].start + 1] == (if bs[k].free then 1 else 0)
    && mem[bs[k].start + 2] == if k + 1 < |bs| then base + 8 * bs[k + 1].start else 0
  }

  ghost predicate Tiling(mem: seq<nat>, base: nat, bs: seq<Block>) {
    && bs != [] && bs[0].start == 0
    && forall k: nat :: k < |bs| ==> BlockOk(mem, base, bs, k)
  }

  lemma {:induction false} InOrder(mem: seq<nat>, base: nat, bs: seq<Block>, i: nat, j: nat)
    requires Tiling(mem, base, bs) && i < j < |bs|
    ensures End(bs[i]) <= bs[j].start && End(bs[j]) <= |mem|
    decreases j - i
  {
    assert BlockOk(mem, base, bs, i) && BlockOk(mem, base, bs, j);
    if i + 1 < j {
      InOrder(mem, base, bs, i + 1, j);
    }
  }

  /** Blocks do not overlap. */
  lemma Disjoint(mem: seq<nat>, base: nat, bs: seq<Block>, i: nat, j: nat)
    requires Tiling(mem, base, bs) && i < |bs| && j < |bs| && i != j
    ensures End(bs[i]) <= bs[j].start || End(bs[j]) <= bs[i].start
  {
    if i < j {
      InOrder(mem, base, bs, i, j);
    } else {
      InOrder(mem, base, bs, j, i);
    }
  }

  function Total(bs: seq<Block>): nat {
    if bs == [] then 0 else Total(bs[..|bs| - 1]) + 3 + bs[|bs| - 1].words
  }

  lemma {:induction false} StartIsTotal(mem: seq<nat>, base: nat, bs: seq<Block>, k: nat)
    requires Tiling(mem, base, bs) && k < |bs|
    ensures bs[k].start == Total(bs[..k])
  {
    if k > 0 {
      StartIsTotal(mem, base, bs, k - 1);
      assert bs[..k][..k - 1] == bs[..k - 1];
      assert BlockOk(mem, base, bs, k - 1);
    }
  }

  /** Headers and payloads together are exactly the arena. */
  lemma ArenaCovered(mem: seq<nat>, base: nat, bs: seq<Block>)
    requires Tiling(mem, base, bs)
    ensures Total(bs) == |mem|
  {
    var last := |bs| - 1;
    StartIsTotal(mem, base, bs, last);
    assert BlockOk(mem, base, bs, last);
  }

  // ------------------------------------------------------------ what malloc and free do

  predicate Fits(b: Block, n: nat) {
    b.free && b.words >= n
  }

  /** The first free block with at least `n` payload words, or |bs|. */
  function FirstFit(bs: seq<Block>, n: nat): (k: nat)
    ensures k <= |bs| && (k < |bs| ==> Fits(bs[k], n))
    ensures forall i :: 0 <= i < k ==> !Fits(bs[i], n)
  {
    if bs == [] then 0
    else if Fits(bs[0], n) then 0
    else 1 + FirstFit(bs[1..], n)
  }

  lemma FirstFitIs(bs: seq<Block>, n: nat, k: nat)
    requires k <= |bs| && (k < |bs| ==> Fits(bs[k], n))
    requires forall i :: 0 <= i < k ==> !Fits(bs[i], n)
    ensures FirstFit(bs, n) == k
  {
  }

  predicate Splits(b: Block, n: nat) {
    b.words >= n + 4
  }

  /** `bs` with the blocks from `k` up to `j` replaced by `mid`. */
  function Spliced(bs: seq<Block>, k: nat, mid: seq<Block>, j: nat): (r: seq<Block>)
    requires k <= j <= |bs|
    ensures |r| == |bs| - (j - k) + |mid|
  {
    bs[..k] + mid + bs[j..]
  }

  lemma SplicedAt(bs: seq<Block>, k: nat, mid: seq<Block>, j: nat, i: nat)
    requires k <= j <= |bs| && i < |Spliced(bs, k, mid, j)|
    ensures Spliced(bs, k, mid, j)[i]
         == if i < k then bs[i] else if i < k + |mid| then mid[i - k] else bs[i - k - |mid| + j]
  {
  }

  /** What taking `n` words makes of a block: a live block and a free rest when there is room for one. */
  function Cut(b: Block, n: nat): seq<Block> {
    if Splits(b, n)
    then [Block(b.start, n, false), Block(b.start + 3 + n, b.words - n - 3, true)]
    else [b.(free := false)]
  }

  /** The block list after `n` words have been taken from block `k`. */
  function Taken(bs: seq<Block>, k: nat, n: nat): seq<Block>
    requires k < |bs|
  {
    Spliced(bs, k, Cut(bs[k], n), k + 1)
  }

  predicate Merges(bs: seq<Block>, k: nat) {
    k + 1 < |bs| && bs[k + 1].free
  }

  /** The free block that freeing block `k` leaves. */
  function FreedBlock(bs: seq<Block>, k: nat): Block
    requires k < |bs|
  {
    Block(bs[k].start, bs[k].words + (if Merges(bs, k) then 3 + bs[k + 1].words else 0), true)
  }

  /** The block list after block `k` has been freed: a free successor is merged into it. */
  function Freed(bs: seq<Block>, k: nat): seq<Block>
    requires k < |bs|
  {
    Spliced(bs, k, [FreedBlock(bs, k)], if Merges(bs, k) then k + 2 else k + 1)
  }

  /** Replacing neighbouring blocks by blocks that fill the same words keeps the tiling when nothing
      else in memory changes. */
  lemma SplicedTiling(mem: seq<nat>, now: seq<nat>, base: nat, bs: seq<Block>, k: nat, mid: seq<Block>, j: nat)
    requires Tiling(mem, base, bs) && k < j <= |bs| && |now| == |mem|
    requires mid != [] && mid[0].start == bs[k].start
    requires forall i: nat :: k <= i < k + |mid| ==> BlockOk(now, base, Spliced(bs, k, mid, j), i)
    requires forall w :: 0 <= w < |mem| && !(bs[k].start <= w < End(bs[j - 1])) ==> now[w] == mem[w]
    ensures Tiling(now, base, Spliced(bs, k, mid, j))
  {
    var r := Spliced(bs, k, mid, j);
    forall i: nat | i < |r|
      ensures BlockOk(now, base, r, i)
    {
      SplicedAt(bs, k, mid, j, i);
      if i + 1 < |r| { SplicedAt(bs, k, mid, j, i + 1); }
      if i < k {
        assert BlockOk(mem, base, bs, i);
        InOrder(mem, base, bs, i, k);
      } else if i >= k + |mid| {
        var o := i - k - |mid| + j;
        assert BlockOk(mem, base, bs, o);
        InOrder(mem, base, bs, j - 1, o);
      }
    }
    assert BlockOk(now, base, r, 0);
    assert k > 0 ==> r[0] == bs[0];
  }

  function FreeWords(bs: seq<Block>): (r: nat)
    ensures bs == [] ==> r == 0
  {
    if bs == [] then 0
    else FreeWords(bs[..|bs| - 1]) + if bs[|bs| - 1].free then bs[|bs| - 1].words else 0
  }

  lemma {:induction false} FreeWordsSum(a: seq<Block>, b: seq<Block>)
    ensures FreeWords(a + b) == FreeWords(a) + FreeWords(b)
  {
    if b == [] {
      assert a + b == a;
    } else {
      assert (a + b)[..|a + b| - 1] == a + b[..|b| - 1];
      FreeWordsSum(a, b[..|b| - 1]);
    }
  }

  /** A splice over an earlier splice, reaching `e` blocks further. */
  lemma SplicedTwice(bs: seq<Block>, k: nat, mid: seq<Block>, j: nat, again: seq<Block>, e: nat)
    requires k <= j && j + e <= |bs|
    ensures Spliced(Spliced(bs, k, mid, j), k, again, k + |mid| + e) == Spliced(bs, k, again, j + e)
  {
    var s := Spliced(bs, k, mid, j);
    assert s[..k] == bs[..k];
    assert s[k + |mid| + e..] == bs[j + e..];
  }

  lemma FreedAfterSplit(bs: seq<Block>, k: nat, n: nat)
    requires k < |bs| && Fits(bs[k], n) && Splits(bs[k], n)
    ensures Freed(Taken(bs, k, n), k) == bs
  {
    var b, mid := bs[k], Cut(bs[k], n);
    assert bs == Spliced(bs, k, [b], k + 1);
    SplicedTwice(bs, k, mid, k + 1, [b], 0);
    SplicedAt(bs, k, mid, k + 1, k);
    SplicedAt(bs, k, mid, k + 1, k + 1);
    hide Spliced;
    assert FreedBlock(Taken(bs, k, n), k) == b;
  }

  lemma FreedAfterWhole(bs: seq<Block>, k: nat, n: nat)
    requires k < |bs| && Fits(bs[k], n) && !Splits(bs[k], n)
    ensures Freed(Taken(bs, k, n), k) == if Merges(bs, k) then Freed(bs, k) else bs
  {
    var b, mid := bs[k], Cut(bs[k], n);
    assert bs == Spliced(bs, k, [b], k + 1);
    SplicedAt(bs, k, mid, k + 1, k);
    if k + 1 < |bs| { SplicedAt(bs, k, mid, k + 1, k + 1); }
    SplicedTwice(bs, k, mid, k + 1, [FreedBlock(bs, k)], if Merges(bs, k) then 1 else 0);
    hide Spliced;
    assert FreedBlock(Taken(bs, k, n), k) == FreedBlock(bs, k);
    assert !Merges(bs, k) ==> FreedBlock(bs, k) == b;
  }

  /** Freeing right after allocating restores the list when the block was split; otherwise it at most
      merges the block with the one behind it. */
  lemma FreedAfterTaken(bs: seq<Block>, k: nat, n: nat)
    requires k < |bs| && Fits(bs[k], n)
    ensures Splits(bs[k], n) ==> Freed(Taken(bs, k, n), k) == bs
    ensures !Splits(bs[k], n) ==> Freed(Taken(bs, k, n), k) == if Merges(bs, k) then Freed(bs, k) else bs
  {
    hide Freed, Taken, Splits;
    if Splits(bs[k], n) {
      FreedAfterSplit(bs, k, n);
    } else {
      FreedAfterWhole(bs, k, n);
    }
  }

  lemma FreeWordsLast(bs: seq<Block>)
    requires bs != []
    ensures FreeWords(bs) == FreeWords(bs[..|bs| - 1]) + if bs[|bs| - 1].free then bs[|bs| - 1].words else 0
  {
  }

  lemma FreeWordsAt(bs: seq<Block>, k: nat)
    requires k < |bs|
    ensures FreeWords(bs) == FreeWords(bs[..k]) + (if bs[k].free then bs[k].words else 0) + FreeWords(bs[k + 1..])
  {
    hide FreeWords;
    assert bs == bs[..k + 1] + bs[k + 1..];
    FreeWordsSum(bs[..k + 1], bs[k + 1..]);
    FreeWordsLast(bs[..k + 1]);
    assert bs[..k + 1][..k] == bs[..k];
  }

  /** Taking `n` words hands out a block of at most three words more. Of the free words it costs the `n` and a
      header when the block had at least four words more, else the whole block. All other blocks stay. */
  lemma TakenCosts(bs: seq<Block>, k: nat, n: nat)
    requires k < |bs| && bs[k].free && bs[k].words >= n
    ensures var r := Taken(bs, k, n);
            && |r| == |bs| + (if bs[k].words >= n + 4 then 1 else 0)
            && !r[k].free && r[k].start == bs[k].start && n <= r[k].words <= n + 3
            && r[..k] == bs[..k] && r[|r| - (|bs| - k - 1)..] == bs[k + 1..]
            && FreeWords(r) + (if bs[k].words >= n + 4 then n + 3 else bs[k].words) == FreeWords(bs)
  {
    hide FreeWords;
    var b, r, mid := bs[k], Taken(bs, k, n), Cut(bs[k], n);
    assert r == bs[..k] + mid + bs[k + 1..];
    FreeWordsAt(bs, k);
    FreeWordsSum(bs[..k] + mid, bs[k + 1..]);
    FreeWordsSum(bs[..k], mid);
    FreeWordsLast(mid);
    if b.words >= n + 4 {
      assert mid[..1] == [mid[0]];
      FreeWordsLast([mid[0]]);
    }
    NoFreeWords(mid[..0], [mid[0]][..0]);
  }

  /** A request of `n` words is met from block `k`: the first free one that is large enough. It hands out at
      most three words more, and what it does not hand out stays free but for a header. */
  ghost predicate Handed(bs: seq<Block>, k: nat, n: nat, r: seq<Block>) {
    && k < |bs| && k < |r|
    && bs[k].free && bs[k].words >= n && (forall i :: 0 <= i < k && bs[i].free ==> bs[i].words < n)
    && !r[k].free && r[k].start == bs[k].start && n <= r[k].words <= n + 3
    && FreeWords(r) + (if bs[k].words >= n + 4 then n + 3 else bs[k].words) == FreeWords(bs)
  }

  /** Giving block `k` back frees its words, and the header behind it when that block is free as well. */
  ghost predicate GivenBack(bs: seq<Block>, k: nat, r: seq<Block>) {
    && k < |bs| && k < |r| && !bs[k].free && r[k].free && r[k].start == bs[k].start
    && FreeWords(r) == FreeWords(bs) + bs[k].words + if k + 1 < |bs| && bs[k + 1].free then 3 else 0
  }

  lemma TakenHanded(bs: seq<Block>, k: nat, n: nat)
    requires k < |bs| && Fits(bs[k], n) && forall i :: 0 <= i < k ==> !Fits(bs[i], n)
    ensures Handed(bs, k, n, Taken(bs, k, n))
  {
    hide Taken, FreeWords;
    TakenCosts(bs, k, n);
  }

  lemma NoFreeWords(a: seq<Block>, b: seq<Block>)
    requires a == [] && b == []
    ensures FreeWords(a) == 0 && FreeWords(b) == 0
  {
  }

  /** Freeing a live block adds its payload to the free words, and a header when the block behind is free. */
  lemma FreedGains(bs: seq<Block>, k: nat)
    requires k < |bs| && !bs[k].free
    ensures FreeWords(Freed(bs, k))
         == FreeWords(bs) + bs[k].words + if k + 1 < |bs| && bs[k + 1].free then 3 else 0
  {
    hide FreeWords;
    var j := if Merges(bs, k) then k + 2 else k + 1;
    var mid := [FreedBlock(bs, k)];
    FreeWordsAt(bs, k);
    FreeWordsSum(bs[..k] + mid, bs[j..]);
    FreeWordsSum(bs[..k], mid);
    FreeWordsAt(mid, 0);
    NoFreeWords(mid[..0], mid[1..]);
    if j == k + 2 {
      var rest := bs[k + 1..];
      FreeWordsAt(rest, 0);
      NoFreeWords(rest[..0], []);
      assert rest[1..] == bs[j..];
    }
  }

  lemma FreedGivenBack(bs: seq<Block>, k: nat)
    requires k < |bs| && !bs[k].free
    ensures GivenBack(bs, k, Freed(bs, k))
  {
    hide FreeWords;
    FreedGains(bs, k);
  }
}
