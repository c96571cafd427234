/** Reading and writing an open InnoFS file as operations on a plain byte sequence. */
module Files {
  import opened Bytes
  import opened Layout
  import opened Chains

  function Max(a: int, b: int): int {
    if a < b then b else a
  }

  function Min(a: int, b: int): int {
    if a < b then a else b
  }

  /** The position of a content byte: which sector of the chain, and where in that sector. */
  function SectorOf(pos: nat): nat {
    pos / 508
  }

  function OffsetIn(pos: nat): (at: nat)
    ensures at < 508
  {
    pos % 508
  }

  function Begin(q: nat): nat {
    508 * q
  }

  lemma Position(pos: nat)
    ensures pos == Begin(SectorOf(pos)) + OffsetIn(pos)
  {
  }

  /** Sectors needed for `n` bytes. */
  function SectorsFor(n: nat): nat {
    (n + 507) / 508
  }

  /** Bytes written past a position need its sector, and at most a later one. */
  lemma SectorsForLater(pos: nat, n: nat, m: nat)
    requires 0 < n <= m
    ensures SectorOf(pos) < SectorsFor(pos + n) <= SectorsFor(pos + m)
    ensures OffsetIn(pos) + n <= 508 ==> SectorsFor(pos + n) == SectorOf(pos) + 1
  {
  }

  /** Moving on inside a sector stays in it; moving to its end enters the next one. */
  lemma Advance(pos: nat, n: nat)
    requires OffsetIn(pos) + n <= 508
    ensures SectorOf(pos + n) == if OffsetIn(pos) + n == 508 then SectorOf(pos) + 1 else SectorOf(pos)
  {
  }

  datatype Mode = Mode(read: bool, write: bool, create: bool)

  /** An element of the table of open files. */
  datatype Handle = Handle(used: bool, slot: nat, offset: nat, size: nat, first: nat, mode: Mode)

  /** Sectors a chain of `k` sectors has after `count` bytes have been written at `offset`. */
  function SectorsAfterWrite(k: nat, offset: nat, count: nat): (n: nat)
    ensures n >= k && 508 * n >= offset + count
  {
    Max(k, Max(SectorOf(offset) + 1, SectorsFor(offset + count)))
  }

  /** The content of a chain after a write: padded with zero sectors, then overwritten. */
  function ContentAfterWrite(c: seq<byte>, offset: nat, bytes: seq<byte>): (r: seq<byte>)
    requires |c| % 508 == 0
    ensures |r| == 508 * SectorsAfterWrite(|c| / 508, offset, |bytes|) >= offset + |bytes|
  {
    var n := 508 * SectorsAfterWrite(|c| / 508, offset, |bytes|);
    Splice(c + Zeros(n - |c|), offset, bytes)
  }

  /** The content of a chain that could only grow to `n` sectors: padded, and overwritten as far as it goes. */
  function ContentWhenFull(c: seq<byte>, n: nat, offset: nat, bytes: seq<byte>): (r: seq<byte>)
    requires |c| <= 508 * n
    ensures |r| == 508 * n
  {
    var grown := c + Zeros(508 * n - |c|);
    if offset <= 508 * n then Splice(grown, offset, bytes[..Min(|bytes|, 508 * n - offset)]) else grown
  }

  function SizeAfterWrite(size: nat, offset: nat, count: nat): nat {
    if count == 0 then size else Max(size, offset + count)
  }

  /** Where a read of `count` bytes stops. */
  function ReadEnd(capacity: nat, size: nat, offset: nat, count: nat): nat {
    Max(offset, Min(offset + count, Min(size, capacity)))
  }

  function Piece(c: seq<byte>, from: nat, to: nat): seq<byte> {
    if from <= to <= |c| then c[from..to] else []
  }

  function BytesRead(c: seq<byte>, size: nat, offset: nat, count: nat): seq<byte> {
    Piece(c, offset, ReadEnd(|c|, size, offset, count))
  }

  /** A file as its user sees it. */
  datatype View = View(content: seq<byte>, offset: nat, size: nat)

  predicate ValidView(v: View) {
    |v.content| % 508 == 0
  }

  function WriteView(v: View, bytes: seq<byte>): (w: View)
    requires ValidView(v)
    ensures ValidView(w)
  {
    View(ContentAfterWrite(v.content, v.offset, bytes), v.offset + |bytes|,
         SizeAfterWrite(v.size, v.offset, |bytes|))
  }

  function WriteChunks(v: View, chunks: seq<seq<byte>>): (w: View)
    requires ValidView(v)
    ensures ValidView(w)
    decreases |chunks|
  {
    if chunks == [] then v else WriteChunks(WriteView(v, chunks[0]), chunks[1..])
  }

  function Concat(chunks: seq<seq<byte>>): seq<byte> {
    if chunks == [] then [] else chunks[0] + Concat(chunks[1..])
  }

  lemma SectorsTwice(k: nat, offset: nat, m: nat, n: nat)
    requires n > 0
    ensures SectorsAfterWrite(SectorsAfterWrite(k, offset, m), offset + m, n) == SectorsAfterWrite(k, offset, m + n)
    ensures SectorsAfterWrite(k, offset, m) <= SectorsAfterWrite(k, offset, m + n)
  {
  }

  lemma TwoWrites(v: View, a: seq<byte>, b: seq<byte>)
    requires ValidView(v) && b != []
    ensures WriteView(WriteView(v, a), b) == WriteView(v, a + b)
  {
    hide SectorsAfterWrite;
    var c, o := v.content, v.offset;
    var k := |c| / 508;
    SectorsTwice(k, o, |a|, |b|);
    var k1, k2 := SectorsAfterWrite(k, o, |a|), SectorsAfterWrite(k, o, |a + b|);
    var c1 := ContentAfterWrite(c, o, a);
    assert |c1| / 508 == k1;
    var z1, z2 := Zeros(508 * k1 - |c|), Zeros(508 * k2 - 508 * k1);
    SpliceGrow(c + z1, z2, o, a);
    ZerosSum(508 * k1 - |c|, 508 * k2 - 508 * k1);
    assert c + z1 + z2 == c + Zeros(508 * k2 - |c|);
    SpliceAppend(c + z1 + z2, o, a, b);
  }

  /** Any way of cutting the data into non-empty chunks has the effect of one whole write. */
  lemma {:induction false} ChunkedWrite(v: View, chunks: seq<seq<byte>>)
    requires ValidView(v) && chunks != []
    requires forall i :: 0 <= i < |chunks| ==> chunks[i] != []
    ensures WriteChunks(v, chunks) == WriteView(v, Concat(chunks))
    decreases |chunks|
  {
    if |chunks| == 1 {
      assert Concat(chunks) == chunks[0];
    } else {
      ChunkedWrite(WriteView(v, chunks[0]), chunks[1..]);
      assert Concat(chunks[1..]) != [] by {
        assert Concat(chunks[1..]) == chunks[1] + Concat(chunks[1..][1..]);
      }
      TwoWrites(v, chunks[0], Concat(chunks[1..]));
    }
  }

  /** Successive reads return consecutive pieces: together they equal one whole read. */
  lemma TwoReads(c: seq<byte>, size: nat, offset: nat, m: nat, n: nat)
    requires offset <= size <= |c|
    ensures var mid := ReadEnd(|c|, size, offset, m);
            && BytesRead(c, size, offset, m) + BytesRead(c, size, mid, n) == BytesRead(c, size, offset, m + n)
            && ReadEnd(|c|, size, mid, n) == ReadEnd(|c|, size, offset, m + n)
  {
  }

  function ReadChunks(c: seq<byte>, size: nat, offset: nat, counts: seq<nat>): seq<byte>
    decreases |counts|
  {
    if counts == [] then []
    else BytesRead(c, size, offset, counts[0])
         + ReadChunks(c, size, ReadEnd(|c|, size, offset, counts[0]), counts[1..])
  }

  function Sum(counts: seq<nat>): nat {
    if counts == [] then 0 else counts[0] + Sum(counts[1..])
  }

  lemma {:induction false} ChunkedRead(c: seq<byte>, size: nat, offset: nat, counts: seq<nat>)
    requires offset <= size <= |c|
    ensures ReadChunks(c, size, offset, counts) == BytesRead(c, size, offset, Sum(counts))
    decreases |counts|
  {
    if counts != [] {
      ChunkedRead(c, size, ReadEnd(|c|, size, offset, counts[0]), counts[1..]);
      TwoReads(c, size, offset, counts[0], Sum(counts[1..]));
    }
  }

  /** What was written is what a read of the same range returns, and the rest of the file is as before. */
  lemma ReadAfterWrite(v: View, bytes: seq<byte>)
    requires ValidView(v) && v.offset <= v.size <= |v.content|
    ensures var w := WriteView(v, bytes);
            && w.offset <= w.size <= |w.content|
            && BytesRead(w.content, w.size, v.offset, |bytes|) == bytes
            && w.content[..v.offset] == v.content[..v.offset]
            && (v.offset + |bytes| <= v.size ==>
                  w.size == v.size && w.content[v.offset + |bytes|..w.size] == v.content[v.offset + |bytes|..v.size])
  {
  }

  /** A byte sequence with `bytes` written at `offset`, growing it where they reach past its end. */
  function Overwrite(c: seq<byte>, offset: nat, bytes: seq<byte>): seq<byte>
    requires offset <= |c|
  {
    c[..offset] + bytes + if offset + |bytes| < |c| then c[offset + |bytes|..] else []
  }

  /** On the bytes of the file, a write to the chain is a plain overwrite. */
  lemma WriteIsOverwrite(c: seq<byte>, size: nat, offset: nat, bytes: seq<byte>)
    requires |c| % 508 == 0 && offset <= size <= |c|
    ensures Piece(ContentAfterWrite(c, offset, bytes), 0, SizeAfterWrite(size, offset, |bytes|))
         == Overwrite(Piece(c, 0, size), offset, bytes)
  {
    hide SectorsAfterWrite;
    var r := ContentAfterWrite(c, offset, bytes);
    var a, b := Piece(r, 0, SizeAfterWrite(size, offset, |bytes|)), Overwrite(Piece(c, 0, size), offset, bytes);
    assert |a| == |b|;
    forall i | 0 <= i < |a|
      ensures a[i] == b[i]
    {
      assert a[i] == r[i];
    }
  }
}
