/** Truncation, close, removal and the parent's first sector on entries of chained directories. Lookup counts
    those entries from byte 4 of the sector, behind the link; these four operations count them from byte 0. */
module ChainedEntries {
  import opened Bytes
  import opened Layout
  import opened Directories
  import opened Dirents

  /** Entry `j` of a chained directory's sector, as lookup finds it. */
  function EntryOf(raw: RawSector, j: nat): Dirent
    requires j < 4
  {
    Decode(raw[4..], 127 * j)
  }

  /** The sector after a close with this size and first sector. */
  function CloseWriteBack(raw: RawSector, j: nat, size: nat, first: nat): RawSector
    requires j < 4
  {
    PutLe32(PutLe32(raw, 127 * j + 116, size), 127 * j + 120, first)
  }

  /** The sector after opening with the create flag, which sets a size of 0. */
  function TruncateWriteBack(raw: RawSector, j: nat): RawSector
    requires j < 4
  {
    PutLe32(raw, 127 * j + 116, 0)
  }

  /** The sector after removal, which clears the first byte of a name. */
  function RemoveWriteBack(raw: RawSector, j: nat): RawSector
    requires j < 4
  {
    raw[127 * j := 0]
  }

  // ------------------------------------------------------------ the bytes of an entry

  /** From byte `from` to byte `to` the entry's bytes are the same in both sectors. */
  ghost predicate SameBytes(raw: RawSector, out: RawSector, j: nat, from: nat, to: nat) {
    j < 4 && from <= to <= 127 && forall i :: 4 + 127 * j + from <= i < 4 + 127 * j + to ==> out[i] == raw[i]
  }

  lemma SameField(raw: RawSector, out: RawSector, j: nat, from: nat, to: nat)
    requires SameBytes(raw, out, j, from, to)
    ensures out[4..][127 * j + from..127 * j + to] == raw[4..][127 * j + from..127 * j + to]
  {
    var a, b := 127 * j + from, 127 * j + to;
    SubSlice(raw, 4, 512, a, b);
    SubSlice(out, 4, 512, a, b);
    assert raw[4..512] == raw[4..] && out[4..512] == out[4..];
    assert out[4 + a..4 + b] == raw[4 + a..4 + b];
  }

  /** An entry whose bytes are all the same is the same. */
  lemma SameEntry(raw: RawSector, out: RawSector, j: nat)
    requires SameBytes(raw, out, j, 0, 127)
    ensures EntryOf(out, j) == EntryOf(raw, j)
  {
    hide Decode;
    SameField(raw, out, j, 0, 127);
    DirentFrame(raw[4..], out[4..], 127 * j);
  }

  /** A C string whose last four bytes are replaced. */
  lemma {:induction false} CStringTail(head: seq<byte>, a: seq<byte>)
    ensures if forall i :: 0 <= i < |head| ==> head[i] != 0
            then CString(head + a) == head + CString(a)
            else CString(head + a) == CString(head) && |CString(head)| < |head|
  {
    if head == [] {
      assert head + a == a;
    } else if head[0] != 0 {
      assert (head + a)[1..] == head[1..] + a;
      CStringTail(head[1..], a);
      assert head == [head[0]] + head[1..];
    }
  }

  /** What becomes of a name whose field ends in `tail` now. */
  function Retailed(name: Name, tail: seq<byte>): Name {
    if |name| < 112 then name else name[..112] + CString(tail)
  }

  lemma {:induction false} CStringNoLonger(f: seq<byte>)
    ensures |CString(f)| <= |f|
  {
    if f != [] && f[0] != 0 {
      CStringNoLonger(f[1..]);
    }
  }

  lemma NameRetailed(f: seq<byte>, g: seq<byte>)
    requires |f| == |g| == 116 && f[..112] == g[..112]
    ensures CString(g) == Retailed(CString(f), g[112..])
  {
    hide CString;
    assert f == f[..112] + f[112..] && g == f[..112] + g[112..];
    CStringTail(f[..112], f[112..]);
    CStringTail(f[..112], g[112..]);
    assert |f[..112]| == 112;
    if forall i :: 0 <= i < 112 ==> f[..112][i] != 0 {
      assert CString(f)[..112] == f[..112];
    }
  }

  /** An entry after its last four name bytes and its size were overwritten by two words. */
  lemma Overwritten(raw: RawSector, out: RawSector, j: nat, tail: seq<byte>, size: nat)
    requires j < 4 && |tail| == 4 && size < U32
    requires forall i :: 0 <= i < 512 && !(127 * j + 116 <= i < 127 * j + 124) ==> out[i] == raw[i]
    requires out[127 * j + 116..127 * j + 120] == tail && out[127 * j + 120..127 * j + 124] == EncodeLe32(size)
    ensures var e := EntryOf(raw, j); EntryOf(out, j) == Dirent(Retailed(e.name, tail), size, e.first, e.owner, e.flags)
  {
    hide CString, Le32, EncodeLe32, Retailed;
    var r, o, at := raw[4..], out[4..], 127 * j;
    SameField(raw, out, j, 0, 112);
    SubSlice(r, at, at + 116, 0, 112);
    SubSlice(o, at, at + 116, 0, 112);
    SubSlice(o, at, at + 116, 112, 116);
    SubSlice(out, 4, 512, at + 112, at + 116);
    assert out[4..512] == out[4..];
    assert o[at..at + 116][112..] == tail by {
      assert o[at..at + 116][112..116] == o[at..at + 116][112..];
    }
    NameRetailed(r[at..at + 116], o[at..at + 116]);
    SubSlice(out, 4, 512, at + 116, at + 120);
    Le32At(o, at + 116, size);
    SameField(raw, out, j, 120, 124);
    Le32Frame(r, o, at + 120);
    assert o[at + 124] == r[at + 124] && o[at + 125] == r[at + 125] && o[at + 126] == r[at + 126];
  }

  // ------------------------------------------------------------ close

  /** After a close, lookup finds the first sector in the size, the size in the tail of the name, and the old
      first sector; every other entry and the link are as before. */
  lemma CloseMisplaced(raw: RawSector, j: nat, size: nat, first: nat)
    requires j < 4 && size < U32 && first < U32
    ensures var e, f := EntryOf(raw, j), EntryOf(CloseWriteBack(raw, j, size, first), j);
            f == Dirent(Retailed(e.name, EncodeLe32(size)), first, e.first, e.owner, e.flags)
    ensures forall k :: 0 <= k < 4 && k != j ==> EntryOf(CloseWriteBack(raw, j, size, first), k) == EntryOf(raw, k)
  {
    hide Decode, Retailed;
    var mid := PutLe32(raw, 127 * j + 116, size);
    var out := CloseWriteBack(raw, j, size, first);
    assert out[127 * j + 116..127 * j + 120] == mid[127 * j + 116..127 * j + 120] == EncodeLe32(size);
    assert out[127 * j + 120..127 * j + 124] == EncodeLe32(first);
    Overwritten(raw, out, j, EncodeLe32(size), first);
    forall k | 0 <= k < 4 && k != j
      ensures EntryOf(out, k) == EntryOf(raw, k)
    {
      SameEntry(raw, out, k);
    }
  }

  /** The name survives a close exactly when it is short, or when its last bytes happen to spell the size. */
  predicate NameSurvives(name: Name, size: nat) {
    |name| < 112 || CString(EncodeLe32(size)) == name[112..]
  }

  /** A close leaves the entry it should leave exactly when the size equals the first sector, that sector is
      the old one, and the name survives. */
  lemma CloseRight(raw: RawSector, j: nat, size: nat, first: nat)
    requires j < 4 && size < U32 && first < U32
    ensures var e, f := EntryOf(raw, j), EntryOf(CloseWriteBack(raw, j, size, first), j);
            f == e.(size := size, first := first) <==> size == first && first == e.first && NameSurvives(e.name, size)
  {
    CloseMisplaced(raw, j, size, first);
    hide Decode, CString, EncodeLe32;
    RetailedSame(EntryOf(raw, j).name, EncodeLe32(size));
  }

  lemma RetailedSame(name: Name, tail: seq<byte>)
    ensures Retailed(name, tail) == name <==> |name| < 112 || CString(tail) == name[112..]
  {
    if |name| >= 112 {
      assert name == name[..112] + name[112..];
    }
  }

  /** A sector where a close gets size and first sector right and yet renames the file. */
  lemma CloseRenames() returns (raw: RawSector)
    ensures var e, f := EntryOf(raw, 0), EntryOf(CloseWriteBack(raw, 0, 20, 20), 0);
            e.first == 20 && f.size == 20 && f.first == 20 && |e.name| == 115 && |f.name| == 113
  {
    hide Decode, CString, EncodeLe32, Retailed, CloseWriteBack;
    var e;
    raw, e := LongNamed();
    CloseMisplaced(raw, 0, 20, 20);
    Twenty(e.name);
  }

  lemma LongNamed() returns (raw: RawSector, e: Dirent)
    ensures EntryOf(raw, 0) == e && |e.name| == 115 && e.first == 20
  {
    hide Decode, Encode;
    e := Dirent(seq(115, _ => 65), 0, 20, 0, 0);
    var payload: seq<byte> := seq(508, _ => 0);
    raw := [0, 0, 0, 0] + Splice(payload, 0, Encode(e));
    DirentRoundTrip(payload, 0, e);
    assert raw[4..] == Splice(payload, 0, Encode(e));
  }

  lemma Twenty(name: Name)
    requires |name| == 115
    ensures |Retailed(name, EncodeLe32(20))| == 113
  {
    var t := EncodeLe32(20);
    assert t[0] == 20 && t[1] == 0 && t[1..][0] == 0;
    assert CString(t[1..]) == [];
  }

  // ------------------------------------------------------------ truncation

  /** Truncation keeps the size lookup finds and cuts the name to 112 bytes instead; nothing else changes. */
  lemma TruncateMisplaced(raw: RawSector, j: nat)
    requires j < 4
    ensures var e, f := EntryOf(raw, j), EntryOf(TruncateWriteBack(raw, j), j);
            f == e.(name := if |e.name| < 112 then e.name else e.name[..112])
    ensures forall k :: 0 <= k < 4 && k != j ==> EntryOf(TruncateWriteBack(raw, j), k) == EntryOf(raw, k)
  {
    hide Retailed;
    var out := TruncateWriteBack(raw, j);
    var size := Le32(raw, 127 * j + 120);
    assert EntryOf(raw, j).size == size;
    assert out[127 * j + 116..127 * j + 120] == EncodeLe32(0);
    EncodeDecode(raw, 127 * j + 120);
    assert out[127 * j + 120..127 * j + 124] == raw[127 * j + 120..127 * j + 124];
    Overwritten(raw, out, j, EncodeLe32(0), size);
    RetailedByZero(EntryOf(raw, j).name);
    hide Decode, Le32;
    forall k | 0 <= k < 4 && k != j
      ensures EntryOf(out, k) == EntryOf(raw, k)
    {
      SameEntry(raw, out, k);
    }
  }

  lemma RetailedByZero(name: Name)
    ensures Retailed(name, EncodeLe32(0)) == if |name| < 112 then name else name[..112]
  {
    assert EncodeLe32(0)[0] == 0;
  }

  lemma EncodeDecode(s: seq<byte>, at: nat)
    requires at + 4 <= |s|
    ensures EncodeLe32(Le32(s, at)) == s[at..at + 4]
  {
    WordBytes(s[at] as nat, s[at + 1] as nat, s[at + 2] as nat, s[at + 3] as nat);
  }

  lemma WordBytes(b0: nat, b1: nat, b2: nat, b3: nat)
    requires b0 < 0x100 && b1 < 0x100 && b2 < 0x100 && b3 < 0x100
    ensures var n := Word(b0, b1, b2, b3);
            && n % 0x100 == b0 && n / 0x100 % 0x100 == b1
            && n / 0x100 / 0x100 % 0x100 == b2 && n / 0x100 / 0x100 / 0x100 % 0x100 == b3
  {
    LowDigit(Word(b0, b1, b2, b3), b0, b1 + 0x100 * (b2 + 0x100 * b3));
    LowDigit(b1 + 0x100 * (b2 + 0x100 * b3), b1, b2 + 0x100 * b3);
    LowDigit(b2 + 0x100 * b3, b2, b3);
  }

  lemma LowDigit(n: nat, b: nat, q: nat)
    requires n == b + 0x100 * q && b < 0x100
    ensures n % 0x100 == b && n / 0x100 == q
  {
  }

  /** So truncation works exactly on an empty file whose name is at most 112 bytes long. */
  lemma TruncateRight(raw: RawSector, j: nat)
    requires j < 4
    ensures var e, f := EntryOf(raw, j), EntryOf(TruncateWriteBack(raw, j), j);
            f == e.(size := 0) <==> e.size == 0 && |e.name| <= 112
  {
    TruncateMisplaced(raw, j);
    hide Decode;
  }

  // ------------------------------------------------------------ removal

  /** Removal leaves its entry exactly as it was. It clears the low byte of the link instead, or the high byte
      of the first sector of the entry before. */
  lemma RemoveMisplaced(raw: RawSector, j: nat)
    requires j < 4
    ensures EntryOf(RemoveWriteBack(raw, j), j) == EntryOf(raw, j)
    ensures forall k :: 0 <= k < 4 && k + 1 != j ==> EntryOf(RemoveWriteBack(raw, j), k) == EntryOf(raw, k)
    ensures j > 0 ==>
              EntryOf(RemoveWriteBack(raw, j), j - 1)
                   == EntryOf(raw, j - 1).(first := EntryOf(raw, j - 1).first % 0x100_0000)
    ensures Le32(RemoveWriteBack(raw, j), 0) == if j == 0 then Le32(raw, 0) / 0x100 * 0x100 else Le32(raw, 0)
  {
    hide Decode, Le32;
    var out := RemoveWriteBack(raw, j);
    forall k | 0 <= k < 4 && k + 1 != j
      ensures EntryOf(out, k) == EntryOf(raw, k)
    {
      SameEntry(raw, out, k);
    }
    if j > 0 {
      HighByteCleared(raw, j);
      Le32Frame(raw, out, 0);
    } else {
      ClearLow(raw, out, 0);
    }
  }

  lemma HighByteCleared(raw: RawSector, j: nat)
    requires 0 < j < 4
    ensures EntryOf(RemoveWriteBack(raw, j), j - 1)
         == EntryOf(raw, j - 1).(first := EntryOf(raw, j - 1).first % 0x100_0000)
  {
    hide CString, Le32;
    var out := RemoveWriteBack(raw, j);
    var r, o, at := raw[4..], out[4..], 127 * (j - 1);
    SameField(raw, out, j - 1, 0, 116);
    SameField(raw, out, j - 1, 116, 120);
    Le32Frame(r, o, at + 116);
    ClearHigh(r, o, at + 120);
    assert o[at + 124] == r[at + 124] && o[at + 125] == r[at + 125] && o[at + 126] == r[at + 126];
  }

  lemma ClearHigh(s: seq<byte>, t: seq<byte>, at: nat)
    requires at + 4 <= |s| == |t|
    requires t[at] == s[at] && t[at + 1] == s[at + 1] && t[at + 2] == s[at + 2] && t[at + 3] == 0
    ensures Le32(t, at) == Le32(s, at) % 0x100_0000
  {
    var low := s[at] as nat + 0x100 * (s[at + 1] as nat) + 0x1_0000 * (s[at + 2] as nat);
    assert Le32(s, at) == low + 0x100_0000 * (s[at + 3] as nat) && low < 0x100_0000;
  }

  lemma ClearLow(s: seq<byte>, t: seq<byte>, at: nat)
    requires at + 4 <= |s| == |t|
    requires t[at] == 0 && t[at + 1] == s[at + 1] && t[at + 2] == s[at + 2] && t[at + 3] == s[at + 3]
    ensures Le32(t, at) == Le32(s, at) / 0x100 * 0x100
  {
    var b := s[at] as nat;
    var q := s[at + 1] as nat + 0x100 * (s[at + 2] as nat) + 0x1_0000 * (s[at + 3] as nat);
    assert Le32(s, at) == b + 0x100 * q && Le32(t, at) == 0x100 * q;
    LowDigit(Le32(s, at), b, q);
  }

  /** So removal never frees the slot: the name is found afterwards as before. */
  lemma RemoveNeverWorks(raw: RawSector, j: nat)
    requires j < 4
    ensures Live(EntryOf(RemoveWriteBack(raw, j), j)) <==> Live(EntryOf(raw, j))
    ensures EntryOf(RemoveWriteBack(raw, j), j).name == EntryOf(raw, j).name
  {
    RemoveMisplaced(raw, j);
  }

  // ------------------------------------------------------------ the parent's first sector

  /** The sector after a directory in entry `j` was to get its first sector. */
  function ParentWriteBack(raw: RawSector, j: nat, first: nat): RawSector
    requires j < 4
  {
    PutLe32(raw, 127 * j + 120, first)
  }

  /** The number goes into the size; the first sector and everything else stay as they were. */
  lemma ParentMisplaced(raw: RawSector, j: nat, first: nat)
    requires j < 4 && first < U32
    ensures EntryOf(ParentWriteBack(raw, j, first), j) == EntryOf(raw, j).(size := first)
    ensures forall k :: 0 <= k < 4 && k != j ==> EntryOf(ParentWriteBack(raw, j, first), k) == EntryOf(raw, k)
  {
    hide CString, Le32, EncodeLe32;
    var out := ParentWriteBack(raw, j, first);
    var r, o, at := raw[4..], out[4..], 127 * j;
    SameField(raw, out, j, 0, 116);
    SubSlice(out, 4, 512, at + 116, at + 120);
    assert out[4..512] == out[4..] && out[at + 120..at + 124] == EncodeLe32(first);
    Le32At(o, at + 116, first);
    SameField(raw, out, j, 120, 124);
    Le32Frame(r, o, at + 120);
    assert o[at + 124] == r[at + 124] && o[at + 125] == r[at + 125] && o[at + 126] == r[at + 126];
    hide Decode;
    forall k | 0 <= k < 4 && k != j
      ensures EntryOf(out, k) == EntryOf(raw, k)
    {
      SameEntry(raw, out, k);
    }
  }

  /** So the entry comes out right exactly when size and first sector already were that number: never for a
      directory without a sector, whose next entry is put behind sector 0 again. */
  lemma ParentRight(raw: RawSector, j: nat, first: nat)
    requires j < 4 && first < U32
    ensures var e, f := EntryOf(raw, j), EntryOf(ParentWriteBack(raw, j, first), j);
            && (f == e.(first := first) <==> e.size == first && e.first == first)
            && (e.first == 0 ==> f.first == 0)
  {
    ParentMisplaced(raw, j, first);
    hide Decode;
  }
}
