/** The 127-byte packed form of directory entries inside the content of a chained directory's sectors. */
module Dirents {
  import opened Bytes
  import opened Layout
  import opened Directories

  /** The C string that starts a name field. */
  function CString(f: seq<byte>): seq<byte> {
    if f == [] || f[0] == 0 then [] else [f[0]] + CString(f[1..])
  }

  predicate ValidName(name: Name) {
    0 < |name| <= 115 && forall i :: 0 <= i < |name| ==> name[i] != 0
  }

  predicate ValidDirent(e: Dirent) {
    ValidName(e.name) && e.size < U32 && e.first < U32 && e.owner < 0x1_0000
  }

  /** Name at 0, size at 116, first sector at 120, owner at 124, flags at 126. */
  function Decode(s: seq<byte>, at: nat): Dirent
    requires at + 127 <= |s|
  {
    Dirent(CString(s[at..at + 116]), Le32(s, at + 116), Le32(s, at + 120),
           s[at + 124] as nat + 0x100 * (s[at + 125] as nat), s[at + 126])
  }

  function NameField(name: Name): (f: seq<byte>)
    requires |name| <= 115
    ensures |f| == 116
  {
    name + seq(116 - |name|, _ => 0)
  }

  function Encode(e: Dirent): (s: seq<byte>)
    requires |e.name| <= 115
    ensures |s| == 127
  {
    NameField(e.name) + EncodeLe32(e.size) + EncodeLe32(e.first) + [Low(e.owner), Low(e.owner / 0x100), e.flags]
  }

  lemma {:induction false} CStringOfField(name: Name, pad: seq<byte>)
    requires forall i :: 0 <= i < |name| ==> name[i] != 0
    requires pad != [] && pad[0] == 0
    ensures CString(name + pad) == name
  {
    if name == [] {
      assert name + pad == pad;
    } else {
      assert (name + pad)[1..] == name[1..] + pad;
      CStringOfField(name[1..], pad);
    }
  }

  lemma Le32At(s: seq<byte>, at: nat, n: nat)
    requires at + 4 <= |s| && n < U32 && s[at..at + 4] == EncodeLe32(n)
    ensures Le32(s, at) == n
  {
    var e := EncodeLe32(n);
    assert s[at] == e[0] && s[at + 1] == e[1] && s[at + 2] == e[2] && s[at + 3] == e[3] by {
      assert s[at..at + 4][0] == s[at] && s[at..at + 4][1] == s[at + 1];
      assert s[at..at + 4][2] == s[at + 2] && s[at..at + 4][3] == s[at + 3];
    }
    WordDigits(n);
  }

  /** What is stored as an entry is read back as that entry, */
  lemma DirentRoundTrip(s: seq<byte>, at: nat, e: Dirent)
    requires at + 127 <= |s| && ValidDirent(e)
    ensures Decode(Splice(s, at, Encode(e)), at) == e
  {
    hide Le32, EncodeLe32, CString;
    var t, x := Splice(s, at, Encode(e)), Encode(e);
    assert t[at..at + 127] == x;
    assert t[at..at + 116] == t[at..at + 127][..116] == NameField(e.name);
    CStringOfField(e.name, seq(116 - |e.name|, _ => 0));
    assert t[at + 116..at + 120] == x[116..120] == EncodeLe32(e.size);
    Le32At(t, at + 116, e.size);
    assert t[at + 120..at + 124] == x[120..124] == EncodeLe32(e.first);
    Le32At(t, at + 120, e.first);
    assert t[at + 124] == Low(e.owner) && t[at + 125] == Low(e.owner / 0x100);
  }

  /** and an entry depends on its own 127 bytes only. */
  lemma DirentFrame(s: seq<byte>, t: seq<byte>, at: nat)
    requires at + 127 <= |s| && at + 127 <= |t| && s[at..at + 127] == t[at..at + 127]
    ensures Decode(s, at) == Decode(t, at)
  {
    hide Le32, CString;
    var u, v := s[at..at + 127], t[at..at + 127];
    SubSlice(s, at, at + 127, 0, 116);
    SubSlice(t, at, at + 127, 0, 116);
    SubSlice(s, at, at + 127, 116, 120);
    SubSlice(t, at, at + 127, 116, 120);
    Le32Frame(s, t, at + 116);
    SubSlice(s, at, at + 127, 120, 124);
    SubSlice(t, at, at + 127, 120, 124);
    Le32Frame(s, t, at + 120);
    assert s[at + 124] == u[124] && s[at + 125] == u[125] && s[at + 126] == u[126];
    assert t[at + 124] == v[124] && t[at + 125] == v[125] && t[at + 126] == v[126];
  }

  /** The four entries in the content of a chained directory's sector. */
  function Entries(data: Payload): (es: seq<Dirent>)
    ensures |es| == 4
  {
    [Decode(data, 0), Decode(data, 127), Decode(data, 254), Decode(data, 381)]
  }

  function WithEntry(data: Payload, j: nat, e: Dirent): Payload
    requires j < 4 && |e.name| <= 115
  {
    Splice(data, 127 * j, Encode(e))
  }

  lemma EntryUpdateAt(data: Payload, j: nat, e: Dirent, k: nat)
    requires j < 4 && k < 4 && ValidDirent(e)
    ensures Decode(WithEntry(data, j, e), 127 * k) == if k == j then e else Decode(data, 127 * k)
  {
    if k == j {
      DirentRoundTrip(data, 127 * j, e);
    } else {
      DirentFrame(data, WithEntry(data, j, e), 127 * k);
    }
  }

  /** Storing an entry changes that entry and no other. */
  lemma EntryUpdate(data: Payload, j: nat, e: Dirent)
    requires j < 4 && ValidDirent(e)
    ensures Entries(WithEntry(data, j, e)) == Entries(data)[j := e]
  {
    hide Decode, WithEntry;
    EntryUpdateAt(data, j, e, 0);
    EntryUpdateAt(data, j, e, 1);
    EntryUpdateAt(data, j, e, 2);
    EntryUpdateAt(data, j, e, 3);
  }

  lemma CStringEmpty(f: seq<byte>)
    requires f != [] && f[0] == 0
    ensures CString(f) == []
  {
  }

  lemma ZeroEntryAt(data: Payload, at: nat)
    requires at + 127 <= 508 && forall i :: 0 <= i < 508 ==> data[i] == 0
    ensures Decode(data, at) == FREE_SLOT
  {
    hide Le32, CString;
    CStringEmpty(data[at..at + 116]);
    Le32OfZeros(data, at + 116);
    Le32OfZeros(data, at + 120);
  }

  /** A zeroed sector is four free slots. */
  lemma ZeroEntries(data: Payload)
    requires forall i :: 0 <= i < 508 ==> data[i] == 0
    ensures Entries(data) == [FREE_SLOT, FREE_SLOT, FREE_SLOT, FREE_SLOT]
  {
    hide Decode;
    ZeroEntryAt(data, 0);
    ZeroEntryAt(data, 127);
    ZeroEntryAt(data, 254);
    ZeroEntryAt(data, 381);
  }
}
