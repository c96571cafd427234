/** Bytes, single bits of a byte, and little-endian 32-bit words inside a byte buffer. */
module Bytes {

  newtype byte = n: int | 0 <= n < 0x100

  /** `1 << k`. */
  function Pow2(k: nat): (p: nat)
    ensures p > 0
  {
    if k == 0 then 1 else 2 * Pow2(k - 1)
  }

  /** Binary digit `k` of `n`: `(n & (1 << k)) != 0`. */
  predicate Bit(n: nat, k: nat) {
    if k == 0 then n % 2 == 1 else Bit(n / 2, k - 1)
  }

  /** `n | (1 << k)`. */
  function SetBit(n: nat, k: nat): nat {
    if Bit(n, k) then n else n + Pow2(k)
  }

  lemma {:induction false} BitWeight(n: nat, k: nat)
    requires Bit(n, k)
    ensures Pow2(k) <= n
  {
    if k > 0 {
      BitWeight(n / 2, k - 1);
    }
  }

  /** `n & ~(1 << k)`. */
  function ClearBit(n: nat, k: nat): nat {
    if Bit(n, k) then BitWeight(n, k); n - Pow2(k) else n
  }

  /** Setting or clearing one bit is visible at that bit only. */
  lemma {:induction false} BitUpdate(n: nat, k: nat, j: nat)
    ensures Bit(SetBit(n, k), j) == (j == k || Bit(n, j))
    ensures Bit(ClearBit(n, k), j) == (j != k && Bit(n, j))
  {
    if k > 0 {
      assert SetBit(n, k) / 2 == SetBit(n / 2, k - 1) && SetBit(n, k) % 2 == n % 2;
      assert ClearBit(n, k) / 2 == ClearBit(n / 2, k - 1) && ClearBit(n, k) % 2 == n % 2;
      if j > 0 {
        BitUpdate(n / 2, k - 1, j - 1);
      }
    } else {
      assert SetBit(n, 0) / 2 == n / 2 == ClearBit(n, 0) / 2;
    }
  }

  lemma {:induction false} SetBitRange(n: nat, k: nat, w: nat)
    requires n < Pow2(w) && k < w
    ensures SetBit(n, k) < Pow2(w)
  {
    assert Pow2(w) == 2 * Pow2(w - 1);
    if k > 0 {
      var half := SetBit(n / 2, k - 1);
      assert SetBit(n, k) / 2 == half;
      assert half < Pow2(w - 1) by {
        SetBitRange(n / 2, k - 1, w - 1);
      }
    }
  }

  /** A number below 2^w is determined by its `w` lowest bits. */
  lemma {:induction false} BitsDetermine(a: nat, b: nat, w: nat)
    requires a < Pow2(w) && b < Pow2(w)
    requires forall k: nat :: k < w ==> Bit(a, k) == Bit(b, k)
    ensures a == b
  {
    if w > 0 {
      forall k: nat | k < w - 1
        ensures Bit(a / 2, k) == Bit(b / 2, k)
      {
        assert Bit(a, k + 1) == Bit(b, k + 1);
      }
      BitsDetermine(a / 2, b / 2, w - 1);
      assert Bit(a, 0) == Bit(b, 0);
    }
  }

  lemma {:induction false} AllOnes(w: nat, k: nat)
    requires k < w
    ensures Bit(Pow2(w) - 1, k)
  {
    if k > 0 {
      AllOnes(w - 1, k - 1);
      assert (Pow2(w) - 1) / 2 == Pow2(w - 1) - 1;
    }
  }

  lemma ByteRange()
    ensures Pow2(8) == 0x100
  {
    assert Pow2(4) == 16;
  }

  predicate On(b: byte, k: nat)
    requires k < 8
  {
    Bit(b as nat, k)
  }

  function TurnOn(b: byte, k: nat): byte
    requires k < 8
  {
    ByteRange();
    SetBitRange(b as nat, k, 8);
    SetBit(b as nat, k) as byte
  }

  function TurnOff(b: byte, k: nat): byte
    requires k < 8
  {
    ClearBit(b as nat, k) as byte
  }

  lemma ByteBitUpdate(b: byte, k: nat, j: nat)
    requires k < 8 && j < 8
    ensures On(TurnOn(b, k), j) == (j == k || On(b, j))
    ensures On(TurnOff(b, k), j) == (j != k && On(b, j))
  {
    BitUpdate(b as nat, k, j);
  }

  /** A byte is determined by its eight bits. */
  lemma ByteExtensional(a: byte, b: byte)
    requires forall k: nat :: k < 8 ==> On(a, k) == On(b, k)
    ensures a == b
  {
    ByteRange();
    var m: nat, n: nat := a as nat, b as nat;
    forall k: nat | k < 8
      ensures Bit(m, k) == Bit(n, k)
    {
      assert On(a, k) == On(b, k);
    }
    BitsDetermine(m, n, 8);
  }

  /** The test `bitmap[byte] != 0xFF` that guards the bit loop fails only on a byte without a clear bit. */
  lemma FullByte(b: byte)
    ensures b == 0xFF <==> forall k: nat :: k < 8 ==> On(b, k)
  {
    ByteRange();
    var full := (Pow2(8) - 1) as byte;
    forall k: nat | k < 8
      ensures On(full, k)
    {
      AllOnes(8, k);
    }
    if forall k: nat :: k < 8 ==> On(b, k) {
      ByteExtensional(b, full);
    }
  }

  const U32 := 0x1_0000_0000

  function Low(n: nat): byte {
    (n % 0x100) as byte
  }

  function Word(b0: nat, b1: nat, b2: nat, b3: nat): (n: nat)
    requires b0 < 0x100 && b1 < 0x100 && b2 < 0x100 && b3 < 0x100
    ensures n < U32
  {
    b0 + 0x100 * b1 + 0x1_0000 * b2 + 0x100_0000 * b3
  }

  /** The 32-bit little-endian word of `s` at byte `at`. */
  function Le32(s: seq<byte>, at: nat): (n: nat)
    requires at + 4 <= |s|
    ensures n < U32
  {
    Word(s[at] as nat, s[at + 1] as nat, s[at + 2] as nat, s[at + 3] as nat)
  }

  function EncodeLe32(n: nat): (e: seq<byte>)
    ensures |e| == 4
  {
    [Low(n), Low(n / 0x100), Low(n / 0x100 / 0x100), Low(n / 0x100 / 0x100 / 0x100)]
  }

  /** `s` with the bytes from `at` on replaced by `with`. */
  function Splice(s: seq<byte>, at: nat, with: seq<byte>): (t: seq<byte>)
    requires at + |with| <= |s|
    ensures |t| == |s|
    ensures forall i :: 0 <= i < |s| ==> t[i] == if at <= i < at + |with| then with[i - at] else s[i]
  {
    s[..at] + with + s[at + |with|..]
  }

  function PutLe32(s: seq<byte>, at: nat, n: nat): (t: seq<byte>)
    requires at + 4 <= |s|
    ensures |t| == |s|
    ensures forall i :: 0 <= i < |s| && !(at <= i < at + 4) ==> t[i] == s[i]
  {
    Splice(s, at, EncodeLe32(n))
  }

  lemma WordDigits(n: nat)
    requires n < U32
    ensures Word(n % 0x100, n / 0x100 % 0x100, n / 0x100 / 0x100 % 0x100, n / 0x100 / 0x100 / 0x100 % 0x100) == n
  {
  }

  /** Storing a 32-bit word and reading it back gives the word. */
  lemma Le32RoundTrip(s: seq<byte>, at: nat, n: nat)
    requires at + 4 <= |s| && n < U32
    ensures Le32(PutLe32(s, at, n), at) == n
  {
    WordDigits(n);
  }

  lemma SubSlice<T>(s: seq<T>, a: nat, b: nat, i: nat, j: nat)
    requires a <= b <= |s| && i <= j <= b - a
    ensures s[a..b][i..j] == s[a + i..a + j]
  {
    var u, v := s[a..b][i..j], s[a + i..a + j];
    forall k | 0 <= k < |u|
      ensures u[k] == v[k]
    {
      assert u[k] == s[a..b][i + k] == s[a + i + k];
    }
  }

  lemma Le32OfZeros(s: seq<byte>, at: nat)
    requires at + 4 <= |s|
    requires s[at] == 0 && s[at + 1] == 0 && s[at + 2] == 0 && s[at + 3] == 0
    ensures Le32(s, at) == 0
  {
  }

  /** A word is untouched by a change that leaves its four bytes alone. */
  lemma Le32Frame(s: seq<byte>, t: seq<byte>, at: nat)
    requires at + 4 <= |s| && at + 4 <= |t|
    requires s[at..at + 4] == t[at..at + 4]
    ensures Le32(s, at) == Le32(t, at)
  {
    var u, v := s[at..at + 4], t[at..at + 4];
    assert s[at] == u[0] && s[at + 1] == u[1] && s[at + 2] == u[2] && s[at + 3] == u[3];
    assert t[at] == v[0] && t[at + 1] == v[1] && t[at + 2] == v[2] && t[at + 3] == v[3];
  }
}
