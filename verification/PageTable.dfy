/** Four-level page tables in physical memory, as values: which table a path of indices reaches, and
    which page-table word it ends in. */
module PageTables {
  import opened Bytes

  /** One page of memory as 512 64-bit words. */
  type Frame = f: seq<nat> | |f| == 512 witness seq(512, _ => 0)

  type Ram = seq<Frame>

  predicate Present(w: nat) {
    w % 2 == 1
  }

  /** `w & ADDR_MASK`. */
  function BaseOf(w: nat): nat {
    w - w % 4096
  }

  function FrameOf(w: nat): nat {
    w / 4096
  }

  /** The bitwise or of two words. */
  function Or(a: nat, b: nat): nat {
    if a == 0 then b
    else if b == 0 then a
    else 2 * Or(a / 2, b / 2) + if a % 2 == 1 || b % 2 == 1 then 1 else 0
  }

  lemma OrHalf(a: nat, b: nat)
    ensures Or(a, b) / 2 == Or(a / 2, b / 2)
    ensures Or(a, b) % 2 == if a % 2 == 1 || b % 2 == 1 then 1 else 0
  {
  }

  /** Or with a number that has its `k` low bits clear works on high and low bits separately. */
  lemma {:induction false} OrSplit(a: nat, f: nat, k: nat)
    requires a % Pow2(k) == 0
    ensures Or(a, f) % Pow2(k) == f % Pow2(k)
    ensures Or(a, f) / Pow2(k) == Or(a / Pow2(k), f / Pow2(k))
  {
    if k > 0 {
      var m := Pow2(k - 1);
      ModHalf(a, m);
      ModHalf(f, m);
      ModHalf(Or(a, f), m);
      OrHalf(a, f);
      OrSplit(a / 2, f / 2, k - 1);
    }
  }

  lemma ModHalf(a: nat, m: nat)
    requires m > 0
    ensures a % (2 * m) == 2 * (a / 2 % m) + a % 2
    ensures a / (2 * m) == a / 2 / m
  {
    var q, r := a / 2 / m, a / 2 % m;
    assert a / 2 == q * m + r;
    assert a == q * (2 * m) + (2 * r + a % 2);
    Division(a, 2 * m, q, 2 * r + a % 2);
  }

  lemma Product(a: nat, b: nat, d: nat)
    requires a < b
    ensures a * d + d <= b * d
  {
    assert b * d == a * d + d + (b - a - 1) * d;
  }

  lemma Division(a: nat, d: nat, q: nat, r: nat)
    requires d > 0 && a == q * d + r && r < d
    ensures a / d == q && a % d == r
  {
    var q', r' := a / d, a % d;
    assert a == q' * d + r';
    if q' < q {
      Product(q', q, d);
    } else if q < q' {
      Product(q, q', d);
    }
  }

  lemma PageSize()
    ensures Pow2(12) == 4096
  {
    assert Pow2(6) == 64;
    assert Pow2(9) == 8 * Pow2(6);
    assert Pow2(12) == 8 * Pow2(9);
  }

  lemma OrPage(a: nat, f: nat)
    requires a % 4096 == 0
    ensures BaseOf(Or(a, f)) == 4096 * Or(a / 4096, f / 4096)
    ensures Or(a, f) % 4096 == f % 4096
    ensures f < 4096 ==> Or(a, f) == a + f
  {
    PageSize();
    OrSplit(a, f, 12);
    OrZero(a / 4096);
  }

  lemma OrZero(a: nat)
    ensures Or(a, 0) == a
  {
  }

  /** The parity of a page-table word: present exactly when the flags say so. */
  lemma OrPresent(a: nat, f: nat)
    requires a % 4096 == 0
    ensures Present(Or(a, f)) <==> Present(f)
  {
    OrHalf(a, f);
    assert a == 4096 * (a / 4096);
  }

  // ------------------------------------------------------------------ paths

  type Path = seq<nat>

  /** The four table indices of a virtual address. */
  function PathOf(vaddr: nat): (p: Path)
    ensures |p| == 4 && forall i :: 0 <= i < 4 ==> p[i] < 512
  {
    [vaddr / 0x80_0000_0000 % 512, vaddr / 0x4000_0000 % 512, vaddr / 0x20_0000 % 512, vaddr / 0x1000 % 512]
  }

  /** The 36-bit page number whose digits the path is. */
  function PageNumber(p: Path): nat
    requires |p| == 4
  {
    ((p[0] * 512 + p[1]) * 512 + p[2]) * 512 + p[3]
  }

  lemma Digits(x: nat)
    ensures (((x / 512 / 512 / 512 % 512) * 512 + x / 512 / 512 % 512) * 512 + x / 512 % 512) * 512 + x % 512
         == x % 0x10_0000_0000
  {
    var a := x / 512;
    var b := a / 512;
    var c := b / 512;
    var d0, d1, d2, d3, e := x % 512, a % 512, b % 512, c % 512, c / 512;
    assert x == 512 * a + d0 && a == 512 * b + d1 && b == 512 * c + d2 && c == 512 * e + d3;
    var rest := ((d3 * 512 + d2) * 512 + d1) * 512 + d0;
    assert x == e * 0x10_0000_0000 + rest && rest < 0x10_0000_0000;
    Division(x, 0x10_0000_0000, e, rest);
  }

  lemma PathIsPageNumber(vaddr: nat)
    ensures PageNumber(PathOf(vaddr)) == vaddr / 4096 % 0x10_0000_0000
  {
    var x := vaddr / 4096;
    assert vaddr / 0x20_0000 == x / 512;
    assert vaddr / 0x4000_0000 == x / 512 / 512;
    assert vaddr / 0x80_0000_0000 == x / 512 / 512 / 512;
    Digits(x);
  }

  /** Two addresses have the same path exactly when they lie in the same 36-bit page. */
  lemma SamePath(v: nat, w: nat)
    ensures PathOf(v) == PathOf(w) <==> v / 4096 % 0x10_0000_0000 == w / 4096 % 0x10_0000_0000
  {
    PathIsPageNumber(v);
    PathIsPageNumber(w);
    PageNumberInjective(PathOf(v), PathOf(w));
  }

  lemma PageNumberInjective(p: Path, q: Path)
    requires |p| == 4 && |q| == 4
    requires forall i :: 0 <= i < 4 ==> p[i] < 512 && q[i] < 512
    ensures PageNumber(p) == PageNumber(q) <==> p == q
  {
    if PageNumber(p) == PageNumber(q) {
      assert p[3] == q[3] && p[2] == q[2] && p[1] == q[1] && p[0] == q[0];
      assert p == [p[0], p[1], p[2], p[3]] && q == [q[0], q[1], q[2], q[3]];
    }
  }

  // ------------------------------------------------------------------ the graph

  /** Word `i` of the page `t`; 0 outside memory. */
  function WordAt(ram: Ram, t: nat, i: nat): nat {
    if t < |ram| && i < 512 then ram[t][i] else 0
  }

  /** The page of the table that the indices `p` lead to, or -1. */
  function Reach(ram: Ram, root: nat, p: Path): int {
    if p == [] then root
    else
      var last := |p| - 1;
      var t := Reach(ram, root, p[..last]);
      if t >= 0 && Present(WordAt(ram, t, p[last])) then FrameOf(WordAt(ram, t, p[last])) else -1
  }

  /** The page-table word of a page; 0 when a table on the way is missing. */
  function Pte(ram: Ram, root: nat, p: Path): nat
    requires |p| == 4
  {
    if Reach(ram, root, p[..3]) >= 0 then WordAt(ram, Reach(ram, root, p[..3]), p[3]) else 0
  }

  predicate IsTable(ram: Ram, root: nat, p: Path) {
    |p| <= 3 && Reach(ram, root, p) >= 0
  }

  /** All tables are in memory, and no page is reached on two paths. */
  ghost predicate Tree(ram: Ram, root: nat) {
    && (forall p :: IsTable(ram, root, p) ==> Reach(ram, root, p) < |ram|)
    && forall p, q ::
         IsTable(ram, root, p) && IsTable(ram, root, q) && Reach(ram, root, p) == Reach(ram, root, q) ==> p == q
  }

  /** The page `t` is not a table. */
  ghost predicate NoTable(ram: Ram, root: nat, t: nat) {
    forall p :: IsTable(ram, root, p) ==> Reach(ram, root, p) != t
  }

  function SetWord(ram: Ram, t: nat, i: nat, w: nat): Ram
    requires t < |ram| && i < 512
  {
    ram[t := ram[t][i := w]]
  }

  /** Rewriting a page that is not a table is invisible. */
  lemma {:induction false} ReachIgnores(ram: Ram, root: nat, t: nat, f: Frame, p: Path)
    requires NoTable(ram, root, t) && t < |ram| && |p| <= 3
    ensures Reach(ram[t := f], root, p) == Reach(ram, root, p)
  {
    if p != [] {
      var last := |p| - 1;
      ReachIgnores(ram, root, t, f, p[..last]);
      assert IsTable(ram, root, p[..last]) ==> Reach(ram, root, p[..last]) != t;
    }
  }

  /** Changing word `i` of the table at `q` matters only to paths through it. */
  lemma {:induction false} ReachElsewhere(ram: Ram, root: nat, q: Path, i: nat, w: nat, p: Path)
    requires Tree(ram, root) && IsTable(ram, root, q) && i < 512 && |p| <= 3
    requires !(q + [i] <= p)
    ensures Reach(ram, root, q) < |ram|
    ensures Reach(SetWord(ram, Reach(ram, root, q), i, w), root, p) == Reach(ram, root, p)
  {
    if p != [] {
      var last := |p| - 1;
      var p' := p[..last];
      assert p == p' + [p[last]];
      ReachElsewhere(ram, root, q, i, w, p');
      if Reach(ram, root, p') == Reach(ram, root, q) {
        assert IsTable(ram, root, p');
        assert p' == q;
      }
    }
  }
}
