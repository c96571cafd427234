/** The shell's edit distance on two rolling rows, and the command it suggests. */
module EditDistances {

  // ------------------------------------------------------------ edits

  /** A single-character edit. */
  datatype Edit = Insert(at: nat, c: char) | Delete(at: nat) | Substitute(at: nat, c: char)

  predicate Can(s: string, e: Edit) {
    match e
    case Insert(i, _) => i <= |s|
    case Delete(i) => i < |s|
    case Substitute(i, _) => i < |s|
  }

  function Apply(s: string, e: Edit): string
    requires Can(s, e)
  {
    match e
    case Insert(i, c) => s[..i] + [c] + s[i..]
    case Delete(i) => s[..i] + s[i + 1..]
    case Substitute(i, c) => s[i := c]
  }

  /** The edits, made in turn on `a`, give `b`. */
  predicate EditsTo(a: string, es: seq<Edit>, b: string)
    decreases |es|
  {
    if es == [] then a == b else Can(a, es[0]) && EditsTo(Apply(a, es[0]), es[1..], b)
  }

  lemma {:induction false} EditsJoin(a: string, es: seq<Edit>, m: string, fs: seq<Edit>, b: string)
    requires EditsTo(a, es, m) && EditsTo(m, fs, b)
    ensures EditsTo(a, es + fs, b)
    decreases |es|
  {
    if es == [] {
      assert es + fs == fs;
    } else {
      assert (es + fs)[1..] == es[1..] + fs;
      EditsJoin(Apply(a, es[0]), es[1..], m, fs, b);
    }
  }

  /** The same edits under a common last character. */
  lemma {:induction false} EditsUnder(a: string, es: seq<Edit>, b: string, c: char)
    requires EditsTo(a, es, b)
    ensures EditsTo(a + [c], es, b + [c])
    decreases |es|
  {
    if es != [] {
      var m := Apply(a, es[0]);
      assert Apply(a + [c], es[0]) == m + [c] by {
        if es[0].Insert? {
          assert (a + [c])[es[0].at..] == a[es[0].at..] + [c];
        } else if es[0].Delete? {
          assert (a + [c])[es[0].at + 1..] == a[es[0].at + 1..] + [c];
        }
      }
      EditsUnder(m, es[1..], b, c);
    }
  }

  // ------------------------------------------------------------ the distance

  function Min(a: int, b: int): int {
    if a < b then a else b
  }

  function Front(s: string): string
    requires s != []
  {
    s[..|s| - 1]
  }

  function Last(s: string): char
    requires s != []
  {
    s[|s| - 1]
  }

  function Cost(a: char, b: char): nat {
    if a == b then 0 else 1
  }

  /** The edit distance by its last characters. */
  function Lev(a: string, b: string): nat
    decreases |a| + |b|
  {
    if a == [] then |b|
    else if b == [] then |a|
    else Min(Min(Lev(Front(a), b) + 1, Lev(a, Front(b)) + 1), Lev(Front(a), Front(b)) + Cost(Last(a), Last(b)))
  }

  /** The step inequalities, on empty strings too. */
  lemma LevSteps(a: string, b: string)
    ensures a != [] ==> Lev(a, b) <= Lev(Front(a), b) + 1
    ensures b != [] ==> Lev(a, b) <= Lev(a, Front(b)) + 1
    ensures a != [] && b != [] ==> Lev(a, b) <= Lev(Front(a), Front(b)) + Cost(Last(a), Last(b))
  {
  }

  lemma {:induction false} Lengths(a: string, b: string)
    ensures |a| <= |b| + Lev(a, b) && |b| <= |a| + Lev(a, b)
    decreases |a| + |b|
  {
    if a != [] && b != [] {
      Lengths(Front(a), b);
      Lengths(a, Front(b));
      Lengths(Front(a), Front(b));
    }
  }

  lemma {:induction false} Symmetric(a: string, b: string)
    ensures Lev(a, b) == Lev(b, a)
    decreases |a| + |b|
  {
    if a != [] && b != [] {
      Symmetric(Front(a), b);
      Symmetric(a, Front(b));
      Symmetric(Front(a), Front(b));
    }
  }

  lemma {:induction false} ZeroOnlyOnEqual(a: string, b: string)
    ensures Lev(a, b) == 0 <==> a == b
    decreases |a|
  {
    if a != [] && b != [] {
      ZeroOnlyOnEqual(Front(a), Front(b));
      assert a == Front(a) + [Last(a)] && b == Front(b) + [Last(b)];
    }
  }

  lemma {:induction false} Triangle(a: string, b: string, c: string)
    ensures Lev(a, c) <= Lev(a, b) + Lev(b, c)
    decreases |a| + |b| + |c|
  {
    LevSteps(a, c);
    if a == [] || c == [] {
      Lengths(b, c);
      Lengths(a, b);
    } else if b == [] {
      Lengths(a, c);
      Triangle(Front(a), b, c);
    } else {
      Triangle(Front(a), b, c);
      Triangle(a, b, Front(c));
      Triangle(a, Front(b), c);
      Triangle(a, Front(b), Front(c));
      Triangle(Front(a), Front(b), c);
      Triangle(Front(a), Front(b), Front(c));
    }
  }

  // ------------------------------------------------------------ the least number of edits

  /** Edits that make `b` of `a`, as many as the distance. */
  function Script(a: string, b: string): (es: seq<Edit>)
    ensures |es| == Lev(a, b)
    decreases |a| + |b|
  {
    if a == [] && b == [] then []
    else if b == [] || (a != [] && Lev(a, b) == Lev(Front(a), b) + 1) then [Delete(|a| - 1)] + Script(Front(a), b)
    else if a == [] || Lev(a, b) == Lev(a, Front(b)) + 1 then Script(a, Front(b)) + [Insert(|b| - 1, Last(b))]
    else Script(Front(a), Front(b)) + if Last(a) == Last(b) then [] else [Substitute(|b| - 1, Last(b))]
  }

  lemma {:induction false} ScriptEdits(a: string, b: string)
    ensures EditsTo(a, Script(a, b), b)
    decreases |a| + |b|
  {
    hide EditsTo, Lev;
    if a == [] && b == [] {
      NoEdits(a);
    } else if b == [] || (a != [] && Lev(a, b) == Lev(Front(a), b) + 1) {
      ScriptEdits(Front(a), b);
      OneEdit(a, Delete(|a| - 1), Front(a));
      EditsJoin(a, [Delete(|a| - 1)], Front(a), Script(Front(a), b), b);
    } else if a == [] || Lev(a, b) == Lev(a, Front(b)) + 1 {
      ScriptEdits(a, Front(b));
      var e := Insert(|b| - 1, Last(b));
      assert Apply(Front(b), e) == b;
      OneEdit(Front(b), e, b);
      EditsJoin(a, Script(a, Front(b)), Front(b), [e], b);
    } else {
      ScriptEdits(Front(a), Front(b));
      assert a == Front(a) + [Last(a)] && b == Front(b) + [Last(b)];
      EditsUnder(Front(a), Script(Front(a), Front(b)), Front(b), Last(a));
      if Last(a) == Last(b) {
        assert Script(a, b) == Script(Front(a), Front(b));
      } else {
        var m, e := Front(b) + [Last(a)], Substitute(|b| - 1, Last(b));
        assert Apply(m, e) == b;
        OneEdit(m, e, b);
        EditsJoin(a, Script(Front(a), Front(b)), m, [e], b);
      }
    }
  }

  lemma NoEdits(a: string)
    ensures EditsTo(a, [], a)
  {
  }

  lemma OneEdit(a: string, e: Edit, b: string)
    requires Can(a, e) && Apply(a, e) == b
    ensures EditsTo(a, [e], b)
  {
    assert EditsTo(b, [], b) && [e][1..] == [];
  }

  /** Equal strings under a common end are no further apart than without it. */
  lemma {:induction false} CommonEnd(a: string, b: string, z: string)
    ensures Lev(a + z, b + z) <= Lev(a, b)
  {
    hide Lev;
    if z == [] {
      assert a + z == a && b + z == b;
    } else {
      CommonEnd(a, b, Front(z));
      LevSteps(a + z, b + z);
      assert Front(a + z) == a + Front(z) && Front(b + z) == b + Front(z);
    }
  }

  /** Strings that differ in at most one place are at most one apart. */
  lemma OnePlace(p: string, x: string, y: string, z: string)
    requires |x| <= 1 && |y| <= 1
    ensures Lev(p + x + z, p + y + z) <= 1
  {
    hide Lev;
    OneEnd(p, x, y);
    CommonEnd(p + x, p + y, z);
  }

  lemma OneEnd(p: string, x: string, y: string)
    requires |x| <= 1 && |y| <= 1
    ensures Lev(p + x, p + y) <= 1
  {
    hide *;
    ZeroOnlyOnEqual(p, p);
    if x == [] {
      assert p + x == p;
      if y == [] {
        assert p + y == p;
      } else {
        FrontOf(p, y);
        LevSteps(p, p + y);
      }
    } else {
      FrontOf(p, x);
      if y == [] {
        assert p + y == p;
        LevSteps(p + x, p);
      } else {
        FrontOf(p, y);
        LevSteps(p + x, p + y);
        CostIsOne(Last(p + x), Last(p + y));
      }
    }
  }

  lemma FrontOf(p: string, x: string)
    requires |x| == 1
    ensures Front(p + x) == p
  {
  }

  lemma CostIsOne(a: char, b: char)
    ensures Cost(a, b) <= 1
  {
  }

  lemma EditIsOne(s: string, e: Edit)
    requires Can(s, e)
    ensures Lev(s, Apply(s, e)) <= 1
  {
    hide Lev;
    var i := e.at;
    var p := s[..i];
    match e {
      case Insert(_, c) =>
        OnePlace(p, [], [c], s[i..]);
        assert s == p + [] + s[i..];
      case Delete(_) =>
        OnePlace(p, [s[i]], [], s[i + 1..]);
        assert s == p + [s[i]] + s[i + 1..] && p + [] + s[i + 1..] == s[..i] + s[i + 1..];
      case Substitute(_, c) =>
        OnePlace(p, [s[i]], [c], s[i + 1..]);
        assert s == p + [s[i]] + s[i + 1..] && s[i := c] == p + [c] + s[i + 1..];
    }
  }

  lemma {:induction false} NoFewerEdits(a: string, es: seq<Edit>, b: string)
    requires EditsTo(a, es, b)
    ensures Lev(a, b) <= |es|
    decreases |es|
  {
    if es == [] {
      ZeroOnlyOnEqual(a, b);
    } else {
      var m := Apply(a, es[0]);
      EditIsOne(a, es[0]);
      NoFewerEdits(m, es[1..], b);
      Triangle(a, m, b);
    }
  }

  /** `n` single-character edits suffice exactly from the distance on, so it is the least number. */
  lemma LeastEdits(a: string, b: string)
    ensures exists es :: EditsTo(a, es, b) && |es| == Lev(a, b)
    ensures forall es :: EditsTo(a, es, b) ==> |es| >= Lev(a, b)
  {
    ScriptEdits(a, b);
    forall es | EditsTo(a, es, b)
      ensures |es| >= Lev(a, b)
    {
      NoFewerEdits(a, es, b);
    }
  }

  // ------------------------------------------------------------ the two rows

  /** The distance, or 99 when a string has 16 characters or more. */
  function Shown(a: string, b: string): nat {
    if |a| >= 16 || |b| >= 16 then 99 else Lev(a, b)
  }

  /** The table: the distance of the first `i` characters of `a` from the first `j` of `b`. */
  function Table(a: string, b: string, i: nat, j: nat): nat
    requires i <= |a| && j <= |b|
  {
    Lev(a[..i], b[..j])
  }

  /** One cell, from its three neighbours. */
  lemma Cell(a: string, b: string, i: nat, j: nat)
    requires i <= |a| && j <= |b|
    ensures i == 0 ==> Table(a, b, i, j) == j
    ensures j == 0 ==> Table(a, b, i, j) == i
    ensures i > 0 && j > 0 ==>
              Table(a, b, i, j) == Min(Min(Table(a, b, i - 1, j) + 1, Table(a, b, i, j - 1) + 1),
                                       Table(a, b, i - 1, j - 1) + Cost(a[i - 1], b[j - 1]))
  {
    if i > 0 { assert Front(a[..i]) == a[..i - 1]; }
    if j > 0 { assert Front(b[..j]) == b[..j - 1]; }
  }

  /** The first `n` cells of row `i`. */
  ghost predicate IsRow(r: array<nat>, a: string, b: string, i: nat, n: nat)
    requires i <= |a|
    reads r
  {
    n <= |b| + 1 && n <= r.Length && forall k :: 0 <= k < n ==> r[k] == Table(a, b, i, k)
  }

  /** Row `i` from the row before. */
  method FillRow(a: string, b: string, i: nat, prev: array<nat>, curr: array<nat>)
    requires 1 <= i <= |a| && |b| < 16 && prev.Length == 16 && curr.Length == 16 && prev != curr
    requires IsRow(prev, a, b, i - 1, |b| + 1)
    modifies curr
    ensures IsRow(curr, a, b, i, |b| + 1)
  {
    hide Table;
    Cell(a, b, i, 0);
    curr[0] := i;
    var j := 1;
    while j <= |b|
      invariant 1 <= j <= |b| + 1 && IsRow(curr, a, b, i, j)
    {
      var cost := if a[i - 1] == b[j - 1] then 0 else 1;
      var del, ins, sub := prev[j] + 1, curr[j - 1] + 1, prev[j - 1] + cost;
      var m := if del < ins then del else ins;
      Cell(a, b, i, j);
      curr[j] := if m < sub then m else sub;
      j := j + 1;
    }
  }

  /** The least number of single-character edits, for strings of fewer than 16 characters. */
  method EditDistance(a: string, b: string) returns (d: nat)
    ensures d == Shown(a, b)
    ensures |a| < 16 && |b| < 16 ==> exists es :: EditsTo(a, es, b) && |es| == d
    ensures |a| < 16 && |b| < 16 ==> forall es :: EditsTo(a, es, b) ==> |es| >= d
    ensures |a| >= 16 || |b| >= 16 ==> d == 99
  {
    hide Table, EditsTo, Lev;
    LeastEdits(a, b);
    var la, lb := |a|, |b|;
    if la >= 16 || lb >= 16 {
      return 99;
    }
    var prev, curr := new nat[16], new nat[16];
    var j := 0;
    while j <= lb
      invariant j <= lb + 1 && IsRow(prev, a, b, 0, j)
    {
      Cell(a, b, 0, j);
      prev[j] := j;
      j := j + 1;
    }
    var i := 1;
    while i <= la
      invariant 1 <= i <= la + 1 && IsRow(prev, a, b, i - 1, lb + 1)
    {
      FillRow(a, b, i, prev, curr);
      j := 0;
      while j <= lb
        invariant j <= lb + 1 && IsRow(prev, a, b, i, j) && IsRow(curr, a, b, i, lb + 1)
      {
        prev[j] := curr[j];
        j := j + 1;
      }
      i := i + 1;
    }
    d := prev[lb];
    WholeTable(a, b);
  }

  lemma WholeTable(a: string, b: string)
    ensures Table(a, b, |a|, |b|) == Lev(a, b)
  {
    assert a[..|a|] == a && b[..|b|] == b;
  }

  // ------------------------------------------------------------ suggestions

  /** The command suggested for an unknown word, if any. */
  datatype Suggestion = Suggest(index: nat) | NoSuggestion

  /** `n` edits make the word `name`, and both have fewer than 16 characters. */
  ghost predicate Near(word: string, name: string, n: nat) {
    |word| < 16 && |name| < 16 && exists es :: EditsTo(word, es, name) && |es| == n
  }

  lemma NearShown(word: string, name: string)
    ensures Shown(word, name) < 99 ==> |word| < 16 && Near(word, name, Shown(word, name))
    ensures forall n: nat :: Near(word, name, n) ==> |word| < 16 && Shown(word, name) <= n && Shown(word, name) < 99
    ensures Shown(word, name) == 0 <==> word == name && |word| < 16
  {
    LeastEdits(word, name);
    ZeroOnlyOnEqual(word, name);
    LongestWay(word, name);
  }

  lemma {:induction false} LongestWay(a: string, b: string)
    ensures Lev(a, b) <= |a| + |b|
    decreases |a| + |b|
  {
    if a != [] && b != [] {
      LongestWay(Front(a), b);
    }
  }

  /** Command `k` is nearest to the word, and the first that is. */
  ghost predicate Nearest(word: string, names: seq<string>, k: nat) {
    && k < |names|
    && (forall i :: 0 <= i < |names| ==> Shown(word, names[k]) <= Shown(word, names[i]))
    && forall i :: 0 <= i < k ==> Shown(word, names[k]) < Shown(word, names[i])
  }

  lemma NearestEdits(word: string, names: seq<string>, k: nat)
    requires Nearest(word, names, k)
    ensures 0 < Shown(word, names[k]) <= 2 <==>
              (exists i, n: nat :: 0 <= i < |names| && n <= 2 && Near(word, names[i], n)) && word !in names
    ensures forall i, n: nat :: 0 <= i < |names| && Near(word, names[i], n) ==>
              exists m: nat :: Near(word, names[k], m) && m <= n && (i < k ==> m < n)
    ensures 0 < Shown(word, names[k]) <= 2 ==> Near(word, names[k], 1) || Near(word, names[k], 2)
  {
    hide Shown, Near, EditsTo, Lev;
    forall i | 0 <= i < |names|
      ensures Shown(word, names[i]) < 99 ==> |word| < 16 && Near(word, names[i], Shown(word, names[i]))
      ensures forall n: nat :: Near(word, names[i], n) ==>
                |word| < 16 && Shown(word, names[i]) <= n && Shown(word, names[i]) < 99
      ensures Shown(word, names[i]) == 0 <==> word == names[i] && |word| < 16
    {
      NearShown(word, names[i]);
    }
  }

  /** Suggests the first of the nearest commands, exactly when the nearest is one or two edits away. */
  method SuggestCommand(word: string, names: seq<string>) returns (r: Suggestion)
    ensures r.Suggest? <==>
              && (exists i, n: nat :: 0 <= i < |names| && n <= 2 && Near(word, names[i], n))
              && word !in names
    ensures r.Suggest? ==> r.index < |names| && (Near(word, names[r.index], 1) || Near(word, names[r.index], 2))
    ensures r.Suggest? ==>
              forall i, n: nat :: 0 <= i < |names| && Near(word, names[i], n) ==>
                exists m: nat :: Near(word, names[r.index], m) && m <= n && (i < r.index ==> m < n)
  {
    hide Shown, Near, EditsTo, Lev;
    var best, bestDist := -1, 99;
    for i := 0 to |names|
      invariant -1 <= best < i
      invariant best == -1 ==> bestDist == 99
      invariant best >= 0 ==> bestDist == Shown(word, names[best]) && bestDist < 99
      invariant forall k :: 0 <= k < best ==> bestDist < Shown(word, names[k])
      invariant forall k :: 0 <= k < i ==> bestDist <= Shown(word, names[k])
    {
      var d := EditDistance(word, names[i]);
      if d < bestDist {
        bestDist := d;
        best := i;
      }
    }
    if best >= 0 {
      NearestEdits(word, names, best);
    } else {
      NoneNear(word, names);
    }
    if best >= 0 && bestDist > 0 && bestDist <= 2 {
      r := Suggest(best);
    } else {
      r := NoSuggestion;
    }
  }

  lemma NoneNear(word: string, names: seq<string>)
    requires forall i :: 0 <= i < |names| ==> 99 <= Shown(word, names[i])
    ensures forall i, n: nat :: 0 <= i < |names| ==> !Near(word, names[i], n)
  {
    hide Shown, Near;
    forall i | 0 <= i < |names|
      ensures forall n: nat :: !Near(word, names[i], n)
    {
      NearShown(word, names[i]);
    }
  }
}
