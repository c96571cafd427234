/** The integer line loop, against the rounded points of the ideal line. */
module Lines {
  import opened Euclid

  /** A 32-bit signed integer: everything the loop stores must fit. */
  type i32 = x: int | -0x8000_0000 <= x < 0x8000_0000

  function Abs(x: int): nat {
    if x < 0 then -x else x
  }

  function Max(a: nat, b: nat): nat {
    if a < b then b else a
  }

  /** `n * k / m` rounded to the nearest integer, a half rounded up. */
  function Rounded(n: nat, k: nat, m: nat): nat {
    if m == 0 then 0 else (2 * (n * k) + m) / (2 * m)
  }

  /** Point `k` of the ideal line from (x0, y0) to (x1, y1), cut in as many equal steps as its longer side
      is long and rounded to pixels. */
  function LinePoint(x0: int, y0: int, x1: int, y1: int, k: nat): (int, int) {
    var a, b := Abs(x1 - x0), Abs(y1 - y0);
    (Toward(x0, x1, Rounded(a, k, Max(a, b))), Toward(y0, y1, Rounded(b, k, Max(a, b))))
  }

  /** `n` steps from `from` towards `to`. */
  function Toward(from: int, to: int, n: nat): int {
    if from < to then from + n else from - n
  }

  lemma RoundedIs(n: nat, k: nat, m: nat, r: nat)
    requires 0 < m && 0 < 2 * (m * r - n * k) + m <= 2 * m
    ensures Rounded(n, k, m) == r
  {
    var v := 2 * (n * k) + m;
    assert 2 * (m * r) == 2 * m * r;
    QuotientIs(v, 2 * m, r);
  }

  lemma QuotientIs(v: nat, c: nat, r: nat)
    requires 0 < c && c * r <= v < c * r + c
    ensures v / c == r
  {
    var q := v / c;
    assert c * q <= v < c * q + c;
    if q < r {
      Products(c, q + 1, r);
    } else if q > r {
      Products(c, r + 1, q);
    }
  }

  /** How far off the ideal line `i` steps in x and `j` steps in y are, times the longer side. */
  function Off(a: nat, b: nat, i: nat, j: nat): int {
    a * j - b * i
  }

  /** After `k` rounds the longer side has advanced `k` steps and the shorter is within half a step. */
  predicate Near(a: nat, b: nat, k: nat, i: nat, j: nat) {
    if a == 0 && b == 0 then i == 0 && j == 0 && k == 0
    else if a >= b then i == k <= a && 0 < 2 * Off(a, b, i, j) + a <= 2 * a
    else j == k <= b && 0 <= 2 * Off(a, b, i, j) + b < 2 * b
  }

  lemma NearIsRounded(a: nat, b: nat, k: nat, i: nat, j: nat)
    requires Near(a, b, k, i, j)
    ensures i == Rounded(a, k, Max(a, b)) && j == Rounded(b, k, Max(a, b)) && i <= a && j <= b
    ensures k == Max(a, b) <==> i == a && j == b
  {
    if a == 0 && b == 0 {
    } else if a >= b {
      RoundedIs(a, k, a, k);
      RoundedIs(b, k, a, j);
      InSide(a, b, j, k, Off(a, b, i, j));
    } else {
      assert b * i - a * k == -Off(a, b, i, j);
      RoundedIs(b, k, b, k);
      RoundedIs(a, k, b, i);
      InSide(b, a, i, k, -Off(a, b, i, j));
    }
  }

  /** The shorter side never overshoots, and both sides are complete together. */
  lemma InSide(m: nat, n: nat, j: nat, k: nat, off: int)
    requires 0 < m && k <= m && off == m * j - n * k && 0 <= 2 * off + m <= 2 * m
    ensures j <= n && (k == m ==> j == n)
  {
    Products(n, k, m);
    if j >= n + 1 {
      Products(m, n + 1, j);
    }
    if k == m && j <= n - 1 {
      Products(m, j, n - 1);
    }
  }

  /** Whether a round steps in x, and in y. */
  predicate StepsX(a: nat, b: nat, i: nat, j: nat) {
    2 * (Off(a, b, i, j) + a - b) + b >= 0
  }

  predicate StepsY(a: nat, b: nat, i: nat, j: nat) {
    2 * (Off(a, b, i, j) + a - b) <= a
  }

  function NextX(a: nat, b: nat, i: nat, j: nat): nat {
    if StepsX(a, b, i, j) then i + 1 else i
  }

  function NextY(a: nat, b: nat, i: nat, j: nat): nat {
    if StepsY(a, b, i, j) then j + 1 else j
  }

  /** After one round the point is again within half a step. */
  lemma Round(a: nat, b: nat, k: nat, i: nat, j: nat)
    requires Near(a, b, k, i, j) && k < Max(a, b)
    ensures Near(a, b, k + 1, NextX(a, b, i, j), NextY(a, b, i, j))
    ensures Off(a, b, NextX(a, b, i, j), NextY(a, b, i, j))
         == Off(a, b, i, j) - (if StepsX(a, b, i, j) then b else 0) + (if StepsY(a, b, i, j) then a else 0)
  {
    assert a * (j + 1) == a * j + a && b * (i + 1) == b * i + b;
  }

  /** The side steps after `k` rounds. */
  function Steps(a: nat, b: nat, k: nat): (nat, nat) {
    (Rounded(a, k, Max(a, b)), Rounded(b, k, Max(a, b)))
  }

  lemma {:induction false} StepsNear(a: nat, b: nat, k: nat)
    requires k <= Max(a, b)
    ensures Near(a, b, k, Steps(a, b, k).0, Steps(a, b, k).1)
  {
    if k == 0 {
      assert Near(a, b, 0, 0, 0);
      NearIsRounded(a, b, 0, 0, 0);
    } else {
      StepsNear(a, b, k - 1);
      var (i, j) := Steps(a, b, k - 1);
      hide Rounded, StepsX, StepsY;
      Round(a, b, k - 1, i, j);
      NearIsRounded(a, b, k, NextX(a, b, i, j), NextY(a, b, i, j));
    }
  }

  /** Every point of the line is within half a pixel of the ideal line on the shorter side, and the last
      one is the end point. */
  lemma WithinHalf(x0: int, y0: int, x1: int, y1: int, k: nat)
    requires k <= Max(Abs(x1 - x0), Abs(y1 - y0))
    ensures var (x, y) := LinePoint(x0, y0, x1, y1, k);
            2 * Abs(Abs(x1 - x0) * Abs(y - y0) - Abs(y1 - y0) * Abs(x - x0)) <= Max(Abs(x1 - x0), Abs(y1 - y0))
    ensures LinePoint(x0, y0, x1, y1, Max(Abs(x1 - x0), Abs(y1 - y0))) == (x1, y1)
    ensures LinePoint(x0, y0, x1, y1, 0) == (x0, y0)
  {
    var a, b := Abs(x1 - x0), Abs(y1 - y0);
    StepsNear(a, b, k);
    StepsNear(a, b, 0);
    StepsNear(a, b, Max(a, b));
    NearIsRounded(a, b, 0, Steps(a, b, 0).0, Steps(a, b, 0).1);
    NearIsRounded(a, b, Max(a, b), Steps(a, b, Max(a, b)).0, Steps(a, b, Max(a, b)).1);
    var (i, j) := Steps(a, b, k);
    var (x, y) := LinePoint(x0, y0, x1, y1, k);
    assert Abs(x - x0) == i && Abs(y - y0) == j;
  }

  // ------------------------------------------------------------ when nothing overflows

  predicate In32(v: int) {
    -0x8000_0000 <= v < 0x8000_0000
  }

  /** How far off the line is after `k` rounds, and the loop's error then. */
  function OffAt(a: nat, b: nat, k: nat): int {
    Off(a, b, Steps(a, b, k).0, Steps(a, b, k).1)
  }

  function ErrAt(a: nat, b: nat, k: nat): int {
    OffAt(a, b, k) + a - b
  }

  /** The error after the x branch, and after both. */
  function ErrX(err: int, b: nat): int {
    if 2 * err + b >= 0 then err - b else err
  }

  function ErrY(err: int, a: nat, b: nat): int {
    if 2 * err <= a then ErrX(err, b) + a else ErrX(err, b)
  }

  /** All that round `k` computes fits: twice the error, and the error after each branch. */
  predicate RoundFits(a: nat, b: nat, k: nat) {
    In32(2 * ErrAt(a, b, k)) && In32(ErrX(ErrAt(a, b, k), b)) && In32(ErrY(ErrAt(a, b, k), a, b))
  }

  /** No value overflows: the sides, the first error, and every round up to the end point. */
  ghost predicate NoOverflow(a: nat, b: nat) {
    a < 0x8000_0000 && b <= 0x8000_0000 && In32(a - b) && forall k: nat :: k < Max(a, b) ==> RoundFits(a, b, k)
  }

  /** What every offset is a multiple of. */
  function Unit(a: nat, b: nat): (g: nat)
    ensures a > 0 || b > 0 ==> g > 0
  {
    if a >= b then Gcd(a, b) else Gcd(b, a)
  }

  /** The largest and the smallest offset that occur. */
  function HighOff(a: nat, b: nat): int
    requires a > 0 || b > 0
  {
    if a >= b then HalfMultiple(Unit(a, b), a) else HalfMultiple(Unit(a, b), b - 1)
  }

  function LowOff(a: nat, b: nat): int
    requires a > 0 || b > 0
  {
    if a >= b then -HalfMultiple(Unit(a, b), a - 1) else -HalfMultiple(Unit(a, b), b)
  }

  /** The exact condition on the two sides, which a caller can check. */
  predicate LineFits(a: nat, b: nat) {
    || (a == 0 && b == 0)
    || (&& a < 0x8000_0000 && b <= 0x8000_0000
        && 2 * (HighOff(a, b) + a - b) < 0x8000_0000 && 2 * (LowOff(a, b) + a - b) >= -0x8000_0000
        && (if a >= b then LowOff(a, b) + a - 2 * b >= -0x8000_0000 else a > 0 ==> LowOff(a, b) - b >= -0x8000_0000))
  }

  /** Every offset lies between the two, */
  lemma OffBounds(a: nat, b: nat, k: nat, i: nat, j: nat)
    requires Near(a, b, k, i, j) && Max(a, b) > 0
    ensures LowOff(a, b) <= Off(a, b, i, j) <= HighOff(a, b)
  {
    var g := Unit(a, b);
    var p, q := UnitDivides(a, b);
    var t := p * j - q * i;
    OffIsMultiple(a, b, i, j, g, p, q);
    assert g * (-t) == -(g * t);
    if a >= b {
      HalfMultipleIs(g, a, t);
      HalfMultipleIs(g, a - 1, -t);
    } else {
      HalfMultipleIs(g, b - 1, t);
      HalfMultipleIs(g, b, -t);
    }
  }

  lemma UnitDivides(a: nat, b: nat) returns (p: nat, q: nat)
    ensures a == Unit(a, b) * p && b == Unit(a, b) * q
  {
    if a >= b {
      p, q := Divides(a, b);
    } else {
      q, p := Divides(b, a);
    }
  }

  lemma OffIsMultiple(a: nat, b: nat, i: nat, j: nat, g: nat, p: nat, q: nat)
    requires a == g * p && b == g * q
    ensures Off(a, b, i, j) == g * (p * j - q * i)
  {
    Spread(g, p * j, -(q * i));
    assert g * -(q * i) == -(g * (q * i));
    assert (g * p) * j == g * (p * j) && (g * q) * i == g * (q * i);
  }

  /** and every multiple of the unit between them occurs before the end point. */
  lemma OffOccurs(a: nat, b: nat, d: int, t: int) returns (k: nat)
    requires Max(a, b) > 0 && d == Unit(a, b) * t
    requires if a >= b then 0 < 2 * d + a <= 2 * a else 0 <= 2 * d + b < 2 * b
    ensures k < Max(a, b) && OffAt(a, b, k) == d
  {
    hide Gcd, Rounded;
    if a >= b {
      var j: int;
      j, k := Reached(a, b, t);
      FlatAt(a, b, j, k, d);
    } else {
      var i: int;
      i, k := Reached(b, a, -t);
      Negated(Unit(a, b), t);
      SteepAt(a, b, i, k, d);
    }
  }

  lemma Negated(g: int, t: int)
    ensures g * (-t) == -(g * t)
  {
  }

  lemma FlatAt(a: nat, b: nat, j: int, k: nat, d: int)
    requires a >= b && k < a && a * j - b * k == d && 0 < 2 * d + a <= 2 * a
    ensures OffAt(a, b, k) == d
  {
    hide Rounded;
    NotNegative(a, j, b, k, d);
    assert Off(a, b, k, j) == d;
    NearIsRounded(a, b, k, k, j);
  }

  lemma SteepAt(a: nat, b: nat, i: int, k: nat, d: int)
    requires a < b && k < b && b * i - a * k == -d && 0 <= 2 * d + b < 2 * b
    ensures OffAt(a, b, k) == d
  {
    hide Rounded;
    NotNegative(b, i, a, k, -d);
    assert Off(a, b, i, k) == d;
    NearIsRounded(a, b, k, i, k);
  }

  lemma NotNegative(a: nat, j: int, b: nat, k: nat, d: int)
    requires a > 0 && a * j - b * k == d && 2 * d + a >= 0
    ensures j >= 0
  {
    if j <= -1 {
      Products(a, j, -1);
    }
  }

  /** A line that meets the condition has no overflow in any round, */
  lemma FitsRound(a: nat, b: nat, k: nat)
    requires LineFits(a, b) && k < Max(a, b)
    ensures RoundFits(a, b, k)
    ensures ErrY(ErrAt(a, b, k), a, b) == ErrAt(a, b, k + 1)
  {
    hide LineFits, Unit, HighOff, LowOff, In32, ErrX, ErrY, Rounded, Near, Off;
    var (i, j) := Steps(a, b, k);
    StepsNear(a, b, k);
    Round(a, b, k, i, j);
    var x, y := NextX(a, b, i, j), NextY(a, b, i, j);
    NearIsRounded(a, b, k + 1, x, y);
    OffBounds(a, b, k, i, j);
    OffBounds(a, b, k + 1, x, y);
    NearOff(a, b, k, i, j);
    FitsErrors(a, b, Off(a, b, i, j), Off(a, b, x, y));
  }

  lemma NearOff(a: nat, b: nat, k: nat, i: nat, j: nat)
    requires Near(a, b, k, i, j) && Max(a, b) > 0
    ensures var d := Off(a, b, i, j); if a >= b then 0 < 2 * d + a <= 2 * a else 0 <= 2 * d + b < 2 * b
  {
  }

  lemma FitsErrors(a: nat, b: nat, d: int, next: int)
    requires LineFits(a, b) && Max(a, b) > 0
    requires LowOff(a, b) <= d <= HighOff(a, b) && LowOff(a, b) <= next <= HighOff(a, b)
    requires if a >= b then 0 < 2 * d + a <= 2 * a else 0 <= 2 * d + b < 2 * b
    requires next == d - (if 2 * (d + a - b) + b >= 0 then b else 0) + (if 2 * (d + a - b) <= a then a else 0)
    ensures In32(2 * (d + a - b)) && In32(ErrX(d + a - b, b)) && In32(ErrY(d + a - b, a, b))
    ensures ErrY(d + a - b, a, b) == next + a - b
  {
    hide HighOff, LowOff;
  }

  /** and a line without overflow meets it. */
  lemma FitsNeeded(a: nat, b: nat)
    requires NoOverflow(a, b)
    ensures LineFits(a, b)
  {
    if a > 0 || b > 0 {
      var g, m := Unit(a, b), Max(a, b);
      var high, low := HighOff(a, b), LowOff(a, b);
      HalfMultipleIs(g, m, 0);
      HalfMultipleIs(g, m - 1, 0);
      var k := OffOccurs(a, b, high, if a >= b then Halves(g, a) else Halves(g, b - 1));
      assert RoundFits(a, b, k);
      var n := if a >= b then 0 - Halves(g, a - 1) else 0 - Halves(g, b);
      LowIs(a, b, n);
      var l := OffOccurs(a, b, low, n);
      assert RoundFits(a, b, l);
      if a < b && a > 0 {
        LowestErr(a, b, n);
      }
    }
  }

  lemma LowIs(a: nat, b: nat, n: int)
    requires a > 0 || b > 0
    requires n == if a >= b then 0 - Halves(Unit(a, b), a - 1) else 0 - Halves(Unit(a, b), b)
    ensures LowOff(a, b) == Unit(a, b) * n
  {
    var g := Unit(a, b);
    assert g * n == -(g * -n);
  }

  /** On a steep line the x branch reaches the lowest offset less the longer side. */
  lemma LowestErr(a: nat, b: nat, n: int)
    requires 0 < a < b && NoOverflow(a, b) && LowOff(a, b) == Unit(a, b) * n
    ensures LowOff(a, b) - b >= -0x8000_0000
  {
    hide Unit, LowOff, OffAt;
    var g, low := Unit(a, b), LowOff(a, b);
    LowBounds(a, b);
    var p, q := UnitDivides(a, b);
    LowestRound(a, b, g, p, q, n, low);
    var k := OffOccurs(a, b, low - a + b, n + (q - p));
    assert RoundFits(a, b, k);
  }

  lemma LowBounds(a: nat, b: nat)
    requires 0 < a < b
    ensures 0 <= -2 * LowOff(a, b) <= b < -2 * LowOff(a, b) + 2 * Unit(a, b)
  {
    HalfMultipleIs(Unit(a, b), b, 0);
  }

  lemma LowestRound(a: nat, b: nat, g: nat, p: nat, q: nat, n: int, low: int)
    requires 0 < a && a == g * p && b == g * q && low == g * n
    ensures low - a + b == g * (n + (q - p)) && g <= a
  {
    Spread(g, n, q - p);
    Spread(g, q, 0 - p);
    Negated(g, p);
    Products(g, 1, p);
  }

  /** No value overflows if and only if the sides meet the condition. */
  lemma ExactlyFits(a: nat, b: nat)
    ensures NoOverflow(a, b) <==> LineFits(a, b)
  {
    if LineFits(a, b) {
      forall k: nat | k < Max(a, b)
        ensures RoundFits(a, b, k)
      {
        FitsRound(a, b, k);
      }
      if Max(a, b) > 0 {
        HalfMultipleIs(Unit(a, b), Max(a, b), 0);
        HalfMultipleIs(Unit(a, b), Max(a, b) - 1, 0);
      }
    } else {
      if NoOverflow(a, b) {
        FitsNeeded(a, b);
      }
    }
  }

  /** 715827883 is the longest side that is safe whatever the other side is. */
  lemma SafeLength(m: nat)
    ensures m <= 715827883 <==> forall a: nat, b: nat :: Max(a, b) <= m ==> LineFits(a, b)
  {
    if m <= 715827883 {
      forall a: nat, b: nat | Max(a, b) <= m
        ensures LineFits(a, b)
      {
        ShortFits(a, b);
      }
    } else {
      WithOne(715827884);
      assert Halves(1, 715827884) == 357913942;
      assert HighOff(715827884, 1) == 357913942;
      assert !LineFits(715827884, 1);
      assert Max(715827884, 1) <= m;
    }
  }

  lemma ShortFits(a: nat, b: nat)
    requires Max(a, b) <= 715827883
    ensures LineFits(a, b)
  {
    if Max(a, b) > 0 {
      HalfMultipleIs(Unit(a, b), Max(a, b), 0);
      HalfMultipleIs(Unit(a, b), Max(a, b) - 1, 0);
      if b == 0 {
        assert Unit(a, b) == a;
        NoHalf(a);
      }
      if a == 0 {
        assert Unit(a, b) == b;
        NoHalf(b);
      }
    }
  }

  lemma NoHalf(m: nat)
    requires 0 < m
    ensures HalfMultiple(m, m) == 0 && HalfMultiple(m, m - 1) == 0
  {
  }

  /** Diagonals of any length fit, and lines along an axis up to half the range. */
  lemma StraightLines(a: nat)
    requires 0 < a < 0x8000_0000
    ensures LineFits(a, a)
    ensures LineFits(a, 0) <==> a < 0x4000_0000
    ensures LineFits(0, a) <==> a <= 0x4000_0000
  {
    SelfGcd(a);
    NoHalf(a);
  }

  lemma SelfGcd(a: nat)
    requires 0 < a
    ensures Gcd(a, a) == a && Gcd(a, 0) == a
  {
    assert a % a == 0;
  }

  // ------------------------------------------------------------ drawing

  /** Some point among the first `n` of the line is (x, y). */
  ghost predicate Drawn(x0: int, y0: int, x1: int, y1: int, n: nat, x: int, y: int) {
    exists k: nat :: k < n && LinePoint(x0, y0, x1, y1, k) == (x, y)
  }

  /** Plots a pixel when it is on the screen. */
  method Plot(fb: array2<nat>, x: int, y: int, color: nat)
    modifies fb
    ensures forall r, c :: 0 <= r < fb.Length0 && 0 <= c < fb.Length1 ==>
              fb[r, c] == if (c, r) == (x, y) then color else old(fb[r, c])
  {
    if x < 0 || y < 0 || x >= fb.Length1 || y >= fb.Length0 {
      return;
    }
    fb[y, x] := color;
  }

  lemma SidesFit(a: nat, b: nat)
    requires LineFits(a, b)
    ensures a < 0x8000_0000 && b <= 0x8000_0000 && In32(a - b)
  {
    ExactlyFits(a, b);
  }

  /** The loop state after `k` rounds. */
  predicate At(fromX: int, fromY: int, x1: int, y1: int, k: nat, x: int, y: int, err: int) {
    var a, b := Abs(x1 - fromX), Abs(y1 - fromY);
    && k <= Max(a, b)
    && (x, y) == LinePoint(fromX, fromY, x1, y1, k)
    && err == ErrAt(a, b, k)
  }

  lemma Starts(fromX: int, fromY: int, x1: int, y1: int)
    ensures At(fromX, fromY, x1, y1, 0, fromX, fromY, Abs(x1 - fromX) - Abs(y1 - fromY))
    ensures forall x, y :: !Drawn(fromX, fromY, x1, y1, 0, x, y)
  {
    var a, b := Abs(x1 - fromX), Abs(y1 - fromY);
    assert Near(a, b, 0, 0, 0);
    NearIsRounded(a, b, 0, 0, 0);
  }

  /** The loop ends exactly when the longer side is complete. */
  lemma Ends(fromX: int, fromY: int, x1: int, y1: int, k: nat, x: int, y: int, err: int)
    requires At(fromX, fromY, x1, y1, k, x, y, err)
    ensures (x, y) == LinePoint(fromX, fromY, x1, y1, k)
    ensures (x, y) == (x1, y1) <==> k == Max(Abs(x1 - fromX), Abs(y1 - fromY))
  {
    var a, b := Abs(x1 - fromX), Abs(y1 - fromY);
    StepsNear(a, b, k);
    NearIsRounded(a, b, k, Steps(a, b, k).0, Steps(a, b, k).1);
    hide Rounded, Near, Off;
  }

  /** What a round computes from the error `err` fits in 32 bits and belongs to the next point. */
  lemma Advances(a: nat, b: nat, k: nat, err: int)
    requires k < Max(a, b) && LineFits(a, b) && err == ErrAt(a, b, k)
    ensures In32(2 * err) && In32(ErrX(err, b)) && In32(ErrY(err, a, b))
    ensures Steps(a, b, k + 1).0 == (if 2 * err + b >= 0 then Steps(a, b, k).0 + 1 else Steps(a, b, k).0) <= a
    ensures Steps(a, b, k + 1).1 == (if 2 * err <= a then Steps(a, b, k).1 + 1 else Steps(a, b, k).1) <= b
    ensures ErrY(err, a, b) == ErrAt(a, b, k + 1)
  {
    var (i, j) := Steps(a, b, k);
    StepsNear(a, b, k);
    Round(a, b, k, i, j);
    NearIsRounded(a, b, k + 1, NextX(a, b, i, j), NextY(a, b, i, j));
    FitsRound(a, b, k);
    hide Rounded, Near, Off, LineFits, Unit;
  }

  /** One round of the loop: from point `k` to the next. */
  method Step(fromX: i32, fromY: i32, x1: i32, y1: i32, ghost k: nat, x0: i32, y0: i32,
              dx: i32, dy: i32, sx: i32, sy: i32, err: i32) returns (x: i32, y: i32, e: i32)
    requires dx == Abs(x1 - fromX) && dy + Abs(y1 - fromY) == 0
    requires if fromX < x1 then sx == 1 else sx == -1
    requires if fromY < y1 then sy == 1 else sy == -1
    requires k < Max(Abs(x1 - fromX), Abs(y1 - fromY)) && LineFits(Abs(x1 - fromX), Abs(y1 - fromY))
    requires At(fromX, fromY, x1, y1, k, x0, y0, err)
    ensures At(fromX, fromY, x1, y1, k + 1, x, y, e)
  {
    hide LineFits, Unit, HighOff, LowOff, Rounded, Off;
    x, y, e := x0, y0, err;
    Advances(dx, Abs(y1 - fromY), k, err);
    var e2: i32 := 2 * e;
    if e2 >= dy {
      e := e + dy;
      x := x + sx;
    }
    if e2 <= dx {
      e := e + dx;
      y := y + sy;
    }
  }

  /** Draws exactly the pixels of the line that are on the screen, one plot per point, without overflow. */
  method DrawLine(fb: array2<nat>, fromX: i32, fromY: i32, x1: i32, y1: i32, color: nat) returns (plots: nat)
    requires LineFits(Abs(x1 - fromX), Abs(y1 - fromY))
    modifies fb
    ensures plots == Max(Abs(x1 - fromX), Abs(y1 - fromY)) + 1
    ensures forall r, c :: 0 <= r < fb.Length0 && 0 <= c < fb.Length1 ==>
              fb[r, c] == if Drawn(fromX, fromY, x1, y1, plots, c, r) then color else old(fb[r, c])
  {
    hide LineFits, Unit, HighOff, LowOff, At, Drawn, Off, Rounded, LinePoint;
    SidesFit(Abs(x1 - fromX), Abs(y1 - fromY));
    var x0: i32, y0: i32 := fromX, fromY;
    var dx: i32 := if x1 > x0 then x1 - x0 else x0 - x1;
    var dy: i32 := if y1 > y0 then y0 - y1 else y1 - y0;
    var sx: i32 := if x0 < x1 then 1 else -1;
    var sy: i32 := if y0 < y1 then 1 else -1;
    var err: i32 := dx + dy;
    plots := 0;
    Starts(fromX, fromY, x1, y1);
    while true
      invariant At(fromX, fromY, x1, y1, plots, x0, y0, err) && plots <= Max(dx, Abs(y1 - fromY))
      invariant forall r, c :: 0 <= r < fb.Length0 && 0 <= c < fb.Length1 ==>
                  fb[r, c] == if Drawn(fromX, fromY, x1, y1, plots, c, r) then color else old(fb[r, c])
      decreases Max(dx, Abs(y1 - fromY)) - plots
    {
      Ends(fromX, fromY, x1, y1, plots, x0, y0, err);
      DrawnNext(fromX, fromY, x1, y1, plots);
      Plot(fb, x0, y0, color);
      plots := plots + 1;
      if x0 == x1 && y0 == y1 {
        break;
      }
      x0, y0, err := Step(fromX, fromY, x1, y1, plots - 1, x0, y0, dx, dy, sx, sy, err);
    }
  }

  lemma DrawnNext(x0: int, y0: int, x1: int, y1: int, n: nat)
    ensures forall x, y :: Drawn(x0, y0, x1, y1, n + 1, x, y)
              <==> Drawn(x0, y0, x1, y1, n, x, y) || LinePoint(x0, y0, x1, y1, n) == (x, y)
  {
  }
}
