/** Python's `float`, as far as the buyer needs it: IEEE 754 binary64
    values that are not negative, with round-to-nearest, ties-to-even.

    A value is held as a whole number of units of 2^-53. Every value the
    buyer computes is an integer times one of its constants, or a sum or a
    half of such values, and all of them are multiples of that unit, so the
    representation is exact. A double has a 53-bit significand: rounding a
    unit count keeps its 53 leading bits. The exponent range is not
    bounded here: there is no overflow to infinity. */
module Binary64 {
  /** 2^53, the number of units in 1.0. */
  const Unit: nat := 0x20_0000_0000_0000

  function Pow2(n: nat): (r: nat)
    ensures r >= 1
  {
    if n == 0 then 1 else 2 * Pow2(n - 1)
  }

  lemma {:induction false} Pow2Add(a: nat, b: nat)
    ensures Pow2(a + b) == Pow2(a) * Pow2(b)
    decreases a
  {
    if a > 0 {
      Pow2Add(a - 1, b);
    }
  }

  lemma Pow2Split(a: nat, b: nat, c: nat)
    requires a + b == c
    ensures Pow2(c) == Pow2(b) * Pow2(a)
  {
    Pow2Add(a, b);
  }

  lemma UnitIsPow2()
    ensures Pow2(53) == Unit
  {
    assert Pow2(2) == 4;
    assert Pow2(4) == 16 by {
      assert Pow2(3) == 8;
    }
    Pow2Add(4, 4);
    assert Pow2(8) == 0x100;
    Pow2Add(8, 8);
    assert Pow2(16) == 0x1_0000;
    Pow2Add(16, 16);
    assert Pow2(32) == 0x1_0000_0000;
    Pow2Add(32, 16);
    assert Pow2(48) == 0x1_0000_0000_0000;
    Pow2Add(48, 4);
    assert Pow2(52) == 0x10_0000_0000_0000;
    assert Pow2(53) == 2 * Pow2(52);
  }

  lemma SmallPowers()
    ensures Pow2(6) == 64 && Pow2(7) == 128 && Pow2(10) == 1024 && Pow2(11) == 2048
  {
    assert Pow2(2) == 4;
    assert Pow2(3) == 8;
    Pow2Add(3, 3);
    Pow2Add(3, 4);
    Pow2Add(7, 3);
    Pow2Add(7, 4);
  }

  /** 2^106, the bound below which the grid divides a unit. */
  lemma SquareIsPow2()
    ensures Pow2(106) == Unit * Unit
  {
    UnitIsPow2();
    Pow2Add(53, 53);
  }

  /** Number of binary digits of n. */
  function BitLength(n: nat): nat {
    if n == 0 then 0 else 1 + BitLength(n / 2)
  }

  lemma {:induction false} BitLengthBounds(n: nat)
    requires n > 0
    ensures BitLength(n) >= 1
    ensures Pow2(BitLength(n) - 1) <= n < Pow2(BitLength(n))
  {
    if n > 1 {
      BitLengthBounds(n / 2);
    }
  }

  lemma {:induction false} BitLengthBelow(n: nat, k: nat)
    requires n < Pow2(k)
    ensures BitLength(n) <= k
    decreases k
  {
    if n > 0 {
      BitLengthBelow(n / 2, k - 1);
    }
  }

  lemma BitLengthExact(n: nat, k: nat)
    requires k >= 1 && Pow2(k - 1) <= n < Pow2(k)
    ensures BitLength(n) == k
  {
    BitLengthBelow(n, k);
    BitLengthBounds(n);
    if BitLength(n) < k {
      Pow2Monotone(BitLength(n), k - 1);
    }
  }

  /** How many low bits rounding to a 53-bit significand drops. */
  function Dropped(n: nat): nat {
    if BitLength(n) <= 53 then 0 else BitLength(n) - 53
  }

  /** n rounded to 53 significant bits, to nearest, ties to even: the
      quotient q and remainder r of n by 2^s, s the dropped bits, round up
      when r is more than half of 2^s, or exactly half and q odd. */
  function Round(n: nat): nat {
    var s := Dropped(n);
    if s == 0 then n
    else
      var q := Shift(n, s);
      var r := n - Scale(q, s);
      var half := Scale(1, s - 1);
      if r > half || (r == half && q % 2 == 1) then Scale(q + 1, s) else Scale(q, s)
  }

  /** n / 2^s, one bit at a time. */
  function Shift(n: nat, s: nat): nat {
    if s == 0 then n else Shift(n / 2, s - 1)
  }

  /** q * 2^s, one bit at a time. */
  function Scale(q: nat, s: nat): nat {
    if s == 0 then q else 2 * Scale(q, s - 1)
  }

  lemma {:induction false} ScaleIs(q: nat, s: nat)
    ensures Scale(q, s) == q * Pow2(s)
  {
    if s > 0 {
      ScaleIs(q, s - 1);
      assert q * Pow2(s) == 2 * (q * Pow2(s - 1));
    }
  }

  lemma {:induction false} ShiftIs(n: nat, s: nat)
    ensures Shift(n, s) == n / Pow2(s)
  {
    if s > 0 {
      ShiftIs(n / 2, s - 1);
      HalveThenDivide(n, Pow2(s - 1));
    }
  }

  /** Halving, then dividing by m, divides by 2m. */
  lemma HalveThenDivide(n: nat, m: nat)
    requires m > 0
    ensures n / 2 / m == n / (2 * m)
  {
    var a, b := n / 2, n % 2;
    var c, d := a / m, a % m;
    assert n == (2 * m) * c + (2 * d + b);
    DivModOf(n, 2 * m, c, 2 * d + b);
  }

  /** Rounding to a multiple of w in terms of the quotient q and remainder
      r: up when r is more than half of w, or exactly half and q odd. */
  function NearestOf(q: nat, r: nat, w: nat): nat {
    if 2 * r > w || (2 * r == w && q % 2 == 1) then (q + 1) * w else q * w
  }

  /** Round in terms of the quotient q and remainder r of n by the grid
      step w = 2^s. */
  lemma RoundIs(n: nat, s: nat, w: nat, q: nat, r: nat)
    requires s == Dropped(n) && s > 0 && w == Pow2(s)
    requires n == q * w + r && r < w
    ensures Round(n) == NearestOf(q, r, w)
  {
    ShiftIs(n, s);
    DivModOf(n, w, q, r);
    assert Shift(n, s) == q;
    ScaleIs(q, s);
    ScaleIs(q + 1, s);
    ScaleIs(1, s - 1);
    assert Scale(1, s - 1) == Pow2(s - 1);
    NearestParts(n, q, r, w, Pow2(s - 1), Scale(q, s), Scale(q + 1, s));
  }

  /** The comparison in Round, restated on the remainder. */
  lemma NearestParts(n: nat, q: nat, r: nat, w: nat, half: nat, a: nat, b: nat)
    requires n == a + r && a == q * w && b == (q + 1) * w && w == 2 * half
    ensures n - a == r
    ensures (if n - a > half || (n - a == half && q % 2 == 1) then b else a) == NearestOf(q, r, w)
  {
  }

  lemma MulSucc(q: nat, w: nat)
    ensures (q + 1) * w == q * w + w
  {
  }

  /** The rounded value is a multiple of w within half of w of n. */
  lemma NearestOfGrid(n: nat, q: nat, r: nat, w: nat)
    requires n == q * w + r && r < w && w % 2 == 0
    ensures NearestOf(q, r, w) % w == 0
    ensures 2 * (NearestOf(q, r, w) - n) <= w
    ensures 2 * (n - NearestOf(q, r, w)) <= w
  {
    MulSucc(q, w);
    MultipleMod(q, w);
    MultipleMod(q + 1, w);
  }

  /** `float(n)` of a non-negative integer, in units. */
  function FromInt(n: nat): nat {
    Round(n) * Unit
  }

  /** `n * c`: an integer times a double constant `c` given in units. The
      integer is converted first; the product is rounded once. */
  function Times(n: nat, c: nat): nat {
    Round(Round(n) * c)
  }

  /** `n + x`: an integer plus a double, rounded once. */
  function Plus(n: nat, x: nat): nat {
    Round(FromInt(n) + x)
  }

  /** `n / 2`: true division of an integer by 2, correctly rounded. */
  function IntHalf(n: nat): nat {
    Round(n * (Unit / 2))
  }

  /** `x / 2` for a double: exact, since its last unit is even. */
  function Half(x: nat): nat
    requires x % 2 == 0
  {
    x / 2
  }

  /** `int(x)` for x >= 0: truncation toward zero. */
  function Trunc(x: nat): nat {
    x / Unit
  }

  lemma {:induction false} Pow2Monotone(a: nat, b: nat)
    requires a <= b
    ensures Pow2(a) <= Pow2(b)
    decreases b
  {
    if a < b {
      Pow2Monotone(a, b - 1);
    }
  }

  lemma MulMonotone(a: int, b: int, c: nat)
    requires a <= b
    ensures a * c <= b * c
  {
  }

  /** Quotient and remainder are unique. */
  lemma DivModOf(n: nat, w: nat, q: nat, r: nat)
    requires w > 0 && r < w && n == q * w + r
    ensures n / w == q && n % w == r
  {
    var q', r' := n / w, n % w;
    if q' > q {
      MulMonotone(q + 1, q', w);
    } else if q' < q {
      MulMonotone(q' + 1, q, w);
    }
  }

  lemma MultipleMod(k: nat, w: nat)
    requires w > 0
    ensures (k * w) % w == 0
  {
    DivModOf(k * w, w, k, 0);
  }

  /** Two different multiples of w are at least w apart. */
  lemma MultiplesSpaced(a: nat, b: nat, w: nat)
    requires w > 0 && a % w == 0 && b % w == 0 && a < b
    ensures a + w <= b
  {
    var i, j := a / w, b / w;
    assert a == i * w && b == j * w;
    if i >= j {
      MulMonotone(j, i, w);
    }
    MulMonotone(i + 1, j, w);
    assert (i + 1) * w == i * w + w;
  }

  /** Where a value that needs rounding sits between powers of two. */
  lemma DroppedBounds(n: nat)
    requires Dropped(n) > 0
    ensures Pow2(Dropped(n)) % 2 == 0
    ensures n < Unit * Pow2(Dropped(n)) <= 2 * n
  {
    var s := Dropped(n);
    BitLengthBounds(n);
    assert BitLength(n) == s + 53;
    PowAboveUnit(s);
  }

  /** 2^(53 + s) is 2^s units, twice 2^(52 + s), and 2^s is even. */
  lemma PowAboveUnit(s: nat)
    requires s > 0
    ensures Pow2(s + 53) == Unit * Pow2(s) == 2 * Pow2(s + 52)
    ensures Pow2(s) % 2 == 0
  {
    Pow2Add(53, s);
    UnitIsPow2();
    assert Pow2(s) == 2 * Pow2(s - 1);
    MultipleMod(Pow2(s - 1), 2);
  }

  /** Values of 1.0 and above lose at least one bit. */
  lemma DroppedFromOne(n: nat)
    requires n >= Unit
    ensures Dropped(n) > 0
  {
    BitLengthBounds(n);
    if BitLength(n) <= 53 {
      Pow2Monotone(BitLength(n), 53);
      UnitIsPow2();
    }
  }

  /** Rounding lands on the grid of the last kept bit, at most half a step
      away. */
  lemma RoundOnGrid(n: nat)
    ensures Round(n) % Pow2(Dropped(n)) == 0
    ensures 2 * (Round(n) - n) <= Pow2(Dropped(n))
    ensures 2 * (n - Round(n)) <= Pow2(Dropped(n))
  {
    var s := Dropped(n);
    if s > 0 {
      var w := Pow2(s);
      DroppedBounds(n);
      RoundIs(n, s, w, n / w, n % w);
      NearestOfGrid(n, n / w, n % w, w);
    }
  }

  /** Rounding moves a value by at most 2^-53 of itself. */
  lemma RoundError(n: nat)
    ensures Unit * (Round(n) - n) <= n
    ensures Unit * (n - Round(n)) <= n
  {
    RoundOnGrid(n);
    if Dropped(n) > 0 {
      DroppedBounds(n);
    }
  }

  /** Below 2^53 whole units the grid divides one unit. */
  lemma GridDividesUnit(n: nat)
    requires n < Unit * Unit
    ensures Unit == (Unit / Pow2(Dropped(n))) * Pow2(Dropped(n))
  {
    SquareIsPow2();
    BitLengthBelow(n, 106);
    PowDividesUnit(Dropped(n));
  }

  lemma PowDividesUnit(s: nat)
    requires s <= 53
    ensures Unit == (Unit / Pow2(s)) * Pow2(s)
  {
    UnitIsPow2();
    Pow2Split(s, 53 - s, 53);
    DivModOf(Unit, Pow2(s), Pow2(53 - s), 0);
  }

  /** Whole numbers are on the grid of any value below 2^53 whole units. */
  lemma WholeOnGrid(n: nat, v: nat)
    requires n < Unit * Unit
    ensures (v * Unit) % Pow2(Dropped(n)) == 0
  {
    var w := Pow2(Dropped(n));
    GridDividesUnit(n);
    var t := Unit / w;
    assert v * Unit == (v * t) * w;
    MultipleMod(v * t, w);
  }

  /** Fewer than 54 bits need no rounding. */
  lemma RoundSmall(n: nat)
    requires n < Unit
    ensures Round(n) == n
  {
    UnitIsPow2();
    BitLengthBelow(n, 53);
  }

  /** A positive value does not round to zero. */
  lemma RoundPositive(n: nat)
    requires n > 0
    ensures Round(n) > 0
  {
    RoundError(n);
  }

  /** Rounding is monotone around a grid point. */
  lemma RoundAboveMultiple(n: nat, m: nat)
    requires m <= n && m % Pow2(Dropped(n)) == 0
    ensures m <= Round(n)
  {
    RoundOnGrid(n);
    if Round(n) < m {
      MultiplesSpaced(Round(n), m, Pow2(Dropped(n)));
    }
  }

  lemma RoundBelowMultiple(n: nat, m: nat)
    requires n <= m && m % Pow2(Dropped(n)) == 0
    ensures Round(n) <= m
  {
    RoundOnGrid(n);
    if m < Round(n) {
      MultiplesSpaced(m, Round(n), Pow2(Dropped(n)));
    }
  }

  /** A whole number converts exactly. */
  lemma RoundWhole(v: nat)
    requires v < Unit
    ensures Round(v * Unit) == v * Unit
  {
    WholeOnGrid(v * Unit, v);
    RoundAboveMultiple(v * Unit, v * Unit);
    RoundBelowMultiple(v * Unit, v * Unit);
  }

  /** A value at least v whole units, and far enough below v + 1 that its
      rounding error cannot reach v + 1, rounds to a value in [v, v + 1). */
  lemma RoundWithin(n: nat, v: nat)
    requires v * Unit <= n < Unit * Unit
    requires Unit * ((v + 1) * Unit - n) > n
    ensures v * Unit <= Round(n) < (v + 1) * Unit
  {
    WholeOnGrid(n, v);
    RoundAboveMultiple(n, v * Unit);
    RoundError(n);
  }

  /** A value in [v, v + 1) truncates to v and compares with whole
      numbers as v does. */
  lemma Between(t: nat, v: nat, p: nat)
    requires v * Unit <= t < (v + 1) * Unit
    ensures Trunc(t) == v
    ensures p * Unit <= t <==> p <= v
    ensures t <= p * Unit <==> p > v || (p == v && t == v * Unit)
  {
    if p < v {
      MulMonotone(p + 1, v, Unit);
    } else if p > v {
      MulMonotone(v + 1, p, Unit);
    }
  }

  /** `int(m / 2)` for an integer m below 2^53 is m halved, rounded down. */
  lemma IntHalfTrunc(m: nat)
    requires m < Unit
    ensures Trunc(IntHalf(m)) == m / 2
  {
    var x := m * (Unit / 2);
    assert m / 2 * Unit <= x < (m / 2 + 1) * Unit;
    RoundWithin(x, m / 2);
    Between(IntHalf(m), m / 2, 0);
  }

  /** A value of at least 1.0 just below v whole units, by no more than
      half its rounding step, rounds up to exactly v. */
  lemma RoundSnap(n: nat, v: nat)
    requires Unit <= n < v * Unit && n < Unit * Unit
    requires 2 * Unit * (v * Unit - n) <= n
    ensures Round(n) == v * Unit
  {
    var w := Pow2(Dropped(n));
    var m := v * Unit;
    DroppedFromOne(n);
    DroppedBounds(n);
    WholeOnGrid(n, v);
    RoundOnGrid(n);
    RoundBelowMultiple(n, m);
    HalfStepBelow(m - n, w, n);
    var x := Round(n);
    if x < m {
      MultiplesSpaced(x, m, w);
    }
  }

  /** A gap d with 2U·d <= n < U·w is less than half of w. */
  lemma HalfStepBelow(d: nat, w: nat, n: nat)
    requires 2 * Unit * d <= n < Unit * w
    ensures 2 * d < w
  {
    if 2 * d >= w {
      MulMonotone(w, 2 * d, Unit);
    }
  }

  /** A value with 53 + s binary digits, less than half a step of 2^s from
      a multiple m of 2^s, rounds to m. */
  lemma RoundToNearest(n: nat, m: nat, s: nat)
    requires Pow2(s + 52) <= n < Pow2(s + 53) && m % Pow2(s) == 0
    requires 2 * (n - m) < Pow2(s) && 2 * (m - n) < Pow2(s)
    ensures Round(n) == m
  {
    BitLengthExact(n, s + 53);
    RoundOnGrid(n);
    if Round(n) < m {
      MultiplesSpaced(Round(n), m, Pow2(s));
    } else if m < Round(n) {
      MultiplesSpaced(m, Round(n), Pow2(s));
    }
  }

  /** At or above 1.0 a rounded value has an even unit count, so halving
      it is exact. */
  lemma RoundEven(n: nat)
    requires n >= Unit
    ensures Round(n) % 2 == 0
  {
    DroppedFromOne(n);
    DroppedBounds(n);
    RoundOnGrid(n);
    EvenMultiple(Round(n), Pow2(Dropped(n)));
  }

  lemma EvenMultiple(x: nat, w: nat)
    requires w > 0 && x % w == 0 && w % 2 == 0
    ensures x % 2 == 0
  {
    var k, h := x / w, w / 2;
    assert x == (k * h) * 2;
    MultipleMod(k * h, 2);
  }
}
