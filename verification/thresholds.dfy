/** The price thresholds of `negotiate`, computed as the source computes
    them: an integer budget or price times a float literal, rounded to a
    double, then compared with an integer or truncated by `int()`.

    Each threshold comes with the exact rational reading of its literal
    (0.85 as 85/100, and so on) and a lemma saying how far the two agree:
    for budgets below 2^40 every threshold but the 110% ceiling agrees with
    its rational reading, and the ceiling disagrees only when 110% of the
    budget is a whole number. */
module Thresholds {
  import opened Binary64

  /** The doubles nearest the source's literals, in units of 2^-53, and
      how each differs from the decimal it is written as. */
  const Point85: nat := 7656119366529843      // 20 * Point85 == 17 * Unit - 4
  const Point93: nat := 8376695306909123      // 100 * Point93 == 93 * Unit + 44
  const Point95: nat := 8556839292003942      // 20 * Point95 == 19 * Unit - 8
  const Point98: nat := 8827055269646172      // 50 * Point98 == 49 * Unit - 8
  const OnePointOne: nat := 9907919180215092  // 10 * OnePointOne == 11 * Unit + 8
  const OnePointTwo: nat := 10808639105689190 // 5 * OnePointTwo == 6 * Unit - 2

  /** Budgets below this bound (2^40) make every product exact enough for
      the rational readings to hold. */
  const PriceLimit: nat := 0x100_0000_0000

  function Max(a: int, b: int): int {
    if a >= b then a else b
  }

  function Min(a: int, b: int): int {
    if a <= b then a else b
  }

  /** `offer_price <= budget * 0.85`: a great deal. */
  predicate IsGreatDeal(price: nat, budget: nat) {
    price * Unit <= Times(budget, Point85)
  }

  /** `max(int(offer_price * 0.93), int(budget * 0.95))`: the counter to an
      offer between 85% of the budget and the budget. */
  function MidRangeCounter(price: nat, budget: nat): nat {
    Max(Trunc(Times(price, Point93)), Trunc(Times(budget, Point95)))
  }

  /** `budget * 1.1 >= offer_price`: an urgent offer close enough to take
      seriously. */
  predicate WithinUrgentReach(price: nat, budget: nat) {
    price * Unit <= Times(budget, OnePointOne)
  }

  /** `int(budget * 0.98)`: the counter to an urgent offer above budget. */
  function UrgentCounter(budget: nat): nat {
    Trunc(Times(budget, Point98))
  }

  /** `int((budget + min(offer_price, budget * 1.2)) / 2)`. `min` keeps the
      integer offer unless the float cap is smaller; an integer sum is
      divided by true division, a float sum is halved exactly. */
  function StandardCounter(price: nat, budget: nat): nat
    requires budget > 0
  {
    var cap := Times(budget, OnePointTwo);
    if cap < price * Unit then
      RoundPositive(budget);
      RoundEven(FromInt(budget) + cap);
      Trunc(Half(Plus(budget, cap)))
    else
      Trunc(IntHalf(budget + price))
  }

  /** `counter >= budget * 1.1`: the counter reaches 110% of the budget. */
  predicate ReachesCeiling(counter: nat, budget: nat) {
    Times(budget, OnePointOne) <= counter * Unit
  }

  /** The thresholds read as exact rationals. */
  predicate ExactGreatDeal(price: int, budget: int) {
    100 * price <= 85 * budget
  }

  function ExactMidRangeCounter(price: nat, budget: nat): int {
    Max(93 * price / 100, 95 * budget / 100)
  }

  predicate ExactUrgentReach(price: int, budget: int) {
    10 * price <= 11 * budget
  }

  function ExactUrgentCounter(budget: nat): int {
    98 * budget / 100
  }

  function ExactStandardCounter(price: nat, budget: nat): int {
    (10 * budget + Min(10 * price, 12 * budget)) / 20
  }

  predicate ExactCeiling(counter: int, budget: int) {
    10 * counter >= 11 * budget
  }

  /** `budget * 0.85` is never more than the budget, so a great deal is
      below budget, however large the budget. */
  lemma GreatDealBelowBudget(price: nat, budget: nat)
    requires price > 0 && IsGreatDeal(price, budget)
    ensures price < budget
  {
    RoundError(budget);
    RoundError(Round(budget) * Point85);
  }

  /** Scaling a positive integer by a literal of at most 0.98 lands below
      it, so `int(n * k)` is less than n, however large n is. */
  lemma ScaledDown(n: nat, k: nat)
    requires n > 0 && k <= Point98
    ensures Times(n, k) < n * Unit
    ensures Trunc(Times(n, k)) < n
  {
    var r := Round(n);
    RoundError(n);
    ScaledProduct(r, n, k);
    RoundError(r * k);
    ScaledDownChain(n, r * k, Round(r * k));
  }

  lemma ScaledProduct(r: nat, n: nat, k: nat)
    requires Unit * r <= (Unit + 1) * n && k <= Point98
    ensures Unit * (r * k) <= (Unit + 1) * n * Point98
  {
    MulMonotone(Unit * r, (Unit + 1) * n, k);
    MulMonotone(k, Point98, (Unit + 1) * n);
  }

  lemma ScaledDownChain(n: nat, y: nat, z: nat)
    requires n > 0
    requires Unit * y <= (Unit + 1) * n * Point98
    requires Unit * z <= (Unit + 1) * y
    ensures z < n * Unit
  {
    assert Unit * Unit * z <= (Unit + 1) * (Unit + 1) * Point98 * n;
  }

  /** `budget * 1.1` is more than the budget, however large the budget. */
  lemma CeilingAboveBudget(budget: nat)
    requires budget > 0
    ensures Times(budget, OnePointOne) > budget * Unit
  {
    var y := Round(budget) * OnePointOne;
    RoundError(budget);
    RoundError(y);
  }

  /** Where each product lands, for integers below the limit: between the
      whole numbers around its rational value. A product whose rational
      value is whole and that the literal's error puts just below it
      rounds up onto it. */
  lemma Point85Bracket(n: nat)
    requires 0 < n < PriceLimit
    ensures var v := 85 * n / 100; v * Unit <= Times(n, Point85) < (v + 1) * Unit
  {
    RoundSmall(n);
    var x := n * Point85;
    var v := 17 * n / 20;
    assert 85 * n / 100 == v;
    assert 20 * x == 17 * n * Unit - 4 * n;
    assert x < PriceLimit * Unit;
    if (17 * n) % 20 == 0 {
      assert 20 * v == 17 * n;
      assert 5 * (v * Unit - x) == n;
      RoundSnap(x, v);
    } else {
      assert 20 * v < 17 * n < 20 * v + 20;
      assert 20 * v * Unit + Unit - 4 * n <= 20 * x;
      RoundWithin(x, v);
    }
  }

  lemma Point93Bracket(n: nat)
    requires 0 < n < PriceLimit
    ensures var v := 93 * n / 100; v * Unit <= Times(n, Point93) < (v + 1) * Unit
  {
    RoundSmall(n);
    var x := n * Point93;
    var v := 93 * n / 100;
    assert 100 * x == 93 * n * Unit + 44 * n;
    assert x < PriceLimit * Unit;
    assert 100 * v <= 93 * n < 100 * v + 100;
    assert 100 * ((v + 1) * Unit - x) >= Unit - 44 * n;
    RoundWithin(x, v);
  }

  lemma Point95Bracket(n: nat)
    requires 0 < n < PriceLimit
    ensures var v := 95 * n / 100; v * Unit <= Times(n, Point95) < (v + 1) * Unit
  {
    RoundSmall(n);
    var x := n * Point95;
    var v := 19 * n / 20;
    assert 95 * n / 100 == v;
    assert 20 * x == 19 * n * Unit - 8 * n;
    assert x < PriceLimit * Unit;
    if (19 * n) % 20 == 0 {
      assert 20 * v == 19 * n;
      assert 5 * (v * Unit - x) == 2 * n;
      RoundSnap(x, v);
    } else {
      assert 20 * v < 19 * n < 20 * v + 20;
      assert 20 * v * Unit + Unit - 8 * n <= 20 * x;
      RoundWithin(x, v);
    }
  }

  lemma Point98Bracket(n: nat)
    requires 0 < n < PriceLimit
    ensures var v := 98 * n / 100; v * Unit <= Times(n, Point98) < (v + 1) * Unit
  {
    RoundSmall(n);
    var x := n * Point98;
    var v := 49 * n / 50;
    assert 98 * n / 100 == v;
    assert 50 * x == 49 * n * Unit - 8 * n;
    assert x < PriceLimit * Unit;
    if (49 * n) % 50 == 0 {
      assert 50 * v == 49 * n;
      assert 25 * (v * Unit - x) == 4 * n;
      RoundSnap(x, v);
    } else {
      assert 50 * v < 49 * n < 50 * v + 50;
      assert 50 * v * Unit + Unit - 8 * n <= 50 * x;
      RoundWithin(x, v);
    }
  }

  /** `n * 1.1` lands strictly above its whole part unless 11n/10 is
      whole, when it may land on it or just above it. */
  lemma OnePointOneBracket(n: nat)
    requires 0 < n < PriceLimit
    ensures var v := 11 * n / 10; v * Unit <= Times(n, OnePointOne) < (v + 1) * Unit
    ensures (11 * n) % 10 != 0 ==> Times(n, OnePointOne) > 11 * n / 10 * Unit
  {
    RoundSmall(n);
    var x := n * OnePointOne;
    var v := 11 * n / 10;
    assert 10 * x == 11 * n * Unit + 8 * n;
    assert x < 2 * PriceLimit * Unit;
    assert 10 * v <= 11 * n < 10 * v + 10;
    assert 10 * ((v + 1) * Unit - x) >= Unit - 8 * n;
    RoundWithin(x, v);
    RoundError(x);
    if (11 * n) % 10 != 0 {
      assert 10 * (x - v * Unit) >= Unit;
    }
  }

  /** `n * 1.2` lands on 6n/5 when that is whole, and otherwise strictly
      between its whole neighbours, within 2n units of 6n/5. */
  lemma OnePointTwoBracket(n: nat)
    requires 0 < n < PriceLimit
    ensures var v := 12 * n / 10; v * Unit <= Times(n, OnePointTwo) < (v + 1) * Unit
    ensures (6 * n) % 5 == 0 ==> Times(n, OnePointTwo) == 6 * n / 5 * Unit
    ensures 5 * Times(n, OnePointTwo) <= 6 * n * Unit + 10 * n
    ensures 6 * n * Unit <= 5 * Times(n, OnePointTwo) + 10 * n
  {
    RoundSmall(n);
    var x := n * OnePointTwo;
    var v := 6 * n / 5;
    assert 12 * n / 10 == v;
    assert 5 * x == 6 * n * Unit - 2 * n;
    assert x < 2 * PriceLimit * Unit;
    RoundError(x);
    if (6 * n) % 5 == 0 {
      assert 5 * v == 6 * n;
      assert 5 * (v * Unit - x) == 2 * n;
      RoundSnap(x, v);
    } else {
      assert 5 * v < 6 * n < 5 * v + 5;
      assert 5 * v * Unit + Unit - 2 * n <= 5 * x;
      RoundWithin(x, v);
    }
  }

  /** Below the limit the float test of a great deal is the rational one:
      an exact 85% rounds up onto the whole number it stands for. */
  lemma GreatDealAgrees(price: nat, budget: nat)
    requires 0 < budget < PriceLimit
    ensures IsGreatDeal(price, budget) <==> ExactGreatDeal(price, budget)
  {
    Point85Bracket(budget);
    Between(Times(budget, Point85), 85 * budget / 100, price);
  }

  lemma MidRangeCounterAgrees(price: nat, budget: nat)
    requires 0 < price <= budget < PriceLimit
    ensures MidRangeCounter(price, budget) == ExactMidRangeCounter(price, budget)
  {
    Point93Bracket(price);
    Between(Times(price, Point93), 93 * price / 100, 0);
    Point95Bracket(budget);
    Between(Times(budget, Point95), 95 * budget / 100, 0);
  }

  lemma UrgentReachAgrees(price: nat, budget: nat)
    requires 0 < budget < PriceLimit
    ensures WithinUrgentReach(price, budget) <==> ExactUrgentReach(price, budget)
  {
    OnePointOneBracket(budget);
    Between(Times(budget, OnePointOne), 11 * budget / 10, price);
  }

  lemma UrgentCounterAgrees(budget: nat)
    requires 0 < budget < PriceLimit
    ensures UrgentCounter(budget) == ExactUrgentCounter(budget)
  {
    Point98Bracket(budget);
    Between(Times(budget, Point98), 98 * budget / 100, 0);
  }

  /** Below the limit the capped midpoint is the rational one. When 6/5
      of the budget is whole, `budget * 1.2` is exact and so is the sum;
      otherwise neither rounding comes near a whole number. */
  lemma StandardCounterAgrees(price: nat, budget: nat)
    requires 0 < budget < PriceLimit
    ensures StandardCounter(price, budget) == ExactStandardCounter(price, budget)
  {
    var cap := Times(budget, OnePointTwo);
    OnePointTwoBracket(budget);
    Between(cap, 12 * budget / 10, price);
    if cap < price * Unit {
      CappedMidpoint(budget);
      assert 10 * price > 12 * budget;
      assert ExactStandardCounter(price, budget) == 22 * budget / 20;
    } else {
      assert 10 * price <= 12 * budget;
      IntHalfTrunc(budget + price);
      assert ExactStandardCounter(price, budget) == (10 * budget + 10 * price) / 20;
    }
  }

  /** `int((budget + budget * 1.2) / 2)` is 11/10 of the budget, rounded
      down. */
  lemma CappedMidpoint(budget: nat)
    requires 0 < budget < PriceLimit
    ensures var cap := Times(budget, OnePointTwo);
      FromInt(budget) + cap >= Unit &&
      (Plus(budget, cap) / 2) / Unit == 11 * budget / 10
  {
    OnePointTwoBracket(budget);
    RoundSmall(budget);
    assert FromInt(budget) == budget * Unit;
    DivModOf(6 * budget, 5, 6 * (budget / 5) + budget % 5, budget % 5);
    if budget % 5 == 0 {
      CappedMidpointWhole(budget);
    } else {
      CappedMidpointFraction(budget);
    }
  }

  lemma CappedMidpointWhole(budget: nat)
    requires 0 < budget < PriceLimit && budget % 5 == 0
    requires Times(budget, OnePointTwo) == 6 * budget / 5 * Unit
    ensures Round(budget * Unit + Times(budget, OnePointTwo)) / 2 / Unit == 11 * budget / 10
  {
    var m := budget + 6 * budget / 5;
    assert budget * Unit + Times(budget, OnePointTwo) == m * Unit;
    RoundWhole(m);
    assert 2 * (11 * budget / 10) == m || 2 * (11 * budget / 10) + 1 == m;
  }

  lemma CappedMidpointFraction(budget: nat)
    requires 0 < budget < PriceLimit && budget % 5 != 0
    requires 5 * Times(budget, OnePointTwo) <= 6 * budget * Unit + 10 * budget
    requires 6 * budget * Unit <= 5 * Times(budget, OnePointTwo) + 10 * budget
    ensures Round(budget * Unit + Times(budget, OnePointTwo)) / 2 / Unit == 11 * budget / 10
  {
    var s := budget * Unit + Times(budget, OnePointTwo);
    var t := 11 * budget / 10;
    RoundError(s);
    var a, q := budget / 10, budget % 10;
    DivModOf(11 * budget, 10, 11 * a + q, q);
    assert q != 0 by {
      DivModOf(budget, 5, 2 * a + q / 5, q % 5);
    }
    MidpointArith(budget, Times(budget, OnePointTwo), s, Round(s), t);
  }

  /** The arithmetic of the capped midpoint when 11/10 of the budget is not
      whole: both roundings together move the sum by less than a tenth. */
  lemma MidpointArith(budget: nat, cap: nat, s: nat, z: nat, t: nat)
    requires budget < PriceLimit
    requires 5 * cap <= 6 * budget * Unit + 10 * budget
    requires 6 * budget * Unit <= 5 * cap + 10 * budget
    requires s == budget * Unit + cap
    requires Unit * (z - s) <= s && Unit * (s - z) <= s
    requires 10 * t < 11 * budget < 10 * t + 10
    ensures z / 2 / Unit == t
  {
    assert 10 * s <= 22 * budget * Unit + 20 * budget;
    assert 22 * budget * Unit <= 10 * s + 20 * budget;
    assert z <= s + 3 * budget && s <= z + 3 * budget;
    assert 2 * t * Unit <= z < 2 * (t + 1) * Unit;
  }

  /** Below the limit, a counter reaches `budget * 1.1` exactly when it is
      above 110% of the budget, or equal to it with the product rounded
      onto the whole number. */
  lemma CeilingExactly(counter: nat, budget: nat)
    requires 0 < budget < PriceLimit
    ensures ReachesCeiling(counter, budget) <==>
      10 * counter > 11 * budget ||
      (10 * counter == 11 * budget && Times(budget, OnePointOne) == counter * Unit)
  {
    OnePointOneBracket(budget);
    Between(Times(budget, OnePointOne), 11 * budget / 10, counter);
  }

  /** `100 * 1.1` is 110.00000000000001: a counter of 110 on a budget of
      100 stays below the ceiling although it is exactly 110%. */
  lemma CeilingAtHundred()
    ensures Times(100, OnePointOne) == 110 * Unit + 128
    ensures !ReachesCeiling(110, 100) && ExactCeiling(110, 100)
  {
    RoundSmall(100);
    UnitIsPow2();
    SmallPowers();
    Pow2Add(53, 6);
    Pow2Add(53, 7);
    RoundToNearest(100 * OnePointOne, 110 * Unit + 128, 7);
  }

  /** `1000 * 1.1` is exactly 1100.0. */
  lemma CeilingAtThousand()
    ensures Times(1000, OnePointOne) == 1100 * Unit
    ensures ReachesCeiling(1100, 1000)
  {
    RoundSmall(1000);
    UnitIsPow2();
    SmallPowers();
    Pow2Add(53, 10);
    Pow2Add(53, 11);
    RoundToNearest(1000 * OnePointOne, 1100 * Unit, 11);
  }
}
