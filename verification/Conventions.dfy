// Price conventions (src/domain/conventions.py) and strike rounding
// (src/domain/instrument_resolver.py). A decimal is a fraction of integers, or an integer
// count of a unit small enough for every amount involved.
module Conventions {
  import opened Common

  datatype Error = TickNotPositive | NegativePrice

  // The fraction a/b rounded to the nearest integer, halves away from zero.
  function RoundHalfUp(a: int, b: int): int
    requires b > 0
  {
    if a >= 0 then (2 * a + b) / (2 * b) else -((-2 * a + b) / (2 * b))
  }

  // The same with halves to the even neighbour.
  function RoundHalfEven(a: int, b: int): int
    requires b > 0
  {
    var q, r := a / b, a % b;
    if 2 * r < b || (2 * r == b && q % 2 == 0) then q else q + 1
  }

  lemma FloorSpec(x: int, d: int)
    requires d > 0
    ensures (x / d) * d <= x < (x / d) * d + d
  {
  }

  lemma HalfUpIsNearest(a: int, b: int)
    requires b > 0
    ensures 2 * Abs(RoundHalfUp(a, b) * b - a) <= b
    ensures 2 * Abs(RoundHalfUp(a, b) * b - a) == b ==> Abs(RoundHalfUp(a, b) * b) > Abs(a)
  {
    var m := if a >= 0 then 2 * a + b else -2 * a + b;
    var q := m / (2 * b);
    FloorSpec(m, 2 * b);
    assert q * (2 * b) == 2 * (q * b);
    assert (-q) * b == -(q * b);
  }

  lemma AtLeastOnce(d: int, b: int)
    requires b > 0 && d >= 1
    ensures d * b >= b
  {
  }

  lemma Spread(k: int, n: int, b: int)
    requires b > 0 && k != n
    ensures Abs(k * b - n * b) >= b
  {
    if k < n {
      AtLeastOnce(n - k, b);
      assert (n - k) * b == n * b - k * b;
    } else {
      AtLeastOnce(k - n, b);
      assert (k - n) * b == k * b - n * b;
    }
  }

  // Any integer closer than half is the rounded value.
  lemma StrictlyNearestIsRounded(a: int, b: int, n: int)
    requires b > 0 && 2 * Abs(n * b - a) < b
    ensures RoundHalfUp(a, b) == n
  {
    HalfUpIsNearest(a, b);
    if RoundHalfUp(a, b) != n {
      Spread(RoundHalfUp(a, b), n, b);
    }
  }

  lemma ExactIsRounded(n: int, b: int)
    requires b > 0
    ensures RoundHalfUp(n * b, b) == n
  {
    StrictlyNearestIsRounded(n * b, b, n);
  }

  // ---- Paisa and rupees -------------------------------------------------------------------

  // Rupees, as the fraction num/den, in paisa.
  function ToPaisa(num: int, den: int, scale: int): int
    requires den > 0
  {
    RoundHalfUp(num * scale, den)
  }

  // Paisa in hundredths of a rupee.
  function ToRupee(paisa: int, scale: int): int
    requires scale > 0
  {
    RoundHalfUp(paisa * 100, scale)
  }

  // Either way is to the nearest whole unit, with a half away from zero.
  lemma AmountsAreNearest(num: int, den: int, paisa: int, scale: int)
    requires den > 0 && scale > 0
    ensures
      var n := ToPaisa(num, den, scale);
      && 2 * Abs(n * den - num * scale) <= den
      && (2 * Abs(n * den - num * scale) == den ==> Abs(n * den) > Abs(num * scale))
    ensures
      var n := ToRupee(paisa, scale);
      && 2 * Abs(n * scale - paisa * 100) <= scale
      && (2 * Abs(n * scale - paisa * 100) == scale ==> Abs(n * scale) > Abs(paisa * 100))
  {
    HalfUpIsNearest(num * scale, den);
    HalfUpIsNearest(paisa * 100, scale);
  }

  ghost predicate Survives(paisa: int, scale: int)
    requires scale > 0
  {
    ToPaisa(ToRupee(paisa, scale), 100, scale) == paisa
  }

  lemma SmallScaleSurvives(paisa: int, scale: int)
    requires 1 <= scale <= 100
    ensures Survives(paisa, scale)
  {
    var n := ToRupee(paisa, scale);
    HalfUpIsNearest(paisa * 100, scale);
    if scale == 100 {
      ExactIsRounded(paisa, 100);
      ExactIsRounded(n, 100);
    } else {
      StrictlyNearestIsRounded(n * scale, 100, paisa);
    }
  }

  lemma HalfUpMonotone(a: int, c: int, b: int)
    requires b > 0 && a <= c
    ensures RoundHalfUp(a, b) <= RoundHalfUp(c, b)
  {
    if a >= 0 {
      QuotientsOrdered(2 * a + b, 2 * c + b, 2 * b);
    } else if c < 0 {
      QuotientsOrdered(-2 * c + b, -2 * a + b, 2 * b);
    } else {
      QuotientsOrdered(0, -2 * a + b, 2 * b);
      QuotientsOrdered(0, 2 * c + b, 2 * b);
      ZeroQuotient(2 * b);
    }
  }

  lemma ZeroQuotient(d: int)
    requires d > 0
    ensures 0 / d == 0
  {
  }

  // If every amount survived, the rupee values of 0, 1, ..., n would all differ.
  lemma {:induction false} SurvivorsSpread(n: nat, scale: int)
    requires scale > 0 && forall p :: 0 <= p <= n ==> Survives(p, scale)
    ensures ToRupee(n, scale) >= n
  {
    if n == 0 {
      ExactIsRounded(0, scale);
    } else {
      SurvivorsSpread(n - 1, scale);
      HalfUpMonotone((n - 1) * 100, n * 100, scale);
      assert Survives(n - 1, scale) && Survives(n, scale);
    }
  }

  // Whole paisa survive the way to rupees and back exactly for scales up to 100.
  lemma PaisaRoundTripIff(scale: int)
    requires scale > 0
    ensures (forall p: int :: Survives(p, scale)) <==> scale <= 100
  {
    if scale <= 100 {
      forall p: int
        ensures Survives(p, scale)
      {
        SmallScaleSurvives(p, scale);
      }
    } else if forall p: int :: Survives(p, scale) {
      SurvivorsSpread(scale, scale);
      assert scale * 100 == 100 * scale;
      ExactIsRounded(100, scale);
    }
  }

  // ---- Ticks ------------------------------------------------------------------------------

  // Prices, ticks and tolerances in one common unit.
  function SnapToTick(price: int, tick: int): Result<int, Error> {
    if tick <= 0 then Err(TickNotPositive)
    else if price < 0 then Err(NegativePrice)
    else Ok(RoundHalfUp(price, tick) * tick)
  }

  function IsTickAligned(price: int, tick: int, tolerance: int): Result<bool, Error> {
    if tick <= 0 then Err(TickNotPositive)
    else if price < 0 then Err(NegativePrice)
    else if price == 0 then Ok(true)
    else Ok(price % tick <= tolerance || tick - price % tick <= tolerance)
  }

  // A tick that is not positive is refused before a price below zero is, and nothing else.
  lemma RefusedIff(price: int, tick: int, tolerance: int)
    ensures SnapToTick(price, tick) == Err(TickNotPositive) <==> tick < 1
    ensures SnapToTick(price, tick) == Err(NegativePrice) <==> tick >= 1 && price <= -1
    ensures IsTickAligned(price, tick, tolerance) == Err(TickNotPositive) <==> tick < 1
    ensures IsTickAligned(price, tick, tolerance) == Err(NegativePrice) <==> tick >= 1 && price <= -1
  {
  }

  // The snapped price is a multiple of the tick, and no multiple is closer; of two equally
  // close ones it is the higher.
  lemma SnapIsNearest(price: int, tick: int, k: int)
    requires price >= 0 && tick > 0
    ensures
      var snapped := SnapToTick(price, tick).value;
      && snapped % tick == 0 && snapped >= 0
      && 2 * Abs(snapped - price) <= tick
      && (2 * Abs(snapped - price) == tick ==> snapped > price)
      && Abs(snapped - price) <= Abs(k * tick - price)
  {
    var n := RoundHalfUp(price, tick);
    HalfUpIsNearest(price, tick);
    MultipleIsAligned(n, tick);
    if k != n {
      Spread(k, n, tick);
    }
    assert n >= 0;
  }

  lemma MultipleIsAligned(n: int, tick: int)
    requires tick > 0
    ensures (n * tick) % tick == 0
  {
    FloorSpec(n * tick, tick);
    if n != (n * tick) / tick {
      Spread(n, (n * tick) / tick, tick);
    }
  }

  lemma SnapIsIdempotentAndMonotone(price: int, higher: int, tick: int)
    requires 0 <= price <= higher && tick > 0
    ensures SnapToTick(SnapToTick(price, tick).value, tick) == SnapToTick(price, tick)
    ensures SnapToTick(price, tick).value <= SnapToTick(higher, tick).value
  {
    var n, m := RoundHalfUp(price, tick), RoundHalfUp(higher, tick);
    assert n >= 0;
    assert n * tick >= 0;
    ExactIsRounded(n, tick);
    HalfUpMonotone(price, higher, tick);
    assert (m - n) * tick >= 0;
  }

  lemma SnappedIsAligned(price: int, tick: int, tolerance: nat)
    requires price >= 0 && tick > 0
    ensures IsTickAligned(SnapToTick(price, tick).value, tick, tolerance) == Ok(true)
  {
    SnapIsNearest(price, tick, 0);
  }

  // Alignment means being within the tolerance of some multiple of the tick; a price of zero
  // is aligned under any tolerance.
  lemma AlignedIff(price: int, tick: int, tolerance: int)
    requires price >= 0 && tick > 0
    ensures IsTickAligned(price, tick, tolerance) == Ok(true)
       <==> price == 0 || exists k :: WithinTolerance(price, tick, tolerance, k)
  {
    Neighbours(price, tick, tolerance);
    if k :| WithinTolerance(price, tick, tolerance, k) {
      Bracketed(price, tick, k);
    }
  }

  // The multiples of the tick next to a price.
  lemma Neighbours(price: int, tick: int, tolerance: int)
    requires tick > 0
    ensures price % tick <= tolerance ==> WithinTolerance(price, tick, tolerance, price / tick)
    ensures tick - price % tick <= tolerance ==> WithinTolerance(price, tick, tolerance, price / tick + 1)
  {
    var q, r := price / tick, price % tick;
    assert price == q * tick + r;
    assert (q + 1) * tick == q * tick + tick;
  }

  ghost predicate WithinTolerance(price: int, tick: int, tolerance: int, k: int) {
    Abs(price - k * tick) <= tolerance
  }

  // No multiple of the tick lies strictly between the two neighbouring ones.
  lemma Bracketed(price: int, tick: int, k: int)
    requires tick > 0
    ensures price % tick <= Abs(price - k * tick) || tick - price % tick <= Abs(price - k * tick)
  {
    var q := price / tick;
    assert price == q * tick + price % tick;
    if k <= q {
      MultiplesOrdered(k, q, tick);
    } else {
      MultiplesOrdered(q + 1, k, tick);
      assert (q + 1) * tick == q * tick + tick;
    }
  }

  // ---- Strikes ------------------------------------------------------------------------------

  const STRIKE_TICK := 50

  // The price is the fraction num/den.
  function NearestStrike(num: int, den: int, tick: int): int
    requires den > 0 && tick > 0
  {
    RoundHalfEven(num, den * tick) * tick
  }

  // A step out of the money is upwards and one into the money downwards, for calls and
  // puts alike.
  function OtmStrike(num: int, den: int, steps: nat): int
    requires den > 0
  {
    NearestStrike(num, den, STRIKE_TICK) + steps * STRIKE_TICK
  }

  function ItmStrike(num: int, den: int, steps: nat): int
    requires den > 0
  {
    NearestStrike(num, den, STRIKE_TICK) - steps * STRIKE_TICK
  }

  lemma HalfEvenIsNearest(a: int, b: int)
    requires b > 0
    ensures 2 * Abs(RoundHalfEven(a, b) * b - a) <= b
    ensures 2 * Abs(RoundHalfEven(a, b) * b - a) == b ==> RoundHalfEven(a, b) % 2 == 0
  {
    var q, r := a / b, a % b;
    assert a == q * b + r;
    assert (q + 1) * b == q * b + b;
  }

  // The nearest strike is a multiple of the tick at most half a tick away, on a tie the
  // one with an even number of ticks.
  lemma NearestStrikeSpec(num: int, den: int, tick: int)
    requires den > 0 && tick > 0
    ensures
      var strike := NearestStrike(num, den, tick);
      && strike % tick == 0
      && 2 * Abs(strike * den - num) <= den * tick
      && (2 * Abs(strike * den - num) == den * tick ==> (strike / tick) % 2 == 0)
  {
    var n := RoundHalfEven(num, den * tick);
    HalfEvenIsNearest(num, den * tick);
    MultipleIsAligned(n, tick);
    Regroup(n, tick, den);
    ExactQuotient(n, tick);
  }

  lemma Regroup(n: int, tick: int, den: int)
    ensures (n * tick) * den == n * (den * tick)
  {
  }

  lemma ExactQuotient(n: int, tick: int)
    requires tick > 0
    ensures (n * tick) / tick == n
  {
    FloorSpec(n * tick, tick);
    if n != (n * tick) / tick {
      Spread(n, (n * tick) / tick, tick);
    }
  }

  // From one step on, out-of-the-money strikes lie above the spot and in-the-money ones
  // below it, by at least half a tick.
  lemma StepsLeaveTheSpot(num: int, den: int, steps: nat)
    requires den > 0 && steps >= 1
    ensures 2 * (OtmStrike(num, den, steps) * den - num) >= den * STRIKE_TICK
    ensures 2 * (num - ItmStrike(num, den, steps) * den) >= den * STRIKE_TICK
    ensures OtmStrike(num, den, steps) - NearestStrike(num, den, 50) == 50 * steps
    ensures NearestStrike(num, den, 50) - ItmStrike(num, den, steps) == 50 * steps
  {
    NearestStrikeSpec(num, den, STRIKE_TICK);
    var base := NearestStrike(num, den, STRIKE_TICK);
    assert (base + steps * STRIKE_TICK) * den == base * den + (steps * den) * STRIKE_TICK;
    assert (base - steps * STRIKE_TICK) * den == base * den - (steps * den) * STRIKE_TICK;
    assert steps * den >= den;
  }
}
