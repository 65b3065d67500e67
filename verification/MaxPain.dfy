// The max-pain query (src/analytics/_options_sql.py): for one event time and symbol, the
// listed strike at which the joined rows' total payout to option holders is least.
module MaxPain {
  import opened Common

  // The option type after canonicalisation; anything that is not a call pays like a put.
  datatype Kind = CE | PE | Other

  datatype OptionRow = OptionRow(strike: real, spot: real, kind: Kind, oi: real)

  type Chain = seq<OptionRow>

  function Greatest(x: real, y: real): real { if x < y then y else x }

  // What one unit of open interest in row `b` pays when settling at `price`.
  function Payoff(b: OptionRow, price: real): real {
    if b.kind == CE then Greatest(0.0, price - b.strike) else Greatest(0.0, b.strike - price)
  }

  function RowPain(price: real): OptionRow -> real {
    (b: OptionRow) => b.oi * Payoff(b, price)
  }

  // The payout of the whole chain at a settlement price.
  function Pain(chain: Chain, price: real): real {
    RealSumOf(chain, RowPain(price))
  }

  // ---- The query ------------------------------------------------------------------------

  predicate SameGroup(a: OptionRow, b: OptionRow) {
    a.strike == b.strike && a.spot == b.spot
  }

  // The self join, grouped by strike and spot: every row of the group contributes the
  // payout of the whole chain.
  function TotalPain(rows: Chain, chain: Chain, group: OptionRow): real {
    if rows == [] then 0.0
    else
      var a := rows[|rows| - 1];
      TotalPain(rows[..|rows| - 1], chain, group) + if SameGroup(a, group) then Pain(chain, a.strike) else 0.0
  }

  function GroupSize(rows: Chain, group: OptionRow): nat {
    if rows == [] then 0
    else GroupSize(rows[..|rows| - 1], group) + if SameGroup(rows[|rows| - 1], group) then 1 else 0
  }

  // The first row with the least total, as FIRST(... ORDER BY total_pain) may return.
  function FirstByPain(rows: Chain, chain: Chain): (r: OptionRow)
    requires rows != []
    ensures r in rows
    ensures forall a :: a in rows ==> TotalPain(chain, chain, r) <= TotalPain(chain, chain, a)
  {
    var last := rows[|rows| - 1];
    assert rows == rows[..|rows| - 1] + [last];
    if |rows| == 1 then last
    else
      var best := FirstByPain(rows[..|rows| - 1], chain);
      if TotalPain(chain, chain, last) < TotalPain(chain, chain, best) then last else best
  }

  // Any answer the query may give: ties may be broken either way.
  ghost predicate IsMaxPain(chain: Chain, r: OptionRow) {
    r in chain && forall a :: a in chain ==> TotalPain(chain, chain, r) <= TotalPain(chain, chain, a)
  }

  // Options pay what they are worth on exercise: a call the excess of the price over its
  // strike, every other kind the excess of the strike over the price, and never less than
  // nothing.
  lemma OptionsPayIntrinsicValue(b: OptionRow, price: real)
    ensures b.kind == CE && price >= b.strike ==> Pain([b], price) == b.oi * (price - b.strike)
    ensures b.kind != CE && price <= b.strike ==> Pain([b], price) == b.oi * (b.strike - price)
    ensures (b.kind == CE && price <= b.strike) || (b.kind != CE && price >= b.strike) ==> Pain([b], price) == 0.0
  {
    assert [b][..0] == [];
    assert Pain([b], price) == RealSumOf([b][..0], RowPain(price)) + RowPain(price)(b) == RowPain(price)(b);
    assert RowPain(price)(b) == b.oi * Payoff(b, price);
  }

  // The rows of a group are those with its strike and its spot.
  lemma {:induction false} GroupSizeCounts(rows: Chain, group: OptionRow)
    ensures GroupSize(rows, group)
         == |set i | 0 <= i < |rows| && rows[i].strike == group.strike && rows[i].spot == group.spot|
  {
    if rows != [] {
      var front, last := rows[..|rows| - 1], rows[|rows| - 1];
      GroupSizeCounts(front, group);
      var all := set i | 0 <= i < |rows| && rows[i].strike == group.strike && rows[i].spot == group.spot;
      var some := set i | 0 <= i < |front| && front[i].strike == group.strike && front[i].spot == group.spot;
      if last.strike == group.strike && last.spot == group.spot {
        assert all == some + {|front|};
      } else {
        assert all == some;
      }
    }
  }

  // ---- Pain is piecewise linear with kinks at listed strikes only ----------------------

  ghost predicate NonNegativeInterest(chain: Chain) {
    forall b :: b in chain ==> b.oi >= 0.0
  }

  // How fast the pain grows just above a price.
  function RowSlope(at: real): OptionRow -> real {
    (b: OptionRow) => if b.kind == CE then (if b.strike <= at then b.oi else 0.0)
                      else if b.strike <= at then 0.0 else -b.oi
  }

  function Slope(chain: Chain, at: real): real {
    RealSumOf(chain, RowSlope(at))
  }

  ghost predicate NoStrikeInside(chain: Chain, lo: real, hi: real) {
    forall b :: b in chain ==> b.strike <= lo || hi <= b.strike
  }

  // How much a line of some slope rises over a distance.
  function Rise(d: real, slope: real): real {
    d * slope
  }

  lemma RowLinear(b: OptionRow, lo: real, price: real, d: real)
    requires 0.0 <= d == price - lo && (b.strike <= lo || price <= b.strike)
    ensures RowPain(price)(b) == RowPain(lo)(b) + Rise(d, RowSlope(lo)(b))
  {
    var change := if b.kind == CE then (if b.strike <= lo then d else 0.0)
                  else if b.strike <= lo then 0.0 else -d;
    assert Payoff(b, price) == Payoff(b, lo) + change;
    Distribute(b.oi, Payoff(b, lo), change);
  }

  lemma {:induction false} PainLinear(chain: Chain, lo: real, price: real, d: real)
    requires 0.0 <= d == price - lo && NoStrikeInside(chain, lo, price)
    ensures Pain(chain, price) == Pain(chain, lo) + Rise(d, Slope(chain, lo))
  {
    if chain != [] {
      var front, b := chain[..|chain| - 1], chain[|chain| - 1];
      assert b in chain;
      PainLinear(front, lo, price, d);
      RowLinear(b, lo, price, d);
      RiseAdds(d, Slope(front, lo), RowSlope(lo)(b));
    }
  }

  lemma RiseAdds(d: real, x: real, y: real)
    ensures Rise(d, x + y) == Rise(d, x) + Rise(d, y)
  {
  }

  lemma Distribute(x: real, y: real, z: real)
    ensures x * (y + z) == x * y + x * z
  {
  }

  lemma Scaled(w: real, x: real, y: real)
    requires w >= 0.0 && x <= y
    ensures w * x <= w * y
  {
  }

  // A line through three points is no higher at one of the outer two.
  lemma OneEndOfLine(near: real, far: real, slope: real, atLo: real, atPrice: real, atHi: real)
    requires near >= 0.0 && far >= 0.0
    requires atPrice == atLo + near * slope && atHi == atLo + (near + far) * slope
    ensures atLo <= atPrice || atHi <= atPrice
  {
    if slope >= 0.0 {
      Scaled(near, 0.0, slope);
    } else {
      Scaled(far, slope, 0.0);
      Distribute(slope, near, far);
    }
  }

  // Between neighbouring strikes the pain at one of the two ends is no larger.
  lemma OneEndIsNoWorse(chain: Chain, lo: real, price: real, hi: real)
    requires lo <= price <= hi && NoStrikeInside(chain, lo, hi)
    ensures Pain(chain, lo) <= Pain(chain, price) || Pain(chain, hi) <= Pain(chain, price)
  {
    PainLinear(chain, lo, price, price - lo);
    PainLinear(chain, lo, hi, (price - lo) + (hi - price));
    OneEndOfLine(price - lo, hi - price, Slope(chain, lo), Pain(chain, lo), Pain(chain, price), Pain(chain, hi));
  }

  lemma RowBeyondEnds(b: OptionRow, inner: real, outer: real)
    requires b.oi >= 0.0
    requires (outer <= inner <= b.strike) || (b.strike <= inner <= outer)
    ensures RowPain(inner)(b) <= RowPain(outer)(b)
  {
    assert Payoff(b, inner) <= Payoff(b, outer);
    Scaled(b.oi, Payoff(b, inner), Payoff(b, outer));
  }

  // Beyond the outermost strike, moving away never lowers the pain.
  lemma PainBeyondEnds(chain: Chain, inner: real, outer: real)
    requires NonNegativeInterest(chain)
    requires (outer <= inner && forall b :: b in chain ==> inner <= b.strike)
          || (inner <= outer && forall b :: b in chain ==> b.strike <= inner)
    ensures Pain(chain, inner) <= Pain(chain, outer)
  {
    forall b | b in chain
      ensures RowPain(inner)(b) <= RowPain(outer)(b)
    {
      RowBeyondEnds(b, inner, outer);
    }
    RealSumMonotone(chain, RowPain(inner), RowPain(outer));
  }

  // The closest listed strike at or below a price.
  lemma {:induction false} ClosestBelow(chain: Chain, price: real) returns (r: OptionRow)
    requires exists b :: b in chain && b.strike <= price
    ensures r in chain && r.strike <= price
    ensures forall b :: b in chain ==> b.strike <= r.strike || price < b.strike
  {
    var front, last := chain[..|chain| - 1], chain[|chain| - 1];
    assert chain == front + [last];
    if exists b :: b in front && b.strike <= price {
      r := ClosestBelow(front, price);
      r := if r.strike < last.strike <= price then last else r;
    } else {
      r := last;
    }
  }

  lemma {:induction false} ClosestAbove(chain: Chain, price: real) returns (r: OptionRow)
    requires exists b :: b in chain && price <= b.strike
    ensures r in chain && price <= r.strike
    ensures forall b :: b in chain ==> r.strike <= b.strike || b.strike < price
  {
    var front, last := chain[..|chain| - 1], chain[|chain| - 1];
    assert chain == front + [last];
    if exists b :: b in front && price <= b.strike {
      r := ClosestAbove(front, price);
      r := if price <= last.strike < r.strike then last else r;
    } else {
      r := last;
    }
  }

  // Some listed strike is at least as good as any settlement price at all.
  lemma ListedStrikeBeatsAnyPrice(chain: Chain, price: real) returns (r: OptionRow)
    requires chain != [] && NonNegativeInterest(chain)
    ensures r in chain && Pain(chain, r.strike) <= Pain(chain, price)
  {
    assert chain[0] in chain;
    if forall b :: b in chain ==> price < b.strike {
      r := ClosestAbove(chain, price);
      PainBeyondEnds(chain, r.strike, price);
    } else if forall b :: b in chain ==> b.strike < price {
      r := ClosestBelow(chain, price);
      PainBeyondEnds(chain, r.strike, price);
    } else {
      var lo := ClosestBelow(chain, price);
      var hi := ClosestAbove(chain, price);
      if lo.strike == hi.strike {
        return lo;
      }
      OneEndIsNoWorse(chain, lo.strike, price, hi.strike);
      r := if Pain(chain, lo.strike) <= Pain(chain, hi.strike) then lo else hi;
    }
  }

  // ---- Main results ---------------------------------------------------------------------

  // `n` times `x`.
  function Times(n: nat, x: real): real {
    if n == 0 then 0.0 else Times(n - 1, x) + x
  }

  lemma {:induction false} TimesMonotone(m: nat, n: nat, x: real, y: real)
    requires m <= n && x <= y && 0.0 <= y
    ensures Times(m, x) <= Times(n, y)
  {
    if m > 0 {
      TimesMonotone(m - 1, n - 1, x, y);
    } else if n > 0 {
      TimesMonotone(0, n - 1, x, y);
    }
  }

  lemma {:induction false} TimesStrict(n: nat, x: real, y: real)
    requires x < y
    ensures n > 0 ==> Times(n, x) < Times(n, y)
  {
    if n > 0 {
      TimesStrict(n - 1, x, y);
    }
  }

  lemma {:induction false} TotalIsSizeTimesPain(rows: Chain, chain: Chain, group: OptionRow)
    ensures TotalPain(rows, chain, group) == Times(GroupSize(rows, group), Pain(chain, group.strike))
  {
    if rows != [] {
      TotalIsSizeTimesPain(rows[..|rows| - 1], chain, group);
    }
  }

  lemma {:induction false} GroupsAreNotEmpty(rows: Chain, group: OptionRow)
    requires group in rows
    ensures GroupSize(rows, group) >= 1
  {
    if rows[|rows| - 1] != group {
      assert rows == rows[..|rows| - 1] + [rows[|rows| - 1]];
      GroupsAreNotEmpty(rows[..|rows| - 1], group);
    }
  }

  lemma PainNonNegative(chain: Chain, price: real)
    requires NonNegativeInterest(chain)
    ensures Pain(chain, price) >= 0.0
  {
    var none := (b: OptionRow) => 0.0;
    forall b | b in chain
      ensures none(b) <= RowPain(price)(b)
    {
      Scaled(b.oi, 0.0, Payoff(b, price));
    }
    RealSumMonotone(chain, none, RowPain(price));
    SumOfNone(chain, none);
  }

  lemma {:induction false} SumOfNone(chain: Chain, none: OptionRow -> real)
    requires forall b :: none(b) == 0.0
    ensures RealSumOf(chain, none) == 0.0
  {
    if chain != [] {
      SumOfNone(chain[..|chain| - 1], none);
    }
  }

  // However unevenly the strikes are listed: the answer's pain, times the size of its
  // group, is at most the pain at any settlement price times the largest group.
  lemma {:induction false} AnswerWithinGroupRatio(chain: Chain, answer: OptionRow, largest: nat, price: real)
    requires NonNegativeInterest(chain) && IsMaxPain(chain, answer)
    requires forall a :: a in chain ==> GroupSize(chain, a) <= largest
    ensures Times(GroupSize(chain, answer), Pain(chain, answer.strike)) <= Times(largest, Pain(chain, price))
  {
    var r := ListedStrikeBeatsAnyPrice(chain, price);
    PainNonNegative(chain, price);
    TotalIsSizeTimesPain(chain, chain, answer);
    TotalIsSizeTimesPain(chain, chain, r);
    TimesMonotone(GroupSize(chain, r), largest, Pain(chain, r.strike), Pain(chain, price));
  }

  // An answer listed at least as often as every other strike, as with the same number of
  // rows for every strike, is a global minimum: no settlement price, listed or not, has
  // less pain.
  lemma MostListedAnswerIsGlobalMinimum(chain: Chain, answer: OptionRow, price: real)
    requires NonNegativeInterest(chain) && IsMaxPain(chain, answer)
    requires forall a :: a in chain ==> GroupSize(chain, a) <= GroupSize(chain, answer)
    ensures Pain(chain, answer.strike) <= Pain(chain, price)
  {
    var n := GroupSize(chain, answer);
    GroupsAreNotEmpty(chain, answer);
    AnswerWithinGroupRatio(chain, answer, n, price);
    if Pain(chain, price) < Pain(chain, answer.strike) {
      TimesStrict(n, Pain(chain, price), Pain(chain, answer.strike));
    }
  }

  // With the same number of rows for every strike any answer is one.
  lemma EqualRowsGiveGlobalMinimum(chain: Chain, answer: OptionRow, price: real)
    requires NonNegativeInterest(chain) && IsMaxPain(chain, answer)
    requires forall a, b :: a in chain && b in chain ==> GroupSize(chain, a) == GroupSize(chain, b)
    ensures Pain(chain, answer.strike) <= Pain(chain, price)
  {
    MostListedAnswerIsGlobalMinimum(chain, answer, price);
  }

  lemma {:induction false} TimesIsProduct(n: nat, x: real)
    ensures Times(n, x) == (n as real) * x
  {
    if n > 0 {
      TimesIsProduct(n - 1, x);
      OneMore((n - 1) as real, x);
      assert (n as real) == ((n - 1) as real) + 1.0;
    }
  }

  lemma OneMore(k: real, x: real)
    ensures (k + 1.0) * x == k * x + x
  {
  }
}
