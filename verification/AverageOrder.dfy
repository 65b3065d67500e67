// When the average price of a position does not depend on the order in which its fills
// arrive (Position.with_fill in src/domain/entities/position.py, under the recovery of
// src/domain/ledger_recovery.py).
module AverageOrder {
  import opened Common
  import opened Positions
  import opened Fills
  import opened FillSafety
  import opened LedgerRecovery

  // ---- A position as far as its average price depends on it --------------------------------

  datatype Holding = Holding(quantity: int, average: real)

  const NOTHING := Holding(0, 0.0)

  function Hold(h: Holding, fillQuantity: int, price: real): Holding {
    Holding(h.quantity + fillQuantity, AverageAfter(h.quantity, h.average, fillQuantity, price))
  }

  function HoldFrom(h: Holding, ts: seq<Trade>, key: string): Holding {
    if ts == [] then h
    else
      var before, t := HoldFrom(h, ts[..|ts| - 1], key), ts[|ts| - 1];
      if Key(t) == key then Hold(before, SignedShares(t), t.price) else before
  }

  function HoldingIn(book: Book, key: string): Holding {
    if key in book then Holding(book[key].quantity, book[key].avgPrice) else NOTHING
  }

  lemma ProjectHolds(book: Book, t: Trade, key: string)
    ensures HoldingIn(Project(book, t), key)
         == if Key(t) == key then Hold(HoldingIn(book, key), SignedShares(t), t.price) else HoldingIn(book, key)
  {
    if Key(t) == key {
      var current := if key in book then book[key] else Flat(t.symbol, t.exchange);
      assert HoldingIn(book, key) == Holding(current.quantity, current.avgPrice);
      assert Project(book, t)[key] == current.WithFill(SignedShares(t), t.price);
    }
  }

  // The book's position is that of its applied trades, one after the other.
  lemma {:induction false} RunHolds(ds: seq<Delivery>, key: string)
    ensures HoldingIn(Run(START, ds).book, key) == HoldFrom(NOTHING, AppliedTrades(START, ds), key)
  {
    if ds != [] {
      var front, d := ds[..|ds| - 1], ds[|ds| - 1];
      var s := Run(START, front);
      RunHolds(front, key);
      ProjectHolds(s.book, d.trade, key);
      AppliedSnoc(s, AppliedTrades(START, front), d, key);
    }
  }

  lemma {:induction false} AppliedSnoc(s: PipelineState, before: seq<Trade>, d: Delivery, key: string)
    requires HoldingIn(s.book, key) == HoldFrom(NOTHING, before, key)
    requires HoldingIn(Project(s.book, d.trade), key)
          == if Key(d.trade) == key then Hold(HoldingIn(s.book, key), SignedShares(d.trade), d.trade.price)
             else HoldingIn(s.book, key)
    ensures HoldingIn(s.Next(d).book, key)
         == HoldFrom(NOTHING, before + if s.Decide(d) == Applied then [d.trade] else [], key)
  {
    assert (before + [d.trade])[..|before|] == before;
    assert before + [] == before;
  }

  lemma {:induction false} HoldAppend(h: Holding, a: seq<Trade>, b: seq<Trade>, key: string)
    ensures HoldFrom(h, a + b, key) == HoldFrom(HoldFrom(h, a, key), b, key)
  {
    if b == [] {
      assert a + b == a;
    } else {
      HoldAppend(h, a, b[..|b| - 1], key);
      assert (a + b)[..|a + b| - 1] == a + b[..|b| - 1];
    }
  }

  // ---- One fill ---------------------------------------------------------------------------

  function Signed(side: Side, n: int): int {
    if side == Buy then n else -n
  }

  function Other(side: Side): Side {
    if side == Buy then Sell else Buy
  }

  // What `n` shares are worth at a price.
  function Worth(n: int, price: real): real {
    (n as real) * price
  }

  lemma WorthAdds(m: int, n: int, price: real)
    ensures Worth(m + n, price) == Worth(m, price) + Worth(n, price)
  {
  }

  lemma WorthRises(n: nat, low: real, high: real)
    requires n > 0 && low <= high
    ensures Worth(n, low) <= Worth(n, high) && (low < high ==> Worth(n, low) < Worth(n, high))
  {
  }

  lemma HoldAdds(side: Side, k: nat, average: real, m: nat, price: real)
    requires m > 0
    ensures
      var h := Hold(Holding(Signed(side, k), average), Signed(side, m), price);
      && h.quantity == Signed(side, k + m)
      && Worth(k + m, h.average) == Worth(k, average) + Worth(m, price)
  {
    var a, b := k as real, m as real;
    assert (k + m) as real == a + b;
    if k > 0 {
      AverageKeepsCost(a, b, average, price);
      AverageKeepsCost(-a, -b, average, price);
      assert (-a) * average + (-b) * price == -(a * average + b * price);
      assert (-(a + b)) as real == -((k + m) as real);
    }
  }

  lemma HoldReduces(side: Side, k: nat, average: real, m: nat, price: real)
    requires 0 < m < k
    ensures Hold(Holding(Signed(side, k), average), Signed(Other(side), m), price)
         == Holding(Signed(side, k - m), average)
  {
  }

  lemma HoldCrosses(side: Side, s: nat, average: real, m: nat, price: real)
    requires s > 0 && m > 0
    ensures
      Hold(Holding(Signed(Other(side), s), average), Signed(side, m), price)
      == Holding(Signed(side, m - s), if m > s then price else if m == s then 0.0 else average)
  {
  }

  // ---- Trades of one instrument on one side ---------------------------------------------------

  ghost predicate OnSide(ts: seq<Trade>, key: string, side: Side) {
    forall i :: 0 <= i < |ts| ==> Key(ts[i]) == key && ts[i].side == side && Shares(ts[i]) > 0
  }

  function Value(t: Trade): real {
    Worth(Shares(t), t.price)
  }

  lemma {:induction false} TotalPositive(ts: seq<Trade>, key: string, side: Side)
    requires OnSide(ts, key, side)
    ensures SumOf(ts, Shares) >= |ts|
  {
    if ts != [] {
      TotalPositive(ts[..|ts| - 1], key, side);
    }
  }

  lemma HoldSnoc(h: Holding, ts: seq<Trade>, key: string, side: Side)
    requires ts != [] && OnSide(ts, key, side)
    ensures
      var front, t := ts[..|ts| - 1], ts[|ts| - 1];
      && OnSide(front, key, side) && Shares(t) > 0
      && HoldFrom(h, ts, key) == Hold(HoldFrom(h, front, key), Signed(side, Shares(t)), t.price)
      && SumOf(ts, Shares) == SumOf(front, Shares) + Shares(t)
      && RealSumOf(ts, Value) == RealSumOf(front, Value) + Worth(Shares(t), t.price)
  {
    assert ts[|ts| - 1].side == side;
  }

  // All on one side, from nothing: the average is the mean price.
  lemma {:induction false} Builds(ts: seq<Trade>, key: string, side: Side)
    requires OnSide(ts, key, side)
    ensures
      var h := HoldFrom(NOTHING, ts, key);
      && h.quantity == Signed(side, SumOf(ts, Shares))
      && Worth(SumOf(ts, Shares), h.average) == RealSumOf(ts, Value)
  {
    if ts != [] {
      var front, t := ts[..|ts| - 1], ts[|ts| - 1];
      HoldSnoc(NOTHING, ts, key, side);
      Builds(front, key, side);
      TotalPositive(front, key, side);
      HoldAdds(side, SumOf(front, Shares), HoldFrom(NOTHING, front, key).average, Shares(t), t.price);
    }
  }

  // Fewer trades on the other side leave the average alone.
  lemma {:induction false} Reduces(h: Holding, k: nat, ts: seq<Trade>, key: string, side: Side)
    requires h.quantity == Signed(side, k) && OnSide(ts, key, Other(side)) && SumOf(ts, Shares) < k
    ensures HoldFrom(h, ts, key) == Holding(Signed(side, k - SumOf(ts, Shares)), h.average)
  {
    if ts != [] {
      var front, t := ts[..|ts| - 1], ts[|ts| - 1];
      HoldSnoc(h, ts, key, Other(side));
      TotalPositive(front, key, Other(side));
      Reduces(h, k, front, key, side);
      HoldReduces(side, k - SumOf(front, Shares), h.average, Shares(t), t.price);
    }
  }

  ghost predicate Ascending(ts: seq<Trade>) {
    forall i, j :: 0 <= i <= j < |ts| ==> ts[i].price <= ts[j].price
  }

  // In ascending order of price the value is at most that at the last price, and less when
  // the prices differ.
  lemma {:induction false} ValueBelowLast(ts: seq<Trade>, key: string, side: Side)
    requires OnSide(ts, key, side) && ts != [] && Ascending(ts)
    ensures
      var top := Worth(SumOf(ts, Shares), ts[|ts| - 1].price);
      RealSumOf(ts, Value) <= top && (ts[0].price < ts[|ts| - 1].price ==> RealSumOf(ts, Value) < top)
  {
    var front, t := ts[..|ts| - 1], ts[|ts| - 1];
    TotalPositive(front, key, side);
    WorthAdds(SumOf(front, Shares), Shares(t), t.price);
    if front != [] {
      ValueBelowLast(front, key, side);
      WorthRises(SumOf(front, Shares), front[|front| - 1].price, t.price);
    } else {
      assert SumOf(front, Shares) == 0 && RealSumOf(front, Value) == 0.0;
    }
  }

  // One more trade at a higher price: `average` stays at or above the mean of all values,
  // strictly so once it was, or when the price rises above it.
  lemma StaysAboveMean(b: int, s: int, f: int, value: real, average: real, next: real, price: real)
    requires 0 < s < b && f > 0 && average <= price && value <= Worth(b, average)
    requires Worth(b - s + f, next) == Worth(b - s, average) + Worth(f, price)
    ensures value + Worth(f, price) <= Worth(b + f, next) && next <= price
    ensures value < Worth(b, average) || average < price ==> value + Worth(f, price) < Worth(b + f, next)
  {
    var rise := next - average;
    assert Worth(b - s + f, rise) == Worth(f, price - average) by {
      RiseOf(b - s + f, f, average, next, price);
    }
    RiseIsSmall(b - s + f, f, rise, price - average);
    assert Worth(b + f, next) - Worth(f, price) - Worth(b, average) == Worth(s, rise) by {
      GapOf(b, s, f, average, next, price);
    }
    if average < price {
      RiseIsPositive(b - s + f, f, rise, price - average);
      WorthRises(s, 0.0, rise);
    } else {
      WorthRises(s, 0.0, rise);
    }
  }

  lemma RiseOf(n: int, f: int, average: real, next: real, price: real)
    requires Worth(n, next) == Worth(n - f, average) + Worth(f, price)
    ensures Worth(n, next - average) == Worth(f, price - average)
  {
  }

  lemma RiseIsSmall(n: int, f: int, rise: real, lead: real)
    requires 0 < f < n && lead >= 0.0 && Worth(n, rise) == Worth(f, lead)
    ensures 0.0 <= rise <= lead
  {
    assert Worth(f, lead) >= 0.0;
    if rise < 0.0 {
      WorthRises(n, rise, 0.0);
    } else if rise > lead {
      WorthRises(n, lead, rise);
      WorthAdds(f, n - f, lead);
    }
  }

  lemma RiseIsPositive(n: int, f: int, rise: real, lead: real)
    requires 0 < f < n && lead > 0.0 && Worth(n, rise) == Worth(f, lead)
    ensures rise > 0.0
  {
    WorthRises(f, 0.0, lead);
    if rise <= 0.0 {
      WorthRises(n, rise, 0.0);
    }
  }

  lemma GapOf(b: int, s: int, f: int, average: real, next: real, price: real)
    requires Worth(b - s + f, next) == Worth(b - s, average) + Worth(f, price)
    ensures Worth(b + f, next) - Worth(f, price) - Worth(b, average) == Worth(s, next - average)
  {
    WorthAdds(b - s + f, s, next);
    WorthAdds(b - s, s, average);
    assert Worth(s, next) - Worth(s, average) == Worth(s, next - average);
  }

  // What holds once `total` shares of value `value` have crossed `s` shares of the other
  // side, bought or sold at prices from `low` to `last`.
  ghost predicate AboveMean(h: Holding, side: Side, s: int, total: int, value: real, low: real, last: real) {
    && h.quantity == Signed(side, total - s)
    && h.average <= last
    && value <= Worth(total, h.average)
    && (low < last ==> value < Worth(total, h.average))
  }

  lemma ClimbsOn(h: Holding, side: Side, s: int, total: int, value: real, low: real, last: real, m: int, price: real)
    requires 0 < s < total && m > 0 && low <= last <= price
    requires AboveMean(h, side, s, total, value, low, last)
    ensures AboveMean(Hold(h, Signed(side, m), price), side, s, total + m, value + Worth(m, price), low, price)
  {
    var next := Hold(h, Signed(side, m), price);
    HoldAdds(side, total - s, h.average, m, price);
    StaysAboveMean(total, s, m, value, h.average, next.average, price);
  }

  ghost predicate Climbing(h: Holding, ts: seq<Trade>, s: nat, side: Side) {
    && h.quantity == Signed(side, SumOf(ts, Shares) - s)
    && (SumOf(ts, Shares) > s ==>
          && ts != []
          && AboveMean(h, side, s, SumOf(ts, Shares), RealSumOf(ts, Value), ts[0].price, ts[|ts| - 1].price))
  }

  lemma {:induction false} ClimbStep(before: Holding, s: nat, ts: seq<Trade>, key: string, side: Side)
    requires s > 0 && ts != [] && OnSide(ts, key, side) && Ascending(ts)
    requires Climbing(before, ts[..|ts| - 1], s, side)
    ensures Climbing(Hold(before, Signed(side, Shares(ts[|ts| - 1])), ts[|ts| - 1].price), ts, s, side)
  {
    TotalPositive(ts[..|ts| - 1], key, side);
    if SumOf(ts[..|ts| - 1], Shares) <= s {
      ClimbCrosses(before, s, ts, key, side);
    } else {
      ClimbGoesOn(before, s, ts, key, side);
    }
  }

  lemma {:induction false} ClimbCrosses(before: Holding, s: nat, ts: seq<Trade>, key: string, side: Side)
    requires ts != [] && OnSide(ts, key, side) && Ascending(ts) && 0 <= SumOf(ts[..|ts| - 1], Shares) <= s
    requires before.quantity == Signed(side, SumOf(ts[..|ts| - 1], Shares) - s)
    ensures Climbing(Hold(before, Signed(side, Shares(ts[|ts| - 1])), ts[|ts| - 1].price), ts, s, side)
  {
    HoldSnoc(before, ts, key, side);
    CrossesOver(before, s - SumOf(ts[..|ts| - 1], Shares), ts, key, side);
  }

  lemma {:induction false} ClimbGoesOn(before: Holding, s: nat, ts: seq<Trade>, key: string, side: Side)
    requires s > 0 && ts != [] && OnSide(ts, key, side) && Ascending(ts) && SumOf(ts[..|ts| - 1], Shares) > s
    requires Climbing(before, ts[..|ts| - 1], s, side)
    ensures Climbing(Hold(before, Signed(side, Shares(ts[|ts| - 1])), ts[|ts| - 1].price), ts, s, side)
  {
    var front, t := ts[..|ts| - 1], ts[|ts| - 1];
    var b, value, low, last := SumOf(front, Shares), RealSumOf(front, Value), front[0].price, front[|front| - 1].price;
    HoldSnoc(before, ts, key, side);
    ClimbsOn(before, side, s, b, value, low, last, Shares(t), t.price);
  }

  // From the other side and in ascending order of price: whatever has crossed over has an
  // average at or above the mean price, and above it when the prices differ.
  lemma {:induction false} Climbs(h: Holding, s: nat, ts: seq<Trade>, key: string, side: Side)
    requires s > 0 && h.quantity == Signed(Other(side), s) && OnSide(ts, key, side) && Ascending(ts)
    ensures Climbing(HoldFrom(h, ts, key), ts, s, side)
  {
    if ts != [] {
      var front, t := ts[..|ts| - 1], ts[|ts| - 1];
      Climbs(h, s, front, key, side);
      ClimbStep(HoldFrom(h, front, key), s, ts, key, side);
      HoldSnoc(h, ts, key, side);
    }
  }

  // The trade that crosses over sets the average to its own price.
  lemma {:induction false} CrossesOver(before: Holding, rest: nat, ts: seq<Trade>, key: string, side: Side)
    requires ts != [] && OnSide(ts, key, side) && Ascending(ts) && before.quantity == Signed(Other(side), rest)
    ensures
      var t, total := ts[|ts| - 1], SumOf(ts, Shares);
      var after := Hold(before, Signed(side, Shares(t)), t.price);
      && after.quantity == Signed(side, Shares(t) - rest)
      && (Shares(t) > rest ==>
            AboveMean(after, side, total - (Shares(t) - rest), total, RealSumOf(ts, Value), ts[0].price, t.price))
  {
    var t := ts[|ts| - 1];
    if rest > 0 {
      HoldCrosses(side, rest, before.average, Shares(t), t.price);
    }
    ValueBelowLast(ts, key, side);
  }

  // ---- One price ------------------------------------------------------------------------------

  ghost predicate OnePrice(ts: seq<Trade>, key: string, side: Side, price: real) {
    forall i :: 0 <= i < |ts| && Key(ts[i]) == key && ts[i].side == side ==> ts[i].price == price
  }

  // When all trades of one side have one price, that is the average of every holding on
  // that side, whatever the other side does.
  lemma {:induction false} OnePriceIsAverage(ts: seq<Trade>, key: string, side: Side, price: real)
    requires OnePrice(ts, key, side, price)
    requires forall i :: 0 <= i < |ts| && Key(ts[i]) == key ==> Shares(ts[i]) > 0
    ensures
      var h := HoldFrom(NOTHING, ts, key);
      Signed(side, h.quantity) > 0 ==> h.average == price
  {
    if ts != [] {
      var front, t := ts[..|ts| - 1], ts[|ts| - 1];
      OnePriceIsAverage(front, key, side, price);
      if Key(t) == key {
        HoldKeepsPrice(HoldFrom(NOTHING, front, key), SignedShares(t), t.price, side, price);
      }
    }
  }

  lemma HoldKeepsPrice(h: Holding, fillQuantity: int, at: real, side: Side, price: real)
    requires Signed(side, h.quantity) > 0 ==> h.average == price
    requires Signed(side, fillQuantity) > 0 ==> at == price
    ensures Signed(side, Hold(h, fillQuantity, at).quantity) > 0 ==> Hold(h, fillQuantity, at).average == price
  {
    if Signed(side, h.quantity) > 0 && Signed(side, fillQuantity) >= 0 {
      SamePrice(h.quantity as real, fillQuantity as real, (h.quantity + fillQuantity) as real, price, at);
    }
  }

  lemma SamePrice(q: real, f: real, sum: real, price: real, at: real)
    requires sum == q + f != 0.0 && (f == 0.0 || at == price)
    ensures (q * price + f * at) / sum == price
  {
    assert q * price + f * at == sum * price;
    Cancels(sum, price);
  }

  lemma Cancels(sum: real, price: real)
    requires sum != 0.0
    ensures (sum * price) / sum == price
  {
  }

  // ---- Arrangements of a ledger ------------------------------------------------------------------

  function Pick(fs: seq<LedgerFill>, chosen: LedgerFill -> bool): seq<LedgerFill> {
    if fs == [] then []
    else Pick(fs[..|fs| - 1], chosen) + if chosen(fs[|fs| - 1]) then [fs[|fs| - 1]] else []
  }

  lemma {:induction false} PickSpec(fs: seq<LedgerFill>, chosen: LedgerFill -> bool)
    ensures forall f :: f in Pick(fs, chosen) <==> f in fs && chosen(f)
  {
    if fs != [] {
      assert fs == fs[..|fs| - 1] + [fs[|fs| - 1]];
      PickSpec(fs[..|fs| - 1], chosen);
    }
  }

  lemma {:induction false} PicksSplit(fs: seq<LedgerFill>, a: LedgerFill -> bool, b: LedgerFill -> bool,
                                      c: LedgerFill -> bool)
    requires forall f :: (if a(f) then 1 else 0) + (if b(f) then 1 else 0) + (if c(f) then 1 else 0) == 1
    ensures multiset(Pick(fs, a)) + multiset(Pick(fs, b)) + multiset(Pick(fs, c)) == multiset(fs)
  {
    if fs != [] {
      assert fs == fs[..|fs| - 1] + [fs[|fs| - 1]];
      PicksSplit(fs[..|fs| - 1], a, b, c);
    }
  }

  function Elsewhere(key: string): LedgerFill -> bool {
    (f: LedgerFill) => Key(AsTrade(f)) != key
  }

  function OfSide(key: string, side: Side): LedgerFill -> bool {
    (f: LedgerFill) => Key(AsTrade(f)) == key && f.side == side
  }

  function InsertByPrice(fs: seq<LedgerFill>, f: LedgerFill): seq<LedgerFill> {
    if fs == [] || fs[|fs| - 1].price <= f.price then fs + [f]
    else InsertByPrice(fs[..|fs| - 1], f) + [fs[|fs| - 1]]
  }

  function SortByPrice(fs: seq<LedgerFill>): seq<LedgerFill> {
    if fs == [] then [] else InsertByPrice(SortByPrice(fs[..|fs| - 1]), fs[|fs| - 1])
  }

  ghost predicate PricesAscend(fs: seq<LedgerFill>) {
    forall i, j :: 0 <= i <= j < |fs| ==> fs[i].price <= fs[j].price
  }

  lemma {:induction false} InsertByPriceKeeps(fs: seq<LedgerFill>, f: LedgerFill)
    ensures multiset(InsertByPrice(fs, f)) == multiset(fs) + multiset{f}
  {
    if fs != [] && fs[|fs| - 1].price > f.price {
      assert fs == fs[..|fs| - 1] + [fs[|fs| - 1]];
      InsertByPriceKeeps(fs[..|fs| - 1], f);
    }
  }

  lemma {:induction false} InsertByPriceAscends(fs: seq<LedgerFill>, f: LedgerFill)
    requires PricesAscend(fs)
    ensures PricesAscend(InsertByPrice(fs, f))
  {
    if fs != [] && fs[|fs| - 1].price > f.price {
      var front, last := fs[..|fs| - 1], fs[|fs| - 1];
      InsertByPriceAscends(front, f);
      InsertByPriceKeeps(front, f);
      var r := InsertByPrice(front, f);
      forall i | 0 <= i < |r|
        ensures r[i].price <= last.price
      {
        assert r[i] in multiset(r);
        assert r[i] == f || r[i] in front;
      }
    }
  }

  lemma {:induction false} SortByPriceSpec(fs: seq<LedgerFill>)
    ensures PricesAscend(SortByPrice(fs))
    ensures multiset(SortByPrice(fs)) == multiset(fs)
  {
    if fs != [] {
      assert fs == fs[..|fs| - 1] + [fs[|fs| - 1]];
      SortByPriceSpec(fs[..|fs| - 1]);
      InsertByPriceKeeps(SortByPrice(fs[..|fs| - 1]), fs[|fs| - 1]);
      InsertByPriceAscends(SortByPrice(fs[..|fs| - 1]), fs[|fs| - 1]);
    }
  }

  lemma {:induction false} TradesAt(fs: seq<LedgerFill>)
    ensures |TradesOf(fs)| == |fs| && forall i :: 0 <= i < |fs| ==> TradesOf(fs)[i] == AsTrade(fs[i])
  {
    if fs != [] {
      TradesAt(fs[..|fs| - 1]);
    }
  }

  lemma SideTrades(fs: seq<LedgerFill>, key: string, side: Side)
    requires forall f :: f in fs ==> f.Valid() && OfSide(key, side)(f)
    ensures OnSide(TradesOf(fs), key, side)
  {
    TradesAt(fs);
    TradesAreOfFills(fs);
    forall i | 0 <= i < |fs|
      ensures Key(TradesOf(fs)[i]) == key && TradesOf(fs)[i].side == side && Shares(TradesOf(fs)[i]) > 0
    {
      assert fs[i] in fs && TradesOf(fs)[i] in TradesOf(fs);
    }
  }

  lemma {:induction false} NothingElsewhere(fs: seq<LedgerFill>, key: string)
    requires forall f :: f in fs ==> Elsewhere(key)(f)
    ensures HoldFrom(NOTHING, TradesOf(fs), key) == NOTHING && SumOf(TradesOf(fs), NetOf(key)) == 0
  {
    if fs != [] {
      assert fs == fs[..|fs| - 1] + [fs[|fs| - 1]] && fs[|fs| - 1] in fs;
      NothingElsewhere(fs[..|fs| - 1], key);
    }
  }

  lemma {:induction false} NetOnSide(ts: seq<Trade>, key: string, side: Side)
    requires OnSide(ts, key, side)
    ensures SumOf(ts, NetOf(key)) == Signed(side, SumOf(ts, Shares))
  {
    if ts != [] {
      NetOnSide(ts[..|ts| - 1], key, side);
    }
  }

  // The holding that a live order of arrival leaves.
  function LiveHolding(live: seq<LedgerFill>, key: string): Holding {
    HoldingIn(Run(START, Deliveries(live)).book, key)
  }

  lemma {:induction false} ArrangementHolds(ledger: seq<LedgerFill>, fs: seq<LedgerFill>, key: string)
    requires Consistent(ledger) && WithinOrders(ledger) && multiset(fs) == multiset(ledger)
    ensures LiveHolding(fs, key) == HoldFrom(NOTHING, TradesOf(fs), key)
    ensures SumOf(TradesOf(fs), NetOf(key)) == SumOf(TradesOf(ledger), NetOf(key))
    ensures Dedupe(fs) == fs
  {
    SameTradesApplied(ledger, fs, key);
    RunHolds(Deliveries(fs), key);
    UniqueIdsRearranged(ledger, fs);
    DedupeOfDistinct(fs);
  }

  function NetSide(ledger: seq<LedgerFill>, key: string): Side {
    if SumOf(TradesOf(ledger), NetOf(key)) > 0 then Buy else Sell
  }

  // The instrument is flat, or was only bought or only sold, or all its fills on the side
  // of the net position have one price.
  ghost predicate OrderFree(ledger: seq<LedgerFill>, key: string) {
    var side := NetSide(ledger, key);
    || SumOf(TradesOf(ledger), NetOf(key)) == 0
    || BoughtOrSoldOnly(ledger, key, side)
    || (forall f, g :: f in ledger && g in ledger && OfSide(key, side)(f) && OfSide(key, side)(g) ==>
          f.price == g.price)
  }

  function RestOf(ledger: seq<LedgerFill>, key: string): seq<LedgerFill> {
    Pick(ledger, Elsewhere(key))
  }

  function SideOf(ledger: seq<LedgerFill>, key: string, side: Side): seq<LedgerFill> {
    Pick(ledger, OfSide(key, side))
  }

  function TotalOf(ledger: seq<LedgerFill>, key: string, side: Side): int {
    SumOf(TradesOf(SideOf(ledger, key, side)), Shares)
  }

  function ValueOf(ledger: seq<LedgerFill>, key: string, side: Side): real {
    RealSumOf(TradesOf(SideOf(ledger, key, side)), Value)
  }

  lemma {:induction false} Parts(ledger: seq<LedgerFill>, key: string, side: Side)
    requires Consistent(ledger)
    ensures multiset(RestOf(ledger, key)) + multiset(SideOf(ledger, key, side))
          + multiset(SideOf(ledger, key, Other(side)))
         == multiset(ledger)
    ensures forall f :: f in RestOf(ledger, key) ==> Elsewhere(key)(f)
    ensures OnSide(TradesOf(SideOf(ledger, key, side)), key, side)
    ensures OnSide(TradesOf(SideOf(ledger, key, Other(side))), key, Other(side))
  {
    PickSpec(ledger, Elsewhere(key));
    PickSpec(ledger, OfSide(key, side));
    PickSpec(ledger, OfSide(key, Other(side)));
    PicksSplit(ledger, Elsewhere(key), OfSide(key, side), OfSide(key, Other(side)));
    SideTrades(SideOf(ledger, key, side), key, side);
    SideTrades(SideOf(ledger, key, Other(side)), key, Other(side));
  }

  // The net side has more shares.
  lemma {:induction false} NetSideIsLarger(ledger: seq<LedgerFill>, key: string)
    requires Consistent(ledger) && WithinOrders(ledger) && SumOf(TradesOf(ledger), NetOf(key)) != 0
    ensures TotalOf(ledger, key, Other(NetSide(ledger, key))) < TotalOf(ledger, key, NetSide(ledger, key))
  {
    var side := NetSide(ledger, key);
    var fs := (RestOf(ledger, key) + SideOf(ledger, key, side)) + SideOf(ledger, key, Other(side));
    Parts(ledger, key, side);
    assert SumOf(TradesOf(fs), NetOf(key)) == SumOf(TradesOf(ledger), NetOf(key)) by {
      ArrangementHolds(ledger, fs, key);
    }
    NetOfThree(RestOf(ledger, key), SideOf(ledger, key, side), SideOf(ledger, key, Other(side)), key, side);
    SignOfDifference(side, TotalOf(ledger, key, side), TotalOf(ledger, key, Other(side)));
  }

  // Two parts of the instrument one after the other, behind everything else.
  lemma {:induction false} PartsHold(ledger: seq<LedgerFill>, a: seq<LedgerFill>, b: seq<LedgerFill>, key: string)
      returns (fs: seq<LedgerFill>)
    requires Consistent(ledger) && WithinOrders(ledger)
    requires multiset(RestOf(ledger, key)) + multiset(a) + multiset(b) == multiset(ledger)
    ensures multiset(fs) == multiset(ledger)
    ensures LiveHolding(fs, key) == HoldFrom(HoldFrom(NOTHING, TradesOf(a), key), TradesOf(b), key)
  {
    fs := (RestOf(ledger, key) + a) + b;
    PickSpec(ledger, Elsewhere(key));
    ArrangementHolds(ledger, fs, key);
    HoldOfThree(RestOf(ledger, key), a, b, key);
  }

  // The fills of the net side before those of the other one.
  lemma {:induction false} NetSideFirst(ledger: seq<LedgerFill>, key: string) returns (fs: seq<LedgerFill>)
    requires Consistent(ledger) && WithinOrders(ledger) && SumOf(TradesOf(ledger), NetOf(key)) != 0
    ensures
      var side := NetSide(ledger, key);
      && multiset(fs) == multiset(ledger)
      && Worth(TotalOf(ledger, key, side), LiveHolding(fs, key).average) == ValueOf(ledger, key, side)
  {
    var side := NetSide(ledger, key);
    NetSideIsLarger(ledger, key);
    Parts(ledger, key, side);
    fs := PartsHold(ledger, SideOf(ledger, key, side), SideOf(ledger, key, Other(side)), key);
    BuildsAndReduces(TradesOf(SideOf(ledger, key, side)), TradesOf(SideOf(ledger, key, Other(side))), key, side);
  }

  lemma {:induction false} BuildsAndReduces(same: seq<Trade>, other: seq<Trade>, key: string, side: Side)
    requires OnSide(same, key, side) && OnSide(other, key, Other(side)) && SumOf(other, Shares) < SumOf(same, Shares)
    ensures
      var h := HoldFrom(HoldFrom(NOTHING, same, key), other, key);
      Worth(SumOf(same, Shares), h.average) == RealSumOf(same, Value)
  {
    Builds(same, key, side);
    TotalPositive(same, key, side);
    Reduces(HoldFrom(NOTHING, same, key), SumOf(same, Shares), other, key, side);
  }

  lemma {:induction false} NetOfThree(rest: seq<LedgerFill>, same: seq<LedgerFill>, other: seq<LedgerFill>,
                                      key: string, side: Side)
    requires forall f :: f in rest ==> Elsewhere(key)(f)
    requires OnSide(TradesOf(same), key, side) && OnSide(TradesOf(other), key, Other(side))
    ensures SumOf(TradesOf((rest + same) + other), NetOf(key))
         == Signed(side, SumOf(TradesOf(same), Shares)) + Signed(Other(side), SumOf(TradesOf(other), Shares))
  {
    NetAppend(rest, same, key);
    NetAppend(rest + same, other, key);
    NothingElsewhere(rest, key);
    NetOnSide(TradesOf(same), key, side);
    NetOnSide(TradesOf(other), key, Other(side));
  }

  lemma SignOfDifference(side: Side, b: int, s: int)
    requires Signed(side, Signed(side, b) + Signed(Other(side), s)) > 0
    ensures s < b
  {
  }

  lemma NetAppend(a: seq<LedgerFill>, b: seq<LedgerFill>, key: string)
    ensures SumOf(TradesOf(a + b), NetOf(key)) == SumOf(TradesOf(a), NetOf(key)) + SumOf(TradesOf(b), NetOf(key))
  {
    TradesAppend(a, b);
    SumOfAppend(TradesOf(a), TradesOf(b), NetOf(key));
  }

  lemma HoldOfThree(rest: seq<LedgerFill>, a: seq<LedgerFill>, b: seq<LedgerFill>, key: string)
    requires forall f :: f in rest ==> Elsewhere(key)(f)
    ensures HoldFrom(NOTHING, TradesOf((rest + a) + b), key)
         == HoldFrom(HoldFrom(NOTHING, TradesOf(a), key), TradesOf(b), key)
  {
    TradesAppend(rest, a);
    TradesAppend(rest + a, b);
    HoldAppend(NOTHING, TradesOf(rest), TradesOf(a), key);
    HoldAppend(NOTHING, TradesOf(rest + a), TradesOf(b), key);
    NothingElsewhere(rest, key);
  }

  lemma ClimbsPastMean(ledger: seq<LedgerFill>, key: string)
    requires Consistent(ledger) && WithinOrders(ledger) && !OrderFree(ledger, key)
    ensures
      var side := NetSide(ledger, key);
      var other, sorted := SideOf(ledger, key, Other(side)), SortByPrice(SideOf(ledger, key, side));
      var h := HoldFrom(HoldFrom(NOTHING, TradesOf(other), key), TradesOf(sorted), key);
      ValueOf(ledger, key, side) < Worth(TotalOf(ledger, key, side), h.average)
  {
    var side := NetSide(ledger, key);
    NetSideIsLarger(ledger, key);
    Parts(ledger, key, side);
    SortedSide(ledger, key, side);
    SomeOnOtherSide(ledger, key, side);
    var other, sorted := SideOf(ledger, key, Other(side)), SortByPrice(SideOf(ledger, key, side));
    BuildsAndClimbs(TradesOf(other), TradesOf(sorted), key, side);
  }

  // The fills of the other side before those of the net side, these from the lowest price
  // to the highest.
  lemma {:induction false} NetSideLast(ledger: seq<LedgerFill>, key: string) returns (fs: seq<LedgerFill>)
    requires Consistent(ledger) && WithinOrders(ledger) && !OrderFree(ledger, key)
    ensures
      var side := NetSide(ledger, key);
      && multiset(fs) == multiset(ledger)
      && ValueOf(ledger, key, side) < Worth(TotalOf(ledger, key, side), LiveHolding(fs, key).average)
  {
    var side := NetSide(ledger, key);
    Parts(ledger, key, side);
    SortByPriceSpec(SideOf(ledger, key, side));
    fs := PartsHold(ledger, SideOf(ledger, key, Other(side)), SortByPrice(SideOf(ledger, key, side)), key);
    ClimbsPastMean(ledger, key);
  }

  lemma {:induction false} BuildsAndClimbs(other: seq<Trade>, sorted: seq<Trade>, key: string, side: Side)
    requires OnSide(sorted, key, side) && OnSide(other, key, Other(side)) && Ascending(sorted)
    requires other != [] && SumOf(other, Shares) < SumOf(sorted, Shares)
    requires sorted != [] && sorted[0].price < sorted[|sorted| - 1].price
    ensures
      var h := HoldFrom(HoldFrom(NOTHING, other, key), sorted, key);
      RealSumOf(sorted, Value) < Worth(SumOf(sorted, Shares), h.average)
  {
    TotalPositive(other, key, Other(side));
    Builds(other, key, Other(side));
    Climbs(HoldFrom(NOTHING, other, key), SumOf(other, Shares), sorted, key, side);
  }

  lemma {:induction false} SortedSide(ledger: seq<LedgerFill>, key: string, side: Side)
    requires Consistent(ledger)
    requires exists f, g ::
               f in ledger && g in ledger && OfSide(key, side)(f) && OfSide(key, side)(g) && f.price != g.price
    ensures
      var sorted := SortByPrice(SideOf(ledger, key, side));
      && multiset(sorted) == multiset(SideOf(ledger, key, side))
      && OnSide(TradesOf(sorted), key, side) && Ascending(TradesOf(sorted))
      && TradesOf(sorted) != [] && TradesOf(sorted)[0].price < TradesOf(sorted)[|TradesOf(sorted)| - 1].price
      && SumOf(TradesOf(sorted), Shares) == TotalOf(ledger, key, side)
      && RealSumOf(TradesOf(sorted), Value) == ValueOf(ledger, key, side)
  {
    var same := SideOf(ledger, key, side);
    var sorted := SortByPrice(same);
    PickSpec(ledger, OfSide(key, side));
    SortByPriceSpec(same);
    MultisetSize(sorted, same);
    SideTrades(sorted, key, side);
    PricesDiffer(ledger, sorted, key, side);
    TradesRearranged(sorted, same);
    SumOfRearranged(TradesOf(sorted), TradesOf(same), Shares);
    RealSumOfRearranged(TradesOf(sorted), TradesOf(same), Value);
  }

  lemma SomeOnOtherSide(ledger: seq<LedgerFill>, key: string, side: Side)
    requires !BoughtOrSoldOnly(ledger, key, side)
    ensures TradesOf(SideOf(ledger, key, Other(side))) != []
  {
    TradesAt(SideOf(ledger, key, Other(side)));
    PickSpec(ledger, OfSide(key, Other(side)));
    var f :| f in ledger && Key(AsTrade(f)) == key && f.side != side;
    assert f in SideOf(ledger, key, Other(side));
  }

  lemma {:induction false} PricesDiffer(ledger: seq<LedgerFill>, sorted: seq<LedgerFill>, key: string, side: Side)
    requires forall f :: f in sorted <==> f in ledger && OfSide(key, side)(f)
    requires exists f, g ::
               f in ledger && g in ledger && OfSide(key, side)(f) && OfSide(key, side)(g) && f.price != g.price
    requires PricesAscend(sorted)
    ensures sorted != [] && Ascending(TradesOf(sorted))
    ensures TradesOf(sorted)[0].price < TradesOf(sorted)[|TradesOf(sorted)| - 1].price
  {
    var f, g :| f in ledger && g in ledger && OfSide(key, side)(f) && OfSide(key, side)(g) && f.price != g.price;
    EndsApart(sorted, f, g);
    TradesAt(sorted);
  }

  lemma EndsApart(sorted: seq<LedgerFill>, f: LedgerFill, g: LedgerFill)
    requires PricesAscend(sorted) && f in sorted && g in sorted && f.price != g.price
    ensures sorted[0].price < sorted[|sorted| - 1].price
  {
    var i :| 0 <= i < |sorted| && sorted[i] == f;
    var j :| 0 <= j < |sorted| && sorted[j] == g;
    assert sorted[0].price <= sorted[i].price <= sorted[|sorted| - 1].price;
    assert sorted[0].price <= sorted[j].price <= sorted[|sorted| - 1].price;
  }

  lemma {:induction false} OnePriceHolding(ledger: seq<LedgerFill>, fs: seq<LedgerFill>, key: string, price: real)
    requires Consistent(ledger) && WithinOrders(ledger) && multiset(fs) == multiset(ledger)
    requires SumOf(TradesOf(ledger), NetOf(key)) != 0
    requires forall f :: f in ledger && OfSide(key, NetSide(ledger, key))(f) ==> f.price == price
    ensures LiveHolding(fs, key).average == price
  {
    ArrangementHolds(ledger, fs, key);
    OnePriceTrades(ledger, fs, key, NetSide(ledger, key), price);
    HeldQuantity(ledger, fs, key);
    OnePriceIsAverage(TradesOf(fs), key, NetSide(ledger, key), price);
  }

  lemma {:induction false} HeldQuantity(ledger: seq<LedgerFill>, fs: seq<LedgerFill>, key: string)
    requires Consistent(ledger) && WithinOrders(ledger) && multiset(fs) == multiset(ledger)
    ensures LiveHolding(fs, key).quantity == SumOf(TradesOf(ledger), NetOf(key))
  {
    SameTradesApplied(ledger, fs, key);
    BookIsSumOfAppliedTrades(Deliveries(fs), key);
  }

  lemma {:induction false} OnePriceTrades(ledger: seq<LedgerFill>, fs: seq<LedgerFill>, key: string, side: Side,
                                          price: real)
    requires (forall f :: f in ledger ==> f.Valid()) && multiset(fs) == multiset(ledger)
    requires forall f :: f in ledger && OfSide(key, side)(f) ==> f.price == price
    ensures OnePrice(TradesOf(fs), key, side, price)
    ensures forall i :: 0 <= i < |TradesOf(fs)| && Key(TradesOf(fs)[i]) == key ==> Shares(TradesOf(fs)[i]) > 0
  {
    MultisetSize(fs, ledger);
    TradesAt(fs);
    TradesAreOfFills(fs);
    forall i | 0 <= i < |fs|
      ensures TradesOf(fs)[i] == AsTrade(fs[i]) && fs[i] in ledger && Shares(TradesOf(fs)[i]) > 0
    {
      assert fs[i] in fs && TradesOf(fs)[i] in TradesOf(fs);
    }
  }

  lemma OrderFreeAgrees(ledger: seq<LedgerFill>, live: seq<LedgerFill>, key: string)
    requires Consistent(ledger) && WithinOrders(ledger) && OrderFree(ledger, key)
    requires multiset(Dedupe(live)) == multiset(ledger)
    ensures HoldingIn(Recovered(ledger), key).average == LiveHolding(live, key).average
  {
    var side := NetSide(ledger, key);
    if SumOf(TradesOf(ledger), NetOf(key)) == 0 || BoughtOrSoldOnly(ledger, key, side) {
      RecoveredAverageEqualsLive(ledger, live, key, side);
    } else {
      var same := Pick(ledger, OfSide(key, side));
      PickSpec(ledger, OfSide(key, side));
      var price := if same == [] then 0.0 else same[0].price;
      assert same != [] ==> same[0] in same;
      SortIsSorted(ledger);
      OnlyFirstLiveFillsMatter(live);
      OnePriceHolding(ledger, Sort(ledger), key, price);
      OnePriceHolding(ledger, Dedupe(live), key, price);
    }
  }

  lemma {:induction false} OrderMatters(ledger: seq<LedgerFill>, key: string) returns (live: seq<LedgerFill>)
    requires Consistent(ledger) && WithinOrders(ledger) && !OrderFree(ledger, key)
    ensures multiset(Dedupe(live)) == multiset(ledger)
    ensures HoldingIn(Recovered(ledger), key).average != LiveHolding(live, key).average
  {
    var first := NetSideFirst(ledger, key);
    var last := NetSideLast(ledger, key);
    ArrangementHolds(ledger, first, key);
    ArrangementHolds(ledger, last, key);
    live := if HoldingIn(Recovered(ledger), key).average == LiveHolding(first, key).average then last else first;
  }

  // The average price is recovered for every order in which the fills may have arrived
  // live if and only if the instrument is flat, was only bought or only sold, or has one
  // price on the side of its net position.
  lemma {:induction false} AverageRecoveredIff(ledger: seq<LedgerFill>, key: string)
    requires Consistent(ledger) && WithinOrders(ledger)
    ensures OrderFree(ledger, key)
       <==> forall live :: multiset(Dedupe(live)) == multiset(ledger) ==>
              HoldingIn(Recovered(ledger), key).average == LiveHolding(live, key).average
  {
    if OrderFree(ledger, key) {
      forall live | multiset(Dedupe(live)) == multiset(ledger)
        ensures HoldingIn(Recovered(ledger), key).average == LiveHolding(live, key).average
      {
        OrderFreeAgrees(ledger, live, key);
      }
    } else {
      var live := OrderMatters(ledger, key);
    }
  }

  // Of a position that is not flat, the realised profit is recovered exactly when the
  // average price is; of a flat one it always is.
  lemma RealizedRecoveredIff(ledger: seq<LedgerFill>, live: seq<LedgerFill>, key: string)
    requires Consistent(ledger) && WithinOrders(ledger)
    requires multiset(Dedupe(live)) == multiset(ledger)
    ensures
      var recovered, book := Recovered(ledger), Run(START, Deliveries(live)).book;
      RealizedAt(recovered, key) == RealizedAt(book, key)
      <==> Held(book, key) == 0 || HoldingIn(recovered, key).average == HoldingIn(book, key).average
  {
    RecoveryEqualsLive(ledger, live, key);
    CashIsSumOfAppliedTrades(Deliveries(Sort(ledger)), key);
    CashIsSumOfAppliedTrades(Deliveries(live), key);
    SameRealizedIff(Recovered(ledger), Run(START, Deliveries(live)).book, key);
  }

  lemma SameRealizedIff(a: Book, b: Book, key: string)
    requires (key in a ==> a[key].multiplier == 1.0) && (key in b ==> b[key].multiplier == 1.0)
    requires Held(a, key) == Held(b, key) && CashOf(a, key) == CashOf(b, key)
    ensures RealizedAt(a, key) == RealizedAt(b, key)
       <==> Held(b, key) == 0 || HoldingIn(a, key).average == HoldingIn(b, key).average
  {
    ProfitFromCash(a, key, 0.0);
    ProfitFromCash(b, key, 0.0);
    CostIsWorth(a, key);
    CostIsWorth(b, key);
    if Held(b, key) != 0 && CostAt(a, key) == CostAt(b, key) {
      EqualFactor(Held(b, key) as real, a[key].avgPrice, b[key].avgPrice);
    }
  }

  lemma CostIsWorth(book: Book, key: string)
    ensures CostAt(book, key) == Worth(Held(book, key), HoldingIn(book, key).average)
  {
  }

  // Realised profit, too, is recovered for every order of arrival under the same condition.
  lemma RealizedRecoveredForAllIff(ledger: seq<LedgerFill>, key: string)
    requires Consistent(ledger) && WithinOrders(ledger)
    ensures OrderFree(ledger, key)
       <==> forall live :: multiset(Dedupe(live)) == multiset(ledger) ==>
              RealizedAt(Recovered(ledger), key) == RealizedAt(Run(START, Deliveries(live)).book, key)
  {
    if OrderFree(ledger, key) {
      forall live | multiset(Dedupe(live)) == multiset(ledger)
        ensures RealizedAt(Recovered(ledger), key) == RealizedAt(Run(START, Deliveries(live)).book, key)
      {
        OrderFreeAgrees(ledger, live, key);
        RealizedRecoveredIff(ledger, live, key);
      }
    } else {
      var live := OrderMatters(ledger, key);
      RealizedDiffers(ledger, live, key);
    }
  }

  lemma {:induction false} RealizedDiffers(ledger: seq<LedgerFill>, live: seq<LedgerFill>, key: string)
    requires Consistent(ledger) && WithinOrders(ledger) && multiset(Dedupe(live)) == multiset(ledger)
    requires SumOf(TradesOf(ledger), NetOf(key)) != 0
    requires HoldingIn(Recovered(ledger), key).average != LiveHolding(live, key).average
    ensures RealizedAt(Recovered(ledger), key) != RealizedAt(Run(START, Deliveries(live)).book, key)
  {
    RealizedRecoveredIff(ledger, live, key);
    RecoveryEqualsLive(ledger, live, key);
    SortIsSorted(ledger);
    HeldQuantity(ledger, Sort(ledger), key);
  }
}
