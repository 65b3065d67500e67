// Net positions and their profit and loss (src/domain/entities/position.py).
// Decimal amounts are exact reals.
module Positions {
  import opened Common

  predicate Closes(quantity: int, fillQuantity: int) {
    (quantity > 0 && fillQuantity < 0) || (quantity < 0 && fillQuantity > 0)
  }

  // The average price of a position of `quantity` at `average` after a signed fill.
  function AverageAfter(quantity: int, average: real, fillQuantity: int, price: real): real {
    var newQuantity := quantity + fillQuantity;
    if quantity == 0 then price
    else if Closes(quantity, fillQuantity) then
      if newQuantity == 0 then 0.0
      else if Abs(fillQuantity) > Abs(quantity) then price
      else average
    else ((quantity as real) * average + (fillQuantity as real) * price) / (newQuantity as real)
  }

  datatype Position = Position(
    symbol: string,
    exchange: string,
    quantity: int,
    avgPrice: real,
    ltp: real,
    unrealizedPnl: real,
    realizedPnl: real,
    multiplier: real
  ) {
    function Mult(): real {
      if multiplier > 0.0 then multiplier else 1.0
    }

    predicate IsClosing(fillQuantity: int) {
      Closes(quantity, fillQuantity)
    }

    function AvgPriceAfter(fillQuantity: int, price: real): real {
      AverageAfter(quantity, avgPrice, fillQuantity, price)
    }

    function RealizedAfter(fillQuantity: int, price: real): real {
      if quantity == 0 || !IsClosing(fillQuantity) then realizedPnl
      else
        var closed := if Abs(quantity) < Abs(fillQuantity) then Abs(quantity) else Abs(fillQuantity);
        var direction := if quantity > 0 then 1.0 else -1.0;
        realizedPnl + (closed as real) * (price - avgPrice) * direction * Mult()
    }

    function UnrealizedAt(newQuantity: int, price: real, average: real): real {
      if newQuantity == 0 then 0.0 else (newQuantity as real) * (price - average) * Mult()
    }

    // The position after a signed fill.
    function WithFill(fillQuantity: int, price: real): Position {
      var newQuantity := quantity + fillQuantity;
      var newAverage := AvgPriceAfter(fillQuantity, price);
      this.(quantity := newQuantity,
            avgPrice := newAverage,
            ltp := price,
            unrealizedPnl := UnrealizedAt(newQuantity, price, newAverage),
            realizedPnl := RealizedAfter(fillQuantity, price))
    }

    // Marking to a new last-traded price.
    function WithLtp(price: real): Position {
      this.(ltp := price, unrealizedPnl := UnrealizedAt(quantity, price, avgPrice))
    }

    // Realised profit less the cost of what is still held: the cash the fills so far
    // have brought in, whatever average price the book keeps.
    function CashBalance(): real {
      realizedPnl - Mult() * (quantity as real) * avgPrice
    }
  }

  function Flat(symbol: string, exchange: string): Position {
    Position(symbol, exchange, 0, 0.0, 0.0, 0.0, 0.0, 1.0)
  }

  // Opening, adding, reducing, closing and reversing all move the cash balance by
  // exactly the cash of the fill; a multiplier that is not positive counts as one.
  lemma FillMovesCashByItsValue(p: Position, fillQuantity: int, price: real)
    ensures p.WithFill(fillQuantity, price).CashBalance()
         == p.CashBalance() - (if p.multiplier > 0.0 then p.multiplier else 1.0) * ((fillQuantity as real) * price)
  {
    var after := p.WithFill(fillQuantity, price);
    var m, q, f, avg := p.Mult(), p.quantity as real, fillQuantity as real, p.avgPrice;
    assert after.quantity as real == q + f;
    assert after.Mult() == m;
    if p.quantity == 0 {
      assert q == 0.0;
      Expand(m, q, f, price);
    } else if !p.IsClosing(fillQuantity) {
      AverageKeepsCost(q, f, avg, price);
      assert (q + f) * after.avgPrice == q * avg + f * price;
      assert m * (q + f) * after.avgPrice == m * ((q + f) * after.avgPrice);
      Expand(m, q, f, price);
    } else if Abs(fillQuantity) > Abs(p.quantity) || p.quantity + fillQuantity == 0 {
      ClosesHeld(p, fillQuantity, price);
      Expand(m, q, f, price);
    } else {
      ClosesFilled(p, fillQuantity, price);
      Expand(m, q, f, avg);
    }
  }

  // After any fill and any later mark, realised plus unrealised profit is the cash
  // balance plus the market value of what is held.
  lemma TotalPnlIsCashPlusMarketValue(p: Position, fillQuantity: int, price: real, mark: real)
    ensures
      var filled := p.WithFill(fillQuantity, price);
      && filled.realizedPnl + filled.unrealizedPnl
         == filled.CashBalance() + p.Mult() * (filled.quantity as real) * price
      && filled.WithLtp(mark).CashBalance() == filled.CashBalance()
      && filled.WithLtp(mark).realizedPnl + filled.WithLtp(mark).unrealizedPnl
         == filled.CashBalance() + p.Mult() * (filled.quantity as real) * mark
  {
    var filled := p.WithFill(fillQuantity, price);
    MarkedProfit(filled, price);
    MarkedProfit(filled, mark);
  }

  // Marking changes nothing but the last price and the unrealised profit.
  lemma MarkKeepsTheRest(p: Position, mark: real)
    ensures p.WithLtp(mark).(unrealizedPnl := p.unrealizedPnl) == p.(ltp := mark)
  {
  }

  lemma MarkedProfit(p: Position, mark: real)
    ensures p.WithLtp(mark).CashBalance() == p.CashBalance()
    ensures p.realizedPnl + p.UnrealizedAt(p.quantity, mark, p.avgPrice)
         == p.CashBalance() + p.Mult() * (p.quantity as real) * mark
  {
    MarketValue(p.Mult(), p.quantity as real, mark, p.avgPrice);
  }

  lemma MarketValue(m: real, q: real, price: real, avg: real)
    ensures q * (price - avg) * m == m * q * price - m * q * avg
  {
  }

  // An instrument without a multiplier of its own.
  lemma UnitCash(p: Position, mark: real)
    requires p.multiplier == 1.0
    ensures p.CashBalance() == p.realizedPnl - (p.quantity as real) * p.avgPrice
    ensures p.WithLtp(mark).realizedPnl + p.WithLtp(mark).unrealizedPnl == p.CashBalance() + (p.quantity as real) * mark
  {
    MarketValue(1.0, p.quantity as real, mark, p.avgPrice);
  }

  // What so many shares cost.
  function Cost(n: int, price: real): real {
    (n as real) * price
  }

  lemma UnitFill(p: Position, fillQuantity: int, price: real)
    requires p.multiplier == 1.0
    ensures p.WithFill(fillQuantity, price).CashBalance() == p.CashBalance() - Cost(fillQuantity, price)
  {
    FillMovesCashByItsValue(p, fillQuantity, price);
  }

  // What fixes the split between average price and realised profit: adding to a position
  // realises nothing and averages by quantity, reducing it leaves the average alone,
  // closing clears it and reversing restarts it at the price of the fill.
  lemma FillMovesAverageOrRealizes(p: Position, fillQuantity: int, price: real)
    ensures
      var after := p.WithFill(fillQuantity, price);
      var closing := (p.quantity > 0 > fillQuantity) || (p.quantity < 0 < fillQuantity);
      && after.quantity == p.quantity + fillQuantity && after.ltp == price
      && (after.symbol, after.exchange, after.multiplier) == (p.symbol, p.exchange, p.multiplier)
      && (!closing ==>
            && after.realizedPnl == p.realizedPnl
            && (after.quantity as real) * after.avgPrice
               == (p.quantity as real) * p.avgPrice + (fillQuantity as real) * price)
      && (closing && after.quantity != 0 ==>
            after.avgPrice == if (after.quantity > 0) == (p.quantity > 0) then p.avgPrice else price)
      && (closing && after.quantity == 0 ==> after.avgPrice == 0.0)
  {
    var q, f := p.quantity as real, fillQuantity as real;
    assert (p.quantity + fillQuantity) as real == q + f;
    if !p.IsClosing(fillQuantity) && p.quantity != 0 {
      AverageKeepsCost(q, f, p.avgPrice, price);
    }
  }

  lemma Expand(m: real, q: real, f: real, x: real)
    ensures m * (q + f) * x == m * (q * x) + m * (f * x)
  {
  }

  lemma AverageKeepsCost(q: real, f: real, avg: real, price: real)
    requires q + f != 0.0
    ensures (q + f) * ((q * avg + f * price) / (q + f)) == q * avg + f * price
  {
  }

  lemma ClosesHeld(p: Position, fillQuantity: int, price: real)
    requires p.IsClosing(fillQuantity) && Abs(p.quantity) <= Abs(fillQuantity)
    ensures p.RealizedAfter(fillQuantity, price)
         == p.realizedPnl + p.Mult() * ((p.quantity as real) * price) - p.Mult() * (p.quantity as real) * p.avgPrice
  {
    var c := Abs(p.quantity) as real;
    if p.quantity > 0 {
      assert c == p.quantity as real;
    } else {
      assert c == -(p.quantity as real);
    }
  }

  lemma ClosesFilled(p: Position, fillQuantity: int, price: real)
    requires p.IsClosing(fillQuantity) && Abs(fillQuantity) <= Abs(p.quantity)
    ensures p.RealizedAfter(fillQuantity, price)
         == p.realizedPnl - p.Mult() * ((fillQuantity as real) * price)
          + p.Mult() * ((fillQuantity as real) * p.avgPrice)
  {
    var c := Abs(fillQuantity) as real;
    if p.quantity > 0 {
      assert c == -(fillQuantity as real);
    } else {
      assert c == fillQuantity as real;
    }
  }

  // The average price and the realised profit alone do depend on the order of the fills:
  // buying 1 at 10 and 1 at 20 and selling 1 at 30, with the sale last or in between.
  lemma AverageDependsOnOrder(symbol: string, exchange: string)
    ensures
      var saleLast := Flat(symbol, exchange).WithFill(1, 10.0).WithFill(1, 20.0).WithFill(-1, 30.0);
      var saleBetween := Flat(symbol, exchange).WithFill(1, 10.0).WithFill(-1, 30.0).WithFill(1, 20.0);
      && saleLast.quantity == saleBetween.quantity
      && saleLast.avgPrice == 15.0 && saleBetween.avgPrice == 20.0
      && saleLast.realizedPnl == 15.0 && saleBetween.realizedPnl == 20.0
  {
  }
}
