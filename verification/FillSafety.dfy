// What every run of the fill pipeline keeps: redelivery is harmless, orders are never
// overfilled, and the book is exactly the sum of the trades that were applied.
module FillSafety {
  import opened Common
  import opened Positions
  import opened Fills

  lemma NextKeepsInStep(s: PipelineState, d: Delivery)
    requires s.InStep()
    ensures s.Next(d).InStep()
    ensures forall o: string :: s.Filled(o) <= s.Next(d).Filled(o)
    ensures s.reducer.seen <= s.Next(d).reducer.seen
  {
  }

  lemma {:induction false} RunAppend(s: PipelineState, a: seq<Delivery>, b: seq<Delivery>)
    ensures Run(s, a + b) == Run(Run(s, a), b)
  {
    if b == [] {
      assert a + b == a;
    } else {
      RunAppend(s, a, b[..|b| - 1]);
      assert (a + b)[..|a + b| - 1] == a + b[..|b| - 1];
    }
  }

  // Totals per order never fall, and accepted fill ids are never forgotten.
  lemma {:induction false} RunIsMonotone(s: PipelineState, ds: seq<Delivery>)
    requires s.InStep()
    ensures Run(s, ds).InStep()
    ensures forall o: string :: s.Filled(o) <= Run(s, ds).Filled(o)
    ensures s.reducer.seen <= Run(s, ds).reducer.seen
  {
    if ds != [] {
      RunIsMonotone(s, ds[..|ds| - 1]);
      NextKeepsInStep(Run(s, ds[..|ds| - 1]), ds[|ds| - 1]);
    }
  }

  // ---- Redelivery ------------------------------------------------------------------

  // A delivery the state does not apply stays that way whatever is delivered next.
  lemma SettledStays(s: PipelineState, d: Delivery, e: Delivery)
    requires s.InStep() && s.Decide(d) != Applied
    ensures s.Next(e).Decide(d) != Applied
  {
    NextKeepsInStep(s, e);
    assert s.Filled(OrderOf(d.trade)) <= s.Next(e).Filled(OrderOf(d.trade));
  }

  lemma AppliedIsSettled(s: PipelineState, d: Delivery)
    requires s.InStep()
    ensures s.Next(d).Decide(d) != Applied
  {
    if s.Decide(d) == Applied {
      assert d.trade.tradeId in s.Next(d).reducer.seen;
    }
  }

  // Once delivered, whatever the outcome was, a second copy is never applied.
  lemma {:induction false} DeliveredOnceIsSettled(s: PipelineState, ds: seq<Delivery>, i: nat)
    requires s.InStep() && i < |ds|
    ensures Run(s, ds).Decide(ds[i]) != Applied
  {
    var front, last := ds[..|ds| - 1], ds[|ds| - 1];
    RunIsMonotone(s, front);
    if i == |front| {
      AppliedIsSettled(Run(s, front), last);
    } else {
      DeliveredOnceIsSettled(s, front, i);
      SettledStays(Run(s, front), ds[i], last);
    }
  }

  lemma {:induction false} RedeliveryIsHarmless(s: PipelineState, ds: seq<Delivery>, i: nat, j: nat)
    requires s.InStep() && i < j <= |ds|
    ensures Run(s, ds[..j] + [ds[i]] + ds[j..]) == Run(s, ds)
  {
    DeliveredOnceIsSettled(s, ds[..j], i);
    var copied := ds[..j] + [ds[i]];
    assert copied[..|copied| - 1] == ds[..j];
    assert Run(s, copied) == Run(s, ds[..j]);
    RunAppend(s, copied, ds[j..]);
    RunAppend(s, ds[..j], ds[j..]);
    assert ds[..j] + ds[j..] == ds;
  }

  // Any pattern of redeliveries: only first occurrences matter.
  lemma {:induction false} OnlyFirstDeliveriesMatter(s: PipelineState, ds: seq<Delivery>)
    requires s.InStep()
    ensures Run(s, ds) == Run(s, Dedupe(ds))
  {
    if ds != [] {
      var front, d := ds[..|ds| - 1], ds[|ds| - 1];
      OnlyFirstDeliveriesMatter(s, front);
      if d in front {
        var i :| 0 <= i < |front| && front[i] == d;
        DeliveredOnceIsSettled(s, front, i);
      } else {
        assert (Dedupe(front) + [d])[..|Dedupe(front)|] == Dedupe(front);
      }
    }
  }

  // ---- Fill safety -----------------------------------------------------------------

  function SharesOf(orderId: string): Trade -> int {
    (t: Trade) => if OrderOf(t) == orderId then Shares(t) else 0
  }

  function NetOf(key: string): Trade -> int {
    (t: Trade) => if Key(t) == key then SignedShares(t) else 0
  }

  function CostOf(key: string): Trade -> real {
    (t: Trade) => if Key(t) == key then Cost(SignedShares(t), t.price) else 0.0
  }

  // No order is filled beyond a bound that all its deliveries respect; with one fixed
  // quantity per order that bound is the order's own quantity.
  lemma {:induction false} NeverOverfilled(ds: seq<Delivery>, orderId: string, bound: int)
    requires forall d :: d in ds && OrderOf(d.trade) == orderId ==>
               (if d.orderQuantity.Some? then d.orderQuantity.value else Shares(d.trade)) <= bound
    ensures 0 <= Run(START, ds).Filled(orderId)
    ensures Run(START, ds).Filled(orderId) == 0 || Run(START, ds).Filled(orderId) <= bound
  {
    if ds != [] {
      NeverOverfilled(ds[..|ds| - 1], orderId, bound);
      RunIsMonotone(START, ds[..|ds| - 1]);
      NextKeepsInStep(Run(START, ds[..|ds| - 1]), ds[|ds| - 1]);
      assert ds[|ds| - 1] in ds;
    }
  }

  function IdsOf(ts: seq<Trade>): set<string> {
    set t | t in ts :: t.tradeId
  }

  ghost predicate DistinctIds(ts: seq<Trade>) {
    forall i, j :: 0 <= i < j < |ts| ==> ts[i].tradeId != ts[j].tradeId
  }

  // Each fill id is applied at most once, and the ids applied are the ids remembered.
  lemma {:induction false} EachFillAppliedOnce(ds: seq<Delivery>)
    ensures DistinctIds(AppliedTrades(START, ds))
    ensures Run(START, ds).reducer.seen == IdsOf(AppliedTrades(START, ds))
  {
    if ds != [] {
      var front, d := ds[..|ds| - 1], ds[|ds| - 1];
      EachFillAppliedOnce(front);
      var before := AppliedTrades(START, front);
      if Run(START, front).Decide(d) == Applied {
        assert IdsOf(before + [d.trade]) == IdsOf(before) + {d.trade.tradeId};
        forall i | 0 <= i < |before|
          ensures before[i].tradeId != d.trade.tradeId
        {
          assert before[i].tradeId in IdsOf(before);
        }
      }
    }
  }

  lemma SumOfApplied(s: PipelineState, ds: seq<Delivery>, f: Trade -> int)
    requires ds != []
    ensures
      var front, d := ds[..|ds| - 1], ds[|ds| - 1];
      SumOf(AppliedTrades(s, ds), f)
      == SumOf(AppliedTrades(s, front), f) + if Run(s, front).Decide(d) == Applied then f(d.trade) else 0
  {
    var before, t := AppliedTrades(s, ds[..|ds| - 1]), ds[|ds| - 1].trade;
    assert (before + [t])[..|before|] == before;
    assert before + [] == before;
  }

  lemma RealSumOfApplied(s: PipelineState, ds: seq<Delivery>, f: Trade -> real)
    requires ds != []
    ensures
      var front, d := ds[..|ds| - 1], ds[|ds| - 1];
      RealSumOf(AppliedTrades(s, ds), f)
      == RealSumOf(AppliedTrades(s, front), f) + if Run(s, front).Decide(d) == Applied then f(d.trade) else 0.0
  {
    var before, t := AppliedTrades(s, ds[..|ds| - 1]), ds[|ds| - 1].trade;
    assert (before + [t])[..|before|] == before;
    assert before + [] == before;
  }

  // The three pieces of state stay in step with the applied trades: the filled total of
  // every order, the net quantity of every instrument, and the cash of every instrument.
  lemma {:induction false} TotalsMatchAppliedTrades(ds: seq<Delivery>, orderId: string)
    ensures Run(START, ds).InStep()
    ensures Run(START, ds).Filled(orderId) == SumOf(AppliedTrades(START, ds), SharesOf(orderId))
  {
    if ds != [] {
      TotalsMatchAppliedTrades(ds[..|ds| - 1], orderId);
      NextKeepsInStep(Run(START, ds[..|ds| - 1]), ds[|ds| - 1]);
      SumOfApplied(START, ds, SharesOf(orderId));
    }
  }

  lemma {:induction false} BookIsSumOfAppliedTrades(ds: seq<Delivery>, key: string)
    ensures Held(Run(START, ds).book, key) == SumOf(AppliedTrades(START, ds), NetOf(key))
  {
    if ds != [] {
      BookIsSumOfAppliedTrades(ds[..|ds| - 1], key);
      SumOfApplied(START, ds, NetOf(key));
    }
  }

  function CashOf(book: Book, key: string): real {
    if key in book then book[key].CashBalance() else 0.0
  }

  lemma {:induction false} ProjectingMovesCash(book: Book, t: Trade, key: string)
    requires key in book ==> book[key].multiplier == 1.0
    ensures key in Project(book, t) ==> Project(book, t)[key].multiplier == 1.0
    ensures CashOf(Project(book, t), key) == CashOf(book, key) - CostOf(key)(t)
  {
    if Key(t) == key {
      var current := if key in book then book[key] else Flat(t.symbol, t.exchange);
      UnitFill(current, SignedShares(t), t.price);
      assert Project(book, t)[key] == current.WithFill(SignedShares(t), t.price);
    }
  }

  lemma {:induction false} CashIsSumOfAppliedTrades(ds: seq<Delivery>, key: string)
    ensures key in Run(START, ds).book ==> Run(START, ds).book[key].multiplier == 1.0
    ensures CashOf(Run(START, ds).book, key) == -RealSumOf(AppliedTrades(START, ds), CostOf(key))
  {
    if ds != [] {
      var s, d := Run(START, ds[..|ds| - 1]), ds[|ds| - 1];
      CashIsSumOfAppliedTrades(ds[..|ds| - 1], key);
      RealSumOfApplied(START, ds, CostOf(key));
      if s.Decide(d) == Applied {
        ProjectingMovesCash(s.book, d.trade, key);
      }
    }
  }

  // Realised plus unrealised profit of an instrument at a mark price.
  function ProfitAt(book: Book, key: string, mark: real): real {
    if key in book then book[key].WithLtp(mark).realizedPnl + book[key].WithLtp(mark).unrealizedPnl else 0.0
  }

  // The market value of what is held of an instrument.
  function ValueAt(book: Book, key: string, mark: real): real {
    (Held(book, key) as real) * mark
  }

  // What is held of an instrument, at its average price.
  function CostAt(book: Book, key: string): real {
    if key in book then (book[key].quantity as real) * book[key].avgPrice else 0.0
  }

  function RealizedAt(book: Book, key: string): real {
    if key in book then book[key].realizedPnl else 0.0
  }

  lemma ProfitFromCash(book: Book, key: string, mark: real)
    requires key in book ==> book[key].multiplier == 1.0
    ensures ProfitAt(book, key, mark) == CashOf(book, key) + ValueAt(book, key, mark)
    ensures CashOf(book, key) == RealizedAt(book, key) - CostAt(book, key)
  {
    if key in book {
      UnitCash(book[key], mark);
    }
  }

  // Over every run: marked at any price, an instrument's total profit is the market value
  // of the net of its applied trades less what they cost.
  lemma {:induction false} TotalProfitIsCashPlusMarketValue(ds: seq<Delivery>, key: string, mark: real)
    ensures
      var book, applied := Run(START, ds).book, AppliedTrades(START, ds);
      && ProfitAt(book, key, mark) == CashOf(book, key) + ValueAt(book, key, mark)
      && CashOf(book, key) == -RealSumOf(applied, CostOf(key))
      && Held(book, key) == SumOf(applied, NetOf(key))
  {
    CashIsSumOfAppliedTrades(ds, key);
    BookIsSumOfAppliedTrades(ds, key);
    ProfitFromCash(Run(START, ds).book, key, mark);
  }

  // ---- What the average price is --------------------------------------------------------

  ghost predicate OneSided(ts: seq<Trade>, key: string, side: Side) {
    forall t :: t in ts && Key(t) == key ==> t.side == side
  }

  lemma {:induction false} OneSidedRealizesNothing(ds: seq<Delivery>, key: string, side: Side)
    requires OneSided(AppliedTrades(START, ds), key, side)
    ensures
      var book := Run(START, ds).book;
      key in book ==>
        && book[key].realizedPnl == 0.0
        && (if side == Buy then book[key].quantity >= 0 else book[key].quantity <= 0)
  {
    if ds != [] {
      var front, d := ds[..|ds| - 1], ds[|ds| - 1];
      var before := AppliedTrades(START, front);
      assert forall t :: t in before ==> t in AppliedTrades(START, ds);
      OneSidedRealizesNothing(front, key, side);
      if Run(START, front).Decide(d) == Applied {
        assert AppliedTrades(START, ds) == before + [d.trade];
        assert d.trade in AppliedTrades(START, ds);
      }
    }
  }

  // As long as an instrument's applied trades are all on one side nothing is realised, and
  // the average price times the quantity is what the trades cost.
  lemma {:induction false} OneSidedAverage(ds: seq<Delivery>, key: string, side: Side)
    requires OneSided(AppliedTrades(START, ds), key, side)
    ensures
      var book := Run(START, ds).book;
      && RealizedAt(book, key) == 0.0
      && CostAt(book, key) == RealSumOf(AppliedTrades(START, ds), CostOf(key))
  {
    OneSidedRealizesNothing(ds, key, side);
    CashIsSumOfAppliedTrades(ds, key);
    ProfitFromCash(Run(START, ds).book, key, 0.0);
  }

  // A book holds exactly the instruments with an applied trade; and one whose applied
  // trades are of whole shares has no average price when it is flat.
  lemma {:induction false} BookHoldsAppliedTrades(ds: seq<Delivery>, key: string)
    ensures key in Run(START, ds).book <==> exists t :: t in AppliedTrades(START, ds) && Key(t) == key
    ensures (forall t :: t in AppliedTrades(START, ds) && Key(t) == key ==> Shares(t) > 0) ==>
              key in Run(START, ds).book && Run(START, ds).book[key].quantity == 0 ==>
                Run(START, ds).book[key].avgPrice == 0.0
  {
    if ds != [] {
      var front, d := ds[..|ds| - 1], ds[|ds| - 1];
      var before := AppliedTrades(START, front);
      BookHoldsAppliedTrades(front, key);
      if Run(START, front).Decide(d) == Applied {
        assert AppliedTrades(START, ds) == before + [d.trade];
        assert d.trade in AppliedTrades(START, ds);
      }
      assert forall t :: t in before ==> t in AppliedTrades(START, ds);
    }
  }

  // A flat instrument has realised exactly its cash.
  lemma {:induction false} FlatRealizesItsCash(ds: seq<Delivery>, key: string)
    requires SumOf(AppliedTrades(START, ds), NetOf(key)) == 0
    ensures RealizedAt(Run(START, ds).book, key) == -RealSumOf(AppliedTrades(START, ds), CostOf(key))
  {
    BookIsSumOfAppliedTrades(ds, key);
    CashIsSumOfAppliedTrades(ds, key);
    ProfitFromCash(Run(START, ds).book, key, 0.0);
    NoCostWhenFlat(Run(START, ds).book, key);
  }

  lemma NoCostWhenFlat(book: Book, key: string)
    requires Held(book, key) == 0
    ensures CostAt(book, key) == 0.0
  {
  }

  // ---- Validate and commit as separate calls ----------------------------------------

  datatype ReducerCall = ReducerCall(fill: FillEvent, orderQuantity: int, prior: int)

  function ReduceAll(r: ReducerState, calls: seq<ReducerCall>): ReducerState {
    if calls == [] then r
    else
      var s, c := ReduceAll(r, calls[..|calls| - 1]), calls[|calls| - 1];
      if s.Validate(c.fill, c.orderQuantity, c.prior) == Accepted then s.Commit(c.fill) else s
  }

  // The ids of the fills that were committed, in order.
  function CommittedIds(r: ReducerState, calls: seq<ReducerCall>): seq<string> {
    if calls == [] then []
    else
      var front, c := calls[..|calls| - 1], calls[|calls| - 1];
      CommittedIds(r, front)
      + if ReduceAll(r, front).Validate(c.fill, c.orderQuantity, c.prior) == Accepted then [c.fill.fillId] else []
  }

  // For any totals callers report, committing only what was validated against the
  // current state keeps every total between its old value and the order's bound, and
  // commits each fill id at most once.
  lemma {:induction false} ValidatedCommitsAreSafe(r: ReducerState, calls: seq<ReducerCall>, orderId: string,
                                                   bound: int)
    requires Lookup(r.cumulative, orderId) <= bound
    requires forall c :: c in calls && c.fill.orderId == orderId ==> c.orderQuantity <= bound
    ensures Lookup(r.cumulative, orderId) <= Lookup(ReduceAll(r, calls).cumulative, orderId) <= bound
    ensures Distinct(CommittedIds(r, calls)) && forall id :: id in CommittedIds(r, calls) ==> id !in r.seen
    ensures forall id :: id in ReduceAll(r, calls).seen <==> id in r.seen || id in CommittedIds(r, calls)
  {
    if calls != [] {
      ValidatedCommitsAreSafe(r, calls[..|calls| - 1], orderId, bound);
      assert calls[|calls| - 1] in calls;
    }
  }

  // Two fills valid against one state, whatever totals their callers reported, and both
  // committed: no total falls exactly when they are of different orders, or the second one's
  // cumulative quantity is not the smaller.
  lemma StaleVerdictIsSafeIff(r: ReducerState, f: FillEvent, g: FillEvent,
                              allowedF: int, priorF: int, allowedG: int, priorG: int)
    requires r.Validate(f, allowedF, priorF) == Accepted && r.Validate(g, allowedG, priorG) == Accepted
    ensures (forall o: string ::
               Lookup(r.Commit(f).cumulative, o) <= Lookup(r.Commit(f).Commit(g).cumulative, o))
       <==> f.orderId != g.orderId || f.cumulativeQuantity <= g.cumulativeQuantity
  {
    if f.orderId == g.orderId && g.cumulativeQuantity < f.cumulativeQuantity {
      var o := g.orderId;
      assert Lookup(r.Commit(f).Commit(g).cumulative, o) < Lookup(r.Commit(f).cumulative, o);
    }
  }

  // Such a pair: the smaller total is committed last.
  lemma StaleVerdictCanLowerTotal()
    ensures
      var r := ReducerState({}, map[]);
      var first, second := FillEvent("F1", "O", 5, 5, 1.0), FillEvent("F2", "O", 3, 3, 1.0);
      && r.Validate(first, 10, 0) == Accepted
      && r.Validate(second, 10, 0) == Accepted
      && r.Commit(first).Commit(second).cumulative["O"] < r.Commit(first).cumulative["O"]
  {
  }
}
