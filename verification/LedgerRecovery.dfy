// Rebuilding the position book from the durable fill ledger
// (src/domain/ledger_recovery.py): sort by event time and fill id, then replay.
module LedgerRecovery {
  import opened Common
  import opened Positions
  import opened Fills
  import opened FillSafety

  // Event times are instants on one time line.
  datatype LedgerFill = LedgerFill(
    fillId: string,
    orderId: string,
    symbol: string,
    exchange: string,
    side: Side,
    quantity: int,
    orderQuantity: int,
    price: real,
    eventTime: int
  ) {
    // Enforced by the record's own constructor.
    ghost predicate Valid() {
      fillId != "" && orderId != "" && quantity > 0
    }
  }

  // ---- Sorting -----------------------------------------------------------------------

  // Code point order on strings.
  predicate TextLe(a: string, b: string) {
    if a == "" then true
    else if b == "" then false
    else a[0] < b[0] || (a[0] == b[0] && TextLe(a[1..], b[1..]))
  }

  // The texts agree before `k`, where the first is the smaller.
  ghost predicate SmallerAt(a: string, b: string, k: nat) {
    k < |a| && k < |b| && a[..k] == b[..k] && a[k] < b[k]
  }

  lemma SmallerBehindFirst(a: string, b: string, k: nat)
    requires a != "" && b != "" && a[0] == b[0]
    ensures SmallerAt(a, b, k + 1) <==> SmallerAt(a[1..], b[1..], k)
    ensures !SmallerAt(a, b, 0)
  {
    if k + 1 <= |a| && k + 1 <= |b| {
      assert a[..k + 1] == [a[0]] + a[1..][..k] && b[..k + 1] == [b[0]] + b[1..][..k];
      assert a[..k + 1][1..] == a[1..][..k] && b[..k + 1][1..] == b[1..][..k];
    }
  }

  // One text is a prefix of the other, or smaller where they first differ.
  lemma {:induction false} TextLeIff(a: string, b: string)
    ensures TextLe(a, b) <==> a <= b || exists k: nat :: SmallerAt(a, b, k)
  {
    if a != "" && b != "" {
      if a[0] != b[0] {
        assert SmallerAt(a, b, 0) <==> a[0] < b[0];
        assert forall k: nat :: k > 0 && k < |a| && k < |b| ==> a[..k][0] == a[0] && b[..k][0] == b[0];
      } else {
        TextLeIff(a[1..], b[1..]);
        assert a <= b <==> a[1..] <= b[1..] by {
          assert a == [a[0]] + a[1..] && b == [b[0]] + b[1..];
        }
        forall k: nat
          ensures SmallerAt(a, b, k) <==> k > 0 && SmallerAt(a[1..], b[1..], k - 1)
        {
          SmallerBehindFirst(a, b, if k > 0 then k - 1 else 0);
        }
        if k: nat :| SmallerAt(a[1..], b[1..], k) {
          assert SmallerAt(a, b, k + 1);
        }
      }
    }
  }

  lemma {:induction false} TextLeTotal(a: string, b: string)
    ensures TextLe(a, b) || TextLe(b, a)
    ensures TextLe(a, b) && TextLe(b, a) ==> a == b
  {
    if a != "" && b != "" && a[0] == b[0] {
      TextLeTotal(a[1..], b[1..]);
      assert a == [a[0]] + a[1..] && b == [b[0]] + b[1..];
    }
  }

  lemma {:induction false} TextLeTransitive(a: string, b: string, c: string)
    requires TextLe(a, b) && TextLe(b, c)
    ensures TextLe(a, c)
  {
    if a != "" && a[0] == b[0] == c[0] {
      TextLeTransitive(a[1..], b[1..], c[1..]);
    }
  }

  predicate Le(a: LedgerFill, b: LedgerFill) {
    a.eventTime < b.eventTime || (a.eventTime == b.eventTime && TextLe(a.fillId, b.fillId))
  }

  // Stable insertion: after every element that is not greater.
  function Insert(s: seq<LedgerFill>, x: LedgerFill): seq<LedgerFill> {
    if s == [] || Le(s[|s| - 1], x) then s + [x]
    else Insert(s[..|s| - 1], x) + [s[|s| - 1]]
  }

  function Sort(s: seq<LedgerFill>): seq<LedgerFill> {
    if s == [] then [] else Insert(Sort(s[..|s| - 1]), s[|s| - 1])
  }

  ghost predicate Ordered(s: seq<LedgerFill>) {
    forall i, j :: 0 <= i < j < |s| ==> Le(s[i], s[j])
  }

  ghost predicate UniqueIds(s: seq<LedgerFill>) {
    forall i, j :: 0 <= i < j < |s| ==> s[i].fillId != s[j].fillId
  }

  lemma {:induction false} InsertKeepsElements(s: seq<LedgerFill>, x: LedgerFill)
    ensures multiset(Insert(s, x)) == multiset(s) + multiset{x}
  {
    if s != [] && !Le(s[|s| - 1], x) {
      InsertKeepsElements(s[..|s| - 1], x);
      assert s == s[..|s| - 1] + [s[|s| - 1]];
    }
  }

  lemma {:induction false} InsertKeepsOrder(s: seq<LedgerFill>, x: LedgerFill)
    requires Ordered(s)
    ensures Ordered(Insert(s, x))
  {
    if s == [] {
    } else {
      var front, last := s[..|s| - 1], s[|s| - 1];
      if Le(last, x) {
        forall i | 0 <= i < |s|
          ensures Le(s[i], x)
        {
          if i < |s| - 1 {
            LeTransitive(s[i], last, x);
          }
        }
      } else {
        InsertKeepsOrder(front, x);
        InsertKeepsElements(front, x);
        var r := Insert(front, x);
        forall i | 0 <= i < |r|
          ensures Le(r[i], last)
        {
          assert r[i] in multiset(r);
          if r[i] == x {
            TextLeTotal(x.fillId, last.fillId);
          } else {
            assert r[i] in front;
          }
        }
      }
    }
  }

  lemma LeTransitive(a: LedgerFill, b: LedgerFill, c: LedgerFill)
    requires Le(a, b) && Le(b, c)
    ensures Le(a, c)
  {
    if a.eventTime == b.eventTime == c.eventTime {
      TextLeTransitive(a.fillId, b.fillId, c.fillId);
    }
  }

  lemma {:induction false} SortIsSorted(s: seq<LedgerFill>)
    ensures Ordered(Sort(s))
    ensures multiset(Sort(s)) == multiset(s)
  {
    if s != [] {
      SortIsSorted(s[..|s| - 1]);
      InsertKeepsOrder(Sort(s[..|s| - 1]), s[|s| - 1]);
      InsertKeepsElements(Sort(s[..|s| - 1]), s[|s| - 1]);
      assert s == s[..|s| - 1] + [s[|s| - 1]];
    }
  }

  // By event time, and of one event time by the texts of the fill ids.
  lemma SortedByTimeThenId(s: seq<LedgerFill>, i: nat, j: nat)
    requires i < j < |Sort(s)|
    ensures
      var x, y := Sort(s)[i], Sort(s)[j];
      && x.eventTime <= y.eventTime
      && (x.eventTime == y.eventTime ==>
            x.fillId <= y.fillId || exists k: nat :: SmallerAt(x.fillId, y.fillId, k))
  {
    SortIsSorted(s);
    TextLeIff(Sort(s)[i].fillId, Sort(s)[j].fillId);
  }

  // The fills of one time and id, in their order.
  function Equals(s: seq<LedgerFill>, eventTime: int, fillId: string): seq<LedgerFill> {
    if s == [] then []
    else
      var last := s[|s| - 1];
      Equals(s[..|s| - 1], eventTime, fillId)
      + if last.eventTime == eventTime && last.fillId == fillId then [last] else []
  }

  // Fills of one time and id stay in their order.
  lemma {:induction false} SortIsStable(s: seq<LedgerFill>, eventTime: int, fillId: string)
    ensures Equals(Sort(s), eventTime, fillId) == Equals(s, eventTime, fillId)
  {
    if s != [] {
      SortIsStable(s[..|s| - 1], eventTime, fillId);
      InsertIsStable(Sort(s[..|s| - 1]), s[|s| - 1], eventTime, fillId);
    }
  }

  lemma {:induction false} InsertIsStable(s: seq<LedgerFill>, x: LedgerFill, eventTime: int, fillId: string)
    ensures Equals(Insert(s, x), eventTime, fillId)
         == Equals(s, eventTime, fillId) + if x.eventTime == eventTime && x.fillId == fillId then [x] else []
  {
    if s == [] || Le(s[|s| - 1], x) {
      assert (s + [x])[..|s|] == s;
    } else {
      var front, last := s[..|s| - 1], s[|s| - 1];
      InsertIsStable(front, x, eventTime, fillId);
      TextLeTotal(last.fillId, x.fillId);
      assert (Insert(front, x) + [last])[..|Insert(front, x)|] == Insert(front, x);
    }
  }

  lemma MultisetSize<T>(a: seq<T>, b: seq<T>)
    requires multiset(a) == multiset(b)
    ensures |a| == |b|
    ensures forall x :: x in a <==> x in b
  {
    assert |multiset(a)| == |a| && |multiset(b)| == |b|;
    assert forall x :: x in a <==> x in multiset(a);
    assert forall x :: x in b <==> x in multiset(b);
  }

  lemma HeadsAgree(a: seq<LedgerFill>, b: seq<LedgerFill>)
    requires Ordered(a) && Ordered(b) && UniqueIds(a)
    requires multiset(a) == multiset(b) && a != []
    ensures b != [] && a[0] == b[0]
  {
    MultisetSize(a, b);
    assert a[0] in b && b[0] in a;
    var i :| 0 <= i < |b| && b[i] == a[0];
    var j :| 0 <= j < |a| && a[j] == b[0];
    TextLeTotal(a[0].fillId, a[j].fillId);
  }

  lemma TailsMatch<T>(a: seq<T>, b: seq<T>)
    requires a != [] && b != [] && a[0] == b[0] && multiset(a) == multiset(b)
    ensures multiset(a[1..]) == multiset(b[1..])
  {
    assert a == [a[0]] + a[1..] && b == [b[0]] + b[1..];
    assert multiset(a[1..]) == multiset(a) - multiset{a[0]};
    assert multiset(b[1..]) == multiset(b) - multiset{b[0]};
  }

  // With unique fill ids there is only one sorted arrangement of the ledger.
  lemma {:induction false} SortedArrangementIsUnique(a: seq<LedgerFill>, b: seq<LedgerFill>)
    requires Ordered(a) && Ordered(b) && UniqueIds(a)
    requires multiset(a) == multiset(b)
    ensures a == b
  {
    MultisetSize(a, b);
    if a != [] {
      HeadsAgree(a, b);
      TailsMatch(a, b);
      SortedArrangementIsUnique(a[1..], b[1..]);
      assert a == [a[0]] + a[1..] && b == [b[0]] + b[1..];
    }
  }

  // ---- Replay ------------------------------------------------------------------------

  function AsTrade(f: LedgerFill): Trade {
    Trade(f.fillId, f.orderId, f.symbol, f.exchange, f.side, f.quantity as real, f.price)
  }

  function TradesOf(fs: seq<LedgerFill>): seq<Trade> {
    if fs == [] then [] else TradesOf(fs[..|fs| - 1]) + [AsTrade(fs[|fs| - 1])]
  }

  function AsDelivery(f: LedgerFill): Delivery {
    Delivery(AsTrade(f), Some(f.orderQuantity))
  }

  function Deliveries(fs: seq<LedgerFill>): (ds: seq<Delivery>)
    ensures |ds| == |fs|
    ensures forall i :: 0 <= i < |fs| ==> ds[i] == AsDelivery(fs[i])
  {
    seq(|fs|, i requires 0 <= i < |fs| => AsDelivery(fs[i]))
  }

  lemma DeliveriesSnoc(fs: seq<LedgerFill>)
    requires fs != []
    ensures Deliveries(fs) == Deliveries(fs[..|fs| - 1]) + [AsDelivery(fs[|fs| - 1])]
    ensures Deliveries(fs)[..|fs| - 1] == Deliveries(fs[..|fs| - 1])
  {
  }

  function Recovered(fs: seq<LedgerFill>): Book {
    Run(START, Deliveries(Sort(fs))).book
  }

  predicate Replayable(f: LedgerFill) {
    !Blank(f.fillId) && !Blank(f.orderId)
  }

  // The replay stops with an error exactly when some record has an id of white space only.
  method RebuildProjectorFromFills(fills: seq<LedgerFill>) returns (failed: bool, projector: PortfolioProjector)
    requires forall f :: f in fills ==> f.Valid()
    ensures failed <==> exists f :: f in fills && !Replayable(f)
    ensures !failed ==> projector.positions == Recovered(fills)
    ensures fresh(projector)
  {
    var pipeline := new SimulationFillPipeline();
    projector := pipeline.projector;
    var sorted := Sort(fills);
    SortIsSorted(fills);
    MultisetSize(sorted, fills);
    for n := 0 to |sorted|
      invariant fresh(pipeline) && fresh(pipeline.reducer) && fresh(projector)
      invariant projector == pipeline.projector
      invariant pipeline.State() == Run(START, Deliveries(sorted[..n]))
      invariant forall f :: f in sorted[..n] ==> Replayable(f)
    {
      assert sorted[n] in sorted;
      DeliveriesSnoc(sorted[..n + 1]);
      assert sorted[..n + 1][..n] == sorted[..n];
      var outcome := pipeline.ApplyTrade(AsTrade(sorted[n]), Some(sorted[n].orderQuantity));
      if outcome == InvalidFill {
        return true, projector;
      }
      assert Replayable(sorted[n]);
    }
    assert sorted[..|sorted|] == sorted;
    return false, projector;
  }

  // Equal rows in any order give the same book, average prices and profits included.
  lemma {:induction false} RecoveryIgnoresLedgerOrder(a: seq<LedgerFill>, b: seq<LedgerFill>)
    requires UniqueIds(a) && multiset(a) == multiset(b)
    ensures Recovered(a) == Recovered(b)
  {
    SortIsSorted(a);
    SortIsSorted(b);
    UniqueIdsRearranged(a, Sort(a));
    SortedArrangementIsUnique(Sort(a), Sort(b));
  }

  lemma {:induction false} UniqueIdsRearranged(a: seq<LedgerFill>, b: seq<LedgerFill>)
    requires UniqueIds(a) && multiset(a) == multiset(b)
    ensures UniqueIds(b)
    decreases |b|
  {
    MultisetSize(a, b);
    if b != [] {
      var i := SplitRearrangement(b, a);
      var rest := a[..i] + a[i + 1..];
      UniqueIdsRearranged(rest, b[..|b| - 1]);
      MultisetSize(rest, b[..|b| - 1]);
      forall k | 0 <= k < |b| - 1
        ensures b[k].fillId != b[|b| - 1].fillId
      {
        assert b[..|b| - 1][k] in rest;
      }
    }
  }

  // ---- Recovery equals live ----------------------------------------------------------

  ghost predicate Consistent(fs: seq<LedgerFill>) {
    && UniqueIds(fs)
    && (forall f :: f in fs ==> f.Valid() && Replayable(f))
    && (forall f, g :: f in fs && g in fs && f.orderId == g.orderId ==> f.orderQuantity == g.orderQuantity)
  }

  function OrderTotal(fs: seq<LedgerFill>, orderId: string): int {
    SumOf(TradesOf(fs), SharesOf(orderId))
  }

  ghost predicate WithinOrders(fs: seq<LedgerFill>) {
    forall f :: f in fs ==> OrderTotal(fs, f.orderId) <= f.orderQuantity
  }

  lemma OrderTotalSnoc(fs: seq<LedgerFill>, orderId: string)
    requires fs != []
    ensures
      var f := fs[|fs| - 1];
      OrderTotal(fs, orderId)
      == OrderTotal(fs[..|fs| - 1], orderId) + SharesOf(orderId)(AsTrade(f))
  {
    assert TradesOf(fs)[..|TradesOf(fs)| - 1] == TradesOf(fs[..|fs| - 1]);
  }

  lemma {:induction false} IdsOfTrades(fs: seq<LedgerFill>)
    ensures IdsOf(TradesOf(fs)) == set f | f in fs :: f.fillId
  {
    if fs != [] {
      var front, f := fs[..|fs| - 1], fs[|fs| - 1];
      IdsOfTrades(front);
      assert fs == front + [f];
      assert IdsOf(TradesOf(front) + [AsTrade(f)]) == IdsOf(TradesOf(front)) + {f.fillId};
    }
  }

  lemma {:induction false} ReplayAppliesAll(fs: seq<LedgerFill>)
    requires Consistent(fs) && WithinOrders(fs)
    ensures AppliedTrades(START, Deliveries(fs)) == TradesOf(fs)
  {
    if fs != [] {
      var front, f := fs[..|fs| - 1], fs[|fs| - 1];
      assert fs == front + [f];
      forall g | g in front
        ensures OrderTotal(front, g.orderId) <= g.orderQuantity
      {
        assert g in fs && f in fs;
        OrderTotalSnoc(fs, g.orderId);
      }
      ReplayAppliesAll(front);
      DeliveriesSnoc(fs);
      LastIsApplied(fs);
    }
  }

  lemma {:induction false} LastIsApplied(fs: seq<LedgerFill>)
    requires fs != [] && Consistent(fs) && WithinOrders(fs)
    requires AppliedTrades(START, Deliveries(fs[..|fs| - 1])) == TradesOf(fs[..|fs| - 1])
    ensures Run(START, Deliveries(fs[..|fs| - 1])).Decide(AsDelivery(fs[|fs| - 1])) == Applied
  {
    var front, f := fs[..|fs| - 1], fs[|fs| - 1];
    assert f in fs;
    EachFillAppliedOnce(Deliveries(front));
    IdsOfTrades(front);
    TotalsMatchAppliedTrades(Deliveries(front), f.orderId);
    OrderTotalSnoc(fs, f.orderId);
    assert f.fillId !in Run(START, Deliveries(front)).reducer.seen;
  }

  lemma {:induction false} TotalCoversEachFill(fs: seq<LedgerFill>, orderId: string)
    requires forall f :: f in fs ==> f.Valid()
    ensures OrderTotal(fs, orderId) >= 0
    ensures forall f :: f in fs && f.orderId == orderId ==> OrderTotal(fs, orderId) >= f.quantity
  {
    if fs != [] {
      assert fs == fs[..|fs| - 1] + [fs[|fs| - 1]];
      assert fs[|fs| - 1] in fs;
      TotalCoversEachFill(fs[..|fs| - 1], orderId);
      OrderTotalSnoc(fs, orderId);
    }
  }

  lemma {:induction false} TradesRearranged(a: seq<LedgerFill>, b: seq<LedgerFill>)
    requires multiset(a) == multiset(b)
    ensures multiset(TradesOf(a)) == multiset(TradesOf(b))
    decreases |a|
  {
    MultisetSize(a, b);
    if a != [] {
      var i := SplitRearrangement(a, b);
      TradesRearranged(a[..|a| - 1], b[..i] + b[i + 1..]);
      TradesAppend(b[..i], b[i + 1..]);
      TradesAppend(b[..i] + [b[i]], b[i + 1..]);
      TradesAppend(b[..i], [b[i]]);
      assert TradesOf([b[i]]) == [AsTrade(b[i])] by { assert [b[i]][..0] == []; }
    }
  }

  lemma {:induction false} TradesAppend(a: seq<LedgerFill>, b: seq<LedgerFill>)
    ensures TradesOf(a + b) == TradesOf(a) + TradesOf(b)
  {
    if b == [] {
      assert a + b == a;
    } else {
      TradesAppend(a, b[..|b| - 1]);
      assert (a + b)[..|a + b| - 1] == a + b[..|b| - 1];
    }
  }

  lemma RearrangedStaysWithinOrders(a: seq<LedgerFill>, b: seq<LedgerFill>)
    requires Consistent(a) && multiset(a) == multiset(b)
    ensures Consistent(b)
    ensures WithinOrders(a) <==> WithinOrders(b)
  {
    MultisetSize(a, b);
    UniqueIdsRearranged(a, b);
    TradesRearranged(a, b);
    forall o
      ensures OrderTotal(a, o) == OrderTotal(b, o)
    {
      SumOfRearranged(TradesOf(a), TradesOf(b), SharesOf(o));
    }
  }

  lemma AppliedInFullIsWithin(fs: seq<LedgerFill>, f: LedgerFill)
    requires Consistent(fs) && f in fs
    requires AppliedTrades(START, Deliveries(fs)) == TradesOf(fs)
    ensures OrderTotal(fs, f.orderId) <= f.orderQuantity
  {
    TotalCoversEachFill(fs, f.orderId);
    TotalsMatchAppliedTrades(Deliveries(fs), f.orderId);
    var ds := Deliveries(fs);
    forall d | d in ds && OrderOf(d.trade) == f.orderId
      ensures Allowed(d) <= f.orderQuantity
    {
      var i :| 0 <= i < |ds| && ds[i] == d;
      assert fs[i] in fs && fs[i].orderId == f.orderId;
    }
    NeverOverfilled(ds, f.orderId, f.orderQuantity);
  }

  // Nothing is lost in recovery exactly when the ledger overfills no order.
  lemma {:induction false} RecoveryRejectsNothingIff(fs: seq<LedgerFill>)
    requires Consistent(fs)
    ensures AppliedTrades(START, Deliveries(Sort(fs))) == TradesOf(Sort(fs)) <==> WithinOrders(fs)
  {
    var sorted := Sort(fs);
    SortIsSorted(fs);
    RearrangedStaysWithinOrders(fs, sorted);
    if WithinOrders(sorted) {
      ReplayAppliesAll(sorted);
    } else if AppliedTrades(START, Deliveries(sorted)) == TradesOf(sorted) {
      forall f | f in sorted
        ensures OrderTotal(sorted, f.orderId) <= f.orderQuantity
      {
        AppliedInFullIsWithin(sorted, f);
      }
    }
  }

  // ---- What is recovered --------------------------------------------------------------

  function QuantityIn(orderId: string): LedgerFill -> int {
    (f: LedgerFill) => if f.orderId == orderId then f.quantity else 0
  }

  function MovedBy(key: string): LedgerFill -> int {
    (f: LedgerFill) =>
      if PositionKey(f.symbol, f.exchange) != key then 0 else if f.side == Buy then f.quantity else -f.quantity
  }

  function SpentBy(key: string): LedgerFill -> real {
    (f: LedgerFill) => Cost(MovedBy(key)(f), f.price)
  }

  lemma TradeOfFill(f: LedgerFill, orderId: string, key: string)
    requires f.Valid()
    ensures SharesOf(orderId)(AsTrade(f)) == QuantityIn(orderId)(f)
    ensures NetOf(key)(AsTrade(f)) == MovedBy(key)(f)
    ensures CostOf(key)(AsTrade(f)) == SpentBy(key)(f)
  {
    assert (f.quantity as real).Floor == f.quantity;
  }

  lemma {:induction false} SumsAlike(fs: seq<LedgerFill>, ofTrade: Trade -> int, ofFill: LedgerFill -> int)
    requires forall f :: f in fs ==> ofTrade(AsTrade(f)) == ofFill(f)
    ensures SumOf(TradesOf(fs), ofTrade) == SumOf(fs, ofFill)
  {
    if fs != [] {
      var front, f := fs[..|fs| - 1], fs[|fs| - 1];
      assert f in fs;
      SumsAlike(front, ofTrade, ofFill);
      assert TradesOf(fs)[..|TradesOf(fs)| - 1] == TradesOf(front);
    }
  }

  lemma {:induction false} RealSumsAlike(fs: seq<LedgerFill>, ofTrade: Trade -> real, ofFill: LedgerFill -> real)
    requires forall f :: f in fs ==> ofTrade(AsTrade(f)) == ofFill(f)
    ensures RealSumOf(TradesOf(fs), ofTrade) == RealSumOf(fs, ofFill)
  {
    if fs != [] {
      var front, f := fs[..|fs| - 1], fs[|fs| - 1];
      assert f in fs;
      RealSumsAlike(front, ofTrade, ofFill);
      assert TradesOf(fs)[..|TradesOf(fs)| - 1] == TradesOf(front);
    }
  }

  // What a ledger's fills sum to as trades is what its own columns say.
  lemma TradesSumLikeFills(fs: seq<LedgerFill>, orderId: string, key: string)
    requires forall f :: f in fs ==> f.Valid()
    ensures OrderTotal(fs, orderId) == SumOf(fs, QuantityIn(orderId))
    ensures SumOf(TradesOf(fs), NetOf(key)) == SumOf(fs, MovedBy(key))
    ensures RealSumOf(TradesOf(fs), CostOf(key)) == RealSumOf(fs, SpentBy(key))
  {
    forall f | f in fs
      ensures SharesOf(orderId)(AsTrade(f)) == QuantityIn(orderId)(f)
      ensures NetOf(key)(AsTrade(f)) == MovedBy(key)(f)
      ensures CostOf(key)(AsTrade(f)) == SpentBy(key)(f)
    {
      TradeOfFill(f, orderId, key);
    }
    SumsAlike(fs, SharesOf(orderId), QuantityIn(orderId));
    SumsAlike(fs, NetOf(key), MovedBy(key));
    RealSumsAlike(fs, CostOf(key), SpentBy(key));
  }

  // Without an overfilled order, the recovered net quantity of an instrument is what its
  // ledger rows bought less what they sold, and its cash what that brought in.
  lemma {:induction false} RecoveredIsTheLedgersSum(ledger: seq<LedgerFill>, key: string)
    requires Consistent(ledger)
    requires forall f :: f in ledger ==> SumOf(ledger, QuantityIn(f.orderId)) <= f.orderQuantity
    ensures Held(Recovered(ledger), key) == SumOf(ledger, MovedBy(key))
    ensures CashOf(Recovered(ledger), key) == -RealSumOf(ledger, SpentBy(key))
  {
    var sorted := Sort(ledger);
    SortIsSorted(ledger);
    forall f | f in ledger
      ensures OrderTotal(ledger, f.orderId) <= f.orderQuantity
    {
      TradesSumLikeFills(ledger, f.orderId, key);
    }
    RearrangedStaysWithinOrders(ledger, sorted);
    ReplayAppliesAll(sorted);
    TradesSumLikeFills(sorted, "", key);
    SumOfRearranged(sorted, ledger, MovedBy(key));
    RealSumOfRearranged(sorted, ledger, SpentBy(key));
    BookIsSumOfAppliedTrades(Deliveries(sorted), key);
    CashIsSumOfAppliedTrades(Deliveries(sorted), key);
  }

  lemma {:induction false} OnlyFirstLiveFillsMatter(live: seq<LedgerFill>)
    ensures Run(START, Deliveries(live)) == Run(START, Deliveries(Dedupe(live)))
  {
    if live != [] {
      var front, f := live[..|live| - 1], live[|live| - 1];
      OnlyFirstLiveFillsMatter(front);
      DeliveriesSnoc(live);
      if f in front {
        var i :| 0 <= i < |front| && front[i] == f;
        DeliveredOnceIsSettled(START, Deliveries(front), i);
      } else {
        DeliveriesSnoc(Dedupe(live));
        assert (Dedupe(front) + [f])[..|Dedupe(front)|] == Dedupe(front);
      }
    }
  }

  // The recovered book agrees with the live one, whatever order the fills arrived in and
  // however often each was redelivered: in net quantity, and in cash balance.
  lemma {:induction false} RecoveryEqualsLive(ledger: seq<LedgerFill>, live: seq<LedgerFill>, key: string)
    requires Consistent(ledger) && WithinOrders(ledger)
    requires multiset(Dedupe(live)) == multiset(ledger)
    ensures Held(Recovered(ledger), key) == Held(Run(START, Deliveries(live)).book, key)
    ensures CashOf(Recovered(ledger), key) == CashOf(Run(START, Deliveries(live)).book, key)
  {
    var sorted, once := Sort(ledger), Dedupe(live);
    SortIsSorted(ledger);
    OnlyFirstLiveFillsMatter(live);
    RearrangedStaysWithinOrders(ledger, sorted);
    RearrangedStaysWithinOrders(ledger, once);
    ReplayAppliesAll(sorted);
    ReplayAppliesAll(once);
    TradesRearranged(sorted, once);
    BookIsSumOfAppliedTrades(Deliveries(sorted), key);
    BookIsSumOfAppliedTrades(Deliveries(once), key);
    SumOfRearranged(TradesOf(sorted), TradesOf(once), NetOf(key));
    CashIsSumOfAppliedTrades(Deliveries(sorted), key);
    CashIsSumOfAppliedTrades(Deliveries(once), key);
    RealSumOfRearranged(TradesOf(sorted), TradesOf(once), CostOf(key));
  }

  // Hence in total profit at any mark price.
  lemma RecoveredProfitEqualsLive(ledger: seq<LedgerFill>, live: seq<LedgerFill>, key: string, mark: real)
    requires Consistent(ledger) && WithinOrders(ledger)
    requires multiset(Dedupe(live)) == multiset(ledger)
    ensures ProfitAt(Recovered(ledger), key, mark) == ProfitAt(Run(START, Deliveries(live)).book, key, mark)
  {
    RecoveryEqualsLive(ledger, live, key);
    CashIsSumOfAppliedTrades(Deliveries(Sort(ledger)), key);
    CashIsSumOfAppliedTrades(Deliveries(live), key);
    SameProfit(Recovered(ledger), Run(START, Deliveries(live)).book, key, mark);
  }

  lemma SameProfit(a: Book, b: Book, key: string, mark: real)
    requires (key in a ==> a[key].multiplier == 1.0) && (key in b ==> b[key].multiplier == 1.0)
    requires Held(a, key) == Held(b, key) && CashOf(a, key) == CashOf(b, key)
    ensures ProfitAt(a, key, mark) == ProfitAt(b, key, mark)
  {
    ProfitFromCash(a, key, mark);
    ProfitFromCash(b, key, mark);
  }

  // When the fills arrived live in the ledger's own order the books are the same, average
  // prices and last prices included.
  lemma {:induction false} RecoveryInLedgerOrder(ledger: seq<LedgerFill>, live: seq<LedgerFill>)
    requires Dedupe(live) == Sort(ledger)
    ensures Recovered(ledger) == Run(START, Deliveries(live)).book
  {
    OnlyFirstLiveFillsMatter(live);
  }

  // The instrument was only bought, or only sold.
  ghost predicate BoughtOrSoldOnly(fs: seq<LedgerFill>, key: string, side: Side) {
    forall f :: f in fs && Key(AsTrade(f)) == key ==> f.side == side
  }

  lemma {:induction false} TradesAreOfFills(fs: seq<LedgerFill>)
    requires forall f :: f in fs ==> f.Valid()
    ensures forall t :: t in TradesOf(fs) ==> Shares(t) > 0
    ensures forall key, side: Side :: BoughtOrSoldOnly(fs, key, side) ==> OneSided(TradesOf(fs), key, side)
  {
    if fs != [] {
      var front, f := fs[..|fs| - 1], fs[|fs| - 1];
      assert fs == front + [f];
      TradesAreOfFills(front);
      assert (f.quantity as real).Floor == f.quantity;
      forall key, side: Side | BoughtOrSoldOnly(fs, key, side)
        ensures OneSided(TradesOf(fs), key, side)
      {
        assert BoughtOrSoldOnly(front, key, side);
        assert f in fs;
      }
    }
  }

  // In any order of arrival, average price and realised profit of an instrument are
  // recovered too when it is flat, or was only bought or only sold.
  lemma {:induction false} RecoveredAverageEqualsLive(ledger: seq<LedgerFill>, live: seq<LedgerFill>, key: string,
                                                  side: Side)
    requires Consistent(ledger) && WithinOrders(ledger)
    requires multiset(Dedupe(live)) == multiset(ledger)
    requires SumOf(TradesOf(ledger), NetOf(key)) == 0 || BoughtOrSoldOnly(ledger, key, side)
    ensures
      var recovered, book := Recovered(ledger), Run(START, Deliveries(live)).book;
      && (key in recovered <==> key in book)
      && RealizedAt(recovered, key) == RealizedAt(book, key)
      && (key in book ==> recovered[key].avgPrice == book[key].avgPrice)
  {
    var sorted, once := Sort(ledger), Dedupe(live);
    SortIsSorted(ledger);
    OnlyFirstLiveFillsMatter(live);
    RecoveryEqualsLive(ledger, live, key);
    ArrangementAverage(ledger, sorted, key, side);
    ArrangementAverage(ledger, once, key, side);
    SameAverage(Recovered(ledger), Run(START, Deliveries(live)).book, key);
  }

  // What every arrangement of the ledger leaves of such an instrument.
  lemma {:induction false} ArrangementAverage(ledger: seq<LedgerFill>, fs: seq<LedgerFill>, key: string, side: Side)
    requires Consistent(ledger) && WithinOrders(ledger) && multiset(fs) == multiset(ledger)
    requires SumOf(TradesOf(ledger), NetOf(key)) == 0 || BoughtOrSoldOnly(ledger, key, side)
    ensures
      var book, cost := Run(START, Deliveries(fs)).book, RealSumOf(TradesOf(ledger), CostOf(key));
      && (key in book <==> exists t :: t in TradesOf(ledger) && Key(t) == key)
      && RealizedAt(book, key) == (if SumOf(TradesOf(ledger), NetOf(key)) == 0 then -cost else 0.0)
      && (Held(book, key) != 0 ==> CostAt(book, key) == cost)
      && (key in book && Held(book, key) == 0 ==> book[key].avgPrice == 0.0)
  {
    SameTradesApplied(ledger, fs, key);
    BookIsSumOfAppliedTrades(Deliveries(fs), key);
    if SumOf(TradesOf(ledger), NetOf(key)) == 0 {
      FlatRealizesItsCash(Deliveries(fs), key);
    } else {
      OneSidedAverage(Deliveries(fs), key, side);
    }
  }

  lemma SameAverage(a: Book, b: Book, key: string)
    requires key in a <==> key in b
    requires Held(a, key) == Held(b, key)
    requires Held(a, key) != 0 ==> CostAt(a, key) == CostAt(b, key)
    requires key in a && Held(a, key) == 0 ==> a[key].avgPrice == b[key].avgPrice
    ensures key in a ==> a[key].avgPrice == b[key].avgPrice
  {
    if key in a && Held(a, key) != 0 {
      EqualFactor(Held(a, key) as real, a[key].avgPrice, b[key].avgPrice);
    }
  }

  lemma EqualFactor(q: real, x: real, y: real)
    requires q != 0.0 && q * x == q * y
    ensures x == y
  {
    assert q * (x - y) == 0.0;
  }

  // Every arrangement of the ledger applies the same trades.
  lemma {:induction false} SameTradesApplied(ledger: seq<LedgerFill>, fs: seq<LedgerFill>, key: string)
    requires Consistent(ledger) && WithinOrders(ledger) && multiset(fs) == multiset(ledger)
    ensures AppliedTrades(START, Deliveries(fs)) == TradesOf(fs)
    ensures SumOf(TradesOf(fs), NetOf(key)) == SumOf(TradesOf(ledger), NetOf(key))
    ensures RealSumOf(TradesOf(fs), CostOf(key)) == RealSumOf(TradesOf(ledger), CostOf(key))
    ensures forall side: Side :: BoughtOrSoldOnly(ledger, key, side) ==> OneSided(TradesOf(fs), key, side)
    ensures key in Run(START, Deliveries(fs)).book <==> exists t :: t in TradesOf(ledger) && Key(t) == key
    ensures key in Run(START, Deliveries(fs)).book && Run(START, Deliveries(fs)).book[key].quantity == 0 ==>
              Run(START, Deliveries(fs)).book[key].avgPrice == 0.0
  {
    MultisetSize(fs, ledger);
    RearrangedStaysWithinOrders(ledger, fs);
    ReplayAppliesAll(fs);
    TradesRearranged(fs, ledger);
    MultisetSize(TradesOf(fs), TradesOf(ledger));
    SumOfRearranged(TradesOf(fs), TradesOf(ledger), NetOf(key));
    RealSumOfRearranged(TradesOf(fs), TradesOf(ledger), CostOf(key));
    TradesAreOfFills(fs);
    BookHoldsAppliedTrades(Deliveries(fs), key);
    forall side: Side | BoughtOrSoldOnly(ledger, key, side)
      ensures OneSided(TradesOf(fs), key, side)
    {
      assert BoughtOrSoldOnly(fs, key, side);
    }
  }
}
