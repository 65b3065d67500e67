// What decides about a fill, said without the reducer's own branches: over every run a
// delivery is applied exactly when nothing applied before has its id and there is room
// for it in its order.
module FillDecisions {
  import opened Common
  import opened Positions
  import opened Fills
  import opened FillSafety

  // Fractions of a share are dropped, toward zero.
  lemma WholeShares(t: Trade)
    ensures t.quantity >= 0.0 ==> Shares(t) as real <= t.quantity < (Shares(t) + 1) as real
    ensures t.quantity <= 0.0 ==> (Shares(t) - 1) as real < t.quantity <= Shares(t) as real
  {
  }

  // The characters that count as white space.
  const SPACES: set<int> := {
    0x9, 0xA, 0xB, 0xC, 0xD, 0x1C, 0x1D, 0x1E, 0x1F, 0x20, 0x85, 0xA0, 0x1680, 0x2000, 0x2001, 0x2002, 0x2003,
    0x2004, 0x2005, 0x2006, 0x2007, 0x2008, 0x2009, 0x200A, 0x2028, 0x2029, 0x202F, 0x205F, 0x3000
  }

  lemma SpacesSpec(c: char)
    ensures IsSpace(c) <==> c as int in SPACES
  {
  }

  // The fill event carries the trade's own id, shares and price, and the total it leads to.
  lemma FillCarriesTrade(s: PipelineState, d: Delivery)
    ensures
      var f, t := s.FillOf(d), d.trade;
      && (f.fillId, f.quantity, f.price) == (t.tradeId, Shares(t), t.price)
      && f.orderId == OrderOf(t) && f.cumulativeQuantity - f.quantity == s.Filled(f.orderId)
  {
  }

  // Trades without an order id are each an order of their own, under a name made of
  // their own id.
  lemma SameOrderIff(t: Trade, u: Trade)
    ensures OrderOf(t) == OrderOf(u)
       <==> if t.orderId != "" && u.orderId != "" then t.orderId == u.orderId
            else if t.orderId == "" && u.orderId == "" then t.tradeId == u.tradeId
            else if t.orderId == "" then u.orderId == "sim-" + t.tradeId
            else t.orderId == "sim-" + u.tradeId
  {
    var name := "sim-";
    assert |name| == 4;
    assert (name + t.tradeId)[4..] == t.tradeId && (name + u.tradeId)[4..] == u.tradeId;
  }

  // The verdict on a fill: the new total must be one not below any total known for the
  // order, the caller's own included, and not above the order's quantity.
  lemma VerdictIff(r: ReducerState, f: FillEvent, orderQuantity: int, prior: int)
    ensures
      var v, total := r.Validate(f, orderQuantity, prior), f.cumulativeQuantity;
      var known := f.orderId in r.cumulative;
      var falls := total < prior || (known && total < r.cumulative[f.orderId]) || (!known && total < 0);
      && (v == Duplicate <==> f.fillId in r.seen)
      && (v.Decreased? <==> f.fillId !in r.seen && falls)
      && (v == Overfill <==> f.fillId !in r.seen && !falls && total > orderQuantity)
      && (v == Accepted <==> f.fillId !in r.seen && !falls && total <= orderQuantity)
      && (v.Decreased? ==> v.baseline >= prior && (known ==> v.baseline >= r.cumulative[f.orderId]))
      && (v.Decreased? ==> v.baseline == prior || v.baseline == if known then r.cumulative[f.orderId] else 0)
  {
  }

  // Over every run from the start: the three outcomes, from the trade, the trades applied
  // so far and the order's quantity; without one the trade's own shares are the quantity.
  lemma {:induction false} AppliedIff(ds: seq<Delivery>, d: Delivery)
    ensures
      var applied, t, outcome := AppliedTrades(START, ds), d.trade, Run(START, ds).Decide(d);
      var named := (exists i :: 0 <= i < |t.tradeId| && !IsSpace(t.tradeId[i]))
                   && (t.orderId == "" || exists i :: 0 <= i < |t.orderId| && !IsSpace(t.orderId[i]));
      && (outcome == InvalidFill <==> t.quantity > 0.0 && !named)
      && (outcome == Applied <==>
            && t.quantity > 0.0 && named
            && (forall u :: u in applied ==> u.tradeId != t.tradeId)
            && SumOf(applied, SharesOf(OrderOf(t))) + Shares(t)
               <= if d.orderQuantity.Some? then d.orderQuantity.value else Shares(t))
  {
    var applied, t := AppliedTrades(START, ds), d.trade;
    EachFillAppliedOnce(ds);
    TotalsMatchAppliedTrades(ds, OrderOf(t));
    assert t.tradeId in IdsOf(applied) <==> exists u :: u in applied && u.tradeId == t.tradeId;
    if t.orderId == "" {
      assert OrderOf(t)[0] == 's';
      SpacesSpec('s');
      assert !Blank(OrderOf(t));
    }
  }
}
