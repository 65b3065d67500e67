// Fill reduction and portfolio projection (src/domain/fill_reducer.py and
// src/domain/simulation.py): duplicate fill ids, decreasing totals and overfills are
// rejected before a trade reaches the position book.
module Fills {
  import opened Common
  import opened Positions

  datatype Side = Buy | Sell

  // A trade's quantity may be fractional; the pipeline truncates it to whole shares.
  datatype Trade = Trade(
    tradeId: string,
    orderId: string,
    symbol: string,
    exchange: string,
    side: Side,
    quantity: real,
    price: real)

  datatype Delivery = Delivery(trade: Trade, orderQuantity: Option<int>)

  datatype FillEvent = FillEvent(
    fillId: string,
    orderId: string,
    quantity: int,
    cumulativeQuantity: int,
    price: real)

  datatype Verdict = Accepted | Duplicate | Decreased(baseline: int) | Overfill

  datatype Outcome = Applied | Rejected | InvalidFill

  // ---- Fields derived from a trade ---------------------------------------------

  function Truncate(x: real): int {
    if x >= 0.0 then x.Floor else -((-x).Floor)
  }

  predicate IsSpace(c: char) {
    var n := c as int;
    9 <= n <= 13 || 28 <= n <= 32 || n == 0x85 || n == 0xA0 || n == 0x1680 || 0x2000 <= n <= 0x200A
    || n == 0x2028 || n == 0x2029 || n == 0x202F || n == 0x205F || n == 0x3000
  }

  predicate Blank(s: string) {
    forall i :: 0 <= i < |s| ==> IsSpace(s[i])
  }

  function StripLeft(s: string): string {
    if s != [] && IsSpace(s[0]) then StripLeft(s[1..]) else s
  }

  function Strip(s: string): string {
    StripRight(StripLeft(s))
  }

  function StripRight(s: string): string {
    if s != [] && IsSpace(s[|s| - 1]) then StripRight(s[..|s| - 1]) else s
  }

  function Upper(s: string): string {
    seq(|s|, i requires 0 <= i < |s| => if 'a' <= s[i] <= 'z' then s[i] - 'a' + 'A' else s[i])
  }

  function PositionKey(symbol: string, exchange: string): string {
    Upper(Strip(symbol)) + ":" + Upper(Strip(exchange))
  }

  function Key(t: Trade): string {
    PositionKey(t.symbol, t.exchange)
  }

  function OrderOf(t: Trade): string {
    if t.orderId != "" then t.orderId else "sim-" + t.tradeId
  }

  function Shares(t: Trade): int {
    Truncate(t.quantity)
  }

  function SignedShares(t: Trade): int {
    if t.side == Buy then Shares(t) else -Shares(t)
  }

  function Allowed(d: Delivery): int {
    if d.orderQuantity.Some? then d.orderQuantity.value else Shares(d.trade)
  }

  // Building the fill event fails on a blank fill id or order id.
  predicate WellFormed(t: Trade) {
    !Blank(t.tradeId) && !Blank(OrderOf(t))
  }

  function Lookup(m: map<string, int>, k: string): int {
    if k in m then m[k] else 0
  }

  function FillFromTrade(tradeId: string, orderId: string, quantity: int, priorFilled: int, price: real): FillEvent {
    FillEvent(tradeId, orderId, quantity, priorFilled + quantity, price)
  }

  // ---- The reducer ---------------------------------------------------------------

  datatype ReducerState = ReducerState(seen: set<string>, cumulative: map<string, int>) {

    function Validate(fill: FillEvent, orderQuantity: int, prior: int): Verdict {
      var known := Lookup(cumulative, fill.orderId);
      var baseline := if prior < known then known else prior;
      if fill.fillId in seen then Duplicate
      else if fill.cumulativeQuantity < baseline then Decreased(baseline)
      else if fill.cumulativeQuantity > orderQuantity then Overfill
      else Accepted
    }

    function Commit(fill: FillEvent): ReducerState {
      ReducerState(seen + {fill.fillId}, cumulative[fill.orderId := fill.cumulativeQuantity])
    }
  }

  class FillReducer {
    var seenFillIds: set<string>
    var cumulativeByOrder: map<string, int>

    function State(): ReducerState
      reads this
    {
      ReducerState(seenFillIds, cumulativeByOrder)
    }

    constructor ()
      ensures State() == ReducerState({}, map[])
    {
      seenFillIds := {};
      cumulativeByOrder := map[];
    }

    method Validate(fill: FillEvent, orderQuantity: int, prior: int) returns (v: Verdict)
      ensures v == State().Validate(fill, orderQuantity, prior)
    {
      if fill.fillId in seenFillIds {
        return Duplicate;
      }
      var known := if fill.orderId in cumulativeByOrder then cumulativeByOrder[fill.orderId] else 0;
      var baseline := if prior < known then known else prior;
      if fill.cumulativeQuantity < baseline {
        return Decreased(baseline);
      }
      if fill.cumulativeQuantity > orderQuantity {
        return Overfill;
      }
      return Accepted;
    }

    method Commit(fill: FillEvent)
      modifies this
      ensures State() == old(State()).Commit(fill)
    {
      seenFillIds := seenFillIds + {fill.fillId};
      cumulativeByOrder := cumulativeByOrder[fill.orderId := fill.cumulativeQuantity];
    }

    method Apply(fill: FillEvent, orderQuantity: int, prior: int) returns (v: Verdict)
      modifies this
      ensures v == old(State()).Validate(fill, orderQuantity, prior)
      ensures State() == if v == Accepted then old(State()).Commit(fill) else old(State())
    {
      v := Validate(fill, orderQuantity, prior);
      if v == Accepted {
        Commit(fill);
      }
    }
  }

  // ---- The position book -----------------------------------------------------------

  type Book = map<string, Position>

  function ProjectTrade(current: Position, t: Trade): Position {
    current.WithFill(SignedShares(t), t.price)
  }

  function Held(book: Book, key: string): int {
    if key in book then book[key].quantity else 0
  }

  function Project(book: Book, t: Trade): Book {
    var current := if Key(t) in book then book[Key(t)] else Flat(t.symbol, t.exchange);
    book[Key(t) := ProjectTrade(current, t)]
  }

  class PortfolioProjector {
    var positions: Book

    constructor ()
      ensures positions == map[]
    {
      positions := map[];
    }

    method ApplyTrade(t: Trade) returns (updated: Position)
      modifies this
      ensures positions == Project(old(positions), t)
      ensures Key(t) in positions && updated == positions[Key(t)]
    {
      var key := PositionKey(t.symbol, t.exchange);
      var current := Flat(t.symbol, t.exchange);
      if key in positions {
        current := positions[key];
      }
      updated := ProjectTrade(current, t);
      positions := positions[key := updated];
    }
  }

  // ---- The pipeline ------------------------------------------------------------------

  datatype PipelineState = PipelineState(reducer: ReducerState, filled: map<string, int>, book: Book) {

    // The two running totals agree; every pipeline state reached from START has this.
    ghost predicate InStep() {
      filled == reducer.cumulative
    }

    function Filled(orderId: string): int {
      Lookup(filled, orderId)
    }

    function FillOf(d: Delivery): FillEvent {
      var orderId := OrderOf(d.trade);
      FillFromTrade(d.trade.tradeId, orderId, Shares(d.trade), Filled(orderId), d.trade.price)
    }

    function Decide(d: Delivery): Outcome {
      if d.trade.quantity <= 0.0 then Rejected
      else if !WellFormed(d.trade) then InvalidFill
      else if reducer.Validate(FillOf(d), Allowed(d), Filled(OrderOf(d.trade))) == Accepted then Applied
      else Rejected
    }

    // The state after an accepted fill.
    function Advance(d: Delivery): PipelineState {
      var orderId := OrderOf(d.trade);
      PipelineState(reducer.Commit(FillOf(d)),
                    filled[orderId := Filled(orderId) + Shares(d.trade)],
                    Project(book, d.trade))
    }

    function Next(d: Delivery): PipelineState {
      if Decide(d) == Applied then Advance(d) else this
    }
  }

  const START := PipelineState(ReducerState({}, map[]), map[], map[])

  class SimulationFillPipeline {
    const reducer: FillReducer
    const projector: PortfolioProjector
    var filledByOrder: map<string, int>

    function State(): PipelineState
      reads this, reducer, projector
    {
      PipelineState(reducer.State(), filledByOrder, projector.positions)
    }

    constructor ()
      ensures fresh(reducer) && fresh(projector)
      ensures State() == START
    {
      reducer := new FillReducer();
      projector := new PortfolioProjector();
      filledByOrder := map[];
    }

    method ApplyTrade(t: Trade, orderQuantity: Option<int>) returns (o: Outcome)
      modifies this, reducer, projector
      ensures o == old(State()).Decide(Delivery(t, orderQuantity))
      ensures State() == old(State()).Next(Delivery(t, orderQuantity))
    {
      if t.quantity <= 0.0 {
        return Rejected;
      }
      var orderId := if t.orderId != "" then t.orderId else "sim-" + t.tradeId;
      var quantity := Truncate(t.quantity);
      var allowed := if orderQuantity.Some? then orderQuantity.value else quantity;
      var prior := if orderId in filledByOrder then filledByOrder[orderId] else 0;
      if Blank(t.tradeId) || Blank(orderId) {
        return InvalidFill;
      }
      var fill := FillFromTrade(t.tradeId, orderId, quantity, prior, t.price);
      ghost var d, before := Delivery(t, orderQuantity), State();
      assert fill == before.FillOf(d) && allowed == Allowed(d) && prior == before.Filled(orderId);
      var verdict := reducer.Apply(fill, allowed, prior);
      if verdict != Accepted {
        return Rejected;
      }
      filledByOrder := filledByOrder[orderId := prior + quantity];
      assert filledByOrder == before.Advance(d).filled;
      var _ := projector.ApplyTrade(t);
      return Applied;
    }
  }

  // The state after delivering `ds` in order.
  function Run(s: PipelineState, ds: seq<Delivery>): PipelineState {
    if ds == [] then s else Run(s, ds[..|ds| - 1]).Next(ds[|ds| - 1])
  }

  // The trades that were applied, in order.
  function AppliedTrades(s: PipelineState, ds: seq<Delivery>): seq<Trade> {
    if ds == [] then []
    else
      var front, d := ds[..|ds| - 1], ds[|ds| - 1];
      AppliedTrades(s, front) + if Run(s, front).Decide(d) == Applied then [d.trade] else []
  }
}
